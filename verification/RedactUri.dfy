/** Redaction of the password in every URI authority of a text. */
module RedactUri {
  import opened Options

  const REDACTED := "[REDACTED]"

  predicate Letter(c: char) {
    'A' <= c <= 'Z' || 'a' <= c <= 'z'
  }

  predicate SchemeCharacter(c: char) {
    Letter(c) || '0' <= c <= '9' || c == '+' || c == '.' || c == '-'
  }

  predicate Whitespace(c: char) {
    '\t' <= c <= '\r' || c == ' ' || c == '\U{00A0}' || c == '\U{1680}' || '\U{2000}' <= c <= '\U{200A}' ||
    c == '\U{2028}' || c == '\U{2029}' || c == '\U{202F}' || c == '\U{205F}' || c == '\U{3000}' || c == '\U{FEFF}'
  }

  predicate AuthorityBoundary(c: char) {
    c == '/' || c == '?' || c == '#' || Whitespace(c)
  }

  // ---------------------------------------------------------------- the searches of the scanner

  predicate ProtocolAt(s: string, p: nat) {
    p + 3 <= |s| && s[p] == ':' && s[p + 1] == '/' && s[p + 2] == '/'
  }

  /** `s.indexOf('://', from)`. */
  function FindProtocol(s: string, from: nat): (p: Option<nat>)
    requires from <= |s|
    ensures p.Some? ==> from <= p.value && ProtocolAt(s, p.value)
    decreases |s| - from
  {
    if from == |s| then None else if ProtocolAt(s, from) then Some(from) else FindProtocol(s, from + 1)
  }

  lemma {:induction false} ProtocolFound(s: string, from: nat)
    requires from <= |s|
    ensures var p := FindProtocol(s, from);
            forall q: nat :: from <= q && (p.Some? ==> q < p.value) ==> !ProtocolAt(s, q)
    decreases |s| - from
  {
    if from < |s| && !ProtocolAt(s, from) {
      ProtocolFound(s, from + 1);
    }
  }

  /** Where the run of scheme characters that ends before `p` begins. */
  function SchemeStart(s: string, p: nat): (start: nat)
    requires p <= |s|
    ensures start <= p
  {
    if p == 0 || !SchemeCharacter(s[p - 1]) then p else SchemeStart(s, p - 1)
  }

  predicate HasScheme(s: string, p: nat)
    requires p <= |s|
  {
    SchemeStart(s, p) < p && Letter(s[SchemeStart(s, p)])
  }

  function FindBoundary(s: string, from: nat): (e: nat)
    requires from <= |s|
    ensures from <= e <= |s|
    decreases |s| - from
  {
    if from == |s| || AuthorityBoundary(s[from]) then from else FindBoundary(s, from + 1)
  }

  lemma {:induction false} BoundaryFound(s: string, from: nat)
    requires from <= |s|
    ensures var e := FindBoundary(s, from);
            (forall k :: from <= k < e ==> !AuthorityBoundary(s[k])) && (e < |s| ==> AuthorityBoundary(s[e]))
    decreases |s| - from
  {
    if from < |s| && !AuthorityBoundary(s[from]) {
      BoundaryFound(s, from + 1);
    }
  }

  /** `s.indexOf(c, from)`. */
  function IndexOf(s: string, c: char, from: nat): (i: Option<nat>)
    requires from <= |s|
    ensures i.Some? ==> from <= i.value < |s|
    decreases |s| - from
  {
    if from == |s| then None else if s[from] == c then Some(from) else IndexOf(s, c, from + 1)
  }

  lemma {:induction false} IndexFound(s: string, c: char, from: nat)
    requires from <= |s|
    ensures var i := IndexOf(s, c, from);
            && (i.Some? ==> s[i.value] == c)
            && forall k :: from <= k < (if i.Some? then i.value else |s|) ==> s[k] != c
    decreases |s| - from
  {
    if from < |s| && s[from] != c {
      IndexFound(s, c, from + 1);
    }
  }

  /** `s.lastIndexOf(c, end - 1)`. */
  function LastIndexOf(s: string, c: char, end: nat): (i: Option<nat>)
    requires end <= |s|
    ensures i.Some? ==> i.value < end
  {
    if end == 0 then None else if s[end - 1] == c then Some(end - 1) else LastIndexOf(s, c, end - 1)
  }

  lemma {:induction false} LastIndexFound(s: string, c: char, end: nat)
    requires end <= |s|
    ensures var i := LastIndexOf(s, c, end);
            && (i.Some? ==> s[i.value] == c)
            && forall k :: (if i.Some? then i.value + 1 else 0) <= k < end ==> s[k] != c
  {
    if end > 0 && s[end - 1] != c {
      LastIndexFound(s, c, end - 1);
    }
  }

  /** The characters, by their code points: ASCII letters, digits and `+.-` in schemes; `/?#` and white space end an authority. */
  lemma CharactersByCode(c: char)
    ensures Letter(c) <==> 65 <= c as int <= 90 || 97 <= c as int <= 122
    ensures SchemeCharacter(c) <==> Letter(c) || 48 <= c as int <= 57 || c as int in {43, 45, 46}
    ensures AuthorityBoundary(c) <==>
            c as int in {35, 47, 63} ||
            9 <= c as int <= 13 || c as int in {32, 160, 5760} || 8192 <= c as int <= 8202 ||
            c as int in {8232, 8233, 8239, 8287, 12288, 65279}
  {
  }

  /** A protocol is spelled out; it has a scheme iff the scheme characters before it, as many as there are, begin with a letter. */
  lemma ProtocolAndScheme(s: string, p: nat)
    requires p <= |s|
    ensures ProtocolAt(s, p) <==> p + 3 <= |s| && s[p..p + 3] == "://"
    ensures HasScheme(s, p) <==>
            exists k :: 0 <= k < p && Letter(s[k]) && (forall m :: k <= m < p ==> SchemeCharacter(s[m])) &&
                        (k > 0 ==> !SchemeCharacter(s[k - 1]))
  {
    SchemeIsRun(s, p);
    if p + 3 <= |s| {
      assert s[p..p + 3] == [s[p], s[p + 1], s[p + 2]];
    }
    if HasScheme(s, p) {
      assert Letter(s[SchemeStart(s, p)]);
    }
    if k :| 0 <= k < p && Letter(s[k]) && (forall m :: k <= m < p ==> SchemeCharacter(s[m])) && (k > 0 ==> !SchemeCharacter(s[k - 1])) {
      assert k == SchemeStart(s, p);
    }
  }

  lemma {:induction false} SchemeIsRun(s: string, p: nat)
    requires p <= |s|
    ensures var start := SchemeStart(s, p);
            (forall m :: start <= m < p ==> SchemeCharacter(s[m])) && (start > 0 ==> !SchemeCharacter(s[start - 1]))
  {
    if p > 0 && SchemeCharacter(s[p - 1]) {
      SchemeIsRun(s, p - 1);
    }
  }

  // ---------------------------------------------------------------- what the text consists of

  /** A stretch that stays, or one with the password of an authority in it. */
  datatype Segment = Plain(text: string) | Secret(head: string, password: string, tail: string)
  {
    function Text(): string {
      match this
      case Plain(text) => text
      case Secret(head, password, tail) => head + password + tail
    }

    function Masked(): Segment {
      match this
      case Plain(_) => this
      case Secret(head, _, tail) => Secret(head, REDACTED, tail)
    }
  }

  function Text(segments: seq<Segment>): string {
    if |segments| == 0 then "" else segments[0].Text() + Text(segments[1..])
  }

  function Masked(segments: seq<Segment>): seq<Segment> {
    if |segments| == 0 then [] else [segments[0].Masked()] + Masked(segments[1..])
  }

  /** The separator and the at-sign of the authority in `s[from..end]`, if it has a password. */
  predicate HasPassword(s: string, from: nat, end: nat)
    requires from <= end <= |s|
  {
    var at, separator := LastIndexOf(s, '@', end), IndexOf(s, ':', from);
    at.Some? && separator.Some? && from <= at.value && separator.value < at.value
  }

  /** What follows a protocol: where the search goes on, and between which colon and at-sign a password is. */
  datatype Authority = Bare(end: nat) | Password(separator: nat, at: nat, end: nat)
  {
    predicate Within(start: nat, length: nat) {
      match this
      case Bare(end) => start <= end <= length
      case Password(separator, at, end) => start <= separator < at < end <= length
    }

    function Behind(from: nat): Authority
      requires Within(from, end)
    {
      match this
      case Bare(end) => Bare(end - from)
      case Password(separator, at, end) => Password(separator - from, at - from, end - from)
    }
  }

  /** The authority between `start` and `end`, by where the last at-sign and the first colon were found. */
  function AuthorityFrom(scheme: bool, start: nat, end: nat, at: Option<nat>, separator: Option<nat>): Authority {
    if !scheme then Bare(start)
    else if at.Some? && separator.Some? && start <= at.value && separator.value < at.value
    then Password(separator.value, at.value, end)
    else Bare(end)
  }

  function AuthorityAt(s: string, p: nat): (a: Authority)
    requires ProtocolAt(s, p)
    ensures a.Within(p + 3, |s|)
  {
    var end := FindBoundary(s, p + 3);
    AuthorityFrom(HasScheme(s, p), p + 3, end, LastIndexOf(s, '@', end), IndexOf(s, ':', p + 3))
  }

  /** The first segment of a text whose first protocol has the authority `a`. */
  function FirstSegment(s: string, a: Authority): Segment
    requires a.Within(0, |s|)
  {
    match a
    case Bare(end) => Plain(s[..end])
    case Password(separator, at, end) => Secret(s[..separator + 1], s[separator + 1..at], s[at..end])
  }

  /** The first segment of a text that has a protocol at `p`, and how far it reaches. */
  function SegmentAt(s: string, p: nat): (r: (Segment, nat))
    requires ProtocolAt(s, p)
    ensures p + 3 <= r.1 <= |s|
  {
    var a := AuthorityAt(s, p);
    (FirstSegment(s, a), a.end)
  }

  lemma SegmentText(s: string, p: nat)
    requires ProtocolAt(s, p)
    ensures SegmentAt(s, p).0.Text() == s[..SegmentAt(s, p).1]
  {
    var (segment, end) := SegmentAt(s, p);
    if segment.Secret? {
      var at, separator := LastIndexOf(s, '@', end).value, IndexOf(s, ':', p + 3).value;
    }
  }

  /** The text cut into segments: authorities are taken from left to right, and none starts inside another. */
  function Segments(s: string): seq<Segment>
    decreases |s|
  {
    if |s| == 0 then []
    else
      var p := FindProtocol(s, 0);
      if p.None? then [Plain(s)]
      else
        var (segment, end) := SegmentAt(s, p.value);
        [segment] + Segments(s[end..])
  }

  /** The redacted text. */
  function Redacted(s: string): string {
    Text(Masked(Segments(s)))
  }

  // ---------------------------------------------------------------- what the segments are

  lemma TextCons(first: Segment, rest: seq<Segment>)
    ensures Text([first] + rest) == first.Text() + Text(rest)
  {
    assert ([first] + rest)[1..] == rest;
  }

  lemma Halves(s: string, end: nat, a: string, b: string)
    requires end <= |s| && a == s[..end] && b == s[end..]
    ensures a + b == s
  {
  }

  lemma TextOfFirst(s: string, p: nat, after: seq<Segment>)
    requires ProtocolAt(s, p) && Text(after) == s[SegmentAt(s, p).1..]
    ensures Text([SegmentAt(s, p).0] + after) == s
  {
    var first, end := SegmentAt(s, p).0, SegmentAt(s, p).1;
    SegmentText(s, p);
    TextCons(first, after);
    Halves(s, end, first.Text(), Text(after));
  }

  /** Nothing but the passwords is outside the plain text: the segments make up the whole text. */
  lemma {:induction false} SegmentsAreTheText(s: string)
    ensures Text(Segments(s)) == s
    decreases |s|
  {
    if |s| > 0 {
      var p := FindProtocol(s, 0);
      if p.Some? {
        var end := SegmentAt(s, p.value).1;
        SegmentsAreTheText(s[end..]);
        TextOfFirst(s, p.value, Segments(s[end..]));
      } else {
        TextCons(Plain(s), []);
      }
    }
  }

  ghost predicate NoBoundary(s: string) {
    forall k :: 0 <= k < |s| ==> !AuthorityBoundary(s[k])
  }

  /** `head` ends in a scheme, the protocol and a user without a colon; `tail` is the last at-sign and the host. */
  ghost predicate Credential(head: string, password: string, tail: string) {
    && NoBoundary(password) && |tail| > 0 && tail[0] == '@' && NoBoundary(tail) && '@' !in tail[1..]
    && exists p: nat :: HeadAt(head, p)
  }

  /** `head` is text up to the first protocol, at `p`, whose scheme starts with a letter, and then a user and the first colon. */
  ghost predicate HeadAt(head: string, p: nat) {
    && ProtocolAt(head, p) && HasScheme(head, p) && (forall q: nat :: q < p ==> !ProtocolAt(head, q))
    && p + 3 < |head| && head[|head| - 1] == ':' && ':' !in head[p + 3..|head| - 1] && NoBoundary(head[p + 3..])
  }

  ghost predicate ColonBeforeAt(s: string, from: nat) {
    exists i, j :: from <= i < j < |s| && s[i] == ':' && s[j] == '@'
  }

  /** The text's first protocol is at `p`, and has no scheme, or an authority to the end of the text without a password. */
  ghost predicate OrdinaryAt(text: string, p: nat) {
    && ProtocolAt(text, p) && (forall q: nat :: q < p ==> !ProtocolAt(text, q))
    && if HasScheme(text, p) then NoBoundary(text[p + 3..]) && !ColonBeforeAt(text, p + 3) else p + 3 == |text|
  }

  ghost predicate Ordinary(text: string) {
    (forall q: nat :: !ProtocolAt(text, q)) || exists p: nat :: OrdinaryAt(text, p)
  }

  lemma {:induction false} SchemeInPrefix(s: string, n: nat, p: nat)
    requires p <= n <= |s|
    ensures SchemeStart(s[..n], p) == SchemeStart(s, p) && HasScheme(s[..n], p) == HasScheme(s, p)
  {
    if p > 0 && SchemeCharacter(s[p - 1]) {
      SchemeInPrefix(s, n, p - 1);
    }
  }

  lemma ProtocolInPrefix(s: string, n: nat, p: nat)
    requires p + 3 <= n <= |s| && ProtocolAt(s, p) && forall q: nat :: q < p ==> !ProtocolAt(s, q)
    ensures ProtocolAt(s[..n], p) && forall q: nat :: q < p ==> !ProtocolAt(s[..n], q)
  {
    assert forall q: nat :: q < p ==> (ProtocolAt(s[..n], q) ==> ProtocolAt(s, q));
  }

  lemma Slice(s: string, from: nat, to: nat, end: nat)
    requires from <= to <= end <= |s|
    requires forall k :: from <= k < end ==> !AuthorityBoundary(s[k])
    ensures NoBoundary(s[from..to]) && NoBoundary(s[to..end])
  {
  }

  lemma HeadIsExact(s: string, p: nat, separator: nat, end: nat)
    requires ProtocolAt(s, p) && (forall q: nat :: q < p ==> !ProtocolAt(s, q)) && HasScheme(s, p)
    requires p + 3 <= separator < end <= |s| && s[separator] == ':' && forall k :: p + 3 <= k < separator ==> s[k] != ':'
    requires forall k :: p + 3 <= k < end ==> !AuthorityBoundary(s[k])
    ensures HeadAt(s[..separator + 1], p)
  {
    var head := s[..separator + 1];
    SchemeInPrefix(s, separator + 1, p);
    ProtocolInPrefix(s, separator + 1, p);
    Slice(s, p + 3, separator + 1, end);
    assert head[p + 3..] == s[p + 3..separator + 1];
    assert head[p + 3..separator] == s[p + 3..separator];
  }

  lemma TailIsExact(s: string, at: nat, end: nat)
    requires at < end <= |s| && s[at] == '@' && forall k :: at < k < end ==> s[k] != '@'
    ensures s[at..end][0] == '@' && '@' !in s[at..end][1..]
  {
    assert s[at..end][1..] == s[at + 1..end];
  }

  lemma SecretOf(s: string, p: nat, separator: nat, at: nat, end: nat)
    requires ProtocolAt(s, p) && (forall q: nat :: q < p ==> !ProtocolAt(s, q)) && HasScheme(s, p)
    requires p + 3 <= separator < at < end <= |s| && s[separator] == ':' && s[at] == '@'
    requires (forall k :: p + 3 <= k < separator ==> s[k] != ':') && (forall k :: at < k < end ==> s[k] != '@')
    requires forall k :: p + 3 <= k < end ==> !AuthorityBoundary(s[k])
    ensures HeadAt(s[..separator + 1], p)
    ensures NoBoundary(s[separator + 1..at]) && NoBoundary(s[at..end]) && s[at..end][0] == '@' && '@' !in s[at..end][1..]
  {
    HeadIsExact(s, p, separator, end);
    Slice(s, separator + 1, at, end);
    TailIsExact(s, at, end);
  }

  /** What the searches say about an authority with a password. */
  lemma PasswordFound(s: string, p: nat, a: Authority)
    requires ProtocolAt(s, p) && a == AuthorityAt(s, p) && a.Password?
    ensures HasScheme(s, p) && s[a.separator] == ':' && s[a.at] == '@'
    ensures (forall k :: p + 3 <= k < a.separator ==> s[k] != ':') && (forall k :: a.at < k < a.end ==> s[k] != '@')
    ensures forall k :: p + 3 <= k < a.end ==> !AuthorityBoundary(s[k])
  {
    BoundaryFound(s, p + 3);
    IndexFound(s, ':', p + 3);
    LastIndexFound(s, '@', a.end);
  }

  lemma SecretIsExact(s: string, p: nat)
    requires ProtocolAt(s, p) && (forall q: nat :: q < p ==> !ProtocolAt(s, q)) && AuthorityAt(s, p).Password?
    ensures var segment := SegmentAt(s, p).0;
            HeadAt(segment.head, p) && Credential(segment.head, segment.password, segment.tail)
  {
    var a := AuthorityAt(s, p);
    PasswordFound(s, p, a);
    SecretOf(s, p, a.separator, a.at, a.end);
  }

  lemma PlainIsExact(s: string, p: nat)
    requires ProtocolAt(s, p) && (forall q: nat :: q < p ==> !ProtocolAt(s, q)) && SegmentAt(s, p).0.Plain?
    ensures OrdinaryAt(SegmentAt(s, p).0.text, p)
  {
    var end := SegmentAt(s, p).1;
    SchemeInPrefix(s, end, p);
    ProtocolInPrefix(s, end, p);
    if HasScheme(s, p) {
      BoundaryFound(s, p + 3);
      Slice(s, p + 3, end, end);
      assert s[..end][p + 3..] == s[p + 3..end];
      NoPassword(s, p + 3, end);
    }
  }

  lemma NoPassword(s: string, from: nat, end: nat)
    requires from <= end <= |s|
    ensures ColonBeforeAt(s[..end], from) <==> HasPassword(s, from, end)
  {
    var text := s[..end];
    IndexFound(s, ':', from);
    LastIndexFound(s, '@', end);
    if i, j :| from <= i < j < |text| && text[i] == ':' && text[j] == '@' {
      assert s[i] == ':' && s[j] == '@';
    }
    if HasPassword(s, from, end) {
      var at, separator := LastIndexOf(s, '@', end).value, IndexOf(s, ':', from).value;
      assert text[separator] == ':' && text[at] == '@';
    }
  }

  /** A secret is exactly the stretch from the first colon to the last at-sign of a well-formed authority. */
  ghost predicate Exact(segment: Segment) {
    match segment
    case Secret(head, password, tail) => Credential(head, password, tail)
    case Plain(text) => Ordinary(text)
  }

  lemma SegmentIsExact(s: string, p: nat)
    requires ProtocolAt(s, p) && forall q: nat :: q < p ==> !ProtocolAt(s, q)
    ensures Exact(SegmentAt(s, p).0)
  {
    if SegmentAt(s, p).0.Secret? {
      SecretIsExact(s, p);
    } else {
      PlainIsExact(s, p);
    }
  }

  /** No password of a well-formed authority is left in plain text, and nothing else is taken for one. */
  lemma {:induction false} EverySegmentIsExact(s: string)
    ensures forall i :: 0 <= i < |Segments(s)| ==> Exact(Segments(s)[i])
    decreases |s|
  {
    if |s| > 0 {
      var p := FindProtocol(s, 0);
      ProtocolFound(s, 0);
      if p.Some? {
        SegmentIsExact(s, p.value);
        EverySegmentIsExact(s[SegmentAt(s, p.value).1..]);
      }
    }
  }

  // ---------------------------------------------------------------- redacting twice

  /** Nothing follows, or a boundary does. */
  ghost predicate Delimited(rest: string) {
    |rest| > 0 ==> AuthorityBoundary(rest[0])
  }

  lemma FirstProtocol(s: string, p: nat)
    requires ProtocolAt(s, p) && forall q: nat :: q < p ==> !ProtocolAt(s, q)
    ensures FindProtocol(s, 0) == Some(p)
  {
    ProtocolFound(s, 0);
  }

  lemma FirstProtocolStays(x: string, rest: string, p: nat)
    requires ProtocolAt(x, p) && forall q: nat :: q < p ==> !ProtocolAt(x, q)
    ensures ProtocolAt(x + rest, p) && (forall q: nat :: q < p ==> !ProtocolAt(x + rest, q))
    ensures FindProtocol(x + rest, 0) == Some(p) && HasScheme(x + rest, p) == HasScheme(x, p)
  {
    var all := x + rest;
    assert all[..|x|] == x;
    assert forall k :: 0 <= k < |x| ==> all[k] == x[k];
    assert forall q: nat :: q < p ==> (ProtocolAt(all, q) ==> ProtocolAt(x, q));
    FirstProtocol(all, p);
    SchemeInPrefix(all, |x|, p);
  }

  lemma AuthorityStays(x: string, rest: string, from: nat)
    requires from <= |x| && NoBoundary(x[from..]) && Delimited(rest)
    ensures FindBoundary(x + rest, from) == |x|
  {
    var all := x + rest;
    BoundaryFound(all, from);
    assert forall k :: from <= k < |x| ==> all[k] == x[from..][k - from];
    assert |rest| > 0 ==> all[|x|] == rest[0];
  }

  lemma ReparsePlain(text: string, rest: string, p: nat)
    requires OrdinaryAt(text, p) && (HasScheme(text, p) ==> Delimited(rest))
    ensures FindProtocol(text + rest, 0) == Some(p)
    ensures ProtocolAt(text + rest, p) && SegmentAt(text + rest, p) == (Plain(text), |text|)
  {
    FirstProtocolStays(text, rest, p);
    assert (text + rest)[..|text|] == text;
    if HasScheme(text, p) {
      AuthorityStays(text, rest, p + 3);
      NoPassword(text + rest, p + 3, |text|);
    }
  }

  lemma AuthorityOfSecret(head: string, password: string, tail: string, all: string, p: nat)
    requires HeadAt(head, p) && ProtocolAt(all, p) && HasScheme(all, p)
    requires |tail| > 0 && tail[0] == '@' && '@' !in tail[1..]
    requires head <= all && head + password + tail <= all && FindBoundary(all, p + 3) == |head + password + tail|
    ensures AuthorityAt(all, p) == Password(|head| - 1, |head| + |password|, |head + password + tail|)
  {
    FindsSeparator(head, all, p + 3);
    FindsAt(head + password, tail, all);
  }

  lemma ReparseSecret(head: string, password: string, tail: string, rest: string, p: nat)
    requires HeadAt(head, p) && NoBoundary(password) && Delimited(rest)
    requires |tail| > 0 && tail[0] == '@' && NoBoundary(tail) && '@' !in tail[1..]
    ensures var all := head + password + tail + rest;
            && FindProtocol(all, 0) == Some(p) && ProtocolAt(all, p)
            && AuthorityAt(all, p) == Password(|head| - 1, |head| + |password|, |head + password + tail|)
  {
    var x := head + password + tail;
    FirstProtocolStays(head, password + tail + rest, p);
    assert head + (password + tail + rest) == x + rest;
    Joined(head, password, tail, p + 3);
    AuthorityStays(x, rest, p + 3);
    AuthorityOfSecret(head, password, tail, x + rest, p);
  }

  lemma Cut(head: string, password: string, tail: string, rest: string)
    ensures var all, at := head + password + tail + rest, |head| + |password|;
            all[..|head|] == head && all[|head|..at] == password && all[at..at + |tail|] == tail
  {
  }

  lemma Joined(head: string, password: string, tail: string, from: nat)
    requires from <= |head| && NoBoundary(head[from..]) && NoBoundary(password) && NoBoundary(tail)
    ensures NoBoundary((head + password + tail)[from..])
  {
    assert (head + password + tail)[from..] == head[from..] + password + tail;
  }

  lemma FindsSeparator(head: string, all: string, from: nat)
    requires head <= all && from < |head| && head[|head| - 1] == ':' && ':' !in head[from..|head| - 1]
    ensures IndexOf(all, ':', from) == Some(|head| - 1)
  {
    IndexFound(all, ':', from);
    assert forall k :: from <= k < |head| - 1 ==> all[k] == head[from..|head| - 1][k - from];
    assert all[|head| - 1] == ':';
  }

  lemma FindsAt(before: string, tail: string, all: string)
    requires before + tail <= all && |tail| > 0 && tail[0] == '@' && '@' !in tail[1..]
    ensures LastIndexOf(all, '@', |before| + |tail|) == Some(|before|)
  {
    LastIndexFound(all, '@', |before| + |tail|);
    assert all[|before|] == (before + tail)[|before|] == '@';
    assert forall k :: |before| < k < |before| + |tail| ==> all[k] == (before + tail)[k] == tail[1..][k - |before| - 1];
  }

  lemma FirstCharacterStays(s: string)
    requires |s| > 0
    ensures |Redacted(s)| > 0 && Redacted(s)[0] == s[0]
  {
    var segments := Segments(s);
    var p := FindProtocol(s, 0);
    assert Masked(segments)[0] == segments[0].Masked();
    if p.Some? {
      var (segment, end) := SegmentAt(s, p.value);
      assert segments[0] == segment;
    }
  }

  lemma RestIsDelimited(s: string, end: nat)
    requires end <= |s| && (end < |s| ==> AuthorityBoundary(s[end]))
    ensures Delimited(Redacted(s[end..]))
  {
    if end < |s| {
      FirstCharacterStays(s[end..]);
    }
  }

  lemma RedactedCons(s: string, p: nat)
    requires |s| > 0 && FindProtocol(s, 0) == Some(p)
    ensures var (segment, end) := SegmentAt(s, p);
            && Redacted(s) == segment.Masked().Text() + Redacted(s[end..])
            && Masked(Segments(s)) == [segment.Masked()] + Masked(Segments(s[end..]))
  {
    var (segment, end) := SegmentAt(s, p);
    assert Segments(s)[1..] == Segments(s[end..]);
    assert Masked(Segments(s))[1..] == Masked(Segments(s[end..]));
  }

  lemma SecretIsFirst(head: string, password: string, tail: string, rest: string, p: nat)
    requires HeadAt(head, p) && NoBoundary(password) && Delimited(rest)
    requires |tail| > 0 && tail[0] == '@' && NoBoundary(tail) && '@' !in tail[1..]
    ensures Stays(Secret(head, password, tail), rest, p)
  {
    ReparseSecret(head, password, tail, rest, p);
    CutAsSecret(head, password, tail, rest);
  }

  lemma CutAsSecret(head: string, password: string, tail: string, rest: string)
    requires |head| > 0 && |tail| > 0
    ensures FirstSegment(head + password + tail + rest, Password(|head| - 1, |head| + |password|, |head + password + tail|)) ==
            Secret(head, password, tail)
  {
    Cut(head, password, tail, rest);
  }

  lemma SecretStays(s: string, p: nat, rest: string)
    requires ProtocolAt(s, p) && (forall q: nat :: q < p ==> !ProtocolAt(s, q)) && SegmentAt(s, p).0.Secret?
    requires Delimited(rest)
    ensures Stays(SegmentAt(s, p).0.Masked(), rest, p)
  {
    SecretIsExact(s, p);
    var segment := SegmentAt(s, p).0;
    NoBoundaryInMask();
    SecretIsFirst(segment.head, REDACTED, segment.tail, rest, p);
  }

  lemma NoBoundaryInMask()
    ensures NoBoundary(REDACTED)
  {
  }

  lemma PlainStays(s: string, p: nat, rest: string)
    requires ProtocolAt(s, p) && (forall q: nat :: q < p ==> !ProtocolAt(s, q)) && SegmentAt(s, p).0.Plain?
    requires HasScheme(s, p) ==> Delimited(rest)
    ensures Stays(SegmentAt(s, p).0, rest, p)
  {
    PlainIsExact(s, p);
    SchemeInPrefix(s, SegmentAt(s, p).1, p);
    ReparsePlain(SegmentAt(s, p).0.text, rest, p);
  }

  /** The segment is the first one of its own text with `rest` behind it. */
  ghost predicate Stays(first: Segment, rest: string, p: nat) {
    var all := first.Text() + rest;
    && FindProtocol(all, 0) == Some(p)
    && ProtocolAt(all, p) && SegmentAt(all, p) == (first, |first.Text()|)
  }

  lemma NothingToRedact(s: string)
    requires |s| > 0 && FindProtocol(s, 0).None?
    ensures Segments(s) == [Plain(s)] && Masked(Segments(s)) == [Plain(s)] && Redacted(s) == s
  {
    assert [Plain(s)][1..] == [];
    assert Masked([Plain(s)]) == [Plain(s)];
    assert Text([Plain(s)]) == Plain(s).Text() + Text([]);
  }

  /** The redacted text is cut at the same places, with every password replaced. */
  lemma {:induction false} RedactedSegments(s: string)
    ensures Segments(Redacted(s)) == Masked(Segments(s))
    decreases |s|
  {
    var p := FindProtocol(s, 0);
    if |s| > 0 && p.Some? {
      var end := SegmentAt(s, p.value).1;
      ProtocolFound(s, 0);
      RedactedSegments(s[end..]);
      if HasScheme(s, p.value) {
        BoundaryFound(s, p.value + 3);
        RestIsDelimited(s, end);
      }
      if SegmentAt(s, p.value).0.Secret? {
        SecretStays(s, p.value, Redacted(s[end..]));
      } else {
        PlainStays(s, p.value, Redacted(s[end..]));
      }
      RedactedCons(s, p.value);
      SegmentsCons(SegmentAt(s, p.value).0.Masked(), Redacted(s[end..]), p.value);
    } else if |s| > 0 {
      NothingToRedact(s);
    }
  }

  lemma SegmentsCons(first: Segment, rest: string, p: nat)
    requires Stays(first, rest, p)
    ensures Segments(first.Text() + rest) == [first] + Segments(rest)
  {
    var x := first.Text();
    assert (x + rest)[|x|..] == rest;
  }

  lemma {:induction false} MaskedTwice(segments: seq<Segment>)
    ensures Masked(Masked(segments)) == Masked(segments)
  {
    if |segments| > 0 {
      MaskedTwice(segments[1..]);
      assert Masked(segments)[1..] == Masked(segments[1..]);
    }
  }

  /** Redaction is idempotent. */
  lemma RedactedTwice(s: string)
    ensures Redacted(Redacted(s)) == Redacted(s)
  {
    RedactedSegments(s);
    MaskedTwice(Segments(s));
  }

  // ---------------------------------------------------------------- the scanner

  /** Whether the run of scheme characters before the next protocol cannot reach back before `from`. */
  ghost predicate FreshStart(s: string, from: nat) {
    from <= |s| && (from == 0 || !SchemeCharacter(s[from - 1]) || (from < |s| && AuthorityBoundary(s[from])) || from == |s|)
  }

  /** From a fresh start the scanner sees what it would see in the rest of the text alone. */
  lemma ProtocolOfRest(s: string, from: nat)
    requires from <= |s|
    ensures var p, q := FindProtocol(s, from), FindProtocol(s[from..], 0);
            if p.None? then q.None? else q == Some(p.value - from)
  {
    ProtocolFound(s, from);
    ProtocolFound(s[from..], 0);
    assert forall k: nat :: from <= k ==> (ProtocolAt(s, k) <==> ProtocolAt(s[from..], k - from));
    var p, q := FindProtocol(s, from), FindProtocol(s[from..], 0);
    if q.Some? {
      assert ProtocolAt(s, q.value + from);
    }
  }

  lemma {:induction false} SchemeOfRest(s: string, from: nat, p: nat)
    requires from <= p <= |s| && (from == 0 || !SchemeCharacter(s[from - 1]) || (from < p && !SchemeCharacter(s[from])))
    ensures SchemeStart(s, p) == from + SchemeStart(s[from..], p - from)
    ensures HasScheme(s, p) == HasScheme(s[from..], p - from)
  {
    if from < p && SchemeCharacter(s[p - 1]) {
      if from + 1 == p {
        assert SchemeStart(s[from..], 0) == 0;
      } else {
        SchemeOfRest(s, from, p - 1);
      }
    }
  }

  lemma {:induction false} BoundaryOfRest(s: string, base: nat, from: nat)
    requires base <= from <= |s|
    ensures FindBoundary(s[base..], from - base) == FindBoundary(s, from) - base
    decreases |s| - from
  {
    if from < |s| {
      BoundaryOfRest(s, base, from + 1);
    }
  }

  lemma {:induction false} IndexOfRest(s: string, c: char, base: nat, from: nat)
    requires base <= from <= |s|
    ensures var i, j := IndexOf(s, c, from), IndexOf(s[base..], c, from - base);
            if i.None? then j.None? else j == Some(i.value - base)
    decreases |s| - from
  {
    if from < |s| {
      IndexOfRest(s, c, base, from + 1);
    }
  }

  lemma {:induction false} LastIndexOfRest(s: string, c: char, base: nat, end: nat)
    requires base <= end <= |s|
    ensures var i, j := LastIndexOf(s, c, end), LastIndexOf(s[base..], c, end - base);
            if i.None? || i.value < base then j.None? else j == Some(i.value - base)
  {
    if base < end {
      LastIndexOfRest(s, c, base, end - 1);
    }
  }

  /** The stretch of `s` from `from` to where the scanner goes on, redacted. */
  function Round(s: string, from: nat, a: Authority): string
    requires a.Within(from, |s|)
  {
    match a
    case Bare(end) => s[from..end]
    case Password(separator, at, end) => s[from..separator + 1] + REDACTED + s[at..end]
  }

  lemma AuthorityOfRest(s: string, rest: string, from: nat, p: nat, scheme: bool, end: nat, at: Option<nat>, separator: Option<nat>,
                        at': Option<nat>, separator': Option<nat>)
    requires from <= p && ProtocolAt(s, p) && ProtocolAt(rest, p - from)
    requires scheme == HasScheme(s, p) == HasScheme(rest, p - from)
    requires end == FindBoundary(s, p + 3) && from <= end && FindBoundary(rest, p + 3 - from) == end - from
    requires at == LastIndexOf(s, '@', end) && at' == LastIndexOf(rest, '@', end - from)
    requires separator == IndexOf(s, ':', p + 3) && separator' == IndexOf(rest, ':', p + 3 - from)
    requires if at.None? || at.value < from then at'.None? else at' == Some(at.value - from)
    requires if separator.None? then separator'.None? else from <= separator.value && separator' == Some(separator.value - from)
    ensures AuthorityAt(rest, p - from) == AuthorityAt(s, p).Behind(from)
  {
  }

  lemma PrefixOfRest(s: string, from: nat, end: nat)
    requires from <= end <= |s|
    ensures s[from..][..end - from] == s[from..end]
  {
  }

  lemma SubOfRest(s: string, from: nat, i: nat, j: nat)
    requires from <= i <= j <= |s|
    ensures s[from..][i - from..j - from] == s[i..j]
  {
  }

  /** The first segment of the rest, redacted, is what a round appends. */
  lemma RoundOfSegment(s: string, rest: string, from: nat, a: Authority)
    requires a.Within(from, |s|) && rest == s[from..]
    ensures FirstSegment(rest, a.Behind(from)).Masked().Text() == Round(s, from, a)
  {
    match a
    case Bare(end) =>
      PrefixOfRest(s, from, end);
    case Password(separator, at, end) =>
      PrefixOfRest(s, from, separator + 1);
      SubOfRest(s, from, at, end);
      MaskedPieces(rest, a.Behind(from), s, from, a, s[from..separator + 1], s[at..end]);
  }

  lemma MaskedPieces(rest: string, r: Authority, s: string, from: nat, a: Authority, head: string, tail: string)
    requires r.Password? && r.Within(0, |rest|) && a.Password? && a.Within(from, |s|)
    requires head == rest[..r.separator + 1] && tail == rest[r.at..r.end]
    requires head == s[from..a.separator + 1] && tail == s[a.at..a.end]
    ensures FirstSegment(rest, r).Masked().Text() == Round(s, from, a)
  {
  }

  lemma RedactedFirst(s: string, p: nat, a: Authority, first: string, after: string)
    requires FindProtocol(s, 0) == Some(p) && a == AuthorityAt(s, p)
    requires first == FirstSegment(s, a).Masked().Text() && after == s[a.end..]
    ensures Redacted(s) == first + Redacted(after)
  {
    RedactedCons(s, p);
  }

  lemma DropTwice(s: string, from: nat, end: nat)
    requires from <= end <= |s|
    ensures s[from..][end - from..] == s[end..]
  {
  }

  lemma FreshScheme(s: string, from: nat, p: nat)
    requires FreshStart(s, from) && from <= p && ProtocolAt(s, p)
    ensures HasScheme(s, p) == HasScheme(s[from..], p - from)
  {
    assert from < |s| && AuthorityBoundary(s[from]) ==> from < p && !SchemeCharacter(s[from]);
    SchemeOfRest(s, from, p);
  }

  /** From a fresh start the rest of the text alone has the same first authority. */
  lemma FirstAuthorityOfRest(s: string, from: nat, p: nat)
    requires FreshStart(s, from) && from < |s| && FindProtocol(s, from) == Some(p)
    ensures FindProtocol(s[from..], 0) == Some(p - from)
    ensures AuthorityAt(s[from..], p - from) == AuthorityAt(s, p).Behind(from)
  {
    ProtocolOfRest(s, from);
    FreshScheme(s, from, p);
    AuthorityFromSearches(s, s[from..], from, p);
  }

  lemma AuthorityFromSearches(s: string, rest: string, from: nat, p: nat)
    requires from <= p && ProtocolAt(s, p) && rest == s[from..] && ProtocolAt(rest, p - from)
    requires HasScheme(s, p) == HasScheme(rest, p - from)
    ensures AuthorityAt(rest, p - from) == AuthorityAt(s, p).Behind(from)
  {
    var start, end := p + 3, FindBoundary(s, p + 3);
    BoundaryOfRest(s, from, start);
    IndexOfRest(s, ':', from, start);
    LastIndexOfRest(s, '@', from, end);
    AuthorityOfRest(s, rest, from, p, HasScheme(s, p), end, LastIndexOf(s, '@', end), IndexOf(s, ':', start),
                    LastIndexOf(rest, '@', end - from), IndexOf(rest, ':', start - from));
  }

  lemma RedactedRound(s: string, rest: string, from: nat, p: nat, a: Authority)
    requires from <= |s| && rest == s[from..] && a.Within(from, |s|)
    requires FindProtocol(rest, 0) == Some(p) && AuthorityAt(rest, p) == a.Behind(from)
    ensures Redacted(rest) == Round(s, from, a) + Redacted(s[a.end..])
  {
    RoundOfSegment(s, rest, from, a);
    DropTwice(s, from, a.end);
    RedactedFirst(rest, p, a.Behind(from), Round(s, from, a), s[a.end..]);
  }

  /** One round of the scanner from a fresh start redacts the first segment of the rest. */
  lemma RoundOfRest(s: string, from: nat, p: nat, a: Authority)
    requires FreshStart(s, from) && from < |s| && FindProtocol(s, from) == Some(p) && a == AuthorityAt(s, p)
    ensures Redacted(s[from..]) == Round(s, from, a) + Redacted(s[a.end..])
  {
    FirstAuthorityOfRest(s, from, p);
    RedactedRound(s, s[from..], from, p - from, a);
  }

  lemma FreshAgain(s: string, p: nat)
    requires ProtocolAt(s, p)
    ensures FreshStart(s, AuthorityAt(s, p).end)
  {
    BoundaryFound(s, p + 3);
  }

  /** The scanner's state: what is redacted, then the text from `cursor`, whose part from `searchFrom` is still to be searched. */
  ghost predicate Scanned(s: string, redacted: string, cursor: nat, searchFrom: nat) {
    && cursor <= searchFrom && FreshStart(s, searchFrom)
    && Redacted(s) == redacted + s[cursor..searchFrom] + Redacted(s[searchFrom..])
  }

  lemma Unredacted(s: string)
    requires |s| == 0 || FindProtocol(s, 0).None?
    ensures Redacted(s) == s
  {
    if |s| > 0 {
      NothingToRedact(s);
    }
  }

  lemma NothingLeft(s: string, redacted: string, cursor: nat, searchFrom: nat)
    requires Scanned(s, redacted, cursor, searchFrom)
    requires searchFrom == |s| || FindProtocol(s, searchFrom).None?
    ensures Redacted(s) == redacted + s[cursor..]
  {
    ProtocolOfRest(s, searchFrom);
    Unredacted(s[searchFrom..]);
    LastGlue(redacted, s, cursor, searchFrom);
  }

  lemma LastGlue(redacted: string, s: string, i: nat, j: nat)
    requires i <= j <= |s|
    ensures redacted + s[i..j] + s[j..] == redacted + s[i..]
  {
  }

  lemma RoundAppends(s: string, redacted: string, cursor: nat, from: nat, a: Authority, rest: string)
    requires cursor <= from && a.Within(from, |s|)
    ensures redacted + s[cursor..from] + (Round(s, from, a) + rest) ==
            match a
            case Bare(end) => redacted + s[cursor..end] + rest
            case Password(separator, at, end) => redacted + s[cursor..separator + 1] + REDACTED + s[at..end] + rest
  {
    match a
    case Bare(end) =>
      Glue(s, cursor, from, end);
      assert redacted + s[cursor..from] + (s[from..end] + rest) == redacted + (s[cursor..from] + s[from..end]) + rest;
    case Password(separator, at, end) =>
      Glue(s, cursor, from, separator + 1);
      Associate(redacted, s[cursor..from], s[from..separator + 1], REDACTED, s[at..end], rest);
  }

  lemma SkipsAuthority(s: string, redacted: string, cursor: nat, searchFrom: nat, p: nat, end: nat)
    requires Scanned(s, redacted, cursor, searchFrom) && searchFrom < |s| && FindProtocol(s, searchFrom) == Some(p)
    requires AuthorityAt(s, p) == Bare(end)
    ensures Scanned(s, redacted, cursor, end)
  {
    RoundOfRest(s, searchFrom, p, Bare(end));
    FreshAgain(s, p);
    RoundAppends(s, redacted, cursor, searchFrom, Bare(end), Redacted(s[end..]));
  }

  lemma ReplacesPassword(s: string, redacted: string, cursor: nat, searchFrom: nat, p: nat, a: Authority)
    requires Scanned(s, redacted, cursor, searchFrom) && searchFrom < |s| && FindProtocol(s, searchFrom) == Some(p)
    requires AuthorityAt(s, p) == a && a.Password?
    ensures Scanned(s, redacted + s[cursor..a.separator + 1] + REDACTED, a.at, a.end)
  {
    RoundOfRest(s, searchFrom, p, a);
    FreshAgain(s, p);
    RoundAppends(s, redacted, cursor, searchFrom, a, Redacted(s[a.end..]));
  }

  lemma Glue(s: string, i: nat, j: nat, k: nat)
    requires i <= j <= k <= |s|
    ensures s[i..j] + s[j..k] == s[i..k]
  {
  }

  lemma Associate(a: string, b: string, c: string, d: string, e: string, f: string)
    ensures a + b + (c + d + e + f) == a + (b + c) + d + e + f
  {
  }

  /** The index-based scanner: it stops on every text, and its result is the redacted text. */
  method RedactUriCredentials(value: string) returns (result: string)
    ensures result == Redacted(value)
  {
    var cursor: nat, searchFrom: nat, redacted := 0, 0, "";
    assert value[0..] == value;
    while searchFrom < |value|
      invariant Scanned(value, redacted, cursor, searchFrom)
      decreases |value| - searchFrom
    {
      var protocol := FindProtocol(value, searchFrom);
      if protocol.None? {
        break;
      }
      var authority := ReadAuthority(value, protocol.value);
      if authority.Bare? {
        SkipsAuthority(value, redacted, cursor, searchFrom, protocol.value, authority.end);
        searchFrom := authority.end;
      } else {
        ReplacesPassword(value, redacted, cursor, searchFrom, protocol.value, authority);
        redacted := redacted + value[cursor..authority.separator + 1] + REDACTED;
        cursor := authority.at;
        searchFrom := authority.end;
      }
    }
    NothingLeft(value, redacted, cursor, searchFrom);
    return redacted + value[cursor..];
  }

  method ReadAuthority(value: string, protocol: nat) returns (authority: Authority)
    requires ProtocolAt(value, protocol)
    ensures authority == AuthorityAt(value, protocol)
  {
    var schemeStart := FindSchemeStart(value, protocol);
    var authorityStart := protocol + 3;
    if schemeStart == protocol || !Letter(value[schemeStart]) {
      return Bare(authorityStart);
    }
    var authorityEnd := FindAuthorityEnd(value, authorityStart);
    var at, separator := LastIndexOf(value, '@', authorityEnd), IndexOf(value, ':', authorityStart);
    if at.None? || at.value < authorityStart || separator.None? || separator.value >= at.value {
      return Bare(authorityEnd);
    }
    return Password(separator.value, at.value, authorityEnd);
  }

  method FindSchemeStart(value: string, protocol: nat) returns (schemeStart: nat)
    requires protocol <= |value|
    ensures schemeStart == SchemeStart(value, protocol)
  {
    var start: int := protocol - 1;
    while start >= 0 && SchemeCharacter(value[start])
      invariant -1 <= start < protocol
      invariant SchemeStart(value, protocol) == SchemeStart(value, start + 1)
    {
      start := start - 1;
    }
    return start + 1;
  }

  method FindAuthorityEnd(value: string, authorityStart: nat) returns (authorityEnd: nat)
    requires authorityStart <= |value|
    ensures authorityEnd == FindBoundary(value, authorityStart)
  {
    authorityEnd := authorityStart;
    while authorityEnd < |value| && !AuthorityBoundary(value[authorityEnd])
      invariant authorityStart <= authorityEnd <= |value|
      invariant FindBoundary(value, authorityStart) == FindBoundary(value, authorityEnd)
    {
      authorityEnd := authorityEnd + 1;
    }
  }
}
