/** Following `nextCursor` page by page, when a cursor is encoded from the instance that the session holds of a row. */
module CursorWalk {
  import opened Options
  import opened ModelValues
  import opened ModelQuery
  import opened DateTimeCodec
  import opened CursorPaging

  // ---------------------------------------------------------------- cursors of held instances

  /**
   * The cursor functions of a session. Hydrating a row whose identity is attached returns the attached instance as it
   * is, so a cursor has the ordering values of what the session holds of the row, which may be older than the row.
   */
  function HeldCodec(t: TimeText, model: string, orders: seq<Order>, held: Row -> Row): CursorCodec {
    CursorCodec((row: Row) => EncodeCursor(t, model, held(row), orders), (c: Cursor) => DecodeCursor(t, c, model, orders))
  }

  ghost predicate Reads(codec: CursorCodec, orders: seq<Order>, held: Row -> Row) {
    forall row: Row :: codec.decode(codec.encode(row)) == Some(OrderValues(held(row), orders))
  }

  lemma HeldCodecReads(t: TimeText, model: string, orders: seq<Order>, held: Row -> Row)
    requires t.Sound()
    ensures Reads(HeldCodec(t, model, orders, held), orders, held)
  {
    var codec := HeldCodec(t, model, orders, held);
    forall row: Row ensures codec.decode(codec.encode(row)) == Some(OrderValues(held(row), orders)) {
      CursorRoundTrip(t, model, held(row), orders);
    }
  }

  /** The page query returns the rows of `s` from `k` on. */
  ghost predicate Returns(fetch: Fetch, values: Option<seq<Value>>, s: seq<Row>, k: nat, limit: nat)
    requires k <= |s|
  {
    fetch(values, false, limit) == Ok(s[k..Min(k + limit, |s|)])
  }

  /** The page query returns the rows of `s` past the row's values. */
  ghost predicate ReturnsPast(fetch: Fetch, orders: seq<Order>, s: seq<Row>, row: Row, limit: nat) {
    fetch(Some(OrderValues(row, orders)), false, limit) == Ok(Nearest(orders, s, OrderValues(row, orders), false, limit))
  }

  /** What the page queries return: the first rows, or those past any cursor's values. */
  ghost predicate Answers(fetch: Fetch, orders: seq<Order>, s: seq<Row>) {
    && (forall limit: nat :: Returns(fetch, None, s, 0, limit))
    && (forall row: Row, limit: nat :: ReturnsPast(fetch, orders, s, row, limit))
  }

  lemma QueryAnswers(rows: seq<Row>, plan: Plan, tail: seq<Constraint>)
    requires UniqueIds(rows) && Conjuncts(tail)
    ensures Answers(FetchFor(rows, plan, tail), DeterministicOrders(plan.orders), Answer(rows, plan, tail))
  {
    var orders, s, fetch := DeterministicOrders(plan.orders), Answer(rows, plan, tail), FetchFor(rows, plan, tail);
    forall limit: nat ensures Returns(fetch, None, s, 0, limit) {
      FirstFetch(rows, plan, tail, s, limit);
    }
    forall row: Row, limit: nat ensures ReturnsPast(fetch, orders, s, row, limit) {
      var values := OrderValues(row, orders);
      PositionedFetch(rows, plan, tail, orders, values, false, limit, Nearest(orders, s, values, false, limit));
    }
  }

  // ---------------------------------------------------------------- where a cursor leads

  /** The held instance of row `k` stands at the row or between it and the next one. */
  predicate Stands(orders: seq<Order>, s: seq<Row>, h: Row, k: nat)
    requires k + 1 < |s|
  {
    RowCompare(orders, s[k], h) <= 0 < RowCompare(orders, s[k + 1], h)
  }

  lemma PastIsAbove(orders: seq<Order>, h: Row, r: Row)
    ensures Past(orders, OrderValues(h, orders), After)(r) <==> RowCompare(orders, r, h) > 0
  {
    CompareToRow(orders, r, h);
  }

  lemma StandsSplits(orders: seq<Order>, s: seq<Row>, h: Row, k: nat, i: nat)
    requires Strict(orders, s) && k + 1 < |s| && i < |s| && Stands(orders, s, h, k)
    ensures RowCompare(orders, s[i], h) > 0 <==> k + 1 <= i
  {
    if i < k {
      RowCompareTransitive(orders, s[i], s[k], h);
    } else if k + 1 < i {
      if RowCompare(orders, s[i], h) <= 0 {
        RowCompareTransitive(orders, s[k + 1], s[i], h);
      }
    }
  }

  lemma StandsLeads(orders: seq<Order>, s: seq<Row>, h: Row, k: nat, limit: nat)
    requires Strict(orders, s) && k + 1 < |s| && Stands(orders, s, h, k)
    ensures Nearest(orders, s, OrderValues(h, orders), false, limit) == s[k + 1..Min(k + 1 + limit, |s|)]
  {
    StandsFilters(orders, s, h, k, Past(orders, OrderValues(h, orders), After));
    NearestIs(orders, s, OrderValues(h, orders), limit, s[k + 1..]);
    SliceOfRest(s, k + 1, limit);
  }

  lemma NearestIs(orders: seq<Order>, s: seq<Row>, values: seq<Value>, limit: nat, past: seq<Row>)
    requires |values| == |orders| && past == Filter(s, Past(orders, values, After))
    ensures Nearest(orders, s, values, false, limit) == Slice(past, Some(limit), None)
  {
  }

  lemma StandsFilters(orders: seq<Order>, s: seq<Row>, h: Row, k: nat, past: Row -> bool)
    requires Strict(orders, s) && k + 1 < |s| && Stands(orders, s, h, k) && past == Past(orders, OrderValues(h, orders), After)
    ensures Filter(s, past) == s[k + 1..]
  {
    forall i | 0 <= i < |s| ensures past(s[i]) <==> k + 1 <= i {
      PastIsAbove(orders, h, s[i]);
      StandsSplits(orders, s, h, k, i);
    }
    FilterSuffix(s, k + 1, past);
  }

  lemma FirstKept(s: seq<Row>, k: nat, keep: Row -> bool)
    requires k + 1 < |s| && (keep(s[k]) || !keep(s[k + 1])) && forall i :: 0 <= i <= k ==> s[i] != s[k + 1]
    ensures Filter(s, keep) == [] || Filter(s, keep)[0] != s[k + 1]
  {
    if keep(s[k]) {
      KeptBefore(s, k, keep);
    } else if Filter(s, keep) != [] {
      assert Filter(s, keep)[0] in Filter(s, keep);
    }
  }

  lemma KeptBefore(s: seq<Row>, k: nat, keep: Row -> bool)
    requires k < |s| && keep(s[k])
    ensures Filter(s, keep) != [] && Filter(s, keep)[0] in s[..k + 1]
  {
    var within := Filter(s[..k + 1], keep);
    assert s == s[..k + 1] + s[k + 1..];
    FilterAppend(s[..k + 1], s[k + 1..], keep);
    assert s[..k + 1][k] == s[k] && s[k] in s[..k + 1] && s[k] in within;
    assert within[0] in within;
  }

  lemma StrictDiffers(orders: seq<Order>, s: seq<Row>, i: nat, j: nat)
    requires Strict(orders, s) && i < j < |s|
    ensures s[i] != s[j]
  {
    RowCompareFlips(orders, s[i], s[i]);
  }

  /** Otherwise the next page does not begin with the next row. */
  lemma ElsewhereMisses(orders: seq<Order>, s: seq<Row>, h: Row, k: nat, limit: nat)
    requires Strict(orders, s) && k + 1 < |s| && !Stands(orders, s, h, k)
    ensures var found := Nearest(orders, s, OrderValues(h, orders), false, limit); found == [] || found[0] != s[k + 1]
  {
    var past := Past(orders, OrderValues(h, orders), After);
    PastIsAbove(orders, h, s[k]);
    PastIsAbove(orders, h, s[k + 1]);
    forall i | 0 <= i <= k ensures s[i] != s[k + 1] {
      StrictDiffers(orders, s, i, k + 1);
    }
    FirstKept(s, k, past);
  }

  // ---------------------------------------------------------------- walks

  /** The rows of the first `n` pages from a cursor on. */
  function Walk(codec: CursorCodec, fetch: Fetch, first: nat, after: Option<Cursor>, n: nat): seq<Row>
    decreases n
  {
    if n == 0 then []
    else
      var page := CursorPaginate(codec, fetch, Input(first, after, None));
      if page.Err? then []
      else page.value.items + if page.value.next.None? then [] else Walk(codec, fetch, first, page.value.next, n - 1)
  }

  /** The first `n` pages of a sequence from position `k` on. */
  function Cut(s: seq<Row>, first: nat, k: nat, n: nat): seq<Row>
    requires k <= |s|
    decreases n
  {
    if n == 0 || first == 0 then []
    else s[k..Min(k + first, |s|)] + if k + first < |s| then Cut(s, first, k + first, n - 1) else []
  }

  lemma {:induction false} CutCovers(s: seq<Row>, first: nat, k: nat, n: nat)
    requires k <= |s| && 0 < first && |s| - k < n
    ensures Cut(s, first, k, n) == s[k..]
    decreases n
  {
    if k + first < |s| {
      CutCovers(s, first, k + first, n - 1);
      assert s[k..k + first] + s[k + first..] == s[k..];
    } else {
      assert s[k..Min(k + first, |s|)] == s[k..];
    }
  }

  /** The held instance of every page's last row but the last page's stands where it leads on to the next page. */
  predicate LeadsOn(orders: seq<Order>, s: seq<Row>, held: Row -> Row, first: nat, k: nat)
    requires k <= |s| && 0 < first
    decreases |s| - k
  {
    k + first < |s| ==> Stands(orders, s, held(s[k + first - 1]), k + first - 1) && LeadsOn(orders, s, held, first, k + first)
  }

  /** The values that the page query is positioned at. */
  function ValuesOf(codec: CursorCodec, after: Option<Cursor>): Option<seq<Value>> {
    if after.Some? then codec.decode(after.value) else None
  }

  /** The query for the cursor returns the rows from `k` on. */
  ghost predicate At(codec: CursorCodec, fetch: Fetch, s: seq<Row>, after: Option<Cursor>, k: nat)
    requires k <= |s|
  {
    (after.Some? ==> ValuesOf(codec, after).Some?) && forall limit: nat :: Returns(fetch, ValuesOf(codec, after), s, k, limit)
  }

  lemma PageOf(codec: CursorCodec, fetch: Fetch, s: seq<Row>, after: Option<Cursor>, k: nat, first: nat)
    requires k <= |s| && 0 < first <= MAX_PAGE_SIZE && At(codec, fetch, s, after, k)
    ensures var page := CursorPaginate(codec, fetch, Input(first, after, None));
            && page.Ok? && page.value.items == s[k..Min(k + first, |s|)]
            && page.value.next == if k + first < |s| then Some(codec.encode(s[k + first - 1])) else None
  {
    var found := s[k..Min(k + (first + 1), |s|)];
    assert Returns(fetch, ValuesOf(codec, after), s, k, first + 1);
    assert (if |found| > first then found[..first] else found) == s[k..Min(k + first, |s|)];
  }

  lemma StandsAt(codec: CursorCodec, fetch: Fetch, orders: seq<Order>, s: seq<Row>, held: Row -> Row, k: nat)
    requires Reads(codec, orders, held) && Answers(fetch, orders, s) && Strict(orders, s)
    requires k + 1 < |s| && Stands(orders, s, held(s[k]), k)
    ensures At(codec, fetch, s, Some(codec.encode(s[k])), k + 1)
  {
    var values, next := ValuesOf(codec, Some(codec.encode(s[k]))), k + 1;
    forall limit: nat ensures Returns(fetch, values, s, next, limit) {
      StandsReturns(fetch, orders, s, held(s[k]), k, limit);
    }
  }

  lemma StandsReturns(fetch: Fetch, orders: seq<Order>, s: seq<Row>, h: Row, k: nat, limit: nat)
    requires Answers(fetch, orders, s) && Strict(orders, s) && k + 1 < |s| && Stands(orders, s, h, k)
    ensures Returns(fetch, Some(OrderValues(h, orders)), s, k + 1, limit)
  {
    assert ReturnsPast(fetch, orders, s, h, limit);
    StandsLeads(orders, s, h, k, limit);
  }

  /** One page from a cursor that does not lead on: it is not the next page. */
  lemma MissesPage(codec: CursorCodec, fetch: Fetch, orders: seq<Order>, s: seq<Row>, held: Row -> Row, first: nat, k: nat)
    requires Reads(codec, orders, held) && Answers(fetch, orders, s) && Strict(orders, s) && 0 < first <= MAX_PAGE_SIZE
    requires k + 1 < |s| && !Stands(orders, s, held(s[k]), k)
    ensures Walk(codec, fetch, first, Some(codec.encode(s[k])), 1) != Cut(s, first, k + 1, 1)
  {
    var h, cursor := held(s[k]), codec.encode(s[k]);
    var found := Nearest(orders, s, OrderValues(h, orders), false, first + 1);
    assert ReturnsPast(fetch, orders, s, h, first + 1);
    ElsewhereMisses(orders, s, h, k, first + 1);
    OnePage(codec, fetch, first, cursor, OrderValues(h, orders), found);
    OneCut(s, first, k + 1);
  }

  lemma OneCut(s: seq<Row>, first: nat, k: nat)
    requires k < |s| && 0 < first
    ensures |Cut(s, first, k, 1)| > 0 && Cut(s, first, k, 1)[0] == s[k]
  {
  }

  lemma OnePage(codec: CursorCodec, fetch: Fetch, first: nat, cursor: Cursor, values: seq<Value>, found: seq<Row>)
    requires 0 < first <= MAX_PAGE_SIZE && codec.decode(cursor) == Some(values) && fetch(Some(values), false, first + 1) == Ok(found)
    ensures Walk(codec, fetch, first, Some(cursor), 1) == if |found| > first then found[..first] else found
  {
    var page := CursorPaginate(codec, fetch, Input(first, Some(cursor), None));
    assert page == Ok(BuildPage(codec, found, first, false, true));
    assert page.value.next.Some? ==> Walk(codec, fetch, first, page.value.next, 0) == [];
  }

  /** Every number of pages from the cursor on is as many pages of the sequence from `k` on. */
  ghost predicate Right(codec: CursorCodec, fetch: Fetch, s: seq<Row>, first: nat, after: Option<Cursor>, k: nat)
    requires k <= |s|
  {
    forall n: nat :: Walk(codec, fetch, first, after, n) == Cut(s, first, k, n)
  }

  /** Right pages are together the whole sequence. */
  lemma RightYieldsAll(codec: CursorCodec, fetch: Fetch, s: seq<Row>, first: nat, after: Option<Cursor>, n: nat)
    requires Right(codec, fetch, s, first, after, 0) && 0 < first && |s| < n
    ensures Walk(codec, fetch, first, after, n) == s
  {
    CutCovers(s, first, 0, n);
    assert s[0..] == s;
  }

  lemma NextPages(codec: CursorCodec, fetch: Fetch, s: seq<Row>, after: Option<Cursor>, k: nat, first: nat, n: nat)
    requires k + first < |s| && 0 < first <= MAX_PAGE_SIZE && At(codec, fetch, s, after, k)
    ensures var next := Some(codec.encode(s[k + first - 1]));
            Walk(codec, fetch, first, after, n + 1) == Cut(s, first, k, n + 1) <==>
            Walk(codec, fetch, first, next, n) == Cut(s, first, k + first, n)
  {
    PageOf(codec, fetch, s, after, k, first);
    SameStart(s[k..k + first], Walk(codec, fetch, first, Some(codec.encode(s[k + first - 1])), n), Cut(s, first, k + first, n));
  }

  lemma SameStart(a: seq<Row>, b: seq<Row>, c: seq<Row>)
    ensures a + b == a + c <==> b == c
  {
    assert (a + b)[|a|..] == b && (a + c)[|a|..] == c;
  }

  /** From a right cursor on, all pages are right iff all held instances at page ends lead on. */
  lemma {:induction false} WalkFrom(codec: CursorCodec, fetch: Fetch, orders: seq<Order>, s: seq<Row>, held: Row -> Row, first: nat,
                                    after: Option<Cursor>, k: nat)
    requires Reads(codec, orders, held) && Answers(fetch, orders, s) && Strict(orders, s) && 0 < first <= MAX_PAGE_SIZE
    requires k <= |s| && At(codec, fetch, s, after, k)
    ensures Right(codec, fetch, s, first, after, k) <==> LeadsOn(orders, s, held, first, k)
    decreases |s| - k
  {
    if k + first < |s| {
      var e := k + first - 1;
      RightNext(codec, fetch, s, after, k, first);
      if Stands(orders, s, held(s[e]), e) {
        StandsAt(codec, fetch, orders, s, held, e);
        WalkFrom(codec, fetch, orders, s, held, first, Some(codec.encode(s[e])), k + first);
      } else {
        MissesPage(codec, fetch, orders, s, held, first, e);
      }
    } else {
      LastPage(codec, fetch, s, after, k, first);
    }
  }

  lemma LastPage(codec: CursorCodec, fetch: Fetch, s: seq<Row>, after: Option<Cursor>, k: nat, first: nat)
    requires k <= |s| <= k + first && 0 < first <= MAX_PAGE_SIZE && At(codec, fetch, s, after, k)
    ensures Right(codec, fetch, s, first, after, k)
  {
    forall n: nat ensures Walk(codec, fetch, first, after, n) == Cut(s, first, k, n) {
      PageOf(codec, fetch, s, after, k, first);
    }
  }

  lemma RightNext(codec: CursorCodec, fetch: Fetch, s: seq<Row>, after: Option<Cursor>, k: nat, first: nat)
    requires k + first < |s| && 0 < first <= MAX_PAGE_SIZE && At(codec, fetch, s, after, k)
    ensures Right(codec, fetch, s, first, after, k) <==> Right(codec, fetch, s, first, Some(codec.encode(s[k + first - 1])), k + first)
  {
    var next := Some(codec.encode(s[k + first - 1]));
    forall n: nat
      ensures Walk(codec, fetch, first, after, n + 1) == Cut(s, first, k, n + 1) <==> Walk(codec, fetch, first, next, n) == Cut(s, first, k + first, n)
    {
      NextPages(codec, fetch, s, after, k, first, n);
    }
    if Right(codec, fetch, s, first, after, k) {
      forall n: nat ensures Walk(codec, fetch, first, next, n) == Cut(s, first, k + first, n) {
        assert Walk(codec, fetch, first, after, n + 1) == Cut(s, first, k, n + 1);
      }
    }
    if Right(codec, fetch, s, first, next, k + first) {
      forall n: nat ensures Walk(codec, fetch, first, after, n) == Cut(s, first, k, n) {
        if n > 0 {
          assert Walk(codec, fetch, first, next, n - 1) == Cut(s, first, k + first, n - 1);
        }
      }
    }
  }

  /**
   * Following `nextCursor` through a query yields exactly its answer, page by page, iff the held instance of every
   * page's last row stands at the row or before the next one. Fresh instances always do.
   */
  lemma WalkExactly(t: TimeText, model: string, rows: seq<Row>, plan: Plan, tail: seq<Constraint>, held: Row -> Row, first: nat)
    requires t.Sound() && UniqueIds(rows) && Conjuncts(tail) && 0 < first <= MAX_PAGE_SIZE
    ensures var orders, s := DeterministicOrders(plan.orders), Answer(rows, plan, tail);
            Right(HeldCodec(t, model, orders, held), FetchFor(rows, plan, tail), s, first, None, 0) <==> LeadsOn(orders, s, held, first, 0)
  {
    var orders, s := DeterministicOrders(plan.orders), Answer(rows, plan, tail);
    HeldCodecReads(t, model, orders, held);
    QueryAnswers(rows, plan, tail);
    AnswerStrict(rows, plan, tail);
    WalkFrom(HeldCodec(t, model, orders, held), FetchFor(rows, plan, tail), orders, s, held, first, None, 0);
  }

  lemma {:induction false} FreshLeadsOn(orders: seq<Order>, s: seq<Row>, held: Row -> Row, first: nat, k: nat)
    requires Strict(orders, s) && k <= |s| && 0 < first && forall r :: r in s ==> OrderValues(held(r), orders) == OrderValues(r, orders)
    ensures LeadsOn(orders, s, held, first, k)
    decreases |s| - k
  {
    if k + first < |s| {
      var e := k + first - 1;
      CompareToRow(orders, s[e], held(s[e]));
      CompareToRow(orders, s[e], s[e]);
      CompareToRow(orders, s[e + 1], held(s[e]));
      CompareToRow(orders, s[e + 1], s[e]);
      RowCompareFlips(orders, s[e], s[e]);
      RowCompareFlips(orders, s[e], s[e + 1]);
      FreshLeadsOn(orders, s, held, first, k + first);
    }
  }

  // ---------------------------------------------------------------- a walk that does not end

  function Repeated(r: Row, n: nat): seq<Row> {
    if n == 0 then [] else [r] + Repeated(r, n - 1)
  }

  /** With pages of one row, an instance that is held from below its row, but above the row before, yields the row for ever. */
  lemma {:induction false} StuckForever(codec: CursorCodec, fetch: Fetch, orders: seq<Order>, s: seq<Row>, held: Row -> Row, k: nat, n: nat)
    requires Reads(codec, orders, held) && Answers(fetch, orders, s) && Strict(orders, s) && 0 < k && k + 1 < |s|
    requires Stands(orders, s, held(s[k]), k - 1)
    ensures Walk(codec, fetch, 1, Some(codec.encode(s[k])), n) == Repeated(s[k], n)
  {
    var values := OrderValues(held(s[k]), orders);
    if n > 0 {
      StandsReturns(fetch, orders, s, held(s[k]), k - 1, 2);
      var page := CursorPaginate(codec, fetch, Input(1, Some(codec.encode(s[k])), None));
      assert fetch(Some(values), false, 2) == Ok(s[k..k + 2]);
      assert s[k..k + 2][..1] == [s[k]];
      assert page.Ok? && page.value.items == [s[k]] && page.value.next == Some(codec.encode(s[k]));
      StuckForever(codec, fetch, orders, s, held, k, n - 1);
    }
  }

  // ---------------------------------------------------------------- the async iterator

  /** Follows nextCursor until there is none, and yields the whole answer, each row once. */
  method IterateCursor(t: TimeText, model: string, rows: seq<Row>, plan: Plan, tail: seq<Constraint>, held: Row -> Row, batchSize: int)
    returns (yielded: Outcome<seq<Row>>)
    requires t.Sound() && UniqueIds(rows) && Conjuncts(tail)
    requires 0 < batchSize ==> LeadsOn(DeterministicOrders(plan.orders), Answer(rows, plan, tail), held, batchSize, 0)
    ensures yielded == if 0 < batchSize <= MAX_PAGE_SIZE then Ok(Answer(rows, plan, tail)) else Err(InvalidQuery)
  {
    if !(0 < batchSize <= MAX_PAGE_SIZE) {
      return Err(InvalidQuery);
    }
    var orders := DeterministicOrders(plan.orders);
    var codec := HeldCodec(t, model, orders, held);
    HeldCodecReads(t, model, orders, held);
    QueryAnswers(rows, plan, tail);
    AnswerStrict(rows, plan, tail);
    var models := Follow(codec, FetchFor(rows, plan, tail), orders, held, batchSize, Answer(rows, plan, tail));
    return Ok(models);
  }

  method Follow(codec: CursorCodec, fetch: Fetch, ghost orders: seq<Order>, ghost held: Row -> Row, batchSize: int, ghost s: seq<Row>)
    returns (models: seq<Row>)
    requires Reads(codec, orders, held) && Answers(fetch, orders, s) && Strict(orders, s) && 0 < batchSize <= MAX_PAGE_SIZE
    requires LeadsOn(orders, s, held, batchSize, 0)
    ensures models == s
  {
    ghost var k := 0;
    models := [];
    var after: Option<Cursor> := None;
    var more := true;
    while more
      invariant 0 <= k <= |s| && models == s[..k]
      invariant more ==> At(codec, fetch, s, after, k) && LeadsOn(orders, s, held, batchSize, k) && (k == 0 || k < |s|)
      invariant !more ==> k == |s|
      decreases |s| - k, more
    {
      FollowItems(codec, fetch, s, batchSize, after, k);
      var page := CursorPaginate(codec, fetch, Input(batchSize, after, None)).value;
      models := models + page.items;
      more := page.next.Some?;
      if more {
        FollowNext(codec, fetch, orders, s, held, batchSize, k, page.next);
        after := page.next;
      }
      k := Min(k + batchSize, |s|);
    }
  }

  lemma FollowItems(codec: CursorCodec, fetch: Fetch, s: seq<Row>, first: nat, after: Option<Cursor>, k: nat)
    requires 0 < first <= MAX_PAGE_SIZE && k <= |s| && At(codec, fetch, s, after, k)
    ensures var page := CursorPaginate(codec, fetch, Input(first, after, None));
            && page.Ok? && s[..k] + page.value.items == s[..Min(k + first, |s|)]
            && page.value.next == if k + first < |s| then Some(codec.encode(s[k + first - 1])) else None
  {
    PageOf(codec, fetch, s, after, k, first);
    assert s[..k] + s[k..Min(k + first, |s|)] == s[..Min(k + first, |s|)];
  }

  lemma FollowNext(codec: CursorCodec, fetch: Fetch, orders: seq<Order>, s: seq<Row>, held: Row -> Row, first: nat, k: nat, next: Option<Cursor>)
    requires Reads(codec, orders, held) && Answers(fetch, orders, s) && Strict(orders, s) && 0 < first
    requires k + first < |s| && LeadsOn(orders, s, held, first, k) && next == Some(codec.encode(s[k + first - 1]))
    ensures At(codec, fetch, s, next, k + first) && LeadsOn(orders, s, held, first, k + first)
  {
    StandsAt(codec, fetch, orders, s, held, k + first - 1);
  }
}
