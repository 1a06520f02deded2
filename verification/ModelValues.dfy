/** Attribute values of model rows and the order the query engine puts on them. */
module ModelValues {

  /** The scalar values a row attribute can hold; `Absent` is an attribute the row does not have. */
  datatype Value =
    | Absent
    | Null
    | Flag(b: bool)
    | Num(n: real)
    | Text(s: string)
    | Graphite(micros: int)
    | Instant(micros: int)
    | LocalDate(iso: string)
    | Duration(iso: string)
  {
    predicate Nullish() {
      Absent? || Null?
    }
  }

  /** What a value is compared as: datetimes on their microseconds or their text. */
  datatype Comparable = Nothing | B(b: bool) | N(n: real) | S(s: string) | M(micros: int)

  function ComparableValue(v: Value): Comparable {
    match v
    case Absent => Nothing
    case Null => Nothing
    case Flag(b) => B(b)
    case Num(n) => N(n)
    case Text(s) => S(s)
    case Graphite(m) => M(m)
    case Instant(m) => M(m)
    case LocalDate(s) => S(s)
    case Duration(s) => S(s)
  }

  predicate TextLess(a: string, b: string) {
    if |a| == 0 || |b| == 0 then |a| < |b|
    else if a[0] != b[0] then a[0] < b[0]
    else TextLess(a[1..], b[1..])
  }

  function Rank(c: Comparable): int {
    match c
    case Nothing => 0
    case B(_) => 1
    case N(_) => 2
    case S(_) => 3
    case M(_) => 4
  }

  /** The `<` of the language on two comparable values of one kind; kinds are ranked among themselves. */
  predicate Less(a: Comparable, b: Comparable) {
    match (a, b)
    case (B(x), B(y)) => !x && y
    case (N(x), N(y)) => x < y
    case (S(x), S(y)) => TextLess(x, y)
    case (M(x), M(y)) => x < y
    case (_, _) => Rank(a) < Rank(b)
  }

  /** Nulls and absent values are equal to one another and below everything else. */
  function Compare(l: Value, r: Value): (c: int)
    ensures c == -1 || c == 0 || c == 1
  {
    var left, right := ComparableValue(l), ComparableValue(r);
    if left == right then 0
    else if left == Nothing then -1
    else if right == Nothing then 1
    else if Less(left, right) then -1
    else 1
  }

  lemma {:induction false} TextLessTotal(a: string, b: string)
    ensures a != b ==> (TextLess(a, b) <==> !TextLess(b, a))
    ensures a == b ==> !TextLess(a, b)
  {
    if |a| > 0 && |b| > 0 && a[0] == b[0] {
      TextLessTotal(a[1..], b[1..]);
      assert a == [a[0]] + a[1..] && b == [b[0]] + b[1..];
    }
  }

  lemma {:induction false} TextLessTransitive(a: string, b: string, c: string)
    requires TextLess(a, b) && TextLess(b, c)
    ensures TextLess(a, c)
  {
    if |a| > 0 && |b| > 0 && |c| > 0 && a[0] == b[0] == c[0] {
      TextLessTransitive(a[1..], b[1..], c[1..]);
    }
  }

  /** `compare` is antisymmetric: swapping the operands flips the sign. */
  lemma CompareFlips(a: Value, b: Value)
    ensures Compare(b, a) == -Compare(a, b)
  {
    var x, y := ComparableValue(a), ComparableValue(b);
    if x.S? && y.S? {
      TextLessTotal(x.s, y.s);
    }
  }

  /** `compare` is a total preorder. */
  lemma CompareTransitive(a: Value, b: Value, c: Value)
    ensures Compare(a, b) <= 0 && Compare(b, c) <= 0 ==> Compare(a, c) <= 0
    ensures Compare(a, b) < 0 && Compare(b, c) <= 0 ==> Compare(a, c) < 0
    ensures Compare(a, b) <= 0 && Compare(b, c) < 0 ==> Compare(a, c) < 0
    ensures Compare(a, b) == 0 ==> Compare(a, c) == Compare(b, c)
  {
    var x, y, z := ComparableValue(a), ComparableValue(b), ComparableValue(c);
    if x.S? && y.S? && z.S? {
      TextLessTotal(x.s, y.s);
      TextLessTotal(y.s, z.s);
      TextLessTotal(x.s, z.s);
      if TextLess(x.s, y.s) && TextLess(y.s, z.s) {
        TextLessTransitive(x.s, y.s, z.s);
      }
    }
  }
}
