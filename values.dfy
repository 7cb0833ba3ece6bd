/** Cell values of a data frame and the order pandas sorts them by.
    A numeric column holds numbers, a text column strings, and the datetime
    column (after conversion) timestamps, counted here as whole ticks. */
module Values {

  datatype Value = Num(x: real) | Text(s: string) | Time(ticks: int)

  /** The kind of a value; values of different kinds sort by kind. */
  function Rank(v: Value): nat {
    match v
    case Num(_) => 0
    case Text(_) => 1
    case Time(_) => 2
  }

  /** Lexicographic order on strings, by code point, as Python compares them. */
  predicate LexLe(a: string, b: string) {
    |a| == 0 || (|b| > 0 && (a[0] < b[0] || (a[0] == b[0] && LexLe(a[1..], b[1..]))))
  }

  /** The order `Series.mode()` returns its values in: numbers by value,
      strings lexicographically, timestamps chronologically. */
  predicate Le(a: Value, b: Value) {
    match (a, b)
    case (Num(x), Num(y)) => x <= y
    case (Text(s), Text(u)) => LexLe(s, u)
    case (Time(p), Time(q)) => p <= q
    case _ => Rank(a) < Rank(b)
  }

  lemma {:induction false} LexLeReflexive(a: string)
    ensures LexLe(a, a)
  {
    if |a| > 0 { LexLeReflexive(a[1..]); }
  }

  lemma {:induction false} LexLeTotal(a: string, b: string)
    ensures LexLe(a, b) || LexLe(b, a)
  {
    if |a| > 0 && |b| > 0 && a[0] == b[0] { LexLeTotal(a[1..], b[1..]); }
  }

  lemma {:induction false} LexLeAntisymmetric(a: string, b: string)
    requires LexLe(a, b) && LexLe(b, a)
    ensures a == b
  {
    if |a| > 0 {
      LexLeAntisymmetric(a[1..], b[1..]);
      assert a == [a[0]] + a[1..] && b == [b[0]] + b[1..];
    }
  }

  lemma {:induction false} LexLeTransitive(a: string, b: string, c: string)
    requires LexLe(a, b) && LexLe(b, c)
    ensures LexLe(a, c)
  {
    if |a| > 0 && |b| > 0 && |c| > 0 && a[0] == b[0] && b[0] == c[0] {
      LexLeTransitive(a[1..], b[1..], c[1..]);
    }
  }

  /** Le is a total order, so "the smallest of the most frequent values"
      names exactly one value. */
  lemma LeTotalOrder()
    ensures forall a :: Le(a, a)
    ensures forall a, b :: Le(a, b) || Le(b, a)
    ensures forall a, b :: Le(a, b) && Le(b, a) ==> a == b
    ensures forall a, b, c :: Le(a, b) && Le(b, c) ==> Le(a, c)
  {
    forall a ensures Le(a, a) {
      if a.Text? { LexLeReflexive(a.s); }
    }
    forall a, b ensures Le(a, b) || Le(b, a) {
      if a.Text? && b.Text? { LexLeTotal(a.s, b.s); }
    }
    forall a, b | Le(a, b) && Le(b, a) ensures a == b {
      if a.Text? && b.Text? { LexLeAntisymmetric(a.s, b.s); }
    }
    forall a, b, c | Le(a, b) && Le(b, c) ensures Le(a, c) {
      if a.Text? && b.Text? && c.Text? { LexLeTransitive(a.s, b.s, c.s); }
    }
  }
}
