/** The orderings the store applies for an `orderBy` on one column: keys are
    integers or strings, strings compare lexicographically by character, and a
    column is sorted ascending or descending. The store's sort itself is
    modelled by an insertion sort, proved to sort and to permute. */
module Ordering {

  /** The value of the column a query orders by. */
  datatype Key = IntKey(n: int) | TextKey(s: string)

  datatype Direction = Asc | Desc

  /** Lexicographic order on strings, character by character. */
  predicate LexLeq(a: string, b: string)
    decreases |a|
  {
    |a| == 0 || (|b| > 0 && (a[0] < b[0] || (a[0] == b[0] && LexLeq(a[1..], b[1..]))))
  }

  lemma {:induction false} LexLeqTotal(a: string, b: string)
    ensures LexLeq(a, b) || LexLeq(b, a)
    decreases |a|
  {
    if |a| > 0 && |b| > 0 && a[0] == b[0] {
      LexLeqTotal(a[1..], b[1..]);
    }
  }

  lemma {:induction false} LexLeqTransitive(a: string, b: string, c: string)
    requires LexLeq(a, b) && LexLeq(b, c)
    ensures LexLeq(a, c)
    decreases |a|
  {
    if |a| > 0 && a[0] == b[0] && b[0] == c[0] {
      LexLeqTransitive(a[1..], b[1..], c[1..]);
    }
  }

  /** Integer keys before text keys; within a kind, the natural order. */
  predicate KeyLeq(a: Key, b: Key) {
    match (a, b)
    case (IntKey(x), IntKey(y)) => x <= y
    case (TextKey(s), TextKey(t)) => LexLeq(s, t)
    case (IntKey(_), TextKey(_)) => true
    case (TextKey(_), IntKey(_)) => false
  }

  /** `a` may come before `b` in a column sorted in direction `dir`. */
  predicate InOrder(a: Key, b: Key, dir: Direction) {
    if dir == Asc then KeyLeq(a, b) else KeyLeq(b, a)
  }

  lemma InOrderTotal(a: Key, b: Key, dir: Direction)
    ensures InOrder(a, b, dir) || InOrder(b, a, dir)
  {
    if a.TextKey? && b.TextKey? {
      LexLeqTotal(a.s, b.s);
    }
  }

  lemma InOrderTransitive(a: Key, b: Key, c: Key, dir: Direction)
    requires InOrder(a, b, dir) && InOrder(b, c, dir)
    ensures InOrder(a, c, dir)
  {
    if a.TextKey? && b.TextKey? && c.TextKey? {
      if dir == Asc {
        LexLeqTransitive(a.s, b.s, c.s);
      } else {
        LexLeqTransitive(c.s, b.s, a.s);
      }
    }
  }

  /** Every earlier row is in order with every later row. */
  predicate SortedBy<T>(s: seq<T>, key: T -> Key, dir: Direction) {
    forall i, j :: 0 <= i < j < |s| ==> InOrder(key(s[i]), key(s[j]), dir)
  }

  /** A row in order with every row of a sorted sequence can go in front. */
  lemma PrependSorted<T>(h: T, t: seq<T>, key: T -> Key, dir: Direction)
    requires SortedBy(t, key, dir)
    requires forall j :: 0 <= j < |t| ==> InOrder(key(h), key(t[j]), dir)
    ensures SortedBy([h] + t, key, dir)
  {
    var r := [h] + t;
    forall i, j | 0 <= i < j < |r| ensures InOrder(key(r[i]), key(r[j]), dir) {
      if i > 0 {
        assert r[i] == t[i - 1] && r[j] == t[j - 1];
      }
    }
  }

  /** The head of a sorted sequence is in order with every row of a
      rearrangement of its tail plus a row it is in order with. */
  lemma HeadBoundsRest<T>(s: seq<T>, x: T, tail: seq<T>, key: T -> Key, dir: Direction)
    requires |s| > 0 && SortedBy(s, key, dir) && InOrder(key(s[0]), key(x), dir)
    requires multiset(tail) == multiset(s[1..]) + multiset{x}
    ensures forall j :: 0 <= j < |tail| ==> InOrder(key(s[0]), key(tail[j]), dir)
  {
    forall j | 0 <= j < |tail| ensures InOrder(key(s[0]), key(tail[j]), dir) {
      assert tail[j] in multiset(tail);
      if tail[j] != x {
        assert tail[j] in multiset(s[1..]);
        var k :| 0 <= k < |s[1..]| && s[1..][k] == tail[j];
        assert s[k + 1] == tail[j];
      }
    }
  }

  /** Places `x` before the first row it is in order with. */
  function Insert<T>(x: T, s: seq<T>, key: T -> Key, dir: Direction): (r: seq<T>)
    requires SortedBy(s, key, dir)
    ensures SortedBy(r, key, dir)
    ensures multiset(r) == multiset(s) + multiset{x}
    ensures |r| == |s| + 1
    decreases |s|
  {
    if |s| == 0 then [x]
    else if InOrder(key(x), key(s[0]), dir) then
      forall j | 0 <= j < |s| ensures InOrder(key(x), key(s[j]), dir) {
        if j > 0 {
          InOrderTransitive(key(x), key(s[0]), key(s[j]), dir);
        }
      }
      PrependSorted(x, s, key, dir);
      [x] + s
    else
      var tail := Insert(x, s[1..], key, dir);
      assert s == [s[0]] + s[1..];
      InOrderTotal(key(x), key(s[0]), dir);
      HeadBoundsRest(s, x, tail, key, dir);
      PrependSorted(s[0], tail, key, dir);
      [s[0]] + tail
  }

  /** The rows of `s`, reordered so that the keys follow `dir`. */
  function SortBy<T>(s: seq<T>, key: T -> Key, dir: Direction): (r: seq<T>)
    ensures SortedBy(r, key, dir)
    ensures multiset(r) == multiset(s)
    ensures |r| == |s|
    decreases |s|
  {
    if |s| == 0 then []
    else
      assert s == [s[0]] + s[1..];
      Insert(s[0], SortBy(s[1..], key, dir), key, dir)
  }
}
