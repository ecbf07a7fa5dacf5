/** The one ascending listing of a finite set, for ids and for file names. */
module Sorting {

  ghost predicate StrictOrder<T(!new)>(lt: (T, T) -> bool) {
    && (forall a :: !lt(a, a))
    && (forall a, b, c :: lt(a, b) && lt(b, c) ==> lt(a, c))
    && (forall a, b :: a != b ==> lt(a, b) || lt(b, a))
  }

  ghost predicate Sorted<T>(s: seq<T>, lt: (T, T) -> bool) {
    forall i, j | 0 <= i < j < |s| :: lt(s[i], s[j])
  }

  ghost predicate Lists<T(!new)>(q: seq<T>, s: set<T>) {
    |q| == |s| && forall x :: x in q <==> x in s
  }

  ghost predicate IsLeast<T>(m: T, s: set<T>, lt: (T, T) -> bool) {
    m in s && forall x | x in s && x != m :: lt(m, x)
  }

  lemma LeastExists<T(!new)>(s: set<T>, lt: (T, T) -> bool)
    requires StrictOrder(lt) && s != {}
    ensures exists m :: IsLeast(m, s, lt)
    decreases |s|
  {
    var m :| m in s;
    var rest := s - {m};
    if rest == {} {
      assert s == {m};
      assert IsLeast(m, s, lt);
    } else {
      LeastExists(rest, lt);
      var n :| IsLeast(n, rest, lt);
      assert forall x | x in s :: x == m || x in rest;
      assert IsLeast(if lt(n, m) then n else m, s, lt);
    }
  }

  ghost function Least<T(!new)>(s: set<T>, lt: (T, T) -> bool): (m: T)
    requires StrictOrder(lt) && s != {}
    ensures IsLeast(m, s, lt)
  {
    LeastExists(s, lt);
    var m :| IsLeast(m, s, lt);
    m
  }

  ghost function SortedList<T(!new)>(s: set<T>, lt: (T, T) -> bool): (q: seq<T>)
    requires StrictOrder(lt)
    ensures Sorted(q, lt) && Lists(q, s)
    decreases |s|
  {
    if s == {} then []
    else
      var m := Least(s, lt);
      var rest := SortedList(s - {m}, lt);
      assert forall x :: x in [m] + rest <==> x == m || x in rest;
      [m] + rest
  }

  /** A set has one sorted listing. */
  lemma {:induction false} SortedUnique<T(!new)>(p: seq<T>, q: seq<T>, lt: (T, T) -> bool)
    requires StrictOrder(lt) && Sorted(p, lt) && Sorted(q, lt)
    requires forall x :: x in p <==> x in q
    ensures p == q
    decreases |p|
  {
    assert |p| > 0 ==> p[0] in q;
    assert |q| > 0 ==> q[0] in p;
    if p == [] || q == [] { return; }
    assert p[0] in q && q[0] in p;
    assert p[0] == q[0];
    forall x ensures x in p[1..] <==> x in q[1..] {
      assert x in p <==> x == p[0] || x in p[1..];
      assert x in q <==> x == q[0] || x in q[1..];
      assert p[0] !in p[1..] && q[0] !in q[1..];
    }
    SortedUnique(p[1..], q[1..], lt);
  }

  /** Sorts the elements of a set; the order they come in does not matter. */
  method Sort<T(!new,==)>(s: set<T>, lt: (T, T) -> bool) returns (q: seq<T>)
    requires StrictOrder(lt)
    ensures q == SortedList(s, lt)
  {
    q := [];
    var rest := s;
    while rest != {}
      invariant forall x :: x in s <==> x in q || x in rest
      invariant Sorted(q, lt)
      invariant forall i, x | 0 <= i < |q| && x in rest :: lt(q[i], x)
      decreases |rest|
    {
      LeastExists(rest, lt);
      assert IsLeast(Least(rest, lt), rest, lt);
      var m :| m in rest && forall x | x in rest && x != m :: lt(m, x);
      rest := rest - {m};
      q := q + [m];
    }
    SortedUnique(q, SortedList(s, lt), lt);
  }

  /** A new greatest element goes last. */
  lemma SortedListAppend<T(!new)>(s: set<T>, x: T, lt: (T, T) -> bool)
    requires StrictOrder(lt) && forall y | y in s :: lt(y, x)
    ensures SortedList(s + {x}, lt) == SortedList(s, lt) + [x]
  {
    var p, q := SortedList(s, lt) + [x], SortedList(s + {x}, lt);
    forall i, j | 0 <= i < j < |p| ensures lt(p[i], p[j]) {
      if j == |p| - 1 {
        assert p[i] in SortedList(s, lt);
      }
    }
    assert forall y :: y in p <==> y in SortedList(s, lt) || y == x;
    SortedUnique(p, q, lt);
  }

  lemma DroppedElements<T(!new)>(q: seq<T>, lt: (T, T) -> bool, n: nat)
    requires (forall a :: !lt(a, a)) && Sorted(q, lt) && n <= |q|
    ensures Sorted(q[n..], lt)
    ensures forall y :: y in q[n..] <==> y in q && y !in q[..n]
  {
  }

  /** The end of a sorted listing lists what is left when the beginning is taken away. */
  lemma SortedListDrop<T(!new)>(s: set<T>, lt: (T, T) -> bool, n: nat)
    requires StrictOrder(lt) && n <= |s|
    ensures SortedList(s - (set x | x in SortedList(s, lt)[..n]), lt) == SortedList(s, lt)[n..]
  {
    DroppedElements(SortedList(s, lt), lt, n);
    SortedListIs(SortedList(s, lt)[n..], s - (set x | x in SortedList(s, lt)[..n]), lt);
  }

  /** A sorted sequence of exactly the elements of a set is its listing. */
  lemma SortedListIs<T(!new)>(p: seq<T>, s: set<T>, lt: (T, T) -> bool)
    requires StrictOrder(lt) && Sorted(p, lt) && forall y :: y in p <==> y in s
    ensures SortedList(s, lt) == p
  {
    SortedUnique(p, SortedList(s, lt), lt);
  }

  // ---------------------------------------------------------------- strings

  /** The byte-wise order of strings. */
  predicate Less(a: string, b: string) {
    |b| > 0 && (|a| == 0 || a[0] < b[0] || (a[0] == b[0] && Less(a[1..], b[1..])))
  }

  lemma {:induction false} LessIrreflexive(a: string)
    ensures !Less(a, a)
  {
    if |a| > 0 { LessIrreflexive(a[1..]); }
  }

  lemma {:induction false} LessTransitive(a: string, b: string, c: string)
    requires Less(a, b) && Less(b, c)
    ensures Less(a, c)
  {
    if |a| > 0 && a[0] == b[0] && b[0] == c[0] { LessTransitive(a[1..], b[1..], c[1..]); }
  }

  lemma {:induction false} LessTotal(a: string, b: string)
    ensures a != b ==> Less(a, b) || Less(b, a)
  {
    if |a| > 0 && |b| > 0 && a[0] == b[0] {
      LessTotal(a[1..], b[1..]);
      assert a == [a[0]] + a[1..] && b == [b[0]] + b[1..];
    }
  }
}
