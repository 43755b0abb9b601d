/**
 * The table operations the dashboard applies to its sheets: rewriting the
 * club-name column, the `isin` row filter, and the ordered distinct values of
 * a column.
 */
module Tables {

  /** One row of a sheet: its club-name cell and the row's other cells. */
  datatype Row<D> = Row(club: string, cells: D)

  /** The table with every club name passed through `f`; the other cells and
      the row order are kept. */
  function Relabel<D>(t: seq<Row<D>>, f: string -> string): (r: seq<Row<D>>)
    ensures |r| == |t|
    ensures forall i :: 0 <= i < |t| ==> r[i].club == f(t[i].club) && r[i].cells == t[i].cells
  {
    if t == [] then [] else [Row(f(t[0].club), t[0].cells)] + Relabel(t[1..], f)
  }

  /** Two rewriting passes over a column are one pass of their composition. */
  lemma RelabelTwice<D>(t: seq<Row<D>>, f: string -> string, g: string -> string, h: string -> string)
    requires forall s :: h(s) == g(f(s))
    ensures Relabel(Relabel(t, f), g) == Relabel(t, h)
  {
  }

  /** `df[col] = df[col].<op>`: rewrites the club-name column of the sheet in place. */
  method RelabelInPlace<D>(rows: array<Row<D>>, f: string -> string)
    modifies rows
    ensures rows[..] == Relabel(old(rows[..]), f)
  {
    var i := 0;
    while i < rows.Length
      invariant 0 <= i <= rows.Length
      invariant forall k :: 0 <= k < i ==> rows[k] == Row(f(old(rows[k]).club), old(rows[k]).cells)
      invariant forall k :: i <= k < rows.Length ==> rows[k] == old(rows[k])
    {
      rows[i] := Row(f(rows[i].club), rows[i].cells);
      i := i + 1;
    }
  }

  /** The club-name column. */
  function Clubs<D>(t: seq<Row<D>>): (r: seq<string>)
    ensures |r| == |t|
    ensures forall i :: 0 <= i < |t| ==> r[i] == t[i].club
  {
    if t == [] then [] else [t[0].club] + Clubs(t[1..])
  }

  /** `df[df[col].isin(selected)]`: the rows whose club is one of `selected`. */
  function Filter<D>(t: seq<Row<D>>, selected: seq<string>): (r: seq<Row<D>>)
    ensures |r| <= |t|
    ensures forall x :: x in r ==> x in t && x.club in selected
  {
    if t == [] then []
    else if t[0].club in selected then [t[0]] + Filter(t[1..], selected)
    else Filter(t[1..], selected)
  }

  /** `a` is `b` with some elements deleted, the rest kept in order. */
  predicate IsSubsequence<T(==)>(a: seq<T>, b: seq<T>)
    decreases |b|
  {
    if b == [] then a == []
    else (a != [] && a[0] == b[0] && IsSubsequence(a[1..], b[1..])) || IsSubsequence(a, b[1..])
  }

  // ---------------------------------------------------------------------
  // Filter

  /** The filter keeps table order: its result is a subsequence of the table. */
  lemma {:induction false} FilterIsSubsequence<D>(t: seq<Row<D>>, selected: seq<string>)
    ensures IsSubsequence(Filter(t, selected), t)
  {
    if t != [] {
      FilterIsSubsequence(t[1..], selected);
      if t[0].club in selected {
        assert ([t[0]] + Filter(t[1..], selected))[1..] == Filter(t[1..], selected);
      }
    }
  }

  /** Every row whose club is selected is kept, as often as the table holds it,
      and no other row is. */
  lemma {:induction false} FilterCount<D>(t: seq<Row<D>>, selected: seq<string>)
    ensures forall x :: multiset(Filter(t, selected))[x] == if x.club in selected then multiset(t)[x] else 0
  {
    if t != [] {
      FilterCount(t[1..], selected);
      assert t == [t[0]] + t[1..];
      assert multiset(t) == multiset{t[0]} + multiset(t[1..]);
      if t[0].club in selected {
        assert multiset(Filter(t, selected)) == multiset{t[0]} + multiset(Filter(t[1..], selected));
      }
    }
  }

  /** The filter distributes over concatenation of tables. */
  lemma {:induction false} FilterAppend<D>(a: seq<Row<D>>, b: seq<Row<D>>, selected: seq<string>)
    ensures Filter(a + b, selected) == Filter(a, selected) + Filter(b, selected)
  {
    if a == [] {
      assert a + b == b;
    } else {
      assert (a + b)[0] == a[0];
      assert (a + b)[1..] == a[1..] + b;
      FilterAppend(a[1..], b, selected);
    }
  }

  /** `isin` tests membership only: the order and repetitions of the selection
      do not matter. */
  lemma {:induction false} FilterDependsOnSet<D>(t: seq<Row<D>>, s1: seq<string>, s2: seq<string>)
    requires forall c :: c in s1 <==> c in s2
    ensures Filter(t, s1) == Filter(t, s2)
  {
    if t != [] {
      FilterDependsOnSet(t[1..], s1, s2);
    }
  }

  /** A selection that names no club of the table keeps nothing. */
  lemma {:induction false} FilterNone<D>(t: seq<Row<D>>, selected: seq<string>)
    requires forall i :: 0 <= i < |t| ==> t[i].club !in selected
    ensures Filter(t, selected) == []
  {
    if t != [] {
      FilterNone(t[1..], selected);
    }
  }

  /** A selection covering every club of the table keeps the whole table. */
  lemma {:induction false} FilterEverything<D>(t: seq<Row<D>>, selected: seq<string>)
    requires forall i :: 0 <= i < |t| ==> t[i].club in selected
    ensures Filter(t, selected) == t
  {
    if t != [] {
      FilterEverything(t[1..], selected);
      assert t == [t[0]] + t[1..];
    }
  }

  /** Narrowing the selection narrows the result: filtering by a smaller
      selection gives a subsequence of the larger selection's result, and is
      the same as filtering that result again. */
  lemma {:induction false} FilterNarrower<D>(t: seq<Row<D>>, small: seq<string>, large: seq<string>)
    requires forall c :: c in small ==> c in large
    ensures Filter(Filter(t, large), small) == Filter(t, small)
    ensures IsSubsequence(Filter(t, small), Filter(t, large))
  {
    if t != [] {
      FilterNarrower(t[1..], small, large);
      var rest := Filter(t[1..], large);
      if t[0].club in large {
        assert Filter(t, large) == [t[0]] + rest;
        assert (Filter(t, large))[1..] == rest;
        if t[0].club in small {
          assert ([t[0]] + Filter(t[1..], small))[1..] == Filter(t[1..], small);
        }
      }
    }
  }

  // ---------------------------------------------------------------------
  // Distinct values in order of first appearance

  /** The position of the first `x` in `s`. */
  function IndexOf<T(==)>(s: seq<T>, x: T): (k: nat)
    requires x in s
    ensures k < |s| && s[k] == x && x !in s[..k]
  {
    if s[0] == x then 0
    else
      var k := 1 + IndexOf(s[1..], x);
      assert s[..k] == [s[0]] + s[1..][..k - 1];
      k
  }

  lemma IndexOfIsFirst<T>(s: seq<T>, x: T, k: nat)
    requires k < |s| && s[k] == x && x !in s[..k]
    ensures IndexOf(s, x) == k
  {
  }

  /** First occurrences do not move when the sequence is extended. */
  lemma IndexOfPrefix<T>(s: seq<T>, n: nat, x: T)
    requires n <= |s| && x in s[..n]
    ensures IndexOf(s, x) == IndexOf(s[..n], x)
  {
    var k := IndexOf(s[..n], x);
    assert s[..n][..k] == s[..k];
    IndexOfIsFirst(s, x, k);
  }

  /** `Series.unique()`: the distinct values, in order of first appearance. */
  function Unique(s: seq<string>): (r: seq<string>)
    ensures forall x :: x in r <==> x in s
    ensures forall i, j :: 0 <= i < j < |r| ==> r[i] != r[j]
    ensures forall i, j :: 0 <= i < j < |r| ==> IndexOf(s, r[i]) < IndexOf(s, r[j])
  {
    if s == [] then []
    else
      var n := |s| - 1;
      var p := Unique(s[..n]);
      UniqueOrder(s, n, p);
      if s[n] in p then p else p + [s[n]]
  }

  /** The step of `Unique`: first indices in the prefix keep their order, and a
      new last value comes after all of them. */
  lemma UniqueOrder(s: seq<string>, n: nat, p: seq<string>)
    requires n + 1 == |s|
    requires forall x :: x in p <==> x in s[..n]
    requires forall i, j :: 0 <= i < j < |p| ==> IndexOf(s[..n], p[i]) < IndexOf(s[..n], p[j])
    ensures forall x :: x in p ==> x in s
    ensures forall i, j :: 0 <= i < j < |p| ==> IndexOf(s, p[i]) < IndexOf(s, p[j])
    ensures s[n] !in p ==> forall i :: 0 <= i < |p| ==> IndexOf(s, p[i]) < IndexOf(s, s[n])
  {
    assert s == s[..n] + [s[n]];
    forall i | 0 <= i < |p| ensures IndexOf(s, p[i]) == IndexOf(s[..n], p[i]) {
      IndexOfPrefix(s, n, p[i]);
    }
    if s[n] !in p {
      assert s[..n + 1] == s;
      IndexOfIsFirst(s, s[n], n);
    }
  }
}
