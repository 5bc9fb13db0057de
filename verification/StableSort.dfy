/** Stable sorting as sort.SliceStable promises it, for any strict weak order. */
module StableSort {
  import opened Common

  /** less is a strict weak order on the given elements. */
  ghost predicate StrictWeak<T>(less: (T, T) -> bool, elements: seq<T>) {
    && (forall x :: x in elements ==> !less(x, x))
    && (forall x, y, z :: x in elements && y in elements && z in elements && less(x, y) && less(y, z) ==> less(x, z))
    && (forall x, y, z :: x in elements && y in elements && z in elements && less(x, z) ==> less(x, y) || less(y, z))
  }

  ghost predicate Ordered<T>(less: (T, T) -> bool, s: seq<T>) {
    forall i, j :: 0 <= i < j < |s| ==> !less(s[j], s[i])
  }

  /** The elements that neither precede nor follow x. */
  function Ties<T>(less: (T, T) -> bool, x: T): T -> bool {
    y => !less(x, y) && !less(y, x)
  }

  /** Ordered, with every element's ties as many and in the same order as in the input: a stable permutation. */
  ghost predicate IsStableSort<T>(less: (T, T) -> bool, input: seq<T>, output: seq<T>) {
    && Ordered(less, output)
    && (forall x :: x in input ==> x in output) && (forall x :: x in output ==> x in input)
    && (forall x :: x in input ==> Filter(output, Ties(less, x)) == Filter(input, Ties(less, x)))
  }

  /** One step of insertion sort: past every element that must follow, and not past a tie. */
  function Insert<T>(less: (T, T) -> bool, s: seq<T>, x: T): seq<T> {
    if s == [] || !less(x, s[|s| - 1]) then s + [x]
    else Insert(less, s[..|s| - 1], x) + [s[|s| - 1]]
  }

  function Sort<T>(less: (T, T) -> bool, s: seq<T>): seq<T> {
    if s == [] then [] else Insert(less, Sort(less, s[..|s| - 1]), s[|s| - 1])
  }

  lemma {:induction false} InsertMembers<T>(less: (T, T) -> bool, s: seq<T>, x: T, y: T)
    ensures y in Insert(less, s, x) <==> y in s || y == x
  {
    if s != [] && less(x, s[|s| - 1]) {
      InsertMembers(less, s[..|s| - 1], x, y);
      assert s == s[..|s| - 1] + [s[|s| - 1]];
    }
  }

  lemma {:induction false} SortMembers<T>(less: (T, T) -> bool, s: seq<T>, y: T)
    ensures y in Sort(less, s) <==> y in s
  {
    if s != [] {
      SortMembers(less, s[..|s| - 1], y);
      InsertMembers(less, Sort(less, s[..|s| - 1]), s[|s| - 1], y);
      assert s == s[..|s| - 1] + [s[|s| - 1]];
    }
  }

  lemma {:induction false} InsertKeepsOrder<T>(less: (T, T) -> bool, s: seq<T>, x: T, all: seq<T>)
    requires StrictWeak(less, all) && x in all && (forall y :: y in s ==> y in all)
    requires Ordered(less, s)
    ensures Ordered(less, Insert(less, s, x))
  {
    if s == [] {
    } else {
      var n := |s| - 1;
      var last := s[n];
      if less(x, last) {
        InsertKeepsOrder(less, s[..n], x, all);
        var rest := Insert(less, s[..n], x);
        forall y | y in rest
          ensures !less(last, y)
        {
          InsertMembers(less, s[..n], x, y);
          NotBelowLast(less, s, x, y, all);
        }
      } else {
        forall y | y in s
          ensures !less(x, y)
        {
          NotBelowAny(less, s, x, y, all);
        }
      }
    }
  }

  lemma NotBelowLast<T>(less: (T, T) -> bool, s: seq<T>, x: T, y: T, all: seq<T>)
    requires StrictWeak(less, all) && x in all && (forall z :: z in s ==> z in all)
    requires s != [] && Ordered(less, s) && less(x, s[|s| - 1])
    requires y in s[..|s| - 1] || y == x
    ensures !less(s[|s| - 1], y)
  {
    var last := s[|s| - 1];
    assert last in s && last in all;
    if y == x {
      assert less(x, last) && less(last, x) ==> less(x, x);
    } else {
      var i :| 0 <= i < |s| - 1 && s[i] == y;
    }
  }

  lemma NotBelowAny<T>(less: (T, T) -> bool, s: seq<T>, x: T, y: T, all: seq<T>)
    requires StrictWeak(less, all) && x in all && (forall z :: z in s ==> z in all)
    requires s != [] && Ordered(less, s) && !less(x, s[|s| - 1]) && y in s
    ensures !less(x, y)
  {
    var last := s[|s| - 1];
    var i :| 0 <= i < |s| && s[i] == y;
    assert last in s && last in all && y in all;
    assert i == |s| - 1 || !less(last, y);
  }

  /** Elements that are ordered do not tie with the same element. */
  lemma TiesAreTransitive<T>(less: (T, T) -> bool, x: T, y: T, z: T, all: seq<T>)
    requires StrictWeak(less, all) && x in all && y in all && z in all
    ensures Ties(less, z)(x) && Ties(less, z)(y) ==> !less(x, y)
  {
  }

  lemma {:induction false} InsertKeepsTies<T>(less: (T, T) -> bool, s: seq<T>, x: T, z: T, all: seq<T>)
    requires StrictWeak(less, all) && x in all && z in all && (forall y :: y in s ==> y in all)
    ensures Filter(Insert(less, s, x), Ties(less, z)) == Filter(s, Ties(less, z)) + Filter([x], Ties(less, z))
  {
    var tie := Ties(less, z);
    if s == [] || !less(x, s[|s| - 1]) {
      FilterConcat(s, [x], tie);
    } else {
      var n := |s| - 1;
      var last := s[n];
      InsertKeepsTies(less, s[..n], x, z, all);
      FilterConcat(Insert(less, s[..n], x), [last], tie);
      FilterConcat(s[..n], [last], tie);
      assert s == s[..n] + [last];
      assert last in s;
      TiesAreTransitive(less, x, last, z, all);
      assert [x][1..] == [] && [last][1..] == [];
      assert Filter([x], tie) == [] || Filter([last], tie) == [];
    }
  }

  lemma {:induction false} SortIsStableOn<T>(less: (T, T) -> bool, s: seq<T>, all: seq<T>)
    requires StrictWeak(less, all) && (forall y :: y in s ==> y in all)
    ensures Ordered(less, Sort(less, s))
    ensures forall z :: z in all ==> Filter(Sort(less, s), Ties(less, z)) == Filter(s, Ties(less, z))
  {
    if s != [] {
      var n := |s| - 1;
      var before := Sort(less, s[..n]);
      assert s == s[..n] + [s[n]];
      SortIsStableOn(less, s[..n], all);
      assert s[n] in s;
      forall y | y in before
        ensures y in all
      {
        SortMembers(less, s[..n], y);
      }
      InsertKeepsOrder(less, before, s[n], all);
      forall z | z in all
        ensures Filter(Sort(less, s), Ties(less, z)) == Filter(s, Ties(less, z))
      {
        InsertKeepsTies(less, before, s[n], z, all);
        FilterConcat(s[..n], [s[n]], Ties(less, z));
      }
    }
  }

  /** Insertion sort is a stable sort. */
  lemma SortIsStable<T>(less: (T, T) -> bool, s: seq<T>)
    requires StrictWeak(less, s)
    ensures IsStableSort(less, s, Sort(less, s))
  {
    SortIsStableOn(less, s, s);
    forall x | x in s
      ensures x in Sort(less, s)
    {
      SortMembers(less, s, x);
    }
    forall x | x in Sort(less, s)
      ensures x in s
    {
      SortMembers(less, s, x);
    }
  }

  lemma {:induction false} InsertKeepsElements<T>(less: (T, T) -> bool, s: seq<T>, x: T)
    ensures multiset(Insert(less, s, x)) == multiset(s) + multiset{x}
  {
    if s != [] && less(x, s[|s| - 1]) {
      InsertKeepsElements(less, s[..|s| - 1], x);
      assert s == s[..|s| - 1] + [s[|s| - 1]];
    }
  }

  lemma {:induction false} SortKeepsElements<T>(less: (T, T) -> bool, s: seq<T>)
    ensures multiset(Sort(less, s)) == multiset(s)
  {
    if s != [] {
      SortKeepsElements(less, s[..|s| - 1]);
      InsertKeepsElements(less, Sort(less, s[..|s| - 1]), s[|s| - 1]);
      assert s == s[..|s| - 1] + [s[|s| - 1]];
    }
  }

  /** sort.SliceStable as a function of the comparison and the elements: always a permutation, and a stable sort if the
      comparison is a strict weak order on them. Otherwise the permutation is left open. */
  ghost predicate IsLibrarySort<T(!new)>(library: ((T, T) -> bool, seq<T>) -> seq<T>) {
    forall less: (T, T) -> bool, s: seq<T> ::
      && multiset(library(less, s)) == multiset(s)
      && (StrictWeak(less, s) ==> IsStableSort(less, s, library(less, s)))
  }

  function InsertionSort<T>(): ((T, T) -> bool, seq<T>) -> seq<T> {
    (less: (T, T) -> bool, s: seq<T>) => Sort(less, s)
  }

  lemma InsertionSortQualifies<T(!new)>()
    ensures IsLibrarySort<T>(InsertionSort())
  {
    forall less: (T, T) -> bool, s: seq<T>
      ensures multiset(Sort(less, s)) == multiset(s)
      ensures StrictWeak(less, s) ==> IsStableSort(less, s, Sort(less, s))
    {
      SortKeepsElements(less, s);
      if StrictWeak(less, s) {
        SortIsStable(less, s);
      }
    }
  }

  // ---- there is only one stable sort ---------------------------------------------------------

  /** Two ordered sequences of the same elements whose ties agree. */
  ghost predicate SameTies<T>(less: (T, T) -> bool, a: seq<T>, b: seq<T>, all: seq<T>) {
    && (forall x :: x in a ==> x in all) && (forall x :: x in b ==> x in all)
    && (forall x :: x in all ==> Filter(a, Ties(less, x)) == Filter(b, Ties(less, x)))
  }

  lemma TiedMembers<T>(less: (T, T) -> bool, a: seq<T>, b: seq<T>, all: seq<T>, x: T)
    requires StrictWeak(less, all) && SameTies(less, a, b, all) && x in a
    ensures x in b
  {
    FilterMembers(a, Ties(less, x), x);
    FilterMembers(b, Ties(less, x), x);
  }

  lemma EmptyTogether<T>(less: (T, T) -> bool, a: seq<T>, b: seq<T>, all: seq<T>)
    requires StrictWeak(less, all) && SameTies(less, a, b, all)
    ensures a == [] <==> b == []
  {
    if a != [] {
      TiedMembers(less, a, b, all, a[0]);
    }
    if b != [] {
      TiedMembers(less, b, a, all, b[0]);
    }
  }

  lemma SameFirst<T>(less: (T, T) -> bool, a: seq<T>, b: seq<T>, all: seq<T>)
    requires StrictWeak(less, all) && SameTies(less, a, b, all)
    requires Ordered(less, a) && Ordered(less, b) && a != [] && b != []
    ensures a[0] == b[0]
  {
    assert a[0] in a && b[0] in b;
    TiedMembers(less, a, b, all, a[0]);
    TiedMembers(less, b, a, all, b[0]);
    var i :| 0 <= i < |b| && b[i] == a[0];
    var j :| 0 <= j < |a| && a[j] == b[0];
    assert !less(a[0], b[0]) && !less(b[0], a[0]);
    assert Filter(a, Ties(less, a[0]))[0] == a[0];
    assert Filter(b, Ties(less, a[0]))[0] == b[0];
  }

  lemma SameRest<T>(less: (T, T) -> bool, a: seq<T>, b: seq<T>, all: seq<T>)
    requires SameTies(less, a, b, all) && a != [] && b != [] && a[0] == b[0]
    ensures SameTies(less, a[1..], b[1..], all)
  {
    forall x | x in all
      ensures Filter(a[1..], Ties(less, x)) == Filter(b[1..], Ties(less, x))
    {
      assert Filter(a, Ties(less, x)) == Filter(b, Ties(less, x));
      var head := if Ties(less, x)(a[0]) then [a[0]] else [];
      assert Filter(a, Ties(less, x)) == head + Filter(a[1..], Ties(less, x));
      assert Filter(b, Ties(less, x)) == head + Filter(b[1..], Ties(less, x));
      assert Filter(a[1..], Ties(less, x)) == Filter(a, Ties(less, x))[|head|..];
      assert Filter(b[1..], Ties(less, x)) == Filter(b, Ties(less, x))[|head|..];
    }
  }

  lemma {:induction false} OrderedTiesAreUnique<T>(less: (T, T) -> bool, a: seq<T>, b: seq<T>, all: seq<T>)
    requires StrictWeak(less, all) && SameTies(less, a, b, all)
    requires Ordered(less, a) && Ordered(less, b)
    ensures a == b
  {
    EmptyTogether(less, a, b, all);
    if a != [] {
      SameFirst(less, a, b, all);
      SameRest(less, a, b, all);
      OrderedTiesAreUnique(less, a[1..], b[1..], all);
      assert a == [a[0]] + a[1..] && b == [b[0]] + b[1..];
    }
  }

  /** Whatever algorithm is used, a stable sort of a sequence by a strict weak order is the same sequence. */
  lemma StableSortIsUnique<T>(less: (T, T) -> bool, input: seq<T>, output: seq<T>)
    requires StrictWeak(less, input) && IsStableSort(less, input, output)
    ensures output == Sort(less, input)
  {
    SortIsStable(less, input);
    OrderedTiesAreUnique(less, output, Sort(less, input), input);
  }
}
