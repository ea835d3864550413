/**
 Total orders, and what Python's sorted() returns for them.

 Sort models sorted() of a list and Ascending models sorted() of a set.  Both are pinned down by what they return,
 not by how: a list is ordered and has the same elements, and there is only one such list.
 */
module Orders {

  ghost predicate TotalOrder<T(!new)>(le: (T, T) -> bool) {
    && (forall x, y :: le(x, y) || le(y, x))
    && (forall x, y :: le(x, y) && le(y, x) ==> x == y)
    && (forall x, y, z :: le(x, y) && le(y, z) ==> le(x, z))
  }

  // What is left when different elements may rank the same.
  ghost predicate TotalPreorder<T(!new)>(le: (T, T) -> bool) {
    && (forall x, y :: le(x, y) || le(y, x))
    && (forall x, y, z :: le(x, y) && le(y, z) ==> le(x, z))
  }

  ghost predicate Ordered<T>(xs: seq<T>, le: (T, T) -> bool) {
    forall i, j :: 0 <= i < j < |xs| ==> le(xs[i], xs[j])
  }

  ghost predicate NoDuplicates<T>(xs: seq<T>) {
    forall i, j :: 0 <= i < j < |xs| ==> xs[i] != xs[j]
  }

  function Elements<T>(xs: seq<T>): set<T> {
    set x | x in xs
  }

  // ----- sorted() of a list -----

  function InsertOrdered<T>(x: T, xs: seq<T>, le: (T, T) -> bool): seq<T> {
    if xs == [] then [x]
    else if le(x, xs[0]) then [x] + xs
    else [xs[0]] + InsertOrdered(x, xs[1..], le)
  }

  function Sort<T>(xs: seq<T>, le: (T, T) -> bool): seq<T> {
    if xs == [] then [] else InsertOrdered(xs[0], Sort(xs[1..], le), le)
  }

  lemma {:induction false} InsertOrderedPermutes<T>(x: T, xs: seq<T>, le: (T, T) -> bool)
    ensures multiset(InsertOrdered(x, xs, le)) == multiset{x} + multiset(xs)
  {
    if xs != [] && !le(x, xs[0]) {
      InsertOrderedPermutes(x, xs[1..], le);
      assert xs == [xs[0]] + xs[1..];
    }
  }

  lemma {:induction false} InsertOrderedOrdered<T(!new)>(x: T, xs: seq<T>, le: (T, T) -> bool)
    requires TotalPreorder(le) && Ordered(xs, le)
    ensures Ordered(InsertOrdered(x, xs, le), le)
  {
    if xs != [] && !le(x, xs[0]) {
      InsertOrderedOrdered(x, xs[1..], le);
      InsertOrderedPermutes(x, xs[1..], le);
      var rest := InsertOrdered(x, xs[1..], le);
      forall j | 0 <= j < |rest| ensures le(xs[0], rest[j]) {
        assert rest[j] in multiset(rest);
        assert rest[j] == x || rest[j] in xs[1..];
      }
    }
  }

  lemma {:induction false} SortPermutes<T>(xs: seq<T>, le: (T, T) -> bool)
    ensures multiset(Sort(xs, le)) == multiset(xs)
    ensures |Sort(xs, le)| == |xs|
  {
    if xs != [] {
      SortPermutes(xs[1..], le);
      InsertOrderedPermutes(xs[0], Sort(xs[1..], le), le);
      assert xs == [xs[0]] + xs[1..];
    }
    assert |multiset(Sort(xs, le))| == |multiset(xs)|;
  }

  lemma {:induction false} SortOrdered<T(!new)>(xs: seq<T>, le: (T, T) -> bool)
    requires TotalPreorder(le)
    ensures Ordered(Sort(xs, le), le)
  {
    if xs != [] {
      SortOrdered(xs[1..], le);
      InsertOrderedOrdered(xs[0], Sort(xs[1..], le), le);
    }
  }

  lemma SortElements<T>(xs: seq<T>, le: (T, T) -> bool)
    ensures forall x :: x in Sort(xs, le) <==> x in xs
  {
    SortPermutes(xs, le);
    SameElements(Sort(xs, le), xs);
  }

  lemma SameElements<T>(xs: seq<T>, ys: seq<T>)
    requires multiset(xs) == multiset(ys)
    ensures |xs| == |ys| && forall x :: x in xs <==> x in ys
  {
    assert |xs| == |multiset(xs)| == |multiset(ys)| == |ys|;
    forall x ensures x in xs <==> x in ys {
      assert x in xs <==> x in multiset(xs);
      assert x in ys <==> x in multiset(ys);
    }
  }

  lemma SameTails<T>(xs: seq<T>, ys: seq<T>)
    requires xs != [] && ys != [] && xs[0] == ys[0] && multiset(xs) == multiset(ys)
    ensures multiset(xs[1..]) == multiset(ys[1..])
  {
    assert xs == [xs[0]] + xs[1..] && ys == [ys[0]] + ys[1..];
    assert multiset(xs[1..]) == multiset(xs) - multiset{xs[0]};
    assert multiset(ys[1..]) == multiset(ys) - multiset{ys[0]};
  }

  // Two ordered lists with the same elements, multiplicities included, are the same list, if no two of them rank the
  // same.
  lemma {:induction false} OrderedUnique<T(!new)>(xs: seq<T>, ys: seq<T>, le: (T, T) -> bool)
    requires Ordered(xs, le) && Ordered(ys, le) && multiset(xs) == multiset(ys)
    requires forall x, y :: x in xs && y in xs && le(x, y) && le(y, x) ==> x == y
    ensures xs == ys
  {
    SameElements(xs, ys);
    if xs != [] {
      assert xs[0] in ys && ys[0] in xs;
      SameTails(xs, ys);
      OrderedUnique(xs[1..], ys[1..], le);
    }
  }

  // Sorting any arrangement of an ordered list restores it, if no two of its elements rank the same.
  lemma SortRestores<T(!new)>(xs: seq<T>, ys: seq<T>, le: (T, T) -> bool)
    requires TotalPreorder(le) && Ordered(ys, le) && multiset(xs) == multiset(ys)
    requires forall x, y :: x in ys && y in ys && le(x, y) && le(y, x) ==> x == y
    ensures Sort(xs, le) == ys
  {
    SortPermutes(xs, le);
    SortOrdered(xs, le);
    OrderedUnique(ys, Sort(xs, le), le);
  }

  predicate Tie<T>(a: T, b: T, le: (T, T) -> bool) {
    le(a, b) && le(b, a)
  }

  // The elements of xs that rank the same as e, in their order.
  function Ties<T>(xs: seq<T>, e: T, le: (T, T) -> bool): seq<T> {
    if xs == [] then [] else (if Tie(e, xs[0], le) then [xs[0]] else []) + Ties(xs[1..], e, le)
  }

  lemma TiesFirst<T>(x: T, xs: seq<T>, e: T, le: (T, T) -> bool)
    ensures Ties([x] + xs, e, le) == (if Tie(e, x, le) then [x] else []) + Ties(xs, e, le)
  {
    assert ([x] + xs)[1..] == xs;
  }

  lemma {:induction false} InsertOrderedStable<T(!new)>(x: T, xs: seq<T>, e: T, le: (T, T) -> bool)
    requires forall y :: y in xs && Tie(e, x, le) && Tie(e, y, le) ==> le(x, y)
    ensures Ties(InsertOrdered(x, xs, le), e, le) == Ties([x] + xs, e, le)
  {
    TiesFirst(x, xs, e, le);
    if xs != [] && !le(x, xs[0]) {
      InsertOrderedStable(x, xs[1..], e, le);
      TiesFirst(x, xs[1..], e, le);
      TiesFirst(xs[0], InsertOrdered(x, xs[1..], le), e, le);
      assert !Tie(e, x, le) || !Tie(e, xs[0], le);
    }
  }

  // sorted() is stable: what ranks the same keeps its order.
  lemma {:induction false} SortStable<T(!new)>(xs: seq<T>, e: T, le: (T, T) -> bool)
    requires TotalPreorder(le)
    ensures Ties(Sort(xs, le), e, le) == Ties(xs, e, le)
  {
    if xs != [] {
      SortStable(xs[1..], e, le);
      InsertOrderedStable(xs[0], Sort(xs[1..], le), e, le);
      assert ([xs[0]] + Sort(xs[1..], le))[1..] == Sort(xs[1..], le);
    }
  }

  // ----- sorted() of a set -----

  lemma {:induction false} LeastExists<T(!new)>(s: set<T>, le: (T, T) -> bool) returns (least: T)
    requires TotalOrder(le) && s != {}
    ensures least in s && forall y :: y in s ==> le(least, y)
  {
    var x :| x in s;
    if s == {x} {
      least := x;
    } else {
      assert s - {x} != {};
      var rest := LeastExists(s - {x}, le);
      least := if le(x, rest) then x else rest;
      forall y | y in s ensures le(least, y) {
        assert y == x || y in s - {x};
      }
    }
  }

  function Least<T(!new)>(s: set<T>, le: (T, T) -> bool): (least: T)
    requires TotalOrder(le) && s != {}
    ensures least in s && forall y :: y in s ==> le(least, y)
  {
    assert exists x :: x in s && forall y :: y in s ==> le(x, y) by {
      var x := LeastExists(s, le);
    }
    var x :| x in s && forall y :: y in s ==> le(x, y);
    x
  }

  function Ascending<T(!new)>(s: set<T>, le: (T, T) -> bool): (xs: seq<T>)
    requires TotalOrder(le)
    ensures |xs| == |s| && forall x :: x in xs <==> x in s
  {
    if s == {} then []
    else
      var x := Least(s, le);
      [x] + Ascending(s - {x}, le)
  }

  lemma {:induction false} AscendingOrdered<T(!new)>(s: set<T>, le: (T, T) -> bool)
    requires TotalOrder(le)
    ensures Ordered(Ascending(s, le), le) && NoDuplicates(Ascending(s, le))
  {
    if s != {} {
      var x := Least(s, le);
      var rest := Ascending(s - {x}, le);
      AscendingOrdered(s - {x}, le);
      forall j | 0 <= j < |rest| ensures le(x, rest[j]) && x != rest[j] {
        assert rest[j] in rest;
      }
    }
  }

  // ----- the orders themselves -----

  predicate IntLe(a: int, b: int) {
    a <= b
  }

  predicate CharLe(a: char, b: char) {
    a <= b
  }

  predicate LexLe<T(==)>(a: seq<T>, b: seq<T>, le: (T, T) -> bool) {
    a == [] || (b != [] && if a[0] == b[0] then LexLe(a[1..], b[1..], le) else le(a[0], b[0]))
  }

  lemma {:induction false} LexTotal<T(!new)>(a: seq<T>, b: seq<T>, le: (T, T) -> bool)
    requires TotalOrder(le)
    ensures LexLe(a, b, le) || LexLe(b, a, le)
    ensures LexLe(a, b, le) && LexLe(b, a, le) ==> a == b
  {
    if a != [] && b != [] && a[0] == b[0] {
      LexTotal(a[1..], b[1..], le);
      assert a == [a[0]] + a[1..] && b == [b[0]] + b[1..];
    }
  }

  lemma {:induction false} LexTransitive<T(!new)>(a: seq<T>, b: seq<T>, c: seq<T>, le: (T, T) -> bool)
    requires TotalOrder(le)
    requires LexLe(a, b, le) && LexLe(b, c, le)
    ensures LexLe(a, c, le)
  {
    if a != [] && a[0] == b[0] && b[0] == c[0] {
      LexTransitive(a[1..], b[1..], c[1..], le);
    }
  }

  // Strings compare by code point, as Python's str does.
  predicate NameLe(a: string, b: string) {
    LexLe(a, b, CharLe)
  }

  // Lists of positions compare lexicographically, as Python's list does.
  predicate PositionsLe(a: seq<int>, b: seq<int>) {
    LexLe(a, b, IntLe)
  }

  lemma NameLeTotalOrder()
    ensures TotalOrder(NameLe)
  {
    forall x: string, y: string ensures NameLe(x, y) || NameLe(y, x)
    {
      LexTotal(x, y, CharLe);
    }
    forall x: string, y: string | NameLe(x, y) && NameLe(y, x) ensures x == y {
      LexTotal(x, y, CharLe);
    }
    forall x: string, y: string, z: string | NameLe(x, y) && NameLe(y, z) ensures NameLe(x, z) {
      LexTransitive(x, y, z, CharLe);
    }
  }

  lemma PositionsLeTotalOrder()
    ensures TotalOrder(PositionsLe)
  {
    forall x: seq<int>, y: seq<int> ensures PositionsLe(x, y) || PositionsLe(y, x)
    {
      LexTotal(x, y, IntLe);
    }
    forall x: seq<int>, y: seq<int> | PositionsLe(x, y) && PositionsLe(y, x) ensures x == y {
      LexTotal(x, y, IntLe);
    }
    forall x: seq<int>, y: seq<int>, z: seq<int> | PositionsLe(x, y) && PositionsLe(y, z) ensures PositionsLe(x, z) {
      LexTransitive(x, y, z, IntLe);
    }
  }

  // What comparing lists means: a prefix comes first, and otherwise the first difference decides.
  lemma {:induction false} LexLeIff<T(!new)>(a: seq<T>, b: seq<T>, le: (T, T) -> bool)
    ensures LexLe(a, b, le) <==>
            a <= b || exists i :: 0 <= i < |a| && i < |b| && a[..i] == b[..i] && a[i] != b[i] && le(a[i], b[i])
  {
    if a != [] && b != [] {
      if a[0] == b[0] {
        LexLeIff(a[1..], b[1..], le);
        assert a <= b <==> a[1..] <= b[1..];
        if i :| 0 <= i < |a[1..]| && i < |b[1..]| && a[1..][..i] == b[1..][..i] && a[1..][i] != b[1..][i]
                && le(a[1..][i], b[1..][i])
        {
          assert a[..i + 1] == [a[0]] + a[1..][..i] && b[..i + 1] == [b[0]] + b[1..][..i];
        }
        if i :| 0 <= i < |a| && i < |b| && a[..i] == b[..i] && a[i] != b[i] && le(a[i], b[i]) {
          assert a[1..][..i - 1] == a[..i][1..] && b[1..][..i - 1] == b[..i][1..];
          assert a[1..][i - 1] == a[i] && b[1..][i - 1] == b[i];
        }
      } else {
        assert !(a <= b);
        assert le(a[0], b[0]) ==> a[..0] == b[..0];
        assert forall i :: 0 < i < |a| && i < |b| ==> a[..i][0] != b[..i][0];
      }
    }
  }

  // Names ascend by code point.
  lemma NameLeIff(a: string, b: string)
    ensures NameLe(a, b) <==> a <= b || exists i :: 0 <= i < |a| && i < |b| && a[..i] == b[..i] && a[i] < b[i]
  {
    LexLeIff(a, b, CharLe);
    if i :| 0 <= i < |a| && i < |b| && a[..i] == b[..i] && a[i] != b[i] && CharLe(a[i], b[i]) {
      assert a[i] < b[i];
    }
    if i :| 0 <= i < |a| && i < |b| && a[..i] == b[..i] && a[i] < b[i] {
      assert a[i] != b[i] && CharLe(a[i], b[i]);
    }
  }

  // Lists of positions ascend by their first difference.
  lemma PositionsLeIff(a: seq<int>, b: seq<int>)
    ensures PositionsLe(a, b) <==> a <= b || exists i :: 0 <= i < |a| && i < |b| && a[..i] == b[..i] && a[i] < b[i]
  {
    LexLeIff(a, b, IntLe);
    if i :| 0 <= i < |a| && i < |b| && a[..i] == b[..i] && a[i] != b[i] && IntLe(a[i], b[i]) {
      assert a[i] < b[i];
    }
    if i :| 0 <= i < |a| && i < |b| && a[..i] == b[..i] && a[i] < b[i] {
      assert a[i] != b[i] && IntLe(a[i], b[i]);
    }
  }

  // ----- Python slicing and counting -----

  // xs[:k], where a negative k counts from the end.
  function SliceTo<T>(xs: seq<T>, k: int): seq<T> {
    if k < 0 then (if |xs| + k < 0 then [] else xs[..|xs| + k])
    else if k < |xs| then xs[..k]
    else xs
  }

  lemma Joined<T>(a: seq<T>, b: seq<T>, c: seq<T>)
    ensures a + (b + c) == a + b + c
  {
  }

  lemma ElementsOfPrefix<T>(xs: seq<T>, i: nat)
    requires i <= |xs| && NoDuplicates(xs)
    ensures i == |xs| ==> Elements(xs[..i]) == Elements(xs)
    ensures i < |xs| ==> xs[i] in xs && xs[i] !in Elements(xs[..i])
    ensures i < |xs| ==> Elements(xs[..i + 1]) == Elements(xs[..i]) + {xs[i]}
  {
    assert i == |xs| ==> xs[..i] == xs;
    assert i < |xs| ==> xs[..i + 1] == xs[..i] + [xs[i]];
  }

  // A list without repetitions has as many elements as the set of them.
  lemma {:induction false} DistinctCount<T>(xs: seq<T>)
    requires NoDuplicates(xs)
    ensures |Elements(xs)| == |xs|
  {
    if xs == [] {
      assert Elements(xs) == {};
    } else {
      DistinctCount(xs[1..]);
      assert Elements(xs) == {xs[0]} + Elements(xs[1..]);
    }
  }

  // A rearrangement of a list without repetitions has none either.
  lemma DuplicateFree<T>(xs: seq<T>, ys: seq<T>)
    requires NoDuplicates(xs) && multiset(xs) == multiset(ys)
    ensures NoDuplicates(ys)
  {
    DistinctCount(xs);
    SameElements(xs, ys);
    assert Elements(xs) == Elements(ys);
    CountDistinct(ys);
  }

  // The converse of DistinctCount.
  lemma {:induction false} CountDistinct<T>(xs: seq<T>)
    ensures |Elements(xs)| <= |xs|
    ensures |Elements(xs)| == |xs| ==> NoDuplicates(xs)
  {
    if xs == [] {
      assert Elements(xs) == {};
    } else {
      CountDistinct(xs[1..]);
      assert Elements(xs) == {xs[0]} + Elements(xs[1..]);
    }
  }

  lemma SubsetCount<T>(a: set<T>, b: set<T>)
    requires a <= b
    ensures |a| <= |b|
    ensures |a| == |b| ==> a == b
  {
    assert b == a + (b - a);
    assert |b| == |a| + |b - a|;
  }

  lemma SplitAt<T>(xs: seq<T>, i: nat)
    requires i < |xs|
    ensures xs[..i + 1] == xs[..i] + [xs[i]] && xs[i..][0] == xs[i] && xs[i + 1..] == xs[i..][1..]
    ensures xs[i] in xs
  {
  }

  function Reversed<T>(s: seq<T>): (r: seq<T>)
    ensures |r| == |s| && forall i :: 0 <= i < |s| ==> r[i] == s[|s| - 1 - i]
  {
    seq(|s|, i requires 0 <= i < |s| => s[|s| - 1 - i])
  }

  // What a search has not seen yet gets no larger, and stays the same only if nothing new was seen.
  lemma UnseenShrinks<T>(universe: set<T>, seen: set<T>, seen': set<T>)
    requires seen <= seen' <= universe
    ensures |universe - seen'| <= |universe - seen|
    ensures |universe - seen'| == |universe - seen| ==> seen' == seen
  {
    SubsetCount(universe - seen', universe - seen);
    if |universe - seen'| == |universe - seen| {
      forall x | x in seen' ensures x in seen {
        assert x !in universe - seen';
      }
    }
  }
}
