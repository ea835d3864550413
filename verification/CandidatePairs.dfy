/**
 Prefix-filtered candidate generation (codebase_rag/duplicates.py, _candidate_pairs, _prefix_index, _pairs_from_index).
 */
module CandidatePairs {
  import opened Orders
  import opened Clones

  // DUPLICATES_PREFIX_EPSILON
  const PREFIX_EPSILON: real := 0.000000001

  function Ceil(x: real): int {
    -((-x).Floor)
  }

  // The overlap an entry of this size must have with a partner at the threshold.
  function Required(t: real, size: int): int {
    var least := Ceil(t * size as real - PREFIX_EPSILON);
    if least > 1 then least else 1
  }

  function FrequencyOf(frequency: map<string, nat>, branch: string): nat {
    if branch in frequency then frequency[branch] else 0
  }

  // Rarest branch first, ties by name: the sort key (frequency[branch], branch).
  predicate RarerOrSame(frequency: map<string, nat>, a: string, b: string) {
    FrequencyOf(frequency, a) < FrequencyOf(frequency, b)
    || (FrequencyOf(frequency, a) == FrequencyOf(frequency, b) && NameLe(a, b))
  }

  function Rarity(frequency: map<string, nat>): (string, string) -> bool {
    (a, b) => RarerOrSame(frequency, a, b)
  }

  lemma RarityTotalOrder(frequency: map<string, nat>)
    ensures TotalOrder(Rarity(frequency))
  {
    NameLeTotalOrder();
  }

  function Ranked(frequency: map<string, nat>, branches: set<string>): seq<string> {
    RarityTotalOrder(frequency);
    Ascending(branches, Rarity(frequency))
  }

  // The branches an entry is indexed under.
  function Prefix(t: real, frequency: map<string, nat>, branches: set<string>): seq<string> {
    SliceTo(Ranked(frequency, branches), |branches| - Required(t, |branches|) + 1)
  }

  ghost predicate SharesPrefix(t: real, frequency: map<string, nat>, a: set<string>, b: set<string>) {
    exists branch :: branch in Prefix(t, frequency, a) && branch in Prefix(t, frequency, b)
  }

  // ----- no qualifying pair is lost -----

  lemma RequiredBounds(t: real, size: nat, overlap: nat)
    requires t * size as real <= overlap as real && 1 <= overlap
    ensures 1 <= Required(t, size) <= overlap
  {
  }

  // What is ranked at or after the k-th element of an ordered list is in its tail.
  lemma TailHolds<T(!new)>(ranked: seq<T>, le: (T, T) -> bool, k: nat, x: T)
    requires TotalOrder(le) && Ordered(ranked, le) && k < |ranked| && x in ranked && le(ranked[k], x)
    ensures x in ranked[k..]
  {
    var j :| 0 <= j < |ranked| && ranked[j] == x;
    if j < k {
      assert le(ranked[j], ranked[k]);
    }
    var tail, i := ranked[k..], if j < k then 0 else j - k;
    assert tail[i] == x;
  }

  // In any total order, the least shared element sits within the first |a| - |a * b| + 1 elements of a.
  lemma LeastSharedPosition<T(!new)>(a: set<T>, b: set<T>, le: (T, T) -> bool, shared: T) returns (k: nat)
    requires TotalOrder(le) && shared in a * b && forall x :: x in a * b ==> le(shared, x)
    ensures k < |a| && Ascending(a, le)[k] == shared && k <= |a| - |a * b|
  {
    var ranked := Ascending(a, le);
    AscendingOrdered(a, le);
    assert shared in ranked;
    k :| 0 <= k < |ranked| && ranked[k] == shared;
    forall x | x in a * b ensures x in ranked[k..] {
      TailHolds(ranked, le, k, x);
    }
    CountedInTail(ranked[k..], a * b);
  }

  lemma CountedInTail<T>(tail: seq<T>, s: set<T>)
    requires forall x :: x in s ==> x in tail
    ensures |s| <= |tail|
  {
    CountDistinct(tail);
    SubsetCount(s, Elements(tail));
  }

  lemma SharedInPrefix(t: real, frequency: map<string, nat>, a: set<string>, b: set<string>, shared: string)
    requires shared in a * b && forall x :: x in a * b ==> RarerOrSame(frequency, shared, x)
    requires t * |a| as real <= |a * b| as real
    ensures shared in Prefix(t, frequency, a)
  {
    assert a * b != {};
    RequiredBounds(t, |a|, |a * b|);
    SharedInSlice(frequency, a, b, shared, Required(t, |a|));
  }

  lemma SharedInSlice(frequency: map<string, nat>, a: set<string>, b: set<string>, shared: string, required: int)
    requires shared in a * b && forall x :: x in a * b ==> RarerOrSame(frequency, shared, x)
    requires 1 <= required <= |a * b|
    ensures shared in SliceTo(Ranked(frequency, a), |a| - required + 1)
  {
    RarityTotalOrder(frequency);
    LeastSharedInSlice(a, b, Rarity(frequency), shared, |a| - required + 1);
  }

  lemma LeastSharedInSlice<T(!new)>(a: set<T>, b: set<T>, le: (T, T) -> bool, shared: T, length: int)
    requires TotalOrder(le) && shared in a * b && forall x :: x in a * b ==> le(shared, x)
    requires |a| - |a * b| < length
    ensures shared in SliceTo(Ascending(a, le), length)
  {
    var k := LeastSharedPosition(a, b, le, shared);
    assert SliceTo(Ascending(a, le), length)[k] == shared;
  }

  // Exactness of the filter: for a positive threshold, any two branch sets at the threshold share a prefix branch,
  // whatever the frequencies the branches are ranked by.
  lemma QualifyingPairShares(t: real, frequency: map<string, nat>, a: set<string>, b: set<string>)
    requires 0.0 < t <= Jaccard(a, b)
    ensures SharesPrefix(t, frequency, a, b)
  {
    OverlapAtLeast(a, b, t);
    RarityTotalOrder(frequency);
    var shared := Least(a * b, Rarity(frequency));
    assert forall x :: x in a * b ==> Rarity(frequency)(shared, x);
    SharedInPrefix(t, frequency, a, b, shared);
    assert a * b == b * a;
    SharedInPrefix(t, frequency, b, a, shared);
  }

  // Conversely, only sets with a common branch are ever paired.
  lemma PairSharesBranch(t: real, frequency: map<string, nat>, a: set<string>, b: set<string>)
    requires SharesPrefix(t, frequency, a, b)
    ensures a * b != {}
  {
    var branch :| branch in Prefix(t, frequency, a) && branch in Prefix(t, frequency, b);
    RarityTotalOrder(frequency);
    assert branch in Ranked(frequency, a) && branch in Ranked(frequency, b);
    assert branch in a * b;
  }

  // With a threshold of zero or less, which the command line accepts at zero, every branch is indexed, so a pair is a
  // candidate exactly when it shares a branch; disjoint pairs satisfy the threshold and are lost.
  lemma NonPositiveThreshold(t: real, frequency: map<string, nat>, a: set<string>, b: set<string>)
    requires t <= 0.0
    ensures SharesPrefix(t, frequency, a, b) <==> a * b != {}
    ensures t <= Jaccard(a, b)
  {
    NonPositivePrefix(t, frequency, a);
    NonPositivePrefix(t, frequency, b);
    if a * b != {} {
      var x :| x in a * b;
      assert x in Prefix(t, frequency, a) && x in Prefix(t, frequency, b);
    }
    JaccardNonNegative(a, b);
  }

  lemma JaccardNonNegative(a: set<string>, b: set<string>)
    ensures 0.0 <= Jaccard(a, b)
  {
  }

  lemma NonPositivePrefix(t: real, frequency: map<string, nat>, a: set<string>)
    requires t <= 0.0
    ensures forall x :: x in Prefix(t, frequency, a) <==> x in a
  {
    assert t * |a| as real <= 0.0;
    assert Required(t, |a|) == 1;
    assert Prefix(t, frequency, a) == Ranked(frequency, a);
    RarityTotalOrder(frequency);
  }

  // The filter is exact for every pair of branch sets if and only if the threshold is positive.
  lemma FilterExactIff(t: real)
    ensures t > 0.0 <==> forall frequency, a, b :: t <= Jaccard(a, b) ==> SharesPrefix(t, frequency, a, b)
  {
    if t > 0.0 {
      forall frequency, a, b | t <= Jaccard(a, b) ensures SharesPrefix(t, frequency, a, b) {
        QualifyingPairShares(t, frequency, a, b);
      }
    } else {
      var a, b := {"x"}, {"y"};
      NonPositiveThreshold(t, map[], a, b);
      assert a * b == {};
    }
  }

  // ----- the index -----

  // How many entries carry a branch.
  function Carriers(order: seq<Entry>, branch: string): nat {
    if order == [] then 0
    else Carriers(order[..|order| - 1], branch) + if branch in order[|order| - 1].branches then 1 else 0
  }

  ghost predicate CountsCarriers(frequency: map<string, nat>, order: seq<Entry>) {
    forall branch :: FrequencyOf(frequency, branch) == Carriers(order, branch)
  }

  method BranchFrequency(order: seq<Entry>) returns (frequency: map<string, nat>)
    ensures CountsCarriers(frequency, order)
  {
    frequency := map[];
    for i := 0 to |order|
      invariant CountsCarriers(frequency, order[..i])
    {
      ghost var before := frequency;
      var rest := order[i].branches;
      while rest != {}
        invariant rest <= order[i].branches
        invariant forall branch :: FrequencyOf(frequency, branch) ==
                    FrequencyOf(before, branch) + if branch in order[i].branches - rest then 1 else 0
      {
        var branch :| branch in rest;
        frequency := frequency[branch := FrequencyOf(frequency, branch) + 1];
        rest := rest - {branch};
      }
      assert order[..i + 1][..i] == order[..i];
    }
    assert order[..|order|] == order;
  }

  function Prefixes(t: real, frequency: map<string, nat>, order: seq<Entry>): seq<seq<string>> {
    seq(|order|, p requires 0 <= p < |order| => Prefix(t, frequency, order[p].branches))
  }

  // The positions of the entries indexed under a branch, in ascending order.
  function Postings(prefixes: seq<seq<string>>, branch: string): seq<nat> {
    if prefixes == [] then []
    else
      var last := |prefixes| - 1;
      Postings(prefixes[..last], branch) + if branch in prefixes[last] then [last] else []
  }

  lemma {:induction false} PostingsMeaning(prefixes: seq<seq<string>>, branch: string)
    ensures var postings := Postings(prefixes, branch);
            && (forall i, j :: 0 <= i < j < |postings| ==> postings[i] < postings[j])
            && (forall p :: p in postings <==> 0 <= p < |prefixes| && branch in prefixes[p])
  {
    if prefixes != [] {
      var last := |prefixes| - 1;
      PostingsMeaning(prefixes[..last], branch);
      var earlier := Postings(prefixes[..last], branch);
      assert forall i :: 0 <= i < |earlier| ==> earlier[i] in earlier;
    }
  }

  function PostingOf(index: map<string, seq<nat>>, branch: string): seq<nat> {
    if branch in index then index[branch] else []
  }

  // `keys` lists the dictionary's keys in the order they were inserted.
  ghost predicate Keyed(keys: seq<string>, index: map<string, seq<nat>>) {
    NoDuplicates(keys) && forall branch :: branch in keys <==> branch in index
  }

  ghost predicate Indexes(prefixes: seq<seq<string>>, keys: seq<string>, index: map<string, seq<nat>>) {
    && Keyed(keys, index)
    && (forall branch :: PostingOf(index, branch) == Postings(prefixes, branch))
    && (forall branch :: branch in index ==> index[branch] != [])
  }

  // index.setdefault(branch, []).append(position)
  method AppendPosting(keys: seq<string>, index: map<string, seq<nat>>, branch: string, position: nat)
    returns (keys': seq<string>, index': map<string, seq<nat>>)
    requires Keyed(keys, index)
    ensures Keyed(keys', index')
    ensures index' == index[branch := PostingOf(index, branch) + [position]]
  {
    keys' := if branch in index then keys else keys + [branch];
    index' := index[branch := PostingOf(index, branch) + [position]];
  }

  method AddPosition(keys: seq<string>, index: map<string, seq<nat>>, branches: seq<string>, position: nat)
    returns (keys': seq<string>, index': map<string, seq<nat>>)
    requires NoDuplicates(branches) && Keyed(keys, index)
    requires forall branch :: branch in index ==> index[branch] != []
    ensures Keyed(keys', index')
    ensures forall branch :: branch in index' ==> index'[branch] != []
    ensures forall branch :: PostingOf(index', branch) ==
              PostingOf(index, branch) + if branch in branches then [position] else []
  {
    keys', index' := keys, index;
    for i := 0 to |branches|
      invariant Keyed(keys', index')
      invariant forall branch :: branch in index' ==> index'[branch] != []
      invariant forall branch :: PostingOf(index', branch) ==
                  PostingOf(index, branch) + if branch in branches[..i] then [position] else []
    {
      ElementsOfPrefix(branches, i);
      ghost var before := index';
      keys', index' := AppendPosting(keys', index', branches[i], position);
      forall branch
        ensures PostingOf(index', branch) ==
                PostingOf(index, branch) + if branch in branches[..i + 1] then [position] else []
      {
        assert branch in branches[..i + 1] <==> branch in Elements(branches[..i + 1]);
        assert branch in branches[..i] <==> branch in Elements(branches[..i]);
        assert PostingOf(before, branch) ==
               PostingOf(index, branch) + if branch in branches[..i] then [position] else [];
      }
    }
    assert branches[..|branches|] == branches;
  }

  lemma PrefixDistinct(t: real, frequency: map<string, nat>, branches: set<string>)
    ensures NoDuplicates(Prefix(t, frequency, branches))
    ensures branches == {} ==> Prefix(t, frequency, branches) == []
  {
    RarityTotalOrder(frequency);
    AscendingOrdered(branches, Rarity(frequency));
  }

  lemma PostingsStep(prefixes: seq<seq<string>>, position: nat, branch: string)
    requires position < |prefixes|
    ensures Postings(prefixes[..position + 1], branch) ==
            Postings(prefixes[..position], branch) + if branch in prefixes[position] then [position] else []
  {
    var longer := prefixes[..position + 1];
    assert longer[..position] == prefixes[..position] && longer[position] == prefixes[position];
  }

  // What is there once all postings of a position have been added.
  lemma IndexesMore(prefixes: seq<seq<string>>, position: nat, index: map<string, seq<nat>>, keys': seq<string>,
                    index': map<string, seq<nat>>)
    requires position < |prefixes|
    requires forall branch :: PostingOf(index, branch) == Postings(prefixes[..position], branch)
    requires Keyed(keys', index') && forall branch :: branch in index' ==> index'[branch] != []
    requires forall branch :: PostingOf(index', branch) ==
               PostingOf(index, branch) + if branch in prefixes[position] then [position] else []
    ensures Indexes(prefixes[..position + 1], keys', index')
  {
    forall branch ensures PostingOf(index', branch) == Postings(prefixes[..position + 1], branch) {
      PostingsStep(prefixes, position, branch);
    }
  }

  method PrefixIndex(order: seq<Entry>, t: real, frequency: map<string, nat>)
    returns (keys: seq<string>, index: map<string, seq<nat>>)
    ensures Indexes(Prefixes(t, frequency, order), keys, index)
  {
    keys, index := [], map[];
    ghost var prefixes := Prefixes(t, frequency, order);
    for position := 0 to |order|
      invariant Indexes(prefixes[..position], keys, index)
    {
      var prefix := Prefix(t, frequency, order[position].branches);
      assert prefix == prefixes[position];
      PrefixDistinct(t, frequency, order[position].branches);
      ghost var before := index;
      if |order[position].branches| != 0 {
        keys, index := AddPosition(keys, index, prefix, position);
      }
      IndexesMore(prefixes, position, before, keys, index);
    }
    assert prefixes[..|order|] == prefixes;
  }

  // ----- the pairs -----

  ghost function PairsIn(postings: seq<seq<nat>>): set<(nat, nat)> {
    set k, i, j | 0 <= k < |postings| && 0 <= i < j < |postings[k]| :: (postings[k][i], postings[k][j])
  }

  // Every pair scanned before position (k, i, j) of the three loops is in `pairs`.
  ghost predicate Scanned(postings: seq<seq<nat>>, pairs: set<(nat, nat)>, k: nat, i: nat, j: nat) {
    forall k', i', j' :: 0 <= k' < |postings| && 0 <= i' < j' < |postings[k']|
                         && (k' < k || (k' == k && (i' < i || (i' == i && j' < j))))
                         ==> (postings[k'][i'], postings[k'][j']) in pairs
  }

  method PairsFromIndex(postings: seq<seq<nat>>, maxPairs: int) returns (pairs: set<(nat, nat)>, truncated: bool)
    ensures pairs <= PairsIn(postings) && |pairs| <= Max(maxPairs, 0)
    ensures truncated <==> |PairsIn(postings)| > Max(maxPairs, 0)
    ensures truncated ==> |pairs| == Max(maxPairs, 0)
    ensures !truncated ==> pairs == PairsIn(postings)
  {
    pairs := {};
    for k := 0 to |postings|
      invariant pairs <= PairsIn(postings) && |pairs| <= Max(maxPairs, 0)
      invariant Scanned(postings, pairs, k, 0, 0)
    {
      for i := 0 to |postings[k]|
        invariant pairs <= PairsIn(postings) && |pairs| <= Max(maxPairs, 0)
        invariant Scanned(postings, pairs, k, i, i + 1)
      {
        for j := i + 1 to |postings[k]|
          invariant pairs <= PairsIn(postings) && |pairs| <= Max(maxPairs, 0)
          invariant Scanned(postings, pairs, k, i, j)
        {
          var pair := (postings[k][i], postings[k][j]);
          assert pair in PairsIn(postings);
          if |pairs| >= maxPairs && pair !in pairs {
            SubsetCount(pairs + {pair}, PairsIn(postings));
            return pairs, true;
          }
          if pair !in pairs {
            assert |pairs + {pair}| == |pairs| + 1;
          } else {
            assert pairs + {pair} == pairs;
          }
          pairs := pairs + {pair};
        }
      }
    }
    assert pairs == PairsIn(postings);
    return pairs, false;
  }

  // ----- what is indexed, without the ranking -----

  // b is carried by fewer entries than x, or by as many and comes first by name.
  ghost predicate Before(order: seq<Entry>, b: string, x: string) {
    Carriers(order, b) < Carriers(order, x) || (Carriers(order, b) == Carriers(order, x) && b != x && NameLe(b, x))
  }

  ghost function BranchesBefore(order: seq<Entry>, branches: set<string>, x: string): set<string> {
    set b | b in branches && Before(order, b, x)
  }

  // The least overlap of one or more that is no less than t times the size, but for the epsilon.
  ghost predicate LeastOverlap(t: real, size: nat, overlap: nat) {
    Enough(t, size, overlap) && forall k: nat :: Enough(t, size, k) ==> overlap <= k
  }

  ghost predicate Enough(t: real, size: nat, overlap: nat) {
    1 <= overlap && t * size as real - 0.000000001 <= overlap as real
  }

  // Whether the branch with `rank` others before it is indexed.  A slice with a negative end, which takes a threshold
  // above 1, counts from the back.
  ghost predicate WithinPrefix(size: nat, overlap: nat, rank: nat) {
    if overlap <= size + 1 then rank < size - overlap + 1 else rank < size && overlap + rank < 2 * size + 1
  }

  // The branch x of an entry is indexed.
  ghost predicate Indexed(t: real, order: seq<Entry>, branches: set<string>, x: string) {
    && x in branches
    && exists overlap :: LeastOverlap(t, |branches|, overlap)
                         && WithinPrefix(|branches|, overlap, |BranchesBefore(order, branches, x)|)
  }

  // What the scan is for: the pairs of entries with a common indexed branch.
  ghost function Candidates(t: real, order: seq<Entry>): set<(nat, nat)> {
    set l, r | 0 <= l < r < |order| && SharesIndexed(t, order, order[l].branches, order[r].branches) :: (l, r)
  }

  ghost predicate SharesIndexed(t: real, order: seq<Entry>, a: set<string>, b: set<string>) {
    exists x :: Indexed(t, order, a, x) && Indexed(t, order, b, x)
  }

  lemma RequiredIs(t: real, size: nat)
    ensures Required(t, size) >= 1 && LeastOverlap(t, size, Required(t, size))
    ensures forall overlap :: LeastOverlap(t, size, overlap) ==> overlap == Required(t, size)
  {
    var x := t * size as real - PREFIX_EPSILON;
    assert x <= Ceil(x) as real < x + 1.0;
  }

  // In an ordered list, what comes before the k-th element is what ranks before it.
  lemma FirstHolds<T(!new)>(ranked: seq<T>, le: (T, T) -> bool, k: nat, y: T)
    requires Ordered(ranked, le) && NoDuplicates(ranked) && k < |ranked|
    requires le(y, ranked[k]) && le(ranked[k], y) ==> y == ranked[k]
    ensures y in ranked[..k] <==> y in ranked && le(y, ranked[k]) && y != ranked[k]
  {
    var first := ranked[..k];
    if y in ranked && le(y, ranked[k]) && y != ranked[k] {
      var j :| 0 <= j < |ranked| && ranked[j] == y;
      assert j < k ==> first[j] == y;
    }
    if y in first {
      var j :| 0 <= j < k && first[j] == y;
      assert ranked[j] == y;
    }
  }

  // As many elements come before one as its position says.
  lemma RankIs<T(!new)>(ranked: seq<T>, le: (T, T) -> bool, k: nat, before: set<T>)
    requires Ordered(ranked, le) && NoDuplicates(ranked) && k < |ranked|
    requires forall y :: le(y, ranked[k]) && le(ranked[k], y) ==> y == ranked[k]
    requires forall y :: y in before <==> y in ranked && le(y, ranked[k]) && y != ranked[k]
    ensures |before| == k
  {
    forall y ensures y in ranked[..k] <==> y in before {
      FirstHolds(ranked, le, k, y);
    }
    DistinctCount(ranked[..k]);
    assert Elements(ranked[..k]) == before;
  }

  lemma BeforeIs(frequency: map<string, nat>, order: seq<Entry>, y: string, x: string)
    requires CountsCarriers(frequency, order)
    ensures Before(order, y, x) <==> Rarity(frequency)(y, x) && y != x
  {
    assert FrequencyOf(frequency, y) == Carriers(order, y) && FrequencyOf(frequency, x) == Carriers(order, x);
  }

  lemma RankBefore(frequency: map<string, nat>, order: seq<Entry>, branches: set<string>, k: nat)
    requires CountsCarriers(frequency, order) && k < |branches|
    ensures |BranchesBefore(order, branches, Ranked(frequency, branches)[k])| == k
  {
    RarityTotalOrder(frequency);
    var x := Ranked(frequency, branches)[k];
    forall y ensures y in BranchesBefore(order, branches, x) <==> y in branches && Rarity(frequency)(y, x) && y != x {
      BeforeIs(frequency, order, y, x);
    }
    AscendingOrdered(branches, Rarity(frequency));
    RankIs(Ranked(frequency, branches), Rarity(frequency), k, BranchesBefore(order, branches, x));
  }

  lemma InSlice<T>(xs: seq<T>, overlap: nat, k: nat)
    requires NoDuplicates(xs) && k < |xs|
    ensures xs[k] in SliceTo(xs, |xs| - overlap + 1) <==> WithinPrefix(|xs|, overlap, k)
  {
    var slice := SliceTo(xs, |xs| - overlap + 1);
    assert forall j :: 0 <= j < |slice| ==> slice[j] == xs[j];
    if k < |slice| {
      assert slice[k] == xs[k];
    }
  }

  // The prefix of an entry has its branches with the fewest carriers, ties by name, and as many as the pigeonhole
  // argument needs.
  lemma PrefixIs(t: real, frequency: map<string, nat>, order: seq<Entry>, branches: set<string>, x: string)
    requires CountsCarriers(frequency, order)
    ensures x in Prefix(t, frequency, branches) <==> Indexed(t, order, branches, x)
  {
    RarityTotalOrder(frequency);
    AscendingOrdered(branches, Rarity(frequency));
    var ranked := Ranked(frequency, branches);
    RequiredIs(t, |branches|);
    if x in branches {
      assert x in ranked;
      var k :| 0 <= k < |ranked| && ranked[k] == x;
      RankBefore(frequency, order, branches, k);
      InSlice(ranked, Required(t, |branches|), k);
    }
  }

  // So no branch outside the prefix is rarer than one in it.
  lemma PrefixRarest(t: real, frequency: map<string, nat>, order: seq<Entry>, branches: set<string>, x: string,
                     left: string)
    requires CountsCarriers(frequency, order)
    requires x in Prefix(t, frequency, branches) && left in branches && left !in Prefix(t, frequency, branches)
    ensures Carriers(order, x) < Carriers(order, left)
            || (Carriers(order, x) == Carriers(order, left) && x != left && NameLe(x, left))
  {
    RarityTotalOrder(frequency);
    AscendingOrdered(branches, Rarity(frequency));
    var ranked := Ranked(frequency, branches);
    var prefix := Prefix(t, frequency, branches);
    var i :| 0 <= i < |prefix| && prefix[i] == x;
    var j :| 0 <= j < |ranked| && ranked[j] == left;
    assert forall k :: 0 <= k < |prefix| ==> prefix[k] == ranked[k];
    assert Rarity(frequency)(ranked[i], ranked[j]);
    assert FrequencyOf(frequency, x) == Carriers(order, x) && FrequencyOf(frequency, left) == Carriers(order, left);
  }

  lemma SharesIs(t: real, frequency: map<string, nat>, order: seq<Entry>, a: set<string>, b: set<string>)
    requires CountsCarriers(frequency, order)
    ensures SharesPrefix(t, frequency, a, b) <==> SharesIndexed(t, order, a, b)
  {
    forall x ensures x in Prefix(t, frequency, a) <==> Indexed(t, order, a, x) {
      PrefixIs(t, frequency, order, a, x);
    }
    forall x ensures x in Prefix(t, frequency, b) <==> Indexed(t, order, b, x) {
      PrefixIs(t, frequency, order, b, x);
    }
  }

  ghost function AllBranches(order: seq<Entry>): set<string> {
    set p, branch | 0 <= p < |order| && branch in order[p].branches :: branch
  }

  ghost function Counts(order: seq<Entry>): map<string, nat> {
    map branch | branch in AllBranches(order) :: Carriers(order, branch)
  }

  lemma {:induction false} NoCarriers(order: seq<Entry>, branch: string)
    requires branch !in AllBranches(order)
    ensures Carriers(order, branch) == 0
  {
    if order != [] {
      var last := |order| - 1;
      assert branch !in order[last].branches;
      forall p | 0 <= p < last ensures branch !in order[..last][p].branches {
        assert order[..last][p] == order[p];
      }
      NoCarriers(order[..last], branch);
    }
  }

  // For a positive threshold every pair at the threshold is a candidate.
  lemma QualifyingCandidate(t: real, order: seq<Entry>, l: nat, r: nat)
    requires l < r < |order| && 0.0 < t <= Jaccard(order[l].branches, order[r].branches)
    ensures (l, r) in Candidates(t, order)
  {
    var frequency := Counts(order);
    forall branch ensures FrequencyOf(frequency, branch) == Carriers(order, branch) {
      if branch !in AllBranches(order) {
        NoCarriers(order, branch);
      }
    }
    QualifyingPairShares(t, frequency, order[l].branches, order[r].branches);
    SharesIs(t, frequency, order, order[l].branches, order[r].branches);
  }

  lemma IndexedPairSound(prefixes: seq<seq<string>>, keys: seq<string>, index: map<string, seq<nat>>,
                         postings: seq<seq<nat>>, l: nat, r: nat)
    requires Indexes(prefixes, keys, index) && |postings| == |keys|
    requires forall k :: 0 <= k < |keys| ==> postings[k] == PostingOf(index, keys[k])
    requires (l, r) in PairsIn(postings)
    ensures l < r < |prefixes| && exists branch :: branch in prefixes[l] && branch in prefixes[r]
  {
    var k, i, j :| 0 <= k < |postings| && 0 <= i < j < |postings[k]| && (l, r) == (postings[k][i], postings[k][j]);
    PostingsMeaning(prefixes, keys[k]);
    assert l in postings[k] && r in postings[k];
  }

  lemma PostedPair(postings: seq<seq<nat>>, k: nat, l: nat, r: nat)
    requires k < |postings| && l in postings[k] && r in postings[k] && l < r
    requires forall i, j :: 0 <= i < j < |postings[k]| ==> postings[k][i] < postings[k][j]
    ensures (l, r) in PairsIn(postings)
  {
    var i :| 0 <= i < |postings[k]| && postings[k][i] == l;
    var j :| 0 <= j < |postings[k]| && postings[k][j] == r;
    assert i < j;
  }

  lemma IndexedPairComplete(prefixes: seq<seq<string>>, keys: seq<string>, index: map<string, seq<nat>>,
                            postings: seq<seq<nat>>, l: nat, r: nat, branch: string)
    requires Indexes(prefixes, keys, index) && |postings| == |keys|
    requires forall k :: 0 <= k < |keys| ==> postings[k] == PostingOf(index, keys[k])
    requires l < r < |prefixes| && branch in prefixes[l] && branch in prefixes[r]
    ensures (l, r) in PairsIn(postings)
  {
    PostingsMeaning(prefixes, branch);
    assert PostingOf(index, branch) == Postings(prefixes, branch) != [] by {
      assert l in Postings(prefixes, branch);
    }
    var k :| 0 <= k < |keys| && keys[k] == branch;
    PostedPair(postings, k, l, r);
  }

  lemma IndexedCandidates(t: real, frequency: map<string, nat>, order: seq<Entry>, keys: seq<string>,
                          index: map<string, seq<nat>>, postings: seq<seq<nat>>)
    requires CountsCarriers(frequency, order)
    requires Indexes(Prefixes(t, frequency, order), keys, index) && |postings| == |keys|
    requires forall k :: 0 <= k < |keys| ==> postings[k] == PostingOf(index, keys[k])
    ensures PairsIn(postings) == Candidates(t, order)
  {
    forall l: nat, r: nat ensures (l, r) in PairsIn(postings) <==> (l, r) in Candidates(t, order) {
      var prefixes := Prefixes(t, frequency, order);
      if l < r < |order| {
        SharesIs(t, frequency, order, order[l].branches, order[r].branches);
      }
      if (l, r) in PairsIn(postings) {
        IndexedPairSound(prefixes, keys, index, postings, l, r);
      }
      if l < r < |order| && exists branch :: branch in prefixes[l] && branch in prefixes[r] {
        var branch :| branch in prefixes[l] && branch in prefixes[r];
        IndexedPairComplete(prefixes, keys, index, postings, l, r, branch);
      }
    }
  }

  // Complete unless truncated, and truncated exactly when a candidate beyond the budget exists; for a positive
  // threshold the candidates include every pair at the threshold.
  method CandidatePairSet(order: seq<Entry>, t: real, maxPairs: int)
    returns (pairs: set<(nat, nat)>, truncated: bool)
    ensures pairs <= Candidates(t, order)
    ensures truncated <==> |Candidates(t, order)| > Max(maxPairs, 0)
    ensures truncated ==> |pairs| == Max(maxPairs, 0)
    ensures !truncated ==> pairs == Candidates(t, order)
    ensures !truncated && t > 0.0 ==> forall l: nat, r: nat ::
              l < r < |order| && t <= Jaccard(order[l].branches, order[r].branches) ==> (l, r) in pairs
  {
    var frequency := BranchFrequency(order);
    var keys, index := PrefixIndex(order, t, frequency);
    var postings := seq(|keys|, k requires 0 <= k < |keys| => PostingOf(index, keys[k]));
    IndexedCandidates(t, frequency, order, keys, index, postings);
    pairs, truncated := PairsFromIndex(postings, maxPairs);
    if t > 0.0 {
      forall l: nat, r: nat | l < r < |order| && t <= Jaccard(order[l].branches, order[r].branches)
        ensures (l, r) in Candidates(t, order)
      {
        QualifyingCandidate(t, order, l, r);
      }
    }
  }
}
