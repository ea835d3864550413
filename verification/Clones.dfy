/**
 The entities of the duplicate scan (codebase_rag/duplicates.py): a member is one definition in the graph, an entry is
 one whole-skeleton fingerprint with its branch fingerprints and the members that carry it.
 */
module Clones {

  datatype Member = Member(qualifiedName: string, path: string, startLine: int, endLine: int)

  datatype Entry = Entry(fingerprint: string, nodeCount: int, branches: set<string>, members: seq<Member>)

  function Jaccard(first: set<string>, second: set<string>): real {
    var union := |first + second|;
    if union == 0 then 0.0 else |first * second| as real / union as real
  }

  // The shared branches, out of those that either has.
  lemma JaccardIs(first: set<string>, second: set<string>)
    ensures Jaccard(first, second) * (|first| + |second| - |first * second|) as real == |first * second| as real
    ensures first == second == {} ==> Jaccard(first, second) == 0.0
    ensures first * second != {} ==> |first| + |second| > |first * second|
  {
    assert |first + second| == |first| + |second| - |first * second|;
    assert first * second <= first + second;
    if first + second == {} {
      assert first * second == {};
    }
  }

  lemma JaccardSymmetric(first: set<string>, second: set<string>)
    ensures Jaccard(first, second) == Jaccard(second, first)
  {
    assert first + second == second + first && first * second == second * first;
  }

  lemma SizesWithinUnion(first: set<string>, second: set<string>)
    ensures |first * second| <= |first| <= |first + second|
    ensures |first * second| <= |second| <= |first + second|
  {
    assert first + second == first + (second - first) == second + (first - second);
    assert |first + second| == |first| + |second - first| == |second| + |first - second|;
    assert first == first * second + (first - second) && second == first * second + (second - first);
    assert |first| == |first * second| + |first - second| && |second| == |first * second| + |second - first|;
  }

  lemma RatioBound(shared: real, union: real, t: real, size: real)
    requires 0.0 < t && 0.0 <= size <= union && 0.0 < union && t <= shared / union
    ensures t * size <= shared
  {
    assert t * union <= shared / union * union;
    assert t * size <= t * union;
  }

  // A positive similarity of at least t forces an overlap of at least t times either size.
  lemma OverlapAtLeast(first: set<string>, second: set<string>, t: real)
    requires 0.0 < t <= Jaccard(first, second)
    ensures first * second != {}
    ensures t * |first| as real <= |first * second| as real
    ensures t * |second| as real <= |first * second| as real
  {
    SizesWithinUnion(first, second);
    RatioBound(|first * second| as real, |first + second| as real, t, |first| as real);
    RatioBound(|first * second| as real, |first + second| as real, t, |second| as real);
    RatioBound(|first * second| as real, |first + second| as real, t, |first + second| as real);
    assert 0.0 < t * |first + second| as real <= |first * second| as real;
  }

  function Min(a: int, b: int): int {
    if a <= b then a else b
  }

  function Max(a: int, b: int): int {
    if a <= b then b else a
  }

  lemma RatioMonotone(a: real, b: real, c: real, d: real)
    requires 0.0 <= a <= c && 0.0 < d <= b
    ensures a / b <= c / d
  {
    assert a / b * b == a <= c == c / d * d <= c / d * b;
    CancelFactor(a / b, c / d, b);
  }

  lemma CancelFactor(x: real, y: real, b: real)
    requires 0.0 < b && x * b <= y * b
    ensures x <= y
  {
  }

  // The size test of _edge_qualifies only rejects pairs that the similarity test would reject as well.
  lemma SizeRatioBound(first: set<string>, second: set<string>)
    requires Max(|first|, |second|) > 0
    ensures Jaccard(first, second) <= Min(|first|, |second|) as real / Max(|first|, |second|) as real
  {
    SizesWithinUnion(first, second);
    RatioMonotone(|first * second| as real, |first + second| as real,
                  Min(|first|, |second|) as real, Max(|first|, |second|) as real);
  }
}
