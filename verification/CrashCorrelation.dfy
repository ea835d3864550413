/**
 The depth-limited walk over reversed calls (codebase_rag/crash_correlation.py, _reverse_reachable).

 Its answer is pinned down completely: for every caller within the limit, the least of its shortest call paths, read
 from the failing symbol outwards.
 */
module CrashCorrelation {
  import opened Orders

  type Callers = map<string, seq<string>>

  function CallersOf(callers: Callers, x: string): seq<string> {
    if x in callers then callers[x] else []
  }

  function SortedCallers(callers: Callers, x: string): (sorted: seq<string>)
    ensures Ordered(sorted, NameLe)
    ensures forall y :: y in sorted <==> y in CallersOf(callers, x)
  {
    NameLeTotalOrder();
    SortOrdered(CallersOf(callers, x), NameLe);
    SortElements(CallersOf(callers, x), NameLe);
    Sort(CallersOf(callers, x), NameLe)
  }

  // A walk from the failing symbol outwards, each node a caller of the one before.
  ghost predicate OutWalk(callers: Callers, failing: string, w: seq<string>) {
    && w != [] && w[0] == failing
    && forall i :: 0 <= i < |w| - 1 ==> w[i + 1] in CallersOf(callers, w[i])
  }

  ghost predicate OutWalkTo(callers: Callers, failing: string, x: string, w: seq<string>) {
    OutWalk(callers, failing, w) && w[|w| - 1] == x
  }

  // ----- shorter first, then by name -----

  predicate NotAfter(a: seq<string>, b: seq<string>) {
    |a| < |b| || (|a| == |b| && LexLe(a, b, NameLe))
  }

  lemma NotAfterTransitive(a: seq<string>, b: seq<string>, c: seq<string>)
    requires NotAfter(a, b) && NotAfter(b, c)
    ensures NotAfter(a, c)
  {
    NameLeTotalOrder();
    if |a| == |b| == |c| {
      LexTransitive(a, b, c, NameLe);
    }
  }

  lemma NotAfterAntisymmetric(a: seq<string>, b: seq<string>)
    requires NotAfter(a, b) && NotAfter(b, a)
    ensures a == b
  {
    NameLeTotalOrder();
    LexTotal(a, b, NameLe);
  }

  lemma NotAfterReflexive(a: seq<string>)
    ensures NotAfter(a, a)
  {
    NameLeTotalOrder();
    LexTotal(a, a, NameLe);
  }

  lemma {:induction false} LexExtend(a: seq<string>, b: seq<string>, x: string, y: string)
    requires |a| == |b| && LexLe(a, b, NameLe) && (a == b ==> NameLe(x, y))
    ensures LexLe(a + [x], b + [y], NameLe)
  {
    if a == [] {
      assert LexLe([], [], NameLe);
    } else {
      assert (a + [x])[1..] == a[1..] + [x] && (b + [y])[1..] == b[1..] + [y];
      if a[0] == b[0] {
        if a[1..] == b[1..] {
          assert a == [a[0]] + a[1..] && b == [b[0]] + b[1..];
        }
        LexExtend(a[1..], b[1..], x, y);
      }
    }
  }

  lemma NotAfterExtend(a: seq<string>, b: seq<string>, x: string, y: string)
    requires NotAfter(a, b) && (a == b ==> NameLe(x, y))
    ensures NotAfter(a + [x], b + [y])
  {
    if |a| == |b| {
      LexExtend(a, b, x, y);
    }
  }

  lemma NotAfterSame(a: seq<string>, b: seq<string>, x: string)
    requires NotAfter(a, b)
    ensures NotAfter(a + [x], b + [x])
  {
    NameLeTotalOrder();
    NotAfterExtend(a, b, x, x);
  }

  // ----- the search state -----

  type Walks = map<string, seq<string>>

  ghost predicate WalksOut(callers: Callers, failing: string, limit: nat, out: Walks) {
    && failing in out && out[failing] == [failing]
    && forall x :: x in out ==> OutWalkTo(callers, failing, x, out[x]) && |out[x]| <= limit + 1
  }

  // x was expanded: each of its callers has a walk that is not after the one through x.
  ghost predicate Settled(callers: Callers, limit: nat, out: Walks, x: string)
    requires x in out
  {
    |out[x]| <= limit ==> forall y :: y in CallersOf(callers, x) ==> y in out && NotAfter(out[y], out[x] + [y])
  }

  // The queue is in walk order, and no walk found so far is after what the queue will still produce.
  ghost predicate QueueOrdered(out: Walks, queue: seq<string>) {
    && (forall q :: q in queue ==> q in out)
    && NoDuplicates(queue)
    && (forall i, j :: 0 <= i < j < |queue| ==> NotAfter(out[queue[i]], out[queue[j]]))
    && (forall p, q, z :: p in queue && q in queue ==> NotAfter(out[p], out[q] + [z]))
    && (forall y, q :: y in out && q in queue ==> NotAfter(out[y], out[q] + [y]))
  }

  ghost predicate Searching(callers: Callers, failing: string, limit: nat, out: Walks, queue: seq<string>) {
    && WalksOut(callers, failing, limit, out)
    && QueueOrdered(out, queue)
    && forall x :: x in out && x !in queue ==> Settled(callers, limit, out, x)
  }

  // Everything reached at the end is best possible.
  lemma {:induction false} WalksBest(callers: Callers, failing: string, limit: nat, out: Walks, w: seq<string>)
    requires Searching(callers, failing, limit, out, []) && OutWalk(callers, failing, w) && |w| <= limit + 1
    ensures w[|w| - 1] in out && NotAfter(out[w[|w| - 1]], w)
  {
    var n := |w| - 1;
    if n == 0 {
      assert w == [failing];
      NotAfterReflexive(w);
    } else {
      var shorter, y, x := w[..n], w[n - 1], w[n];
      WalksBest(callers, failing, limit, out, shorter);
      assert x in CallersOf(callers, y) && Settled(callers, limit, out, y);
      NotAfterSame(out[y], shorter, x);
      assert w == shorter + [x];
      NotAfterTransitive(out[x], out[y] + [x], w);
    }
  }

  // While `current` is expanded: its first callers have been looked at, `remaining` are still to come.
  ghost predicate Expanding(callers: Callers, failing: string, limit: nat, out: Walks, queue: seq<string>,
                            current: string, followed: seq<string>, remaining: seq<string>) {
    && WalksOut(callers, failing, limit, out) && QueueOrdered(out, queue)
    && current in out && current !in queue && |out[current]| <= limit
    && (forall q :: q in queue ==> NotAfter(out[current], out[q]))
    && (forall p, z :: p in queue && z in remaining ==> NotAfter(out[p], out[current] + [z]))
    && (forall y :: y in out ==> NotAfter(out[y], out[current] + [y]))
    && (forall x :: x in out && x !in queue && x != current ==> Settled(callers, limit, out, x))
    && forall y :: y in followed ==> y in out
  }

  lemma ExtendWalk(callers: Callers, failing: string, x: string, w: seq<string>, y: string)
    requires OutWalkTo(callers, failing, x, w) && y in CallersOf(callers, x)
    ensures OutWalkTo(callers, failing, y, w + [y])
  {
  }

  lemma DistinctWalks(callers: Callers, failing: string, limit: nat, out: Walks, x: string, y: string)
    requires WalksOut(callers, failing, limit, out) && x in out && y in out && x != y
    ensures out[x] != out[y]
  {
    assert OutWalkTo(callers, failing, x, out[x]) && OutWalkTo(callers, failing, y, out[y]);
  }

  // A new walk through `current` is not after anything the queue will still produce.
  lemma NewWalkEarly(callers: Callers, failing: string, limit: nat, out: Walks, queue: seq<string>, current: string,
                     followed: seq<string>, remaining: seq<string>, target: string, q: string, z: string)
    requires Expanding(callers, failing, limit, out, queue, current, followed, remaining) && q in queue
    ensures NotAfter(out[current] + [target], out[q] + [z])
  {
    DistinctWalks(callers, failing, limit, out, current, q);
    NotAfterExtend(out[current], out[q], target, z);
  }

  // Queueing a caller seen for the first time keeps the queue in walk order.
  lemma QueueNew(callers: Callers, failing: string, limit: nat, out: Walks, queue: seq<string>, current: string,
                 followed: seq<string>, remaining: seq<string>, target: string)
    requires Expanding(callers, failing, limit, out, queue, current, followed, remaining)
    requires target !in out && target in remaining
    ensures QueueOrdered(out[target := out[current] + [target]], queue + [target])
  {
    var w := out[current] + [target];
    forall q, z | q in queue ensures NotAfter(w, out[q] + [z]) && NotAfter(out[q], w) {
      NewWalkEarly(callers, failing, limit, out, queue, current, followed, remaining, target, q, z);
    }
    assert forall y :: y in out ==> |out[y]| <= |w|;
    QueueAppended(out, queue, target, w);
  }

  lemma QueueAppended(out: Walks, queue: seq<string>, target: string, w: seq<string>)
    requires QueueOrdered(out, queue) && target !in out
    requires forall q, z :: q in queue ==> NotAfter(w, out[q] + [z]) && NotAfter(out[q], w)
    requires forall y :: y in out ==> |out[y]| <= |w|
    ensures QueueOrdered(out[target := w], queue + [target])
  {
    var out', queue' := out[target := w], queue + [target];
    assert forall q :: q in queue' <==> q in queue || q == target;
    forall i, j | 0 <= i < j < |queue'| ensures NotAfter(out'[queue'[i]], out'[queue'[j]]) {
      assert queue'[i] in queue;
    }
  }

  // The rest of what the expansion keeps when a caller is seen for the first time.
  lemma FollowNew(callers: Callers, failing: string, limit: nat, out: Walks, queue: seq<string>, current: string,
                  targets: seq<string>, j: nat)
    requires j < |targets| && Ordered(targets, NameLe)
    requires Expanding(callers, failing, limit, out, queue, current, targets[..j], targets[j..])
    requires targets[j] !in out && targets[j] in CallersOf(callers, current)
    ensures Expanding(callers, failing, limit, out[targets[j] := out[current] + [targets[j]]], queue + [targets[j]],
                      current, targets[..j + 1], targets[j + 1..])
  {
    var target, w := targets[j], out[current] + [targets[j]];
    var out', queue' := out[target := w], queue + [target];
    SplitAt(targets, j);
    assert target in targets[j..];
    QueueNew(callers, failing, limit, out, queue, current, targets[..j], targets[j..], target);
    ExtendWalk(callers, failing, current, out[current], target);
    NotAfterReflexive(w);
    NotAfterReflexive(out[current]);
    forall p, z | p in queue' && z in targets[j + 1..] ensures NotAfter(out'[p], out'[current] + [z]) {
      assert z in targets[j..];
      if p == target {
        var k :| j + 1 <= k < |targets| && targets[k] == z;
        assert NameLe(targets[j], targets[k]);
        NotAfterExtend(out[current], out[current], target, z);
      }
    }
    forall x | x in out' && x !in queue' && x != current ensures Settled(callers, limit, out', x) {
      assert Settled(callers, limit, out, x);
    }
  }

  lemma FollowSeen(callers: Callers, failing: string, limit: nat, out: Walks, queue: seq<string>, current: string,
                   targets: seq<string>, j: nat)
    requires j < |targets| && targets[j] in out
    requires Expanding(callers, failing, limit, out, queue, current, targets[..j], targets[j..])
    ensures Expanding(callers, failing, limit, out, queue, current, targets[..j + 1], targets[j + 1..])
  {
    SplitAt(targets, j);
    assert forall z :: z in targets[j + 1..] ==> z in targets[j..];
  }

  lemma StartExpanding(callers: Callers, failing: string, limit: nat, out: Walks, queue: seq<string>,
                       remaining: seq<string>)
    requires queue != [] && Searching(callers, failing, limit, out, queue)
    ensures |out[queue[0]]| <= limit
        ==> Expanding(callers, failing, limit, out, queue[1..], queue[0], [], remaining)
    ensures |out[queue[0]]| > limit ==> Searching(callers, failing, limit, out, queue[1..])
  {
    var current, rest := queue[0], queue[1..];
    assert forall q :: q in queue <==> q == current || q in rest;
    assert forall i :: 0 <= i < |rest| ==> rest[i] == queue[i + 1];
    forall q | q in rest ensures NotAfter(out[current], out[q]) {
      var i :| 0 <= i < |rest| && rest[i] == q;
      assert NotAfter(out[queue[0]], out[queue[i + 1]]);
    }
  }

  lemma DoneExpanding(callers: Callers, failing: string, limit: nat, out: Walks, queue: seq<string>, current: string,
                      followed: seq<string>)
    requires Expanding(callers, failing, limit, out, queue, current, followed, [])
    requires forall y :: y in CallersOf(callers, current) ==> y in followed
    ensures Searching(callers, failing, limit, out, queue)
  {
  }

  // ----- the search -----

  datatype CallPath = CallPath(depth: nat, path: seq<string>)

  type Reached = map<string, CallPath>

  // What is recorded beside a caller: its depth and the forward call path, candidate first.
  ghost predicate Records(failing: string, out: Walks, reached: Reached) {
    && reached.Keys == out.Keys - {failing}
    && forall x :: x in reached ==> |out[x]| > 0 && reached[x] == CallPath(|out[x]| - 1, Reversed(out[x]))
  }

  lemma RecordNew(failing: string, out: Walks, reached: Reached, current: string, caller: string, depth: nat,
                  tail: seq<string>)
    requires failing in out && Records(failing, out, reached) && caller != failing && current in out
    requires out[current] != [] && depth == |out[current]| - 1 && tail == Reversed(out[current])
    ensures Records(failing, out[caller := out[current] + [caller]],
                    reached[caller := CallPath(depth + 1, [caller] + tail)])
  {
    assert [caller] + tail == Reversed(out[current] + [caller]);
  }

  // reached.get(current, (0, (failing,)))
  function Lookup(reached: Reached, failing: string, current: string): CallPath {
    if current in reached then reached[current] else CallPath(0, [failing])
  }

  lemma CurrentRecord(callers: Callers, failing: string, limit: nat, out: Walks, reached: Reached, current: string)
    requires WalksOut(callers, failing, limit, out) && Records(failing, out, reached) && current in out
    ensures Lookup(reached, failing, current).depth == |out[current]| - 1
    ensures Lookup(reached, failing, current).path == Reversed(out[current])
  {
    assert Reversed([failing]) == [failing];
  }

  function Sources(callers: Callers): set<string> {
    set x, y | x in callers && y in callers[x] :: y
  }

  ghost predicate Seen(callers: Callers, failing: string, seen: set<string>, out: Walks) {
    && (forall x :: x in seen <==> x in out)
    && forall x :: x in seen ==> x in {failing} + Sources(callers)
  }

  // One caller seen for the first time: what the loop over callers keeps.
  lemma NewCaller(callers: Callers, failing: string, limit: nat, out: Walks, queue: seq<string>, current: string,
                  targets: seq<string>, j: nat, reached: Reached, seen: set<string>, depth: nat, tail: seq<string>)
    requires j < |targets| && Ordered(targets, NameLe) && targets[j] !in out
    requires targets[j] in CallersOf(callers, current)
    requires Expanding(callers, failing, limit, out, queue, current, targets[..j], targets[j..])
    requires Records(failing, out, reached) && Seen(callers, failing, seen, out)
    requires depth == |out[current]| - 1 && tail == Reversed(out[current])
    ensures var out' := out[targets[j] := out[current] + [targets[j]]];
            && Expanding(callers, failing, limit, out', queue + [targets[j]], current, targets[..j + 1],
                         targets[j + 1..])
            && Records(failing, out', reached[targets[j] := CallPath(depth + 1, [targets[j]] + tail)])
            && Seen(callers, failing, seen + {targets[j]}, out')
            && out'[current] == out[current] && targets[j] !in seen
  {
    FollowNew(callers, failing, limit, out, queue, current, targets, j);
    RecordNew(failing, out, reached, current, targets[j], depth, tail);
  }

  // Between two callers of `current`, j of which have been looked at.
  ghost predicate Midway(callers: Callers, failing: string, limit: nat, out: Walks, queue: seq<string>,
                         current: string, targets: seq<string>, j: nat, reached: Reached, seen: set<string>,
                         depth: nat, tail: seq<string>)
    requires j <= |targets|
  {
    && Expanding(callers, failing, limit, out, queue, current, targets[..j], targets[j..])
    && Records(failing, out, reached) && Seen(callers, failing, seen, out)
    && depth == |out[current]| - 1 && tail == Reversed(out[current])
  }

  method FollowCaller(callers: Callers, failing: string, ghost limit: nat, ghost out0: Walks, queue0: seq<string>,
                      ghost current: string, targets: seq<string>, j: nat, reached0: Reached, seen0: set<string>,
                      depth: nat, tail: seq<string>)
    returns (reached: Reached, queue: seq<string>, seen: set<string>, ghost out: Walks)
    requires j < |targets| && targets == SortedCallers(callers, current)
    requires Midway(callers, failing, limit, out0, queue0, current, targets, j, reached0, seen0, depth, tail)
    ensures Midway(callers, failing, limit, out, queue, current, targets, j + 1, reached, seen, depth, tail)
    ensures |queue| + |seen0| <= |queue0| + |seen|
  {
    reached, queue, seen, out := reached0, queue0, seen0, out0;
    var caller := targets[j];
    assert caller in targets;
    if caller in seen {
      FollowSeen(callers, failing, limit, out, queue, current, targets, j);
    } else {
      NewCaller(callers, failing, limit, out, queue, current, targets, j, reached, seen, depth, tail);
      seen := seen + {caller};
      reached := reached[caller := CallPath(depth + 1, [caller] + tail)];
      out := out[caller := out[current] + [caller]];
      queue := queue + [caller];
    }
  }

  // The callers of one symbol, in sorted order: the body of the search loop.
  method ExpandNode(callers: Callers, failing: string, ghost limit: nat, reached0: Reached, queue0: seq<string>,
                    seen0: set<string>, ghost out0: Walks, current: string, depth: nat, tail: seq<string>)
    returns (reached: Reached, queue: seq<string>, seen: set<string>, ghost out: Walks)
    requires Expanding(callers, failing, limit, out0, queue0, current, [], SortedCallers(callers, current))
    requires Records(failing, out0, reached0) && Seen(callers, failing, seen0, out0)
    requires depth == |out0[current]| - 1 && tail == Reversed(out0[current])
    ensures Searching(callers, failing, limit, out, queue) && Records(failing, out, reached)
    ensures Seen(callers, failing, seen, out) && |queue| + |seen0| <= |queue0| + |seen|
  {
    reached, queue, seen, out := reached0, queue0, seen0, out0;
    var targets := SortedCallers(callers, current);
    assert targets[..0] == [] && targets[0..] == targets;
    for j := 0 to |targets|
      invariant Midway(callers, failing, limit, out, queue, current, targets, j, reached, seen, depth, tail)
      invariant |queue| + |seen0| <= |queue0| + |seen|
    {
      reached, queue, seen, out :=
        FollowCaller(callers, failing, limit, out, queue, current, targets, j, reached, seen, depth, tail);
    }
    assert targets[|targets|..] == [] && targets[..|targets|] == targets;
    DoneExpanding(callers, failing, limit, out, queue, current, targets);
  }

  // The least of the shortest call paths of every caller within the limit, and nothing else.
  ghost predicate CallerReport(callers: Callers, failing: string, limit: nat, reached: Reached) {
    && (forall x :: x in reached <==>
          x != failing && exists w :: OutWalkTo(callers, failing, x, w) && |w| <= limit + 1)
    && (forall x :: x in reached ==>
          && |reached[x].path| == reached[x].depth + 1 <= limit + 1
          && OutWalkTo(callers, failing, x, Reversed(reached[x].path)))
    && (forall x, w :: x in reached && OutWalkTo(callers, failing, x, w) ==> NotAfter(Reversed(reached[x].path), w))
  }

  // The depth the source queues beside a symbol is the depth recorded for it, 0 for the failing one.
  method ReverseReachable(callers: Callers, failing: string, limit: nat) returns (reached: Reached)
    ensures CallerReport(callers, failing, limit, reached)
  {
    reached := map[];
    var queue, seen := [failing], {failing};
    ghost var out: Walks := map[failing := [failing]];
    NotAfterReflexive([failing]);
    SubsetCount(seen, {failing} + Sources(callers));
    while queue != []
      invariant Searching(callers, failing, limit, out, queue) && Records(failing, out, reached)
      invariant Seen(callers, failing, seen, out)
      invariant |seen| <= |{failing} + Sources(callers)|
      decreases |{failing} + Sources(callers)| - |seen| + |queue|
    {
      var current := queue[0];
      var CallPath(depth, tail) := Lookup(reached, failing, current);
      CurrentRecord(callers, failing, limit, out, reached, current);
      StartExpanding(callers, failing, limit, out, queue, SortedCallers(callers, current));
      queue := queue[1..];
      if depth != limit {
        reached, queue, seen, out :=
          ExpandNode(callers, failing, limit, reached, queue, seen, out, current, depth, tail);
        SubsetCount(seen, {failing} + Sources(callers));
      }
    }
    ReportComplete(callers, failing, limit, out, reached);
  }

  lemma RecordedWalk(callers: Callers, failing: string, limit: nat, out: Walks, reached: Reached, x: string)
    requires WalksOut(callers, failing, limit, out) && Records(failing, out, reached) && x in reached
    ensures Reversed(reached[x].path) == out[x] && |reached[x].path| == reached[x].depth + 1 <= limit + 1
    ensures OutWalkTo(callers, failing, x, out[x])
  {
    assert Reversed(Reversed(out[x])) == out[x];
  }

  lemma RecordedIff(callers: Callers, failing: string, limit: nat, out: Walks, reached: Reached, x: string)
    requires Searching(callers, failing, limit, out, []) && Records(failing, out, reached)
    ensures x in reached <==> x != failing && exists w :: OutWalkTo(callers, failing, x, w) && |w| <= limit + 1
  {
    if x in reached {
      assert OutWalkTo(callers, failing, x, out[x]) && |out[x]| <= limit + 1;
    }
    if w :| OutWalkTo(callers, failing, x, w) && |w| <= limit + 1 && x != failing {
      WalksBest(callers, failing, limit, out, w);
    }
  }

  lemma RecordedLeast(callers: Callers, failing: string, limit: nat, out: Walks, reached: Reached, x: string,
                      w: seq<string>)
    requires Searching(callers, failing, limit, out, []) && Records(failing, out, reached)
    requires x in reached && OutWalkTo(callers, failing, x, w)
    ensures NotAfter(Reversed(reached[x].path), w)
  {
    RecordedWalk(callers, failing, limit, out, reached, x);
    if |w| <= limit + 1 {
      WalksBest(callers, failing, limit, out, w);
    }
  }

  lemma ReportComplete(callers: Callers, failing: string, limit: nat, out: Walks, reached: Reached)
    requires Searching(callers, failing, limit, out, []) && Records(failing, out, reached)
    ensures CallerReport(callers, failing, limit, reached)
  {
    forall x ensures x in reached <==>
      x != failing && exists w :: OutWalkTo(callers, failing, x, w) && |w| <= limit + 1
    {
      RecordedIff(callers, failing, limit, out, reached, x);
    }
    forall x | x in reached
      ensures |reached[x].path| == reached[x].depth + 1 <= limit + 1
      ensures OutWalkTo(callers, failing, x, Reversed(reached[x].path))
    {
      RecordedWalk(callers, failing, limit, out, reached, x);
    }
    forall x, w | x in reached && OutWalkTo(callers, failing, x, w) ensures NotAfter(Reversed(reached[x].path), w) {
      RecordedLeast(callers, failing, limit, out, reached, x, w);
    }
  }

  lemma SameCalls(callers: Callers, callers': Callers, failing: string, x: string, w: seq<string>)
    requires forall x, y :: y in CallersOf(callers, x) <==> y in CallersOf(callers', x)
    ensures OutWalkTo(callers, failing, x, w) <==> OutWalkTo(callers', failing, x, w)
  {
  }

  lemma SameRecord(callers: Callers, failing: string, limit: nat, reached: Reached, reached': Reached, x: string)
    requires CallerReport(callers, failing, limit, reached) && CallerReport(callers, failing, limit, reached')
    ensures x in reached <==> x in reached'
    ensures x in reached ==> reached[x] == reached'[x]
  {
    if x in reached {
      var p, p' := reached[x].path, reached'[x].path;
      NotAfterAntisymmetric(Reversed(p), Reversed(p'));
      assert p == Reversed(Reversed(p)) && p' == Reversed(Reversed(p'));
    }
  }

  // The report is determined by which calls there are; the order the graph returned them in does not matter.
  lemma OrderIrrelevant(callers: Callers, callers': Callers, failing: string, limit: nat, reached: Reached,
                        reached': Reached)
    requires forall x, y :: y in CallersOf(callers, x) <==> y in CallersOf(callers', x)
    requires CallerReport(callers, failing, limit, reached) && CallerReport(callers', failing, limit, reached')
    ensures reached == reached'
  {
    forall x, w {
      SameCalls(callers, callers', failing, x, w);
    }
    forall x {
      SameRecord(callers, failing, limit, reached, reached', x);
    }
  }
}
