/**
 The trie of the function registry (codebase_rag/function_registry.py, insert, _cleanup_trie_path, _navigate_to_prefix,
 _collect_from_subtree).

 A node of the source is one dictionary that holds child nodes under name segments and its payload under two reserved
 keys; here the payload is a field of its own.  The source tells children from reserved keys by a prefix, so it takes
 segments that start with that prefix for reserved keys, and so does this model.
 */
module Tries {
  import opened Options
  import opened Orders

  datatype Payload = Payload(name: string, kind: string)

  datatype Trie = Node(entry: Option<Payload>, children: map<string, Trie>)

  const EMPTY := Node(None, map[])

  // TRIE_INTERNAL_PREFIX
  const INTERNAL_PREFIX := "__"

  // key.startswith(TRIE_INTERNAL_PREFIX)
  predicate Internal(segment: string) {
    INTERNAL_PREFIX <= segment
  }

  function Child(t: Trie, segment: string): Trie {
    if segment in t.children then t.children[segment] else EMPTY
  }

  function Lookup(t: Trie, path: seq<string>): Option<Payload>
    decreases |path|
  {
    if path == [] then t.entry else Lookup(Child(t, path[0]), path[1..])
  }

  ghost predicate Holds(t: Trie, path: seq<string>) {
    Lookup(t, path).Some?
  }

  // No node is there without leading to an entry.
  ghost predicate NoDeadBranch(t: Trie) {
    forall k :: k in t.children ==> t.children[k] != EMPTY && NoDeadBranch(t.children[k])
  }

  // ----- insertion -----

  function Insert(t: Trie, path: seq<string>, payload: Payload): Trie
    decreases |path|
  {
    if path == [] then t.(entry := Some(payload))
    else t.(children := t.children[path[0] := Insert(Child(t, path[0]), path[1..], payload)])
  }

  lemma {:induction false} InsertLookup(t: Trie, path: seq<string>, payload: Payload, other: seq<string>)
    ensures Lookup(Insert(t, path, payload), other) == if other == path then Some(payload) else Lookup(t, other)
    decreases |path|
  {
    if path != [] && other != [] {
      assert other == path <==> other[0] == path[0] && other[1..] == path[1..] by {
        assert other == [other[0]] + other[1..] && path == [path[0]] + path[1..];
      }
      if other[0] == path[0] {
        InsertLookup(Child(t, path[0]), path[1..], payload, other[1..]);
      }
    }
  }

  lemma {:induction false} InsertNoDeadBranch(t: Trie, path: seq<string>, payload: Payload)
    requires NoDeadBranch(t)
    ensures NoDeadBranch(Insert(t, path, payload)) && Insert(t, path, payload) != EMPTY
    decreases |path|
  {
    if path != [] {
      InsertNoDeadBranch(Child(t, path[0]), path[1..], payload);
      assert path[0] in Insert(t, path, payload).children;
    }
  }

  // Where there is no dead branch, a node other than the empty one leads to an entry.
  lemma {:induction false} LeadsToEntry(t: Trie) returns (path: seq<string>)
    requires NoDeadBranch(t) && t != EMPTY
    ensures Holds(t, path)
  {
    if t.entry.Some? {
      path := [];
    } else {
      var k :| k in t.children;
      var rest := LeadsToEntry(t.children[k]);
      path := [k] + rest;
      assert path[1..] == rest;
    }
  }

  lemma {:induction false} EmptyHoldsNothing(path: seq<string>)
    ensures !Holds(EMPTY, path)
    decreases |path|
  {
    if path != [] {
      EmptyHoldsNothing(path[1..]);
    }
  }

  // ----- deletion -----

  predicate HasVisibleChild(children: map<string, Trie>) {
    exists k :: k in children && !Internal(k)
  }

  datatype Cleaned = Cleaned(trie: Trie, drop: bool)

  // _cleanup_trie_path: the node after the call, and whether its parent is to remove it.
  function Cleanup(t: Trie, path: seq<string>): Cleaned
    decreases |path|
  {
    if path == [] then Cleaned(t.(entry := None), t.children == map[])
    else if path[0] !in t.children then Cleaned(t, false)
    else
      var child := Cleanup(t.children[path[0]], path[1..]);
      var children := if child.drop then t.children - {path[0]} else t.children[path[0] := child.trie];
      Cleaned(t.(children := children), !HasVisibleChild(children) && t.entry.None?)
  }

  lemma {:induction false} CleanupRemoves(t: Trie, path: seq<string>)
    ensures !Holds(Cleanup(t, path).trie, path)
    decreases |path|
  {
    if path != [] {
      EmptyHoldsNothing(path[1..]);
      if path[0] in t.children {
        CleanupRemoves(t.children[path[0]], path[1..]);
      }
    }
  }

  // Deletion only takes away.
  lemma {:induction false} CleanupShrinks(t: Trie, path: seq<string>, other: seq<string>)
    ensures Holds(Cleanup(t, path).trie, other) ==> Lookup(Cleanup(t, path).trie, other) == Lookup(t, other)
    decreases |path|
  {
    if path != [] && other != [] && path[0] in t.children && other[0] == path[0] {
      CleanupShrinks(t.children[path[0]], path[1..], other[1..]);
      EmptyHoldsNothing(other[1..]);
    }
  }

  lemma {:induction false} CleanupNoDeadBranch(t: Trie, path: seq<string>)
    requires NoDeadBranch(t) && (t != EMPTY || path == [])
    ensures NoDeadBranch(Cleanup(t, path).trie)
    ensures !Cleanup(t, path).drop ==> Cleanup(t, path).trie != EMPTY
    decreases |path|
  {
    if path != [] && path[0] in t.children {
      CleanupNoDeadBranch(t.children[path[0]], path[1..]);
    }
  }

  // Some entry besides the one at `path`.
  ghost predicate Others(t: Trie, path: seq<string>) {
    exists q :: q != path && Holds(t, q)
  }

  // One that the cleanup notices: the node's own entry, or one below a segment that is not taken for a reserved key.
  ghost predicate Noticed(t: Trie, path: seq<string>) {
    exists q :: q != path && Holds(t, q) && (q == [] || !Internal(q[0]))
  }

  // At every node strictly between the root and the end of `path`, if other entries are left one is noticed.
  ghost predicate SafeBelow(t: Trie, path: seq<string>)
    decreases |path|
  {
    |path| <= 1 || path[0] !in t.children
    || (var c, rest := t.children[path[0]], path[1..];
        (Others(c, rest) ==> Noticed(c, rest)) && SafeBelow(c, rest))
  }

  lemma OthersBelow(t: Trie, path: seq<string>, q: seq<string>)
    requires path != [] && q != [] && q[0] == path[0] && q != path
    ensures q[1..] != path[1..] && Lookup(t, q) == Lookup(Child(t, path[0]), q[1..])
  {
    assert q == [q[0]] + q[1..] && path == [path[0]] + path[1..];
  }

  // A child on the path stays while an entry other than the deleted one is below it.
  lemma ChildStays(t: Trie, path: seq<string>, q: seq<string>)
    requires Holds(t, path) && |path| == 1 && q != path && Holds(t, q) && q != [] && q[0] == path[0]
    ensures path[0] in t.children && !Cleanup(t.children[path[0]], []).drop
  {
    OthersBelow(t, path, q);
    EmptyHoldsNothing([]);
    if Child(t, path[0]).children == map[] {
      EmptyHoldsNothing(q[1..][1..]);
    }
  }

  // With everything noticed below, a node on the path is dropped only if it has nothing noticeable left.
  lemma {:induction false} NoticedMeansKept(t: Trie, path: seq<string>, q: seq<string>)
    requires NoDeadBranch(t) && Holds(t, path) && SafeBelow(t, path) && path != []
    requires q != path && Holds(t, q) && (q == [] || !Internal(q[0]))
    ensures !Cleanup(t, path).drop
    decreases |path|
  {
    if q != [] {
      var c, rest := Child(t, path[0]), path[1..];
      EmptyHoldsNothing(rest);
      EmptyHoldsNothing(q[1..]);
      if q[0] != path[0] {
        assert q[0] in Cleanup(t, path).trie.children;
      } else {
        if rest == [] {
          ChildStays(t, path, q);
        } else {
          OthersBelow(t, path, q);
          assert Holds(c, q[1..]);
          var r :| r != rest && Holds(c, r) && (r == [] || !Internal(r[0]));
          NoticedMeansKept(c, rest, r);
        }
        assert path[0] in Cleanup(t, path).trie.children;
      }
    }
  }

  // A node on the path with nothing noticeable left is dropped.
  lemma UnnoticedMeansDrop(t: Trie, path: seq<string>)
    requires NoDeadBranch(t) && Holds(t, path) && path != []
    ensures Noticed(t, path) || Cleanup(t, path).drop
  {
    var after := Cleanup(t, path).trie;
    EmptyHoldsNothing(path[1..]);
    CleanupNoDeadBranch(t, path);
    if t.entry.Some? {
      assert Holds(t, []);
    } else if k :| k in after.children && !Internal(k) {
      var rest := LeadsToEntry(after.children[k]);
      var q := [k] + rest;
      assert q[1..] == rest && Holds(after, q);
      CleanupShrinks(t, path, q);
      CleanupRemoves(t, path);
    }
  }

  // Under the condition, deletion removes the one entry and leaves every other one.
  lemma {:induction false} SafeDeletion(t: Trie, path: seq<string>, other: seq<string>)
    requires NoDeadBranch(t) && Holds(t, path) && SafeBelow(t, path) && other != path
    ensures Lookup(Cleanup(t, path).trie, other) == Lookup(t, other)
    decreases |path|
  {
    if path != [] && other != [] && other[0] == path[0] {
      var c, rest := Child(t, path[0]), path[1..];
      EmptyHoldsNothing(rest);
      EmptyHoldsNothing(other[1..]);
      OthersBelow(t, path, other);
      if rest == [] {
        if Holds(t, other) {
          ChildStays(t, path, other);
        }
        assert Lookup(c.(entry := None), other[1..]) == Lookup(c, other[1..]);
      } else {
        SafeDeletion(c, rest, other[1..]);
        if Holds(c, other[1..]) {
          var r :| r != rest && Holds(c, r) && (r == [] || !Internal(r[0]));
          NoticedMeansKept(c, rest, r);
        }
      }
    }
  }

  // Without it, some other entry is lost.
  lemma {:induction false} UnsafeDeletion(t: Trie, path: seq<string>) returns (lost: seq<string>)
    requires NoDeadBranch(t) && Holds(t, path) && !SafeBelow(t, path)
    ensures lost != path && Holds(t, lost) && !Holds(Cleanup(t, path).trie, lost)
    decreases |path|
  {
    var c, rest := t.children[path[0]], path[1..];
    var tail: seq<string>;
    UnnoticedMeansDrop(c, rest);
    if Others(c, rest) && !Noticed(c, rest) {
      tail :| tail != rest && Holds(c, tail);
      EmptyHoldsNothing(tail);
    } else {
      tail := UnsafeDeletion(c, rest);
      EmptyHoldsNothing(tail);
    }
    lost := [path[0]] + tail;
    assert lost[1..] == tail;
  }

  // ----- the condition in terms of the paths held -----

  ghost predicate OthersUnder(t: Trie, path: seq<string>, i: nat)
    requires i <= |path|
  {
    exists q :: q != path && Holds(t, q) && path[..i] <= q
  }

  ghost predicate NoticedUnder(t: Trie, path: seq<string>, i: nat)
    requires i <= |path|
  {
    exists q :: q != path && Holds(t, q) && path[..i] <= q && (|q| == i || !Internal(q[i]))
  }

  lemma UnderChild(t: Trie, path: seq<string>, i: nat)
    requires path != [] && path[0] in t.children && 1 <= i <= |path|
    ensures OthersUnder(t, path, i) <==> OthersUnder(t.children[path[0]], path[1..], i - 1)
    ensures NoticedUnder(t, path, i) <==> NoticedUnder(t.children[path[0]], path[1..], i - 1)
  {
    var c, rest := t.children[path[0]], path[1..];
    assert path[..i] == [path[0]] + rest[..i - 1];
    forall q | q != path && Holds(t, q) && path[..i] <= q
      ensures q[1..] != rest && Holds(c, q[1..]) && rest[..i - 1] <= q[1..]
      ensures (|q| == i || !Internal(q[i])) ==> (|q[1..]| == i - 1 || !Internal(q[1..][i - 1]))
    {
      assert q[0] == path[0];
      OthersBelow(t, path, q);
    }
    forall r | r != rest && Holds(c, r) && rest[..i - 1] <= r
      ensures [path[0]] + r != path && Holds(t, [path[0]] + r) && path[..i] <= [path[0]] + r
      ensures (|r| == i - 1 || !Internal(r[i - 1])) ==> (|[path[0]] + r| == i || !Internal(([path[0]] + r)[i]))
    {
      assert ([path[0]] + r)[1..] == r;
    }
  }

  lemma UnderRoot(t: Trie, path: seq<string>)
    ensures OthersUnder(t, path, 0) <==> Others(t, path)
    ensures NoticedUnder(t, path, 0) <==> Noticed(t, path)
  {
    assert path[..0] == [];
  }

  lemma {:induction false} SafeBelowIff(t: Trie, path: seq<string>)
    requires Holds(t, path)
    ensures SafeBelow(t, path) <==>
            forall i :: 1 <= i < |path| && OthersUnder(t, path, i) ==> NoticedUnder(t, path, i)
    decreases |path|
  {
    if |path| > 1 {
      var rest := path[1..];
      EmptyHoldsNothing(rest);
      var c := t.children[path[0]];
      SafeBelowIff(c, rest);
      UnderRoot(c, rest);
      UnderChild(t, path, 1);
      forall i | 2 <= i < |path|
        ensures OthersUnder(t, path, i) ==> NoticedUnder(t, path, i) <==>
                OthersUnder(c, rest, i - 1) ==> NoticedUnder(c, rest, i - 1)
      {
        UnderChild(t, path, i);
      }
      forall j | 1 <= j < |rest|
        ensures OthersUnder(c, rest, j) ==> NoticedUnder(c, rest, j) <==>
                OthersUnder(t, path, j + 1) ==> NoticedUnder(t, path, j + 1)
      {
        UnderChild(t, path, j + 1);
      }
    }
  }

  // ----- navigation and collection -----

  function Navigate(t: Trie, parts: seq<string>): Option<Trie>
    decreases |parts|
  {
    if parts == [] then Some(t)
    else if parts[0] !in t.children then None
    else Navigate(t.children[parts[0]], parts[1..])
  }

  lemma {:induction false} NavigateLookup(t: Trie, parts: seq<string>, path: seq<string>)
    ensures Lookup(t, parts + path) ==
            match Navigate(t, parts) case Some(node) => Lookup(node, path) case None => None
    decreases |parts|
  {
    if parts == [] {
      assert parts + path == path;
    } else {
      assert (parts + path)[1..] == parts[1..] + path;
      if parts[0] in t.children {
        NavigateLookup(t.children[parts[0]], parts[1..], path);
      } else {
        EmptyHoldsNothing(parts[1..] + path);
      }
    }
  }

  // A path the collection follows: none of its segments is taken for a reserved key.
  ghost predicate Visible(path: seq<string>) {
    forall i :: 0 <= i < |path| ==> !Internal(path[i])
  }

  ghost predicate Collected(t: Trie, p: Payload) {
    exists path :: Visible(path) && Lookup(t, path) == Some(p)
  }

  // Entries at different paths are different.
  ghost predicate Distinct(t: Trie) {
    forall a, b :: Holds(t, a) && Lookup(t, a) == Lookup(t, b) ==> a == b
  }

  lemma DistinctBelow(t: Trie, k: string)
    requires Distinct(t) && k in t.children
    ensures Distinct(t.children[k])
    ensures forall p :: Collected(t.children[k], p) ==> t.entry != Some(p)
  {
    forall a, b | Holds(t.children[k], a) && Lookup(t.children[k], a) == Lookup(t.children[k], b) ensures a == b {
      assert ([k] + a)[1..] == a && ([k] + b)[1..] == b;
      assert Lookup(t, [k] + a) == Lookup(t, [k] + b);
      assert [k] + a == [k] + b;
    }
    forall p | Collected(t.children[k], p) ensures t.entry != Some(p) {
      var path :| Visible(path) && Lookup(t.children[k], path) == Some(p);
      assert ([k] + path)[1..] == path && Lookup(t, [k] + path) == Some(p);
      assert Lookup(t, []) != Lookup(t, [k] + path);
    }
  }

  lemma CollectedIff(t: Trie, p: Payload)
    ensures Collected(t, p) <==>
            t.entry == Some(p) || exists k :: k in t.children && !Internal(k) && Collected(t.children[k], p)
  {
    if path :| Visible(path) && Lookup(t, path) == Some(p) && path != [] {
      if path[0] !in t.children {
        EmptyHoldsNothing(path[1..]);
      }
      assert Visible(path[1..]) && Lookup(t.children[path[0]], path[1..]) == Some(p);
    }
    if t.entry == Some(p) {
      assert Visible([]) && Lookup(t, []) == Some(p);
    }
    if k :| k in t.children && !Internal(k) && Collected(t.children[k], p) {
      var path :| Visible(path) && Lookup(t.children[k], path) == Some(p);
      assert ([k] + path)[1..] == path;
      assert Visible([k] + path) && Lookup(t, [k] + path) == Some(p);
    }
  }

  lemma SiblingsDisjoint(t: Trie, j: string, k: string, p: Payload)
    requires Distinct(t) && j in t.children && k in t.children
    requires Collected(t.children[j], p) && Collected(t.children[k], p)
    ensures j == k
  {
    var a :| Visible(a) && Lookup(t.children[j], a) == Some(p);
    var b :| Visible(b) && Lookup(t.children[k], b) == Some(p);
    assert ([j] + a)[1..] == a && ([k] + b)[1..] == b;
    assert Lookup(t, [j] + a) == Lookup(t, [k] + b);
    assert ([j] + a)[0] == ([k] + b)[0];
  }

  // What the children outside `rest` contribute.
  ghost predicate CollectedBefore(t: Trie, rest: set<string>, p: Payload) {
    t.entry == Some(p)
    || exists k :: k in t.children && k !in rest && !Internal(k) && Collected(t.children[k], p)
  }

  lemma CollectChild(t: Trie, rest: set<string>, results: seq<Payload>, k: string, sub: seq<Payload>)
    requires Distinct(t) && k in rest && k in t.children && !Internal(k)
    requires NoDuplicates(results) && forall p :: p in results <==> CollectedBefore(t, rest, p)
    requires NoDuplicates(sub) && forall p :: p in sub <==> Collected(t.children[k], p)
    ensures NoDuplicates(results + sub)
    ensures forall p :: p in results + sub <==> CollectedBefore(t, rest - {k}, p)
  {
    DistinctBelow(t, k);
    forall i, j | 0 <= i < |results| && 0 <= j < |sub| ensures results[i] != sub[j] {
      var p := sub[j];
      assert p in sub;
      if results[i] == p {
        assert p in results;
        var m :| m in t.children && m !in rest && !Internal(m) && Collected(t.children[m], p);
        SiblingsDisjoint(t, k, m, p);
      }
    }
    forall p ensures p in results + sub <==> CollectedBefore(t, rest - {k}, p) {
      assert CollectedBefore(t, rest - {k}, p) <==> CollectedBefore(t, rest, p) || Collected(t.children[k], p);
    }
  }

  // _collect_from_subtree: every entry the walk can see, none of them twice.
  method Collect(t: Trie) returns (results: seq<Payload>)
    requires Distinct(t)
    ensures NoDuplicates(results)
    ensures forall p :: p in results <==> Collected(t, p)
    decreases t
  {
    results := if t.entry.Some? then [t.entry.value] else [];
    var rest := t.children.Keys;
    while rest != {}
      invariant rest <= t.children.Keys && NoDuplicates(results)
      invariant forall p :: p in results <==> CollectedBefore(t, rest, p)
    {
      var k :| k in rest;
      if !Internal(k) {
        DistinctBelow(t, k);
        var sub := Collect(t.children[k]);
        CollectChild(t, rest, results, k, sub);
        results := results + sub;
      } else {
        assert forall p :: CollectedBefore(t, rest - {k}, p) <==> CollectedBefore(t, rest, p);
      }
      rest := rest - {k};
    }
    forall p ensures CollectedBefore(t, {}, p) <==> Collected(t, p) {
      CollectedIff(t, p);
    }
  }
}
