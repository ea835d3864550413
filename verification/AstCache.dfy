/**
 The syntax-tree cache bounded by entry count and estimated size (codebase_rag/ast_cache.py).

 An ordered dictionary is the sequence of its entries, oldest use first, with distinct keys.  The loader reads files that
 do not change during a run, so it is a function of the key.
 */
module AstCache {
  import opened Options

  const CACHE_EVICTION_DIVISOR := 10

  datatype Entry<K, V> = Entry(key: K, value: V)

  type Cache<K, V> = seq<Entry<K, V>>

  datatype Config<!K, !V> = Config(maxEntries: nat, maxBytes: nat, size: V -> nat, loader: Option<K -> Option<V>>)

  // ----- ordered dictionaries -----

  ghost predicate DistinctKeys<K, V>(c: Cache<K, V>) {
    forall i, j :: 0 <= i < j < |c| ==> c[i].key != c[j].key
  }

  function Lookup<K(==), V>(c: Cache<K, V>, k: K): Option<V> {
    if c == [] then None else if c[0].key == k then Some(c[0].value) else Lookup(c[1..], k)
  }

  function Without<K(==), V>(c: Cache<K, V>, k: K): Cache<K, V> {
    if c == [] then [] else (if c[0].key == k then [] else [c[0]]) + Without(c[1..], k)
  }

  // A use makes the entry the most recent one.
  function Touch<K(==), V>(c: Cache<K, V>, k: K, v: V): Cache<K, V> {
    Without(c, k) + [Entry(k, v)]
  }

  ghost predicate IsSuffix<T>(s: seq<T>, r: seq<T>) {
    |s| <= |r| && s == r[|r| - |s|..]
  }

  lemma {:induction false} LookupIs<K, V>(c: Cache<K, V>, k: K)
    requires DistinctKeys(c)
    ensures forall v :: Lookup(c, k) == Some(v) <==> Entry(k, v) in c
    ensures Lookup(c, k).None? <==> forall e :: e in c ==> e.key != k
  {
    if c != [] {
      LookupIs(c[1..], k);
      assert forall e :: e in c <==> e == c[0] || e in c[1..];
    }
  }

  lemma {:induction false} WithoutMembers<K, V>(c: Cache<K, V>, k: K)
    ensures forall e :: e in Without(c, k) <==> e in c && e.key != k
    ensures forall j :: 0 <= j < |Without(c, k)| ==> Without(c, k)[j] in c && Without(c, k)[j].key != k
  {
    if c != [] {
      WithoutMembers(c[1..], k);
      assert forall e :: e in c <==> e == c[0] || e in c[1..];
    }
  }

  lemma {:induction false} WithoutAbsent<K, V>(c: Cache<K, V>, k: K)
    requires Lookup(c, k).None?
    ensures Without(c, k) == c
  {
    if c != [] {
      WithoutAbsent(c[1..], k);
    }
  }

  lemma {:induction false} WithoutDistinct<K, V>(c: Cache<K, V>, k: K)
    requires DistinctKeys(c)
    ensures DistinctKeys(Without(c, k))
    ensures |Without(c, k)| == |c| - if Lookup(c, k).Some? then 1 else 0
  {
    if c != [] {
      WithoutDistinct(c[1..], k);
      WithoutMembers(c[1..], k);
      LookupIs(c[1..], c[0].key);
      if c[0].key == k {
        WithoutAbsent(c[1..], k);
      } else {
        var rest := Without(c[1..], k);
        forall j | 0 <= j < |rest| ensures rest[j].key != c[0].key {
          assert rest[j] in c[1..];
        }
      }
    }
  }

  lemma {:induction false} WithoutAppend<K, V>(a: Cache<K, V>, b: Cache<K, V>, k: K)
    ensures Without(a + b, k) == Without(a, k) + Without(b, k)
  {
    if a == [] {
      assert a + b == b;
    } else {
      assert (a + b)[1..] == a[1..] + b;
      WithoutAppend(a[1..], b, k);
    }
  }

  lemma TouchDistinct<K, V>(c: Cache<K, V>, k: K, v: V)
    requires DistinctKeys(c)
    ensures DistinctKeys(Touch(c, k, v))
    ensures |Touch(c, k, v)| == |c| + if Lookup(c, k).Some? then 0 else 1
  {
    WithoutDistinct(c, k);
    WithoutMembers(c, k);
  }

  lemma WithoutKeepsSuffix<K, V>(s: Cache<K, V>, r: Cache<K, V>, k: K)
    requires IsSuffix(s, r)
    ensures IsSuffix(Without(s, k), Without(r, k))
  {
    var front := r[..|r| - |s|];
    assert r == front + s;
    WithoutAppend(front, s, k);
  }

  lemma TouchKeepsSuffix<K, V>(s: Cache<K, V>, r: Cache<K, V>, k: K, v: V)
    requires IsSuffix(s, r)
    ensures IsSuffix(Touch(s, k, v), Touch(r, k, v))
  {
    WithoutKeepsSuffix(s, r, k);
  }

  lemma SuffixDistinct<K, V>(s: Cache<K, V>, r: Cache<K, V>)
    requires IsSuffix(s, r) && DistinctKeys(r)
    ensures DistinctKeys(s)
  {
    assert forall i :: 0 <= i < |s| ==> s[i] == r[|r| - |s| + i];
  }

  lemma SuffixTransitive<T>(a: seq<T>, b: seq<T>, c: seq<T>)
    requires IsSuffix(a, b) && IsSuffix(b, c)
    ensures IsSuffix(a, c)
  {
  }

  // ----- limits -----

  function TotalSize<K, V>(c: Cache<K, V>, size: V -> nat): nat {
    if c == [] then 0 else size(c[0].value) + TotalSize(c[1..], size)
  }

  // The `limit` most recent entries.
  function Recent<T>(c: seq<T>, limit: nat): (kept: seq<T>)
    ensures IsSuffix(kept, c) && |kept| == if |c| <= limit then |c| else limit
  {
    if |c| <= limit then c else c[|c| - limit..]
  }

  function AtLeastOne(n: nat): nat {
    if n == 0 then 1 else n
  }

  // Of n entries, how many the size limit takes.
  function Tenth(n: nat): (count: nat)
    ensures count <= n && (count == n <==> n <= 1)
  {
    if n == 0 then 0 else AtLeastOne(n / CACHE_EVICTION_DIVISOR)
  }

  // One round of eviction, by count and then by size.
  function Enforced<K, V>(config: Config<K, V>, c: Cache<K, V>): (kept: Cache<K, V>)
    ensures IsSuffix(kept, c) && |kept| <= config.maxEntries
  {
    var recent := Recent(c, config.maxEntries);
    if TotalSize(recent, config.size) > config.maxBytes then recent[Tenth(|recent|)..] else recent
  }

  lemma OnlyEntrySize<K, V>(e: Entry<K, V>, size: V -> nat)
    ensures TotalSize([e], size) == size(e.value)
  {
    assert [e][1..] == [];
  }

  // The sizes of all entries, added up.
  ghost function SizeSum<K, V>(c: Cache<K, V>, size: V -> nat): nat {
    if c == [] then 0 else SizeSum(c[..|c| - 1], size) + size(c[|c| - 1].value)
  }

  lemma {:induction false} SizeSumAppend<K, V>(a: Cache<K, V>, b: Cache<K, V>, size: V -> nat)
    ensures SizeSum(a + b, size) == SizeSum(a, size) + SizeSum(b, size)
  {
    if b == [] {
      assert a + b == a;
    } else {
      assert (a + b)[..|a + b| - 1] == a + b[..|b| - 1];
      SizeSumAppend(a, b[..|b| - 1], size);
    }
  }

  lemma {:induction false} TotalSizeIs<K, V>(c: Cache<K, V>, size: V -> nat)
    ensures TotalSize(c, size) == SizeSum(c, size)
  {
    if c != [] {
      TotalSizeIs(c[1..], size);
      assert c == c[..1] + c[1..];
      SizeSumAppend(c[..1], c[1..], size);
      assert c[..1][..0] == [];
      assert SizeSum(c[..1], size) == SizeSum(c[..1][..0], size) + size(c[0].value);
    }
  }

  // What the limits keep of `all`: the most recent entries that the count allows, all n of them if their sizes fit, and
  // otherwise all but the oldest n / 10, or the oldest one if that is none.
  ghost predicate Evicted<K, V>(config: Config<K, V>, all: Cache<K, V>, kept: Cache<K, V>) {
    var n := if |all| <= config.maxEntries then |all| else config.maxEntries;
    var counted := all[|all| - n..];
    && (SizeSum(counted, config.size) <= config.maxBytes ==> kept == counted)
    && (SizeSum(counted, config.size) > config.maxBytes ==>
          n > 0 && (n < 20 ==> kept == counted[1..]) && (n >= 20 ==> kept == counted[n / 10..]))
  }

  lemma EnforcedIs<K, V>(config: Config<K, V>, all: Cache<K, V>)
    ensures Evicted(config, all, Enforced(config, all))
  {
    var n := if |all| <= config.maxEntries then |all| else config.maxEntries;
    assert all[|all| - n..] == Recent(all, config.maxEntries);
    TotalSizeIs(Recent(all, config.maxEntries), config.size);
  }

  ghost predicate Missing<K, V>(c: Cache<K, V>, k: K) {
    forall i :: 0 <= i < |c| ==> c[i].key != k
  }

  // `rest` is c without its entry for k, if it has one.
  ghost predicate Removed<K, V>(c: Cache<K, V>, k: K, rest: Cache<K, V>) {
    if Missing(c, k) then rest == c else exists i :: 0 <= i < |c| && c[i].key == k && rest == c[..i] + c[i + 1..]
  }

  lemma {:induction false} WithoutIs<K, V>(c: Cache<K, V>, k: K)
    requires DistinctKeys(c)
    ensures Removed(c, k, Without(c, k))
  {
    if c != [] {
      if c[0].key == k {
        LookupIs(c[1..], k);
        WithoutAbsent(c[1..], k);
        assert c[..0] + c[0 + 1..] == c[1..];
      } else {
        WithoutIs(c[1..], k);
        RemovedLater(c[0], c[1..], k, Without(c[1..], k));
        assert c == [c[0]] + c[1..];
      }
    }
  }

  lemma RemovedLater<K, V>(e: Entry<K, V>, c: Cache<K, V>, k: K, rest: Cache<K, V>)
    requires e.key != k && Removed(c, k, rest)
    ensures Removed([e] + c, k, [e] + rest)
  {
    var longer := [e] + c;
    if i :| 0 <= i < |c| && c[i].key == k && rest == c[..i] + c[i + 1..] {
      assert longer[i + 1].key == k && longer[..i + 1] == [e] + c[..i] && longer[i + 2..] == c[i + 1..];
    } else {
      assert Missing(c, k);
    }
  }

  // The entry becomes the most recent one.
  ghost predicate Renewed<K, V>(c: Cache<K, V>, k: K, v: V, c': Cache<K, V>) {
    c' != [] && c'[|c'| - 1] == Entry(k, v) && Removed(c, k, c'[..|c'| - 1])
  }

  // The entry becomes the most recent one, and then the limits are enforced.
  ghost predicate Stored<K, V>(config: Config<K, V>, c: Cache<K, V>, k: K, v: V, c': Cache<K, V>) {
    if Missing(c, k) then Evicted(config, c + [Entry(k, v)], c')
    else exists i :: 0 <= i < |c| && c[i].key == k && Evicted(config, c[..i] + c[i + 1..] + [Entry(k, v)], c')
  }

  lemma TouchIs<K, V>(config: Config<K, V>, c: Cache<K, V>, k: K, v: V)
    requires DistinctKeys(c)
    ensures Renewed(c, k, v, Touch(c, k, v)) && Stored(config, c, k, v, Enforced(config, Touch(c, k, v)))
  {
    WithoutIs(c, k);
    EnforcedIs(config, Touch(c, k, v));
  }

  // What was just stored is there afterwards unless no entry is allowed, or it is the only one kept and too large.
  lemma FreshSurvivesIff<K, V>(config: Config<K, V>, c: Cache<K, V>, k: K, v: V)
    requires DistinctKeys(c)
    ensures Entry(k, v) in Enforced(config, Touch(c, k, v))
            <==> config.maxEntries > 0
                 && (config.size(v) <= config.maxBytes || (config.maxEntries > 1 && Without(c, k) != []))
  {
    var touched := Touch(c, k, v);
    var kept, recent := Enforced(config, touched), Recent(touched, config.maxEntries);
    assert kept != [] ==> kept[|kept| - 1] == Entry(k, v);
    assert |recent| == 1 <==> config.maxEntries > 0 && (config.maxEntries == 1 || Without(c, k) == []);
    if |recent| == 1 {
      assert recent == [Entry(k, v)];
      OnlyEntrySize(Entry(k, v), config.size);
    }
  }

  // ----- operations, on values -----

  datatype Op<K, V> = Load(key: K) | Put(key: K, value: V) | Get(key: K) | Delete(key: K)

  datatype Outcome<K, V> = Outcome(cache: Cache<K, V>, answer: Option<V>)

  // A missing key raises KeyError from Get, which is its answer None.
  function Apply<K(==), V>(config: Config<K, V>, c: Cache<K, V>, op: Op<K, V>): Outcome<K, V> {
    match op
    case Load(k) =>
      var found := Lookup(c, k);
      if found.Some? then Outcome(Touch(c, k, found.value), found)
      else if config.loader.None? || config.loader.value(k).None? then Outcome(c, None)
      else Outcome(Enforced(config, Touch(c, k, config.loader.value(k).value)), config.loader.value(k))
    case Put(k, v) => Outcome(Enforced(config, Touch(c, k, v)), None)
    case Get(k) =>
      var found := Lookup(c, k);
      if found.Some? then Outcome(Touch(c, k, found.value), found) else Outcome(c, None)
    case Delete(k) => Outcome(Without(c, k), None)
  }

  // A read by Get or Load of what the cache holds.
  ghost predicate Hit<K, V>(c: Cache<K, V>, k: K, after: Outcome<K, V>) {
    && after.answer.Some? && Entry(k, after.answer.value) in c
    && Renewed(c, k, after.answer.value, after.cache)
  }

  // What the operations do, entry by entry.
  ghost predicate Does<K, V>(config: Config<K, V>, c: Cache<K, V>, op: Op<K, V>, after: Outcome<K, V>) {
    match op
    case Get(k) => if Missing(c, k) then after == Outcome(c, None) else Hit(c, k, after)
    case Delete(k) => Removed(c, k, after.cache) && after.answer == None
    case Put(k, v) => Stored(config, c, k, v, after.cache) && after.answer == None
    case Load(k) =>
      if !Missing(c, k) then Hit(c, k, after)
      else
        && after.answer == (if config.loader.Some? then config.loader.value(k) else None)
        && (if after.answer.Some? then Stored(config, c, k, after.answer.value, after.cache) else after.cache == c)
  }

  lemma ApplyDoes<K, V>(config: Config<K, V>, c: Cache<K, V>, op: Op<K, V>)
    requires DistinctKeys(c)
    ensures Does(config, c, op, Apply(config, c, op))
  {
    LookupIs(c, op.key);
    WithoutIs(c, op.key);
    assert Missing(c, op.key) <==> Lookup(c, op.key).None?;
    match op
    case Put(k, v) => TouchIs(config, c, k, v);
    case Load(k) =>
      if Lookup(c, k).Some? {
        TouchIs(config, c, k, Lookup(c, k).value);
      } else if config.loader.Some? && config.loader.value(k).Some? {
        TouchIs(config, c, k, config.loader.value(k).value);
      }
    case Get(k) =>
      if Lookup(c, k).Some? {
        TouchIs(config, c, k, Lookup(c, k).value);
      }
    case Delete(_) =>
  }

  function Run<K(==), V>(config: Config<K, V>, ops: seq<Op<K, V>>): Cache<K, V> {
    if ops == [] then []
    else Apply(config, Run(config, ops[..|ops| - 1]), ops[|ops| - 1]).cache
  }

  // ----- the cache that never evicts -----

  datatype Event<K, V> = Used(key: K, value: V) | Dropped(key: K)

  // What one operation did: a failed Get or Load leaves no trace.
  function Trace<K(==), V>(config: Config<K, V>, c: Cache<K, V>, op: Op<K, V>): seq<Event<K, V>> {
    match op
    case Put(k, v) => [Used(k, v)]
    case Delete(k) => [Dropped(k)]
    case _ =>
      var answer := Apply(config, c, op).answer;
      if answer.Some? then [Used(op.key, answer.value)] else []
  }

  function History<K(==), V>(config: Config<K, V>, ops: seq<Op<K, V>>): seq<Event<K, V>> {
    if ops == [] then []
    else
      var before := ops[..|ops| - 1];
      History(config, before) + Trace(config, Run(config, before), ops[|ops| - 1])
  }

  function Undergo<K(==), V>(c: Cache<K, V>, e: Event<K, V>): Cache<K, V> {
    match e
    case Used(k, v) => Touch(c, k, v)
    case Dropped(k) => Without(c, k)
  }

  // Every entry used and not dropped since, least recently used first.
  function Unbounded<K(==), V>(events: seq<Event<K, V>>): Cache<K, V> {
    if events == [] then [] else Undergo(Unbounded(events[..|events| - 1]), events[|events| - 1])
  }

  lemma UnboundedGrows<K, V>(events: seq<Event<K, V>>, trace: seq<Event<K, V>>)
    requires |trace| <= 1
    ensures Unbounded(events + trace)
            == if trace == [] then Unbounded(events) else Undergo(Unbounded(events), trace[0])
  {
    if trace == [] {
      assert events + trace == events;
    } else {
      assert (events + trace)[..|events|] == events;
    }
  }

  lemma UndergoDistinct<K, V>(c: Cache<K, V>, e: Event<K, V>)
    requires DistinctKeys(c)
    ensures DistinctKeys(Undergo(c, e))
  {
    match e
    case Used(k, v) => TouchDistinct(c, k, v);
    case Dropped(k) => WithoutDistinct(c, k);
  }

  lemma UndergoKeepsSuffix<K, V>(s: Cache<K, V>, r: Cache<K, V>, e: Event<K, V>)
    requires IsSuffix(s, r)
    ensures IsSuffix(Undergo(s, e), Undergo(r, e))
  {
    match e
    case Used(k, v) => TouchKeepsSuffix(s, r, k, v);
    case Dropped(k) => WithoutKeepsSuffix(s, r, k);
  }

  lemma {:induction false} UnboundedDistinct<K, V>(events: seq<Event<K, V>>)
    ensures DistinctKeys(Unbounded(events))
  {
    if events != [] {
      UnboundedDistinct(events[..|events| - 1]);
      UndergoDistinct(Unbounded(events[..|events| - 1]), events[|events| - 1]);
    }
  }

  function LastEvent<K(==), V>(events: seq<Event<K, V>>, k: K): (at: Option<nat>)
    ensures at.Some? ==> at.value < |events| && events[at.value].key == k
    ensures at.Some? ==> forall i :: at.value < i < |events| ==> events[i].key != k
    ensures at.None? ==> forall i :: 0 <= i < |events| ==> events[i].key != k
  {
    var n := |events|;
    if n == 0 then None
    else if events[n - 1].key == k then Some(n - 1)
    else LastEvent(events[..n - 1], k)
  }

  // The position of the last event of a key.
  ghost function Rank<K(!new), V(!new)>(events: seq<Event<K, V>>): K -> int {
    k => match LastEvent(events, k) case Some(at) => at case None => -1
  }

  ghost predicate Increasing<K, V>(c: Cache<K, V>, rank: K -> int) {
    forall i, j :: 0 <= i < j < |c| ==> rank(c[i].key) < rank(c[j].key)
  }

  lemma {:induction false} WithoutIncreasing<K, V>(c: Cache<K, V>, k: K, rank: K -> int)
    requires Increasing(c, rank)
    ensures Increasing(Without(c, k), rank)
  {
    if c != [] {
      WithoutIncreasing(c[1..], k, rank);
      WithoutMembers(c[1..], k);
      var rest := Without(c[1..], k);
      forall j | 0 <= j < |rest| ensures rank(c[0].key) < rank(rest[j].key) {
        assert rest[j] in c[1..];
      }
    }
  }

  // The reference is in the order of last uses.
  lemma {:induction false} UnboundedByLastUse<K(!new), V(!new)>(events: seq<Event<K, V>>)
    ensures Increasing(Unbounded(events), Rank(events))
  {
    if events != [] {
      var before, last := events[..|events| - 1], events[|events| - 1];
      UnboundedByLastUse(before);
      WithoutIncreasing(Unbounded(before), last.key, Rank(before));
      WithoutMembers(Unbounded(before), last.key);
      var rest := Without(Unbounded(before), last.key);
      assert forall i :: 0 <= i < |rest| ==> Rank(events)(rest[i].key) == Rank(before)(rest[i].key);
    }
  }

  // The reference holds exactly the entries whose last event is a use, with the value of that use.
  lemma {:induction false} UnboundedHolds<K, V>(events: seq<Event<K, V>>, k: K, v: V)
    ensures Entry(k, v) in Unbounded(events)
            <==> LastEvent(events, k).Some? && events[LastEvent(events, k).value] == Used(k, v)
  {
    if events != [] {
      var before, last := events[..|events| - 1], events[|events| - 1];
      UnboundedHolds(before, k, v);
      WithoutMembers(Unbounded(before), last.key);
    }
  }

  // ----- runs -----

  // In every reachable state the keys are distinct, the count is within its limit, and what is missing from the cache
  // that never evicts is a least-recently-used part of it.
  lemma {:induction false} RunInclusion<K, V>(config: Config<K, V>, ops: seq<Op<K, V>>)
    ensures DistinctKeys(Run(config, ops)) && |Run(config, ops)| <= config.maxEntries
    ensures IsSuffix(Run(config, ops), Unbounded(History(config, ops)))
  {
    if ops != [] {
      var before, op := ops[..|ops| - 1], ops[|ops| - 1];
      RunInclusion(config, before);
      StepInclusion(config, Run(config, before), History(config, before), op);
    }
  }

  // One operation does what its event does, and then may evict.
  lemma StepShape<K, V>(config: Config<K, V>, c: Cache<K, V>, op: Op<K, V>)
    requires DistinctKeys(c) && |c| <= config.maxEntries
    ensures var c', trace := Apply(config, c, op).cache, Trace(config, c, op);
            |trace| <= 1 && |c'| <= config.maxEntries
            && if trace == [] then c' == c else IsSuffix(c', Undergo(c, trace[0]))
  {
    WithoutDistinct(c, op.key);
  }

  lemma StepInclusion<K, V>(config: Config<K, V>, c: Cache<K, V>, events: seq<Event<K, V>>, op: Op<K, V>)
    requires DistinctKeys(c) && |c| <= config.maxEntries && IsSuffix(c, Unbounded(events))
    ensures var c' := Apply(config, c, op).cache;
            DistinctKeys(c') && |c'| <= config.maxEntries
            && IsSuffix(c', Unbounded(events + Trace(config, c, op)))
  {
    var c', trace := Apply(config, c, op).cache, Trace(config, c, op);
    StepShape(config, c, op);
    UnboundedGrows(events, trace);
    if trace != [] {
      UndergoDistinct(c, trace[0]);
      SuffixDistinct(c', Undergo(c, trace[0]));
      UndergoKeepsSuffix(c, Unbounded(events), trace[0]);
      SuffixTransitive(c', Undergo(c, trace[0]), Unbounded(events + trace));
    }
  }

  lemma SuffixHas<T>(s: seq<T>, r: seq<T>, j: nat)
    requires IsSuffix(s, r) && |r| - |s| <= j < |r|
    ensures r[j] in s
  {
    assert r[j] == s[j - (|r| - |s|)];
  }

  // What a suffix lost ranks below what it kept.
  lemma SuffixRanks<K, V>(s: Cache<K, V>, r: Cache<K, V>, rank: K -> int, kept: Entry<K, V>, lost: Entry<K, V>)
    requires IsSuffix(s, r) && Increasing(r, rank)
    requires kept in s && lost in r && lost !in s
    ensures rank(lost.key) < rank(kept.key)
  {
    var i :| 0 <= i < |s| && s[i] == kept;
    var j :| 0 <= j < |r| && r[j] == lost;
    assert r[|r| - |s| + i] == kept;
    if j >= |r| - |s| {
      SuffixHas(s, r, j);
    }
  }

  // An entry that was evicted was last used before every entry that is still there.
  lemma EvictedLeastRecent<K(!new), V(!new)>(config: Config<K, V>, ops: seq<Op<K, V>>, kept: K, lost: K)
    requires Lookup(Run(config, ops), kept).Some? && Lookup(Run(config, ops), lost).None?
    requires var at := LastEvent(History(config, ops), lost); at.Some? && History(config, ops)[at.value].Used?
    ensures Rank(History(config, ops))(lost) < Rank(History(config, ops))(kept)
  {
    var c, events := Run(config, ops), History(config, ops);
    var v := events[LastEvent(events, lost).value].value;
    RunInclusion(config, ops);
    UnboundedByLastUse(events);
    UnboundedHolds(events, lost, v);
    LookupIs(c, kept);
    LookupIs(c, lost);
    SuffixRanks(c, Unbounded(events), Rank(events), Entry(kept, Lookup(c, kept).value), Entry(lost, v));
  }

  // ----- what a load answers -----

  ghost predicate PutsAgree<K, V>(loader: K -> Option<V>, ops: seq<Op<K, V>>) {
    forall i :: 0 <= i < |ops| && ops[i].Put? ==> loader(ops[i].key) == Some(ops[i].value)
  }

  ghost predicate Agrees<K, V>(loader: K -> Option<V>, c: Cache<K, V>) {
    forall e :: e in c ==> loader(e.key) == Some(e.value)
  }

  lemma TouchAgrees<K, V>(loader: K -> Option<V>, c: Cache<K, V>, k: K, v: V, c': Cache<K, V>)
    requires Agrees(loader, c) && loader(k) == Some(v) && IsSuffix(c', Touch(c, k, v))
    ensures Agrees(loader, c')
  {
    WithoutMembers(c, k);
    assert forall e :: e in c' ==> e in Touch(c, k, v);
  }

  lemma StepAgrees<K, V>(config: Config<K, V>, c: Cache<K, V>, op: Op<K, V>)
    requires config.loader.Some? && PutsAgree(config.loader.value, [op])
    requires DistinctKeys(c) && Agrees(config.loader.value, c)
    ensures Agrees(config.loader.value, Apply(config, c, op).cache)
  {
    assert [op][0] == op;
    var loader := config.loader.value;
    if op.Delete? {
      WithoutMembers(c, op.key);
    } else {
      LookupIs(c, op.key);
      if loader(op.key).Some? {
        var v, touched := loader(op.key).value, Touch(c, op.key, loader(op.key).value);
        TouchAgrees(loader, c, op.key, v, touched);
        TouchAgrees(loader, c, op.key, v, Enforced(config, touched));
      }
    }
  }

  lemma {:induction false} RunAgrees<K, V>(config: Config<K, V>, ops: seq<Op<K, V>>)
    requires config.loader.Some? && PutsAgree(config.loader.value, ops)
    ensures Agrees(config.loader.value, Run(config, ops))
  {
    if ops != [] {
      var before := ops[..|ops| - 1];
      RunAgrees(config, before);
      RunInclusion(config, before);
      StepAgrees(config, Run(config, before), ops[|ops| - 1]);
    }
  }

  // Whatever was evicted before, a load answers what the loader would.
  lemma LoadAnswers<K, V>(config: Config<K, V>, ops: seq<Op<K, V>>, k: K)
    requires config.loader.Some? && PutsAgree(config.loader.value, ops)
    ensures Apply(config, Run(config, ops), Load(k)).answer == config.loader.value(k)
  {
    RunAgrees(config, ops);
    RunInclusion(config, ops);
    LookupIs(Run(config, ops), k);
  }

  // ----- what a larger limit gains -----

  ghost predicate LoadsAndPuts<K, V>(ops: seq<Op<K, V>>) {
    forall i :: 0 <= i < |ops| ==> ops[i].Load? || ops[i].Put?
  }

  // No entry is larger than `each`, and the limits have room for that many of them.
  ghost predicate Roomy<K, V(!new)>(config: Config<K, V>, each: nat) {
    (forall v :: config.size(v) <= each) && config.maxEntries * each <= config.maxBytes
  }

  lemma {:induction false} TotalSizeBound<K, V(!new)>(c: Cache<K, V>, size: V -> nat, each: nat)
    requires forall v :: size(v) <= each
    ensures TotalSize(c, size) <= |c| * each
  {
    if c != [] {
      TotalSizeBound(c[1..], size, each);
    }
  }

  lemma Monotone(a: nat, b: nat, each: nat)
    requires a <= b
    ensures a * each <= b * each
  {
  }

  lemma RoomyEvictsByCount<K, V(!new)>(config: Config<K, V>, c: Cache<K, V>, each: nat)
    requires Roomy(config, each)
    ensures Enforced(config, c) == Recent(c, config.maxEntries)
  {
    var recent := Recent(c, config.maxEntries);
    TotalSizeBound(recent, config.size, each);
    Monotone(|recent|, config.maxEntries, each);
  }

  lemma TouchRecentCount<K, V>(all: Cache<K, V>, k: K, v: V, limit: nat)
    requires DistinctKeys(all)
    ensures |Recent(Touch(Recent(all, limit), k, v), limit)| == |Recent(Touch(all, k, v), limit)|
  {
    SuffixDistinct(Recent(all, limit), all);
    WithoutDistinct(Recent(all, limit), k);
    WithoutDistinct(all, k);
  }

  // Evicting before a use loses nothing that evicting after it would keep.
  lemma TouchRecent<K, V>(all: Cache<K, V>, k: K, v: V, limit: nat)
    requires DistinctKeys(all)
    ensures Recent(Touch(Recent(all, limit), k, v), limit) == Recent(Touch(all, k, v), limit)
  {
    var touched := Touch(Recent(all, limit), k, v);
    TouchRecentCount(all, k, v, limit);
    TouchKeepsSuffix(Recent(all, limit), all, k, v);
    SuffixTransitive(Recent(touched, limit), touched, Touch(all, k, v));
  }

  // One load or put, when only the count evicts.
  lemma StepExact<K, V(!new)>(config: Config<K, V>, c: Cache<K, V>, op: Op<K, V>, each: nat)
    requires config.loader.Some? && PutsAgree(config.loader.value, [op]) && LoadsAndPuts([op]) && Roomy(config, each)
    requires DistinctKeys(c) && |c| <= config.maxEntries && Agrees(config.loader.value, c)
    ensures var loaded := config.loader.value(op.key);
            Apply(config, c, op).cache
            == if loaded.Some? then Recent(Touch(c, op.key, loaded.value), config.maxEntries) else c
    ensures var loaded := config.loader.value(op.key);
            Trace(config, c, op) == if loaded.Some? then [Used(op.key, loaded.value)] else []
  {
    assert [op][0] == op;
    LookupIs(c, op.key);
    var loaded := config.loader.value(op.key);
    if loaded.Some? {
      TouchDistinct(c, op.key, loaded.value);
      RoomyEvictsByCount(config, Touch(c, op.key, loaded.value), each);
    }
  }

  // With room in memory, any run of loads and puts leaves exactly the most recently used entries the count allows.
  lemma {:induction false} LoadsExact<K, V(!new)>(config: Config<K, V>, ops: seq<Op<K, V>>, each: nat)
    requires config.loader.Some? && PutsAgree(config.loader.value, ops) && LoadsAndPuts(ops) && Roomy(config, each)
    ensures Run(config, ops) == Recent(Unbounded(History(config, ops)), config.maxEntries)
  {
    if ops != [] {
      var before, op := ops[..|ops| - 1], ops[|ops| - 1];
      LoadsExact(config, before, each);
      RunAgrees(config, before);
      RunInclusion(config, before);
      LoadsExactStep(config, Run(config, before), History(config, before), op, each);
    }
  }

  lemma LoadsExactStep<K, V(!new)>(config: Config<K, V>, c: Cache<K, V>, events: seq<Event<K, V>>, op: Op<K, V>,
                                   each: nat)
    requires config.loader.Some? && PutsAgree(config.loader.value, [op]) && LoadsAndPuts([op]) && Roomy(config, each)
    requires DistinctKeys(c) && |c| <= config.maxEntries && Agrees(config.loader.value, c)
    requires c == Recent(Unbounded(events), config.maxEntries)
    ensures Apply(config, c, op).cache == Recent(Unbounded(events + Trace(config, c, op)), config.maxEntries)
  {
    assert [op][0] == op;
    StepExact(config, c, op, each);
    UnboundedGrows(events, Trace(config, c, op));
    UnboundedDistinct(events);
    if config.loader.value(op.key).Some? {
      TouchRecent(Unbounded(events), op.key, config.loader.value(op.key).value, config.maxEntries);
    }
  }

  // Reads apart: one that finds its key in the larger cache only makes it recent there.
  ghost predicate NoGets<K, V>(ops: seq<Op<K, V>>) {
    forall i :: 0 <= i < |ops| ==> !ops[i].Get?
  }

  lemma RecentKeepsSuffix<T>(s: seq<T>, r: seq<T>, m: nat, n: nat)
    requires IsSuffix(s, r) && m <= n
    ensures IsSuffix(Recent(s, m), Recent(r, n))
  {
    SuffixTransitive(Recent(s, m), s, r);
  }

  lemma StepKeepsSuffix<K, V(!new)>(small: Config<K, V>, big: Config<K, V>, c: Cache<K, V>, d: Cache<K, V>,
                                    op: Op<K, V>, each: nat)
    requires small.loader.Some? && small.loader == big.loader && small.maxEntries <= big.maxEntries
    requires Roomy(small, each) && Roomy(big, each) && PutsAgree(small.loader.value, [op]) && !op.Get?
    requires DistinctKeys(c) && |c| <= small.maxEntries && Agrees(small.loader.value, c)
    requires DistinctKeys(d) && |d| <= big.maxEntries && Agrees(big.loader.value, d)
    requires IsSuffix(c, d)
    ensures IsSuffix(Apply(small, c, op).cache, Apply(big, d, op).cache)
  {
    if op.Delete? {
      WithoutKeepsSuffix(c, d, op.key);
    } else {
      assert [op][0] == op;
      StepExact(small, c, op, each);
      StepExact(big, d, op, each);
      var loaded := small.loader.value(op.key);
      if loaded.Some? {
        TouchKeepsSuffix(c, d, op.key, loaded.value);
        RecentKeepsSuffix(Touch(c, op.key, loaded.value), Touch(d, op.key, loaded.value), small.maxEntries,
                          big.maxEntries);
      }
    }
  }

  // With room in memory, a larger entry limit never turns a hit into a miss.
  lemma {:induction false} LargerLimitKeepsHits<K, V(!new)>(small: Config<K, V>, big: Config<K, V>,
                                                            ops: seq<Op<K, V>>, each: nat)
    requires small.loader.Some? && small.loader == big.loader && small.maxEntries <= big.maxEntries
    requires Roomy(small, each) && Roomy(big, each)
    requires PutsAgree(small.loader.value, ops) && NoGets(ops)
    ensures IsSuffix(Run(small, ops), Run(big, ops))
  {
    if ops != [] {
      var before, op := ops[..|ops| - 1], ops[|ops| - 1];
      LargerLimitKeepsHits(small, big, before, each);
      RunAgrees(small, before);
      RunInclusion(small, before);
      RunAgrees(big, before);
      RunInclusion(big, before);
      StepKeepsSuffix(small, big, Run(small, before), Run(big, before), op, each);
    }
  }

  // ----- operations, in place -----

  class BoundedASTCache<K(==), V> {
    const config: Config<K, V>
    var cache: Cache<K, V>

    ghost predicate Valid()
      reads this
    {
      DistinctKeys(cache)
    }

    constructor (config: Config<K, V>)
      ensures Valid() && this.config == config && cache == []
    {
      this.config, cache := config, [];
    }

    method EnforceLimits()
      requires Valid()
      modifies this`cache
      ensures Valid() && cache == Enforced(config, old(cache)) && Evicted(config, old(cache), cache)
    {
      SuffixDistinct(Enforced(config, cache), cache);
      EnforceCount();
      if TotalSize(cache, config.size) > config.maxBytes {
        DropOldest(AtLeastOne(|cache| / CACHE_EVICTION_DIVISOR));
      }
      EnforcedIs(config, old(cache));
    }

    method EnforceCount()
      modifies this`cache
      ensures cache == Recent(old(cache), config.maxEntries)
    {
      while |cache| > config.maxEntries
        invariant IsSuffix(cache, old(cache))
        invariant |cache| >= |Recent(old(cache), config.maxEntries)|
      {
        cache := cache[1..];
      }
    }

    method DropOldest(entriesToRemove: nat)
      modifies this`cache
      ensures cache == old(cache)[if entriesToRemove <= |old(cache)| then entriesToRemove else |old(cache)|..]
    {
      for i := 0 to entriesToRemove
        invariant cache == old(cache)[if i <= |old(cache)| then i else |old(cache)|..]
      {
        if cache != [] {
          cache := cache[1..];
        }
      }
    }

    method Set(k: K, v: V)
      requires Valid()
      modifies this`cache
      ensures Valid() && cache == Apply(config, old(cache), Put(k, v)).cache
      ensures Does(config, old(cache), Put(k, v), Outcome(cache, None))
    {
      ApplyDoes(config, cache, Put(k, v));
      TouchDistinct(cache, k, v);
      if Lookup(cache, k).Some? {
        cache := Without(cache, k);
      } else {
        WithoutAbsent(cache, k);
      }
      cache := cache + [Entry(k, v)];
      EnforceLimits();
    }

    // None stands for the KeyError of a missing key.
    method Get(k: K) returns (value: Option<V>)
      requires Valid()
      modifies this`cache
      ensures Valid() && Outcome(cache, value) == Apply(config, old(cache), Op.Get(k))
      ensures Does(config, old(cache), Op.Get(k), Outcome(cache, value))
    {
      ApplyDoes(config, cache, Op.Get(k));
      value := Lookup(cache, k);
      if value.Some? {
        TouchDistinct(cache, k, value.value);
        cache := Without(cache, k) + [Entry(k, value.value)];
      }
    }

    method Delete(k: K)
      requires Valid()
      modifies this`cache
      ensures Valid() && cache == Apply(config, old(cache), Op.Delete(k)).cache
      ensures Does(config, old(cache), Op.Delete(k), Outcome(cache, None))
    {
      ApplyDoes(config, cache, Op.Delete(k));
      WithoutDistinct(cache, k);
      if Lookup(cache, k).Some? {
        cache := Without(cache, k);
      } else {
        WithoutAbsent(cache, k);
      }
    }

    method Load(k: K) returns (value: Option<V>)
      requires Valid()
      modifies this`cache
      ensures Valid() && Outcome(cache, value) == Apply(config, old(cache), Op.Load(k))
      ensures Does(config, old(cache), Op.Load(k), Outcome(cache, value))
    {
      ApplyDoes(config, cache, Op.Load(k));
      if Lookup(cache, k).Some? {
        value := Get(k);
        return;
      }
      if config.loader.None? {
        return None;
      }
      value := config.loader.value(k);
      if value.Some? {
        Set(k, value.value);
      }
    }
  }
}
