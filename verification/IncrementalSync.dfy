/**
 Incremental indexing at file level (codebase_rag/graph_updater.py, _process_files and _delete_module_entities).

 The graph keeps, for each indexed file, the entities its module contributed; the hash cache keeps the hash of the
 content they were parsed from.  Parsing and hashing are functions of the content.
 */
module IncrementalSync {
  import opened Options
  import opened Orders

  datatype Tools = Tools(parse: string -> set<string>, hash: string -> string)

  // stat and open tell whether the file's status and its bytes can be read in this run.
  datatype File = File(content: string, mtime: int, stat: bool, open: bool)

  type Snapshot = map<string, File>

  datatype State = State(graph: map<string, set<string>>, cache: map<string, string>, cacheMtime: int)

  // What one run is given: the eligible files, whether to ignore the cache, whether the graph could be asked for its
  // module paths, the files whose bindings a change may move, and the time the cache is written.
  datatype Run = Run(files: Snapshot, force: bool, probed: bool, affected: set<string>, now: int)

  // ----- one run -----

  function OldHashes(s: State, run: Run): map<string, string> {
    if run.force then map[] else s.cache
  }

  predicate FullBuild(s: State, run: Run) {
    run.force || s.cache == map[]
  }

  // The paths taken to be in the graph already: none on an incremental run, unknown when the graph could not be asked.
  function Preexisting(s: State, run: Run): Option<set<string>> {
    if !FullBuild(s, run) then Some({})
    else if run.probed then Some(s.graph.Keys)
    else None
  }

  datatype Outcome = Unreadable | Unchanged(hash: string) | Changed(hash: string, isNew: bool)

  // The first loop, for one file.
  function Classify(tools: Tools, s: State, run: Run, key: string): Outcome
    requires key in run.files
  {
    var file, cached := run.files[key], OldHashes(s, run);
    if key in cached && !file.stat then Unreadable
    else if key in cached && file.mtime <= s.cacheMtime then Unchanged(cached[key])
    else if !file.open then Unreadable
    else
      var current := tools.hash(file.content);
      if key in cached && cached[key] == current then Unchanged(current)
      else
        var known := Preexisting(s, run);
        Changed(current, key !in cached && known.Some? && key !in known.value)
  }

  // A file with possibly moved bindings joins the files to parse, as one that is not new.
  predicate Reparsed(tools: Tools, s: State, run: Run, key: string)
    requires key in run.files
  {
    key in run.affected && !Classify(tools, s, run, key).Changed? && run.files[key].stat && run.files[key].open
  }

  function Entities(graph: map<string, set<string>>, key: string): set<string> {
    if key in graph then graph[key] else {}
  }

  // Ingesting a file adds to what the graph holds for it; a file that is not new was deleted first.
  function Ingested(tools: Tools, graph: map<string, set<string>>, key: string, content: string, isNew: bool)
    : set<string>
  {
    if isNew then Entities(graph, key) + tools.parse(content) else tools.parse(content)
  }

  // The keys whose subtree goes because nothing current or unreadable accounts for them.
  function Vanished(s: State, run: Run): set<string> {
    var known := Preexisting(s, run);
    OldHashes(s, run).Keys + (if known.Some? then known.value else {}) - run.files.Keys
  }

  // The files to parse.
  function PlannedKeys(tools: Tools, s: State, run: Run): set<string> {
    set key | key in run.files && (Classify(tools, s, run, key).Changed? || Reparsed(tools, s, run, key))
  }

  function GraphKeys(tools: Tools, s: State, run: Run): set<string> {
    PlannedKeys(tools, s, run) + (s.graph.Keys - Vanished(s, run))
  }

  function GraphEntry(tools: Tools, s: State, run: Run, key: string): set<string> {
    if key in run.files && Classify(tools, s, run, key).Changed? then
      Ingested(tools, s.graph, key, run.files[key].content, Classify(tools, s, run, key).isNew)
    else if key in run.files && Reparsed(tools, s, run, key) then tools.parse(run.files[key].content)
    else Entities(s.graph, key)
  }

  lemma UntouchedEntry(tools: Tools, s: State, run: Run, key: string)
    requires key in s.graph && key !in PlannedKeys(tools, s, run)
    ensures GraphEntry(tools, s, run, key) == s.graph[key]
  {
  }

  // The state a run leaves behind.
  function After(tools: Tools, s: State, run: Run): State {
    State(map key | key in GraphKeys(tools, s, run) :: GraphEntry(tools, s, run, key),
          map key | key in run.files && !Classify(tools, s, run, key).Unreadable?
            :: Classify(tools, s, run, key).hash,
          run.now)
  }

  // ----- a run, case by case -----

  // A file the cache knows, whose modification time says that it has not changed since the cache was written.
  ghost predicate Trusted(s: State, run: Run, key: string, file: File) {
    !run.force && key in s.cache && file.stat && file.mtime <= s.cacheMtime
  }

  // It could not be read where that was needed: its status if the cache knows it, and its bytes unless it is trusted.
  ghost predicate Lost(s: State, run: Run, key: string, file: File) {
    (!run.force && key in s.cache && !file.stat) || (!Trusted(s, run, key, file) && !file.open)
  }

  // Its bytes are read, and the cache does not have their hash for it.
  ghost predicate Differs(tools: Tools, s: State, run: Run, key: string, file: File) {
    && !Lost(s, run, key, file) && !Trusted(s, run, key, file)
    && (run.force || key !in s.cache || s.cache[key] != tools.hash(file.content))
  }

  // The run does not look for anything to delete: the cache does not know the file, and if the cache is not used at all
  // the graph could be asked and does not hold it.
  ghost predicate New(s: State, run: Run, key: string) {
    (run.force || key !in s.cache) && (run.force || s.cache == map[] ==> run.probed && key !in s.graph)
  }

  // What a run leaves of a listed file: parsed if it differs or bindings in it may have moved, beside what the graph
  // held only if it is new, and otherwise as it was.
  ghost predicate ListedLeft(tools: Tools, s: State, run: Run, s': State, key: string)
    requires key in run.files
  {
    var file := run.files[key];
    && (key in s'.cache <==> !Lost(s, run, key, file))
    && (key in s'.cache ==>
          s'.cache[key] == if Trusted(s, run, key, file) then s.cache[key] else tools.hash(file.content))
    && if Differs(tools, s, run, key, file) then
         && key in s'.graph
         && s'.graph[key] == tools.parse(file.content) + if New(s, run, key) && key in s.graph then s.graph[key] else {}
       else if key in run.affected && file.stat && file.open then
         key in s'.graph && s'.graph[key] == tools.parse(file.content)
       else
         (key in s'.graph <==> key in s.graph) && (key in s'.graph ==> s'.graph[key] == s.graph[key])
  }

  // A file that is not listed goes if the cache knew it, or if the cache is not used and the graph could be asked;
  // otherwise what the graph held for it stays.
  ghost predicate UnlistedLeft(s: State, run: Run, s': State, key: string) {
    && key !in s'.cache
    && (key in s'.graph <==>
          && key in s.graph && (run.force || key !in s.cache)
          && ((run.force || s.cache == map[]) ==> !run.probed))
    && (key in s'.graph ==> s'.graph[key] == s.graph[key])
  }

  ghost predicate Left(tools: Tools, s: State, run: Run, s': State) {
    && (forall key :: key in run.files ==> ListedLeft(tools, s, run, s', key))
    && (forall key :: key !in run.files ==> UnlistedLeft(s, run, s', key))
    && s'.cacheMtime == run.now
  }

  lemma ListedIs(tools: Tools, s: State, run: Run, key: string)
    requires key in run.files
    ensures ListedLeft(tools, s, run, After(tools, s, run), key)
  {
    var file := run.files[key];
    assert Classify(tools, s, run, key).Unreadable? <==> Lost(s, run, key, file);
    assert Classify(tools, s, run, key).Changed? <==> Differs(tools, s, run, key, file);
    assert Classify(tools, s, run, key).Changed? ==> (Classify(tools, s, run, key).isNew <==> New(s, run, key));
  }

  // The state described above is that.
  lemma AfterMeaning(tools: Tools, s: State, run: Run)
    ensures Left(tools, s, run, After(tools, s, run))
  {
    forall key | key in run.files ensures ListedLeft(tools, s, run, After(tools, s, run), key) {
      ListedIs(tools, s, run, key);
    }
    forall key | key !in run.files ensures UnlistedLeft(s, run, After(tools, s, run), key) {
    }
  }

  // Ingesting the planned files and then deleting what vanished leaves that graph.
  lemma GraphIsAfter(tools: Tools, s: State, run: Run, ingested: map<string, set<string>>)
    requires ingested.Keys == s.graph.Keys + PlannedKeys(tools, s, run)
    requires forall key :: key in ingested ==> ingested[key] == GraphEntry(tools, s, run, key)
    ensures ingested - Vanished(s, run) == After(tools, s, run).graph
  {
    assert PlannedKeys(tools, s, run) !! Vanished(s, run);
  }

  // ----- what a full build of a snapshot looks like -----

  function FullGraph(tools: Tools, files: Snapshot): map<string, set<string>> {
    map key | key in files :: tools.parse(files[key].content)
  }

  function FullCache(tools: Tools, files: Snapshot): map<string, string> {
    map key | key in files :: tools.hash(files[key].content)
  }

  ghost predicate HashInjective(tools: Tools) {
    forall a, b :: tools.hash(a) == tools.hash(b) ==> a == b
  }

  ghost predicate Readable(files: Snapshot) {
    forall key :: key in files ==> files[key].stat && files[key].open
  }

  // A file not modified since the cache was written has the content the cache knows.
  ghost predicate MtimesHonest(tools: Tools, s: State, run: Run) {
    forall key :: key in run.files && key in OldHashes(s, run) && run.files[key].mtime <= s.cacheMtime ==>
      tools.hash(run.files[key].content) == s.cache[key]
  }

  // The graph holds, for every cached file, what parsing the content with the cached hash gives.
  ghost predicate InStep(tools: Tools, s: State) {
    forall key :: key in s.cache ==>
      key in s.graph && exists content :: tools.hash(content) == s.cache[key] && s.graph[key] == tools.parse(content)
  }

  // A full build ends in the state of the snapshot, whatever the graph held, when its module paths could be read.
  lemma FullBuildExact(tools: Tools, s: State, run: Run)
    requires FullBuild(s, run) && run.probed && Readable(run.files)
    ensures After(tools, s, run) == State(FullGraph(tools, run.files), FullCache(tools, run.files), run.now)
  {
    var s' := After(tools, s, run);
    assert OldHashes(s, run) == map[];
    forall key ensures key in s'.graph <==> key in run.files {
    }
    forall key | key in run.files ensures s'.graph[key] == tools.parse(run.files[key].content) {
      assert key !in s.graph ==> Entities(s.graph, key) == {};
    }
    assert s'.graph == FullGraph(tools, run.files);
    assert s'.cache == FullCache(tools, run.files);
  }

  // When they could not be read, the files of the snapshot come out right and everything else is left standing.
  lemma UnprobedBuild(tools: Tools, s: State, run: Run)
    requires FullBuild(s, run) && !run.probed && Readable(run.files)
    ensures After(tools, s, run).graph == s.graph + FullGraph(tools, run.files)
    ensures After(tools, s, run).cache == FullCache(tools, run.files)
  {
    var s' := After(tools, s, run);
    assert OldHashes(s, run) == map[];
    assert PlannedKeys(tools, s, run) == run.files.Keys && Vanished(s, run) == {};
    SameMaps(s'.graph, s.graph + FullGraph(tools, run.files));
    SameMaps(s'.cache, FullCache(tools, run.files));
  }

  lemma UnchangedContent(tools: Tools, s: State, run: Run, key: string)
    requires HashInjective(tools) && InStep(tools, s) && MtimesHonest(tools, s, run)
    requires key in run.files && Classify(tools, s, run, key).Unchanged?
    ensures key in s.cache && key in s.graph && s.graph[key] == tools.parse(run.files[key].content)
    ensures Classify(tools, s, run, key).hash == tools.hash(run.files[key].content) == s.cache[key]
  {
  }

  lemma IncrementalEntry(tools: Tools, s: State, run: Run, key: string)
    requires HashInjective(tools) && InStep(tools, s) && s.graph.Keys == s.cache.Keys
    requires !FullBuild(s, run) && Readable(run.files) && MtimesHonest(tools, s, run)
    requires key in run.files
    ensures var s' := After(tools, s, run);
            && key in s'.graph && s'.graph[key] == tools.parse(run.files[key].content)
            && key in s'.cache && s'.cache[key] == tools.hash(run.files[key].content)
  {
    if Classify(tools, s, run, key).Unchanged? {
      UnchangedContent(tools, s, run, key);
    }
    assert Entities(s.graph, key) == if key in s.cache then s.graph[key] else {};
  }

  // An incremental run on a graph that mirrors its cache ends in the same state as a full build.
  lemma IncrementalExact(tools: Tools, s: State, run: Run)
    requires HashInjective(tools) && InStep(tools, s) && s.graph.Keys == s.cache.Keys
    requires !FullBuild(s, run) && Readable(run.files) && MtimesHonest(tools, s, run)
    ensures After(tools, s, run) == State(FullGraph(tools, run.files), FullCache(tools, run.files), run.now)
  {
    var s' := After(tools, s, run);
    forall key | key in run.files
      ensures key in s'.graph && s'.graph[key] == tools.parse(run.files[key].content)
      ensures key in s'.cache && s'.cache[key] == tools.hash(run.files[key].content)
    {
      IncrementalEntry(tools, s, run, key);
    }
    KeysMirrored(tools, s, run);
    SameMaps(s'.graph, FullGraph(tools, run.files));
    SameMaps(s'.cache, FullCache(tools, run.files));
  }

  lemma SameMaps<V>(m: map<string, V>, n: map<string, V>)
    requires m.Keys == n.Keys && forall key :: key in m ==> m[key] == n[key]
    ensures m == n
  {
  }

  lemma KeysMirrored(tools: Tools, s: State, run: Run)
    requires s.graph.Keys == s.cache.Keys && !FullBuild(s, run) && Readable(run.files)
    ensures After(tools, s, run).graph.Keys == After(tools, s, run).cache.Keys == run.files.Keys
  {
  }

  lemma FullStateInStep(tools: Tools, files: Snapshot, mtime: int)
    ensures var s := State(FullGraph(tools, files), FullCache(tools, files), mtime);
            InStep(tools, s) && s.graph.Keys == s.cache.Keys
  {
    var s := State(FullGraph(tools, files), FullCache(tools, files), mtime);
    forall key | key in s.cache
      ensures exists content :: tools.hash(content) == s.cache[key] && s.graph[key] == tools.parse(content)
    {
      assert tools.hash(files[key].content) == s.cache[key];
    }
  }

  // ----- whole histories -----

  function AfterAll(tools: Tools, s: State, runs: seq<Run>): State
    decreases |runs|
  {
    if runs == [] then s else AfterAll(tools, After(tools, s, runs[0]), runs[1..])
  }

  ghost predicate GoodRuns(tools: Tools, s: State, runs: seq<Run>)
    decreases |runs|
  {
    runs == [] || (Readable(runs[0].files) && MtimesHonest(tools, s, runs[0]) && runs[0].probed
                   && GoodRuns(tools, After(tools, s, runs[0]), runs[1..]))
  }

  // Graph and cache stay in step over any history of incremental and full runs, and end where a full build of the last
  // snapshot on an empty graph would.
  lemma {:induction false} HistoryExact(tools: Tools, s: State, runs: seq<Run>)
    requires HashInjective(tools) && InStep(tools, s) && s.graph.Keys == s.cache.Keys
    requires runs != [] && GoodRuns(tools, s, runs)
    ensures var last := runs[|runs| - 1];
            && AfterAll(tools, s, runs) == State(FullGraph(tools, last.files), FullCache(tools, last.files), last.now)
            && AfterAll(tools, s, runs) == After(tools, State(map[], map[], 0), last.(force := true))
    decreases |runs|
  {
    var run, s' := runs[0], After(tools, s, runs[0]);
    if FullBuild(s, run) {
      FullBuildExact(tools, s, run);
    } else {
      IncrementalExact(tools, s, run);
    }
    FullStateInStep(tools, run.files, run.now);
    if |runs| > 1 {
      HistoryExact(tools, s', runs[1..]);
    } else {
      assert AfterAll(tools, s', runs[1..]) == s';
      FullBuildExact(tools, State(map[], map[], 0), run.(force := true));
    }
  }

  // ----- files that could not be read -----

  // A file that is taken for new although the graph still holds it: it dropped out of the cache while it could not be
  // read.
  ghost predicate Accumulates(tools: Tools, s: State, run: Run, key: string)
    requires key in run.files
  {
    Classify(tools, s, run, key) == Changed(tools.hash(run.files[key].content), true)
    && !(Entities(s.graph, key) <= tools.parse(run.files[key].content))
  }

  // Unreadable files included, a run keeps graph and cache in step exactly when no such file has lost an entity since.
  lemma InStepIff(tools: Tools, s: State, run: Run)
    requires HashInjective(tools) && InStep(tools, s) && MtimesHonest(tools, s, run)
    ensures InStep(tools, After(tools, s, run)) <==> forall key :: key in run.files ==> !Accumulates(tools, s, run, key)
  {
    var s' := After(tools, s, run);
    forall key | key in s'.cache
      ensures key in s'.graph && s'.cache[key] == tools.hash(run.files[key].content)
      ensures s'.graph[key] == tools.parse(run.files[key].content) <==> !Accumulates(tools, s, run, key)
    {
      if Classify(tools, s, run, key).Unchanged? {
        UnchangedContent(tools, s, run, key);
      }
    }
    forall key | key in run.files && Accumulates(tools, s, run, key) ensures key in s'.cache {
    }
    forall key, content | key in s'.cache && tools.hash(content) == s'.cache[key]
      ensures content == run.files[key].content
    {
    }
  }

  // The graph mirrors the cache: it holds the cached files and no other, in step.
  ghost predicate Mirrored(tools: Tools, s: State) {
    InStep(tools, s) && s.graph.Keys == s.cache.Keys
  }

  // Every file the graph holds is accounted for: one that is listed could be read, and one that is not is deleted, which
  // a full build cannot do if it could not ask the graph for its module paths.
  ghost predicate AllAccounted(tools: Tools, s: State, run: Run) {
    && (forall key :: key in s.graph && key in run.files ==> !Classify(tools, s, run, key).Unreadable?)
    && (FullBuild(s, run) && !run.probed ==> s.graph.Keys <= run.files.Keys)
  }

  lemma KeysMirroredIff(tools: Tools, s: State, run: Run)
    requires s.graph.Keys == s.cache.Keys
    ensures After(tools, s, run).graph.Keys == After(tools, s, run).cache.Keys <==> AllAccounted(tools, s, run)
  {
    var s' := After(tools, s, run);
    forall key | key in s'.cache ensures key in s'.graph {
      assert Classify(tools, s, run, key).Unchanged? ==> key in s.graph;
    }
    forall key | key in PlannedKeys(tools, s, run) ensures key in s'.cache {
    }
    forall key | key in s.graph && key !in Vanished(s, run)
      ensures key in s'.graph && (key in s'.cache <==> key in run.files && !Classify(tools, s, run, key).Unreadable?)
    {
    }
  }

  // Unreadable files and every kind of run included: a graph that mirrors its cache still does after a run if and only
  // if every file it holds is accounted for.
  lemma MirroredIff(tools: Tools, s: State, run: Run)
    requires HashInjective(tools) && Mirrored(tools, s) && MtimesHonest(tools, s, run)
    ensures Mirrored(tools, After(tools, s, run)) <==> AllAccounted(tools, s, run)
  {
    KeysMirroredIff(tools, s, run);
    if AllAccounted(tools, s, run) {
      forall key | key in run.files ensures !Accumulates(tools, s, run, key) {
        assert Entities(s.graph, key) == if key in s.graph then s.graph[key] else {};
      }
      InStepIff(tools, s, run);
    }
  }

  ghost predicate HonestRuns(tools: Tools, s: State, runs: seq<Run>)
    decreases |runs|
  {
    runs == [] || (MtimesHonest(tools, s, runs[0]) && HonestRuns(tools, After(tools, s, runs[0]), runs[1..]))
  }

  ghost predicate StaysMirrored(tools: Tools, s: State, runs: seq<Run>)
    decreases |runs|
  {
    Mirrored(tools, s) && (runs == [] || StaysMirrored(tools, After(tools, s, runs[0]), runs[1..]))
  }

  ghost predicate EveryRunAccounts(tools: Tools, s: State, runs: seq<Run>)
    decreases |runs|
  {
    runs == []
    || (AllAccounted(tools, s, runs[0]) && EveryRunAccounts(tools, After(tools, s, runs[0]), runs[1..]))
  }

  // Over a whole history the graph mirrors the cache throughout if and only if every run accounts for every file.
  lemma {:induction false} HistoryMirroredIff(tools: Tools, s: State, runs: seq<Run>)
    requires HashInjective(tools) && Mirrored(tools, s) && HonestRuns(tools, s, runs)
    ensures StaysMirrored(tools, s, runs) <==> EveryRunAccounts(tools, s, runs)
    decreases |runs|
  {
    if runs != [] {
      MirroredIff(tools, s, runs[0]);
      if AllAccounted(tools, s, runs[0]) {
        HistoryMirroredIff(tools, After(tools, s, runs[0]), runs[1..]);
      }
    }
  }

  // A file that could not be read in one run and is gone in the next stays in the graph, although nothing it held is
  // mixed with anything else and the cache says nothing of it.
  lemma UnreadableVanishes(tools: Tools, s: State, first: Run, second: Run, key: string)
    requires Mirrored(tools, s) && !first.force && key in s.cache
    requires key in first.files && first.files[key].mtime > s.cacheMtime && !first.files[key].open
    requires After(tools, s, first).cache != map[] && !second.force && key !in second.files
    ensures var s' := After(tools, After(tools, s, first), second);
            key in s'.graph && s'.graph[key] == s.graph[key] && key !in s'.cache
  {
    var s1 := After(tools, s, first);
    assert Classify(tools, s, first, key) == Unreadable;
    assert key !in PlannedKeys(tools, s, first) && key !in Vanished(s, first);
    assert key !in s1.cache && key in s1.graph && s1.graph[key] == s.graph[key];
    assert key !in PlannedKeys(tools, s1, second) && key !in Vanished(s1, second);
    UntouchedEntry(tools, s1, second, key);
  }

  // A file that could not be read in one run leaves the cache but not the graph, so when it is back in the next run
  // what the graph had for it stays beside what it contains now.
  lemma UnreadableReturns(tools: Tools, s: State, first: Run, second: Run, key: string)
    requires InStep(tools, s) && !first.force && key in s.cache
    requires key in first.files && first.files[key].mtime > s.cacheMtime && !first.files[key].open
    requires After(tools, s, first).cache != map[] && !second.force
    requires key in second.files && second.files[key].stat && second.files[key].open
    requires key !in first.affected
    ensures var s' := After(tools, After(tools, s, first), second);
            && key in s'.graph && s'.graph[key] == s.graph[key] + tools.parse(second.files[key].content)
            && key in s'.cache && s'.cache[key] == tools.hash(second.files[key].content)
  {
    var s1 := After(tools, s, first);
    assert Classify(tools, s, first, key) == Unreadable;
    assert key !in s1.cache && key in s1.graph && s1.graph[key] == s.graph[key];
    assert Classify(tools, s1, second, key) == Changed(tools.hash(second.files[key].content), true);
  }

  // ----- the updater -----

  datatype Change = Change(key: string, isNew: bool)

  // A planned file, and whether it is to be deleted first.
  ghost predicate Pending(tools: Tools, s: State, run: Run, c: Change) {
    c.key in run.files && var outcome := Classify(tools, s, run, c.key);
    if outcome.Changed? then c.isNew == outcome.isNew else Reparsed(tools, s, run, c.key) && !c.isNew
  }

  lemma PendingEntry(tools: Tools, s: State, run: Run, c: Change)
    requires Pending(tools, s, run, c)
    ensures Ingested(tools, s.graph, c.key, run.files[c.key].content, c.isNew) == GraphEntry(tools, s, run, c.key)
  {
  }

  ghost function KeysOf(changed: seq<Change>): set<string> {
    set c | c in changed :: c.key
  }

  ghost predicate Distinct(files: seq<string>, snapshot: Snapshot) {
    NoDuplicates(files) && forall key :: key in files <==> key in snapshot
  }

  lemma PlannedChanges(tools: Tools, s: State, run: Run, changed: seq<Change>)
    requires forall c :: c in changed <==> Pending(tools, s, run, c)
    ensures KeysOf(changed) == PlannedKeys(tools, s, run)
  {
    forall key | key in PlannedKeys(tools, s, run) ensures key in KeysOf(changed) {
      var outcome := Classify(tools, s, run, key);
      var c := Change(key, outcome.Changed? && outcome.isNew);
      assert Pending(tools, s, run, c);
    }
  }

  // The three collections the first loop fills.
  datatype Tally = Tally(hashes: map<string, string>, changed: seq<Change>, unreadable: set<string>)

  function Note(tally: Tally, key: string, outcome: Outcome): Tally {
    match outcome
    case Unreadable => tally.(unreadable := tally.unreadable + {key})
    case Unchanged(hash) => tally.(hashes := tally.hashes[key := hash])
    case Changed(hash, isNew) =>
      tally.(hashes := tally.hashes[key := hash], changed := tally.changed + [Change(key, isNew)])
  }

  ghost predicate Tallied(tools: Tools, s: State, run: Run, seen: set<string>, tally: Tally) {
    && seen <= run.files.Keys
    && (forall key :: key in tally.hashes <==> key in seen && !Classify(tools, s, run, key).Unreadable?)
    && (forall key :: key in tally.hashes ==> tally.hashes[key] == Classify(tools, s, run, key).hash)
    && (forall key :: key in tally.unreadable <==> key in seen && Classify(tools, s, run, key).Unreadable?)
    && (forall c :: c in tally.changed <==>
          c.key in seen && Classify(tools, s, run, c.key).Changed?
          && c.isNew == Classify(tools, s, run, c.key).isNew)
    && forall j, k :: 0 <= j < k < |tally.changed| ==> tally.changed[j].key != tally.changed[k].key
  }

  lemma NoteKeeps(tools: Tools, s: State, run: Run, seen: set<string>, tally: Tally, key: string)
    requires Tallied(tools, s, run, seen, tally) && key in run.files && key !in seen
    ensures Tallied(tools, s, run, seen + {key}, Note(tally, key, Classify(tools, s, run, key)))
  {
    var outcome := Classify(tools, s, run, key);
    assert forall j :: 0 <= j < |tally.changed| ==> tally.changed[j] in tally.changed;
    assert outcome.Changed? ==>
      forall c :: c in tally.changed + [Change(key, outcome.isNew)] <==>
                  c in tally.changed || c == Change(key, outcome.isNew);
  }

  lemma NextChange(changed: seq<Change>, i: nat)
    requires i < |changed| && forall j, k :: 0 <= j < k < |changed| ==> changed[j].key != changed[k].key
    ensures changed[i] in changed && changed[i].key !in KeysOf(changed[..i])
    ensures KeysOf(changed[..i + 1]) == KeysOf(changed[..i]) + {changed[i].key}
  {
    assert changed[..i + 1] == changed[..i] + [changed[i]];
  }

  class GraphUpdater {
    const tools: Tools
    var graph: map<string, set<string>>
    var cache: map<string, string>
    var cacheMtime: int

    ghost function View(): State
      reads this
    {
      State(graph, cache, cacheMtime)
    }

    constructor (tools: Tools, graph: map<string, set<string>>, cache: map<string, string>, cacheMtime: int)
      ensures this.tools == tools && View() == State(graph, cache, cacheMtime)
    {
      this.tools, this.graph, this.cache, this.cacheMtime := tools, graph, cache, cacheMtime;
    }

    method DeleteModuleEntities(key: string)
      modifies this`graph
      ensures graph == old(graph) - {key}
    {
      graph := graph - {key};
    }

    method ProcessSingleFile(key: string, content: string)
      modifies this`graph
      ensures graph == old(graph)[key := Entities(old(graph), key) + tools.parse(content)]
    {
      graph := graph[key := Entities(graph, key) + tools.parse(content)];
    }

    // The first two loops: what each eligible file turns out to be, in the order of the listing.
    method Survey(files: seq<string>, run: Run)
      returns (hashes: map<string, string>, changed: seq<Change>, unreadable: set<string>)
      requires Distinct(files, run.files)
      ensures hashes == After(tools, View(), run).cache
      ensures unreadable == set key | key in run.files && Classify(tools, View(), run, key).Unreadable?
      ensures forall c :: c in changed ==> Pending(tools, View(), run, c)
      ensures KeysOf(changed) == PlannedKeys(tools, View(), run)
      ensures forall i, j :: 0 <= i < j < |changed| ==> changed[i].key != changed[j].key
    {
      var s := State(graph, cache, cacheMtime);
      var tally := Tally(map[], [], {});
      for i := 0 to |files|
        invariant Tallied(tools, s, run, Elements(files[..i]), tally)
      {
        ElementsOfPrefix(files, i);
        NoteKeeps(tools, s, run, Elements(files[..i]), tally, files[i]);
        tally := Note(tally, files[i], Classify(tools, s, run, files[i]));
      }
      ElementsOfPrefix(files, |files|);
      hashes, unreadable := tally.hashes, tally.unreadable;
      assert forall key :: key in Elements(files) <==> key in run.files;
      changed := AddAffected(run, tally.changed);
      PlannedChanges(tools, s, run, changed);
    }

    method AddAffected(run: Run, changed0: seq<Change>) returns (changed: seq<Change>)
      requires forall c :: c in changed0 <==>
                 c.key in run.files && Classify(tools, View(), run, c.key).Changed?
                 && c.isNew == Classify(tools, View(), run, c.key).isNew
      requires forall j, k :: 0 <= j < k < |changed0| ==> changed0[j].key != changed0[k].key
      ensures forall c :: c in changed <==> Pending(tools, View(), run, c)
      ensures forall j, k :: 0 <= j < k < |changed| ==> changed[j].key != changed[k].key
    {
      changed := changed0;
      var callers := run.affected;
      while callers != {}
        invariant callers <= run.affected
        invariant forall c :: c in changed <==> Pending(tools, View(), run, c) && (c in changed0 || c.key !in callers)
        invariant forall j, k :: 0 <= j < k < |changed| ==> changed[j].key != changed[k].key
      {
        var caller :| caller in callers;
        callers := callers - {caller};
        if caller in run.files && !Classify(tools, State(graph, cache, cacheMtime), run, caller).Changed?
           && run.files[caller].stat && run.files[caller].open
        {
          assert forall j :: 0 <= j < |changed| ==> changed[j] in changed;
          changed := changed + [Change(caller, false)];
        }
      }
    }

    method ReingestFile(c: Change, content: string)
      modifies this`graph
      ensures graph == old(graph)[c.key := Ingested(tools, old(graph), c.key, content, c.isNew)]
    {
      if !c.isNew {
        DeleteModuleEntities(c.key);
        assert Entities(graph, c.key) + tools.parse(content) == tools.parse(content);
      }
      ProcessSingleFile(c.key, content);
    }

    // The third loop: delete what is not new, then ingest.
    method Reingest(run: Run, changed: seq<Change>, ghost s: State)
      requires s == View() && forall c :: c in changed ==> Pending(tools, s, run, c)
      requires KeysOf(changed) == PlannedKeys(tools, s, run)
      requires forall j, k :: 0 <= j < k < |changed| ==> changed[j].key != changed[k].key
      modifies this`graph
      ensures graph.Keys == s.graph.Keys + PlannedKeys(tools, s, run)
      ensures forall key :: key in graph ==> graph[key] == GraphEntry(tools, s, run, key)
    {
      ghost var done := KeysOf(changed[..0]);
      for i := 0 to |changed|
        invariant done == KeysOf(changed[..i])
        invariant graph.Keys == s.graph.Keys + done
        invariant forall key :: key in done ==> graph[key] == GraphEntry(tools, s, run, key)
        invariant forall key :: key in graph && key !in done ==> graph[key] == s.graph[key]
      {
        var c := changed[i];
        NextChange(changed, i);
        PendingEntry(tools, s, run, c);
        ReingestFile(c, run.files[c.key].content);
        done := done + {c.key};
      }
      assert changed[..|changed|] == changed;
      forall key | key in graph && key !in done ensures GraphEntry(tools, s, run, key) == s.graph[key] {
        UntouchedEntry(tools, s, run, key);
      }
    }

    // _process_files: the state it leaves behind is the one After describes, whatever order the files are listed in.
    method ProcessFiles(files: seq<string>, run: Run)
      requires Distinct(files, run.files)
      modifies this
      ensures View() == After(tools, old(View()), run) && Left(tools, old(View()), run, View())
    {
      AfterMeaning(tools, View(), run);
      var s := State(graph, cache, cacheMtime);
      var known := Preexisting(s, run);
      var hashes, changed, unreadable := Survey(files, run);
      Reingest(run, changed, s);
      var graphPaths := if known.Some? then known.value else {};
      var deleted := OldHashes(s, run).Keys + graphPaths - hashes.Keys - unreadable;
      assert deleted == Vanished(s, run);
      GraphIsAfter(tools, s, run, graph);
      DeleteAll(deleted);
      cache, cacheMtime := hashes, run.now;
    }

    method DeleteAll(keys: set<string>)
      modifies this`graph
      ensures graph == old(graph) - keys
    {
      var rest := keys;
      while rest != {}
        invariant rest <= keys && graph == old(graph) - (keys - rest)
      {
        var key :| key in rest;
        DeleteModuleEntities(key);
        assert keys - (rest - {key}) == keys - rest + {key};
        rest := rest - {key};
      }
    }
  }
}
