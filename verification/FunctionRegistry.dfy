/**
 The registry of qualified names (codebase_rag/function_registry.py, FunctionRegistryTrie): a dictionary, a trie, an
 optional index by last segment, a cache of suffix queries, and the names handed out to duplicates.
 */
module FunctionRegistry {
  import opened Options
  import opened Orders
  import opened Dotted
  import opened Tries

  type Names = map<string, string>

  // ----- suffix queries -----

  type NameIndex = map<string, set<string>>

  function SortedNames(names: set<string>): (sorted: seq<string>)
    ensures forall q :: q in sorted <==> q in names
    ensures |sorted| == |names| && Ordered(sorted, NameLe) && NoDuplicates(sorted)
  {
    NameLeTotalOrder();
    AscendingOrdered(names, NameLe);
    Ascending(names, NameLe)
  }

  // The linear scan: names that end with a dot and the suffix.
  function Scan(entries: Names, suffix: string): set<string> {
    set q | q in entries && EndsWith(q, "." + suffix)
  }

  // What find_ending_with computes when nothing is cached.
  function Answer(entries: Names, index: Option<NameIndex>, suffix: string): seq<string> {
    match index
    case None => SortedNames(Scan(entries, suffix))
    case Some(i) =>
      if suffix in i then SortedNames(i[suffix])
      else if '.' in suffix then SortedNames(Scan(entries, suffix))
      else []
  }

  // The index holds every name under its last segment, and nothing else; a key may be left without names.
  ghost predicate Indexes(entries: Names, index: NameIndex) {
    && (forall s, q :: s in index && q in index[s] ==> q in entries && LastSegment(q) == s)
    && (forall q :: q in entries ==> LastSegment(q) in index && q in index[LastSegment(q)])
    && (forall s :: s in index ==> DotFree(s))
  }

  function Bucket(index: NameIndex, segment: string): set<string> {
    if segment in index then index[segment] else {}
  }

  function IndexInsert(index: NameIndex, q: string): NameIndex {
    index[LastSegment(q) := Bucket(index, LastSegment(q)) + {q}]
  }

  function IndexDelete(index: NameIndex, q: string): NameIndex {
    if LastSegment(q) in index then index[LastSegment(q) := index[LastSegment(q)] - {q}] else index
  }

  lemma LastSegmentDotFree(q: string)
    ensures DotFree(LastSegment(q))
  {
    SegmentsDotFree(q);
  }

  lemma IndexInsertKeeps(entries: Names, index: NameIndex, q: string, kind: string)
    requires Indexes(entries, index)
    ensures Indexes(entries[q := kind], IndexInsert(index, q))
  {
    LastSegmentDotFree(q);
  }

  lemma IndexDeleteKeeps(entries: Names, index: NameIndex, q: string)
    requires Indexes(entries, index)
    ensures Indexes(entries - {q}, IndexDelete(index, q))
  {
  }

  // A cached suffix is dropped when the registered or deleted name can change its answer.
  predicate Stale(suffix: string, q: string) {
    suffix == LastSegment(q) || ('.' in suffix && EndsWith(q, "." + suffix))
  }

  lemma ScanUnaffected(entries: Names, entries': Names, q: string, suffix: string)
    requires entries'.Keys - {q} == entries.Keys - {q} && !Stale(suffix, q)
    ensures Scan(entries', suffix) == Scan(entries, suffix)
  {
    if DotFree(suffix) {
      SuffixSegment(q, suffix);
    }
    forall r ensures r in Scan(entries', suffix) <==> r in Scan(entries, suffix) {
      assert r != q ==> (r in entries' <==> r in entries'.Keys - {q});
      assert r != q ==> (r in entries <==> r in entries.Keys - {q});
    }
  }

  // Inserting or deleting a name leaves the answers that are not dropped alone.
  lemma AnswerUnaffected(entries: Names, entries': Names, index: Option<NameIndex>, index': Option<NameIndex>,
                         q: string, suffix: string)
    requires entries'.Keys - {q} == entries.Keys - {q} && !Stale(suffix, q)
    requires index.Some? == index'.Some?
    requires index.Some? ==> index'.value == IndexInsert(index.value, q) || index'.value == IndexDelete(index.value, q)
    ensures Answer(entries', index', suffix) == Answer(entries, index, suffix)
  {
    ScanUnaffected(entries, entries', q, suffix);
  }

  ghost predicate Coherent(cache: map<string, seq<string>>, entries: Names, index: Option<NameIndex>) {
    forall s :: s in cache ==> cache[s] == Answer(entries, index, s)
  }

  // _invalidate_ending_with_cache
  function DropStale(cache: map<string, seq<string>>, q: string): map<string, seq<string>> {
    map s | s in cache && !Stale(s, q) :: cache[s]
  }

  lemma CoherentAfter(cache: map<string, seq<string>>, entries: Names, entries': Names, index: Option<NameIndex>,
                      index': Option<NameIndex>, q: string)
    requires Coherent(cache, entries, index)
    requires entries'.Keys - {q} == entries.Keys - {q} && index.Some? == index'.Some?
    requires index.Some? ==> index'.value == IndexInsert(index.value, q) || index'.value == IndexDelete(index.value, q)
    ensures Coherent(DropStale(cache, q), entries', index')
  {
    forall s | s in DropStale(cache, q) ensures Answer(entries', index', s) == Answer(entries, index, s) {
      AnswerUnaffected(entries, entries', index, index', q, s);
    }
  }

  // Indexed and scanned answers agree except on one case: a dot-free suffix that is itself a registered name, which the
  // index lists under itself and the scan leaves out.
  lemma IndexScanIff(entries: Names, index: NameIndex, suffix: string)
    requires Indexes(entries, index)
    ensures Answer(entries, Some(index), suffix) == Answer(entries, None, suffix)
       <==> !(DotFree(suffix) && suffix in entries)
  {
    if DotFree(suffix) {
      forall q ensures q in Scan(entries, suffix) <==> q in Bucket(index, suffix) && |Split(q)| > 1 {
        SuffixSegment(q, suffix);
      }
      forall q | LastSegment(q) == suffix && |Split(q)| == 1 ensures q == suffix {
        JoinSplit(q);
      }
      SplitDotFree(suffix);
      if suffix in entries {
        assert suffix in Answer(entries, Some(index), suffix);
        assert suffix !in Answer(entries, None, suffix);
      } else {
        assert Bucket(index, suffix) == Scan(entries, suffix);
      }
    }
  }

  // q is a name for the suffix: it ends with a dot and the suffix, or it is the suffix, which only an index lists.
  ghost predicate Answers(entries: Names, indexed: bool, suffix: string, q: string) {
    q in entries && ((exists head :: q == head + "." + suffix) || (indexed && '.' !in suffix && q == suffix))
  }

  ghost predicate AnswersInOrder(entries: Names, indexed: bool, suffix: string, result: seq<string>) {
    && (forall q :: q in result <==> Answers(entries, indexed, suffix, q))
    && (forall i, j :: 0 <= i < j < |result| ==> NameLe(result[i], result[j]) && result[i] != result[j])
  }

  lemma IndexedAnswer(entries: Names, index: NameIndex, suffix: string, q: string)
    requires Indexes(entries, index) && DotFree(suffix)
    ensures q in Answer(entries, Some(index), suffix) <==> q in entries && (EndsWith(q, "." + suffix) || q == suffix)
  {
    SuffixSegment(q, suffix);
    SplitDotFree(suffix);
    if q in entries && LastSegment(q) == suffix && |Split(q)| == 1 {
      JoinSplit(q);
    }
  }

  lemma HeadIff(q: string, suffix: string)
    ensures EndsWith(q, "." + suffix) <==> exists head :: q == head + "." + suffix
  {
    EndsWithIff(q, "." + suffix);
    if head :| q == head + ("." + suffix) {
      assert q == head + "." + suffix;
    }
    if head :| q == head + "." + suffix {
      assert q == head + ("." + suffix);
    }
  }

  lemma AnswerIff(entries: Names, index: Option<NameIndex>, suffix: string, q: string)
    requires index.Some? ==> Indexes(entries, index.value)
    ensures q in Answer(entries, index, suffix) <==>
            q in entries && (EndsWith(q, "." + suffix) || (index.Some? && '.' !in suffix && q == suffix))
  {
    if index.Some? && '.' !in suffix {
      IndexedAnswer(entries, index.value, suffix, q);
    } else if index.Some? {
      assert suffix !in index.value;
    }
  }

  // What the answer to a suffix query is.
  lemma AnswerMeaning(entries: Names, index: Option<NameIndex>, suffix: string)
    requires index.Some? ==> Indexes(entries, index.value)
    ensures AnswersInOrder(entries, index.Some?, suffix, Answer(entries, index, suffix))
  {
    forall q ensures q in Answer(entries, index, suffix) <==> Answers(entries, index.Some?, suffix, q) {
      AnswerIff(entries, index, suffix, q);
      HeadIff(q, suffix);
    }
    AnswerSorted(entries, index, suffix);
  }

  lemma AnswerSorted(entries: Names, index: Option<NameIndex>, suffix: string)
    ensures var result := Answer(entries, index, suffix); Ordered(result, NameLe) && NoDuplicates(result)
  {
  }

  // Which cached suffixes a change to q drops: its last segment, and the dotted ones it ends with.
  lemma DroppedIff(cache: map<string, seq<string>>, q: string, suffix: string)
    ensures suffix in DropStale(cache, q) <==>
            suffix in cache && suffix != LastSegment(q) && !('.' in suffix && exists head :: q == head + "." + suffix)
    ensures suffix in DropStale(cache, q) ==> DropStale(cache, q)[suffix] == cache[suffix]
  {
    HeadIff(q, suffix);
  }

  // ----- names for duplicates -----

  ghost function ValueOf(digits: string): int {
    if digits == "" then 0
    else 10 * ValueOf(digits[..|digits| - 1]) + (digits[|digits| - 1] as int - '0' as int)
  }

  // The decimal numeral of n, without leading zeros.
  ghost predicate Spells(s: string, n: nat) {
    && s != "" && (forall i :: 0 <= i < |s| ==> '0' <= s[i] <= '9')
    && (|s| > 1 ==> s[0] != '0') && ValueOf(s) == n
  }

  function Digits(n: nat): string {
    if n < 10 then [('0' as int + n) as char] else Digits(n / 10) + [('0' as int + n % 10) as char]
  }

  lemma {:induction false} DigitsSpell(n: nat)
    ensures Spells(Digits(n), n) && (n > 0 ==> Digits(n)[0] != '0')
  {
    if n < 10 {
      assert Digits(n)[..0] == "";
    } else {
      DigitsSpell(n / 10);
      assert Digits(n)[..|Digits(n)| - 1] == Digits(n / 10);
    }
  }

  lemma {:induction false} SpellsOne(s: string, n: nat)
    requires Spells(s, n)
    ensures s == Digits(n)
  {
    var front, last := s[..|s| - 1], s[|s| - 1] as int - '0' as int;
    if |s| == 1 {
      assert front == "";
      assert ValueOf(front) == 0;
    } else {
      ValuePositive(front);
      assert n / 10 == ValueOf(front) && n % 10 == last;
      SpellsOne(front, n / 10);
    }
  }

  lemma {:induction false} ValuePositive(s: string)
    requires s != "" && s[0] != '0' && forall i :: 0 <= i < |s| ==> '0' <= s[i] <= '9'
    ensures ValueOf(s) > 0
  {
    if |s| > 1 {
      ValuePositive(s[..|s| - 1]);
    } else {
      assert s[..0] == "";
    }
  }

  lemma {:induction false} DigitsPlain(n: nat)
    ensures Digits(n) != "" && forall c :: c in Digits(n) ==> '0' <= c <= '9'
  {
    if n >= 10 {
      DigitsPlain(n / 10);
    }
  }

  lemma {:induction false} DigitsInjective(m: nat, n: nat)
    requires Digits(m) == Digits(n)
    ensures m == n
  {
    DigitsPlain(m / 10);
    DigitsPlain(n / 10);
    var a, b := Digits(m), Digits(n);
    assert a[|a| - 1] == b[|b| - 1];
    if m >= 10 && n >= 10 {
      assert Digits(m / 10) == a[..|a| - 1] && Digits(n / 10) == b[..|b| - 1];
      DigitsInjective(m / 10, n / 10);
    }
  }

  datatype Definition = Definition(natural: string, line: nat, col: nat)

  function LineVariant(d: Definition): string {
    d.natural + "@" + Digits(d.line)
  }

  // variant_columns.setdefault(variant, start_col)
  function Claim(columns: map<string, nat>, d: Definition): map<string, nat> {
    if LineVariant(d) in columns then columns else columns[LineVariant(d) := d.col]
  }

  // The name once the line has been claimed by some definition.
  function VariantName(columns: map<string, nat>, d: Definition): string
    requires LineVariant(d) in columns
  {
    if columns[LineVariant(d)] == d.col then LineVariant(d) else LineVariant(d) + "_" + Digits(d.col)
  }

  // The name of a definition is its natural name, an at sign and the line, with an underscore and the column if a
  // definition at another column has claimed the line; the first one to come claims it.
  ghost predicate Named(d: Definition, before: map<string, nat>, name: string, after: map<string, nat>) {
    exists line, column :: Spells(line, d.line) && Spells(column, d.col)
                           && var plain := d.natural + "@" + line;
                              && after == (if plain in before then before else before[plain := d.col])
                              && name == if plain in before && before[plain] != d.col then plain + "_" + column
                                         else plain
  }

  lemma VariantNamed(columns: map<string, nat>, d: Definition)
    ensures Named(d, columns, VariantName(Claim(columns, d), d), Claim(columns, d))
  {
    DigitsSpell(d.line);
    DigitsSpell(d.col);
  }

  lemma SeparatorFirst(a: string, x: string, b: string, y: string, c: char)
    requires a + [c] + x == b + [c] + y && c !in a && c !in b
    ensures a == b && x == y
  {
    var s := a + [c] + x;
    assert s[|a|] == c && s[|b|] == c;
    assert forall i :: 0 <= i < |a| ==> s[i] == a[i] && a[i] in a;
    assert forall i :: 0 <= i < |b| ==> s[i] == b[i] && b[i] in b;
    assert |a| == |b|;
    assert a == s[..|a|] && b == s[..|b|];
    assert x == s[|a| + 1..] && y == s[|b| + 1..];
  }

  lemma SuffixParts(line: nat, col: nat)
    ensures '_' !in Digits(line) && '@' !in Digits(line)
    ensures '@' !in Digits(line) + "_" + Digits(col) && '_' in Digits(line) + "_" + Digits(col)
  {
    assert (Digits(line) + "_" + Digits(col))[|Digits(line)|] == '_';
    DigitsPlain(line);
    DigitsPlain(col);
  }

  // With the claims fixed, different definitions have different names, provided no natural name contains the marker.
  lemma VariantInjective(columns: map<string, nat>, d: Definition, e: Definition)
    requires '@' !in d.natural && '@' !in e.natural
    requires LineVariant(d) in columns && LineVariant(e) in columns
    requires VariantName(columns, d) == VariantName(columns, e)
    ensures d == e
  {
    var x := if columns[LineVariant(d)] == d.col then Digits(d.line) else Digits(d.line) + "_" + Digits(d.col);
    var y := if columns[LineVariant(e)] == e.col then Digits(e.line) else Digits(e.line) + "_" + Digits(e.col);
    assert VariantName(columns, d) == d.natural + ['@'] + x;
    assert VariantName(columns, e) == e.natural + ['@'] + y;
    SeparatorFirst(d.natural, x, e.natural, y, '@');
    SuffixParts(d.line, d.col);
    SuffixParts(e.line, e.col);
    if columns[LineVariant(d)] == d.col && columns[LineVariant(e)] == e.col {
      DigitsInjective(d.line, e.line);
    } else if columns[LineVariant(d)] != d.col && columns[LineVariant(e)] != e.col {
      SeparatorFirst(Digits(d.line), Digits(d.col), Digits(e.line), Digits(e.col), '_');
      DigitsInjective(d.line, e.line);
      DigitsInjective(d.col, e.col);
    }
  }

  // The claims after a run of registrations.
  function Claims(columns: map<string, nat>, run: seq<Definition>): map<string, nat> {
    if run == [] then columns else Claim(Claims(columns, run[..|run| - 1]), run[|run| - 1])
  }

  // The name the k-th registration of a run returns.
  function NameInRun(columns: map<string, nat>, run: seq<Definition>, k: nat): string
    requires k < |run|
  {
    VariantName(Claims(columns, run[..k + 1]), run[k])
  }

  lemma {:induction false} ClaimsStay(columns: map<string, nat>, run: seq<Definition>, k: nat, key: string)
    requires k <= |run| && key in Claims(columns, run[..k])
    ensures key in Claims(columns, run) && Claims(columns, run)[key] == Claims(columns, run[..k])[key]
  {
    if k == |run| {
      assert run[..k] == run;
    } else {
      var shorter := run[..|run| - 1];
      assert shorter[..k] == run[..k];
      ClaimsStay(columns, shorter, k, key);
    }
  }

  // The name is settled by the claims at the end of the run.
  lemma NameSettled(columns: map<string, nat>, run: seq<Definition>, k: nat)
    requires k < |run|
    ensures LineVariant(run[k]) in Claims(columns, run)
    ensures NameInRun(columns, run, k) == VariantName(Claims(columns, run), run[k])
  {
    var upTo := run[..k + 1];
    assert upTo[|upTo| - 1] == run[k];
    assert LineVariant(run[k]) in Claims(columns, upTo);
    ClaimsStay(columns, run, k + 1, LineVariant(run[k]));
  }

  // Registering the same definition again returns the same name, and no two definitions share one.
  lemma NamesDistinguish(columns: map<string, nat>, run: seq<Definition>, j: nat, k: nat)
    requires j < |run| && k < |run| && '@' !in run[j].natural && '@' !in run[k].natural
    ensures NameInRun(columns, run, j) == NameInRun(columns, run, k) <==> run[j] == run[k]
  {
    NameSettled(columns, run, j);
    NameSettled(columns, run, k);
    if NameInRun(columns, run, j) == NameInRun(columns, run, k) {
      VariantInjective(Claims(columns, run), run[j], run[k]);
    }
  }

  // Nor is any of them a natural name.
  lemma NamesMarked(columns: map<string, nat>, run: seq<Definition>, k: nat)
    requires k < |run|
    ensures '@' in NameInRun(columns, run, k)
  {
    assert LineVariant(run[k])[|run[k].natural|] == '@';
    assert NameInRun(columns, run, k)[|run[k].natural|] == '@';
  }

  // ----- the trie beside the dictionary -----

  // What the trie holds is registered, under its own segments.
  ghost predicate TrieSound(root: Trie, entries: Names) {
    && NoDeadBranch(root)
    && forall path :: Holds(root, path) ==>
         var p := Lookup(root, path).value;
         path == Split(p.name) && p.name in entries && entries[p.name] == p.kind
  }

  // The trie holds every registered name.
  ghost predicate TrieComplete(root: Trie, entries: Names) {
    forall q :: q in entries ==> Lookup(root, Split(q)) == Some(Payload(q, entries[q]))
  }

  lemma TrieInsertKeeps(root: Trie, entries: Names, q: string, kind: string)
    requires TrieSound(root, entries)
    ensures TrieSound(Insert(root, Split(q), Payload(q, kind)), entries[q := kind])
    ensures TrieComplete(root, entries) ==> TrieComplete(Insert(root, Split(q), Payload(q, kind)), entries[q := kind])
  {
    var root' := Insert(root, Split(q), Payload(q, kind));
    InsertNoDeadBranch(root, Split(q), Payload(q, kind));
    forall path ensures Lookup(root', path) == if path == Split(q) then Some(Payload(q, kind)) else Lookup(root, path) {
      InsertLookup(root, Split(q), Payload(q, kind), path);
    }
    forall path | Holds(root', path) && path != Split(q)
      ensures Lookup(root', path).value.name != q
    {
      assert path == Split(Lookup(root, path).value.name);
    }
    forall r | r in entries && r != q ensures Split(r) != Split(q) {
      if Split(r) == Split(q) {
        SplitInjective(r, q);
      }
    }
  }

  lemma TrieDeleteKeeps(root: Trie, entries: Names, q: string)
    requires TrieSound(root, entries) && root != EMPTY
    ensures TrieSound(Cleanup(root, Split(q)).trie, entries - {q})
  {
    CleanupNoDeadBranch(root, Split(q));
    var root' := Cleanup(root, Split(q)).trie;
    CleanupRemoves(root, Split(q));
    forall path | Holds(root', path)
      ensures Lookup(root', path) == Lookup(root, path) && Lookup(root, path).value.name != q
    {
      CleanupShrinks(root, Split(q), path);
      assert path == Split(Lookup(root, path).value.name);
    }
  }

  // Deleting from an empty trie changes nothing.
  lemma EmptyCleanup(path: seq<string>)
    requires path != []
    ensures Cleanup(EMPTY, path).trie == EMPTY
  {
  }

  // At every proper ancestor of q that other names share, one of them is the ancestor itself or continues with a
  // segment that does not start with the internal prefix.
  ghost predicate SafeToDelete(names: set<string>, q: string) {
    forall i :: 1 <= i < |Split(q)| && Shares(names, q, i) ==> SharesNoticed(names, q, i)
  }

  ghost predicate Shares(names: set<string>, q: string, i: nat)
    requires i <= |Split(q)|
  {
    exists r :: r in names && r != q && Split(q)[..i] <= Split(r)
  }

  ghost predicate SharesNoticed(names: set<string>, q: string, i: nat)
    requires i <= |Split(q)|
  {
    exists r :: r in names && r != q && Split(q)[..i] <= Split(r) && (|Split(r)| == i || !("__" <= Split(r)[i]))
  }

  lemma SharesIff(root: Trie, entries: Names, q: string, i: nat)
    requires TrieSound(root, entries) && TrieComplete(root, entries) && i <= |Split(q)|
    ensures OthersUnder(root, Split(q), i) <==> Shares(entries.Keys, q, i)
    ensures NoticedUnder(root, Split(q), i) <==> SharesNoticed(entries.Keys, q, i)
  {
    forall path | Holds(root, path) && path != Split(q)
      ensures var r := Lookup(root, path).value.name; r in entries && r != q && path == Split(r)
    {
    }
    forall r | r in entries && r != q ensures Holds(root, Split(r)) && Split(r) != Split(q) {
      if Split(r) == Split(q) {
        SplitInjective(r, q);
      }
    }
  }

  // Deletion keeps the trie complete exactly when it is safe in terms of the registered names.
  lemma DeleteCompleteIff(root: Trie, entries: Names, q: string)
    requires TrieSound(root, entries) && TrieComplete(root, entries) && q in entries
    ensures TrieComplete(Cleanup(root, Split(q)).trie, entries - {q}) <==> SafeToDelete(entries.Keys, q)
  {
    var root' := Cleanup(root, Split(q)).trie;
    SafeBelowIff(root, Split(q));
    forall i | 1 <= i < |Split(q)| {
      SharesIff(root, entries, q, i);
    }
    if SafeBelow(root, Split(q)) {
      forall r | r in entries && r != q ensures Lookup(root', Split(r)) == Some(Payload(r, entries[r])) {
        if Split(r) == Split(q) {
          SplitInjective(r, q);
        }
        SafeDeletion(root, Split(q), Split(r));
      }
    } else {
      var lost := UnsafeDeletion(root, Split(q));
      var r := Lookup(root, lost).value.name;
      assert r in entries - {q} && Split(r) == lost;
    }
  }

  lemma TrieDeleteMeaning(root: Trie, entries: Names, q: string)
    requires TrieSound(root, entries) && q in entries
    ensures TrieSound(Cleanup(root, Split(q)).trie, entries - {q})
    ensures TrieComplete(root, entries) ==>
              (TrieComplete(Cleanup(root, Split(q)).trie, entries - {q}) <==> SafeToDelete(entries.Keys, q))
  {
    if TrieComplete(root, entries) {
      DeleteCompleteIff(root, entries, q);
    }
    if root != EMPTY {
      TrieDeleteKeeps(root, entries, q);
    } else {
      EmptyCleanup(Split(q));
      forall path {
        EmptyHoldsNothing(path);
      }
    }
  }

  // With no segment that starts with the internal prefix, every deletion is safe.
  lemma PlainNamesSafe(names: set<string>, q: string)
    requires forall r :: r in names ==> Visible(Split(r))
    ensures SafeToDelete(names, q)
  {
    forall i | 1 <= i < |Split(q)| && Shares(names, q, i) ensures SharesNoticed(names, q, i) {
      var r :| r in names && r != q && Split(q)[..i] <= Split(r);
    }
  }

  // With one it need not be: two members of a scope that is not registered itself, one of them named with the internal
  // prefix, and the other one deleted.
  lemma HiddenSiblingLost(scope: seq<string>, x: string, y: string, q: string, r: string)
    requires scope != [] && x != y && Internal(y)
    requires Split(q) == scope + [x] && Split(r) == scope + [y]
    ensures !SafeToDelete({q, r}, q)
  {
    var i := |scope|;
    assert Split(q)[..i] == scope && Split(r)[..i] == scope && Split(r)[i] == y && Split(q)[i] == x;
    assert r != q;
    assert Shares({q, r}, q, i);
    assert !SharesNoticed({q, r}, q, i);
  }

  // For example the function __getattr__ of a module m when its function run is unregistered.
  lemma DunderLost()
    ensures !SafeToDelete({"m" + "." + "run", "m" + "." + "__getattr__"}, "m" + "." + "run")
  {
    SplitDotFree("m");
    SplitDotFree("run");
    SplitDotFree("__getattr__");
    SplitAppend("m", "run");
    SplitAppend("m", "__getattr__");
    assert "run"[0] != "__getattr__"[0];
    HiddenSiblingLost(["m"], "run", "__getattr__", "m" + "." + "run", "m" + "." + "__getattr__");
  }

  // ----- whole histories -----

  datatype Change = Register(name: string, kind: string) | Unregister(name: string)

  datatype Held = Held(root: Trie, entries: Names)

  function AfterChange(h: Held, change: Change): Held {
    match change
    case Register(q, kind) => Held(Insert(h.root, Split(q), Payload(q, kind)), h.entries[q := kind])
    case Unregister(q) =>
      if q in h.entries then Held(Cleanup(h.root, Split(q)).trie, h.entries - {q}) else h
  }

  // The trie and the dictionary after a history that starts with an empty registry.
  function AfterHistory(history: seq<Change>): Held {
    if history == [] then Held(EMPTY, map[])
    else AfterChange(AfterHistory(history[..|history| - 1]), history[|history| - 1])
  }

  // No deletion of the history is unsafe at the time it happens.
  ghost predicate SafeHistory(history: seq<Change>) {
    history == []
    || (SafeHistory(history[..|history| - 1])
        && var names, last := AfterHistory(history[..|history| - 1]).entries.Keys, history[|history| - 1];
           (last.Unregister? && last.name in names ==> SafeToDelete(names, last.name)))
  }

  lemma {:induction false} HistorySound(history: seq<Change>)
    ensures TrieSound(AfterHistory(history).root, AfterHistory(history).entries)
  {
    if history == [] {
      forall path {
        EmptyHoldsNothing(path);
      }
    } else {
      var before, last := history[..|history| - 1], history[|history| - 1];
      HistorySound(before);
      var h := AfterHistory(before);
      match last
      case Register(q, kind) => TrieInsertKeeps(h.root, h.entries, q, kind);
      case Unregister(q) =>
        if q in h.entries {
          TrieDeleteMeaning(h.root, h.entries, q);
        }
    }
  }

  // After any history of safe deletions the trie holds exactly the registered names with their kinds, at their own
  // segments and without a dead branch.
  lemma {:induction false} HistoryExact(history: seq<Change>)
    requires SafeHistory(history)
    ensures var h := AfterHistory(history);
            && NoDeadBranch(h.root)
            && forall q ::
                 Lookup(h.root, Split(q)) == if q in h.entries then Some(Payload(q, h.entries[q])) else None
    ensures TrieComplete(AfterHistory(history).root, AfterHistory(history).entries)
  {
    HistorySound(history);
    if history != [] {
      var before, last := history[..|history| - 1], history[|history| - 1];
      HistorySound(before);
      HistoryExact(before);
      var h := AfterHistory(before);
      match last
      case Register(q, kind) => TrieInsertKeeps(h.root, h.entries, q, kind);
      case Unregister(q) =>
        if q in h.entries {
          TrieDeleteMeaning(h.root, h.entries, q);
        }
    }
    var h := AfterHistory(history);
    forall q | q !in h.entries ensures Lookup(h.root, Split(q)) == None {
      if Holds(h.root, Split(q)) {
        SplitInjective(Lookup(h.root, Split(q)).value.name, q);
        assert false;
      }
    }
  }

  // A history that only registers names without segments that start with the internal prefix is safe.
  lemma {:induction false} PlainHistorySafe(history: seq<Change>)
    requires forall i :: 0 <= i < |history| && history[i].Register? ==> Visible(Split(history[i].name))
    ensures SafeHistory(history) && forall q :: q in AfterHistory(history).entries ==> Visible(Split(q))
  {
    if history != [] {
      var before, last := history[..|history| - 1], history[|history| - 1];
      PlainHistorySafe(before);
      PlainNamesSafe(AfterHistory(before).entries.Keys, last.name);
    }
  }

  // ----- prefix queries -----

  // What a filter over the dictionary would accept.
  predicate UnderPrefix(prefix: string, name: string) {
    prefix == "" || name == prefix || prefix + "." <= name
  }

  function PrefixParts(prefix: string): seq<string> {
    if prefix == "" then [] else Split(prefix)
  }

  // No segment after the prefix starts with the internal prefix.
  ghost predicate VisibleAfter(prefix: string, name: string) {
    && |PrefixParts(prefix)| <= |Split(name)|
    && forall i :: |PrefixParts(prefix)| <= i < |Split(name)| ==> !("__" <= Split(name)[i])
  }

  lemma UnderPrefixParts(prefix: string, name: string)
    ensures UnderPrefix(prefix, name) <==> PrefixParts(prefix) <= Split(name)
  {
    PrefixSegments(prefix, name);
  }

  // What is collected below the node of a prefix, in terms of names.
  lemma CollectedUnderPrefix(root: Trie, entries: Names, prefix: string, node: Trie, p: Payload)
    requires TrieSound(root, entries) && Navigate(root, PrefixParts(prefix)) == Some(node)
    ensures Collected(node, p) <==>
            Lookup(root, Split(p.name)) == Some(p) && UnderPrefix(prefix, p.name) && VisibleAfter(prefix, p.name)
  {
    var parts := PrefixParts(prefix);
    UnderPrefixParts(prefix, p.name);
    if path :| Visible(path) && Lookup(node, path) == Some(p) {
      NavigateLookup(root, parts, path);
      assert Holds(root, parts + path) && parts + path == Split(p.name);
      assert Split(p.name)[|parts|..] == path;
    }
    if Lookup(root, Split(p.name)) == Some(p) && UnderPrefix(prefix, p.name) && VisibleAfter(prefix, p.name) {
      var path := Split(p.name)[|parts|..];
      assert Split(p.name) == parts + path;
      NavigateLookup(root, parts, path);
    }
  }

  lemma NodeDistinct(root: Trie, entries: Names, parts: seq<string>, node: Trie)
    requires TrieSound(root, entries) && Navigate(root, parts) == Some(node)
    ensures Distinct(node)
  {
    forall a, b | Holds(node, a) && Lookup(node, a) == Lookup(node, b) ensures a == b {
      NavigateLookup(root, parts, a);
      NavigateLookup(root, parts, b);
      assert Holds(root, parts + a) && Holds(root, parts + b);
      assert parts + a == parts + b;
      assert a == (parts + a)[|parts|..] && b == (parts + b)[|parts|..];
    }
  }

  lemma NothingUnderPrefix(root: Trie, prefix: string, name: string)
    requires Navigate(root, PrefixParts(prefix)) == None && UnderPrefix(prefix, name)
    ensures !Holds(root, Split(name))
  {
    var parts := PrefixParts(prefix);
    UnderPrefixParts(prefix, name);
    var path := Split(name)[|parts|..];
    assert Split(name) == parts + path;
    NavigateLookup(root, parts, path);
  }

  lemma FoundDistinct(root: Trie, found: seq<Payload>)
    requires NoDuplicates(found) && forall p :: p in found ==> Lookup(root, Split(p.name)) == Some(p)
    ensures forall i, j :: 0 <= i < j < |found| ==> found[i].name != found[j].name
  {
    assert forall i :: 0 <= i < |found| ==> found[i] in found;
  }

  // [p.name for p in found if p.name.endswith(suffix)]
  method NamesEnding(found: seq<Payload>, suffix: string) returns (names: seq<string>)
    requires forall i, j :: 0 <= i < j < |found| ==> found[i].name != found[j].name
    ensures NoDuplicates(names)
    ensures forall q :: q in names <==> EndsWith(q, suffix) && exists j :: 0 <= j < |found| && found[j].name == q
  {
    names := [];
    for i := 0 to |found|
      invariant NoDuplicates(names)
      invariant forall q :: q in names <==> EndsWith(q, suffix) && exists j :: 0 <= j < i && found[j].name == q
    {
      if EndsWith(found[i].name, suffix) {
        names := names + [found[i].name];
      }
    }
  }

  // The names among the payloads found below a prefix.
  lemma FoundNames(root: Trie, entries: Names, found: seq<Payload>, prefix: string, q: string)
    requires TrieSound(root, entries)
    requires forall p :: p in found <==>
               Lookup(root, Split(p.name)) == Some(p) && UnderPrefix(prefix, p.name) && VisibleAfter(prefix, p.name)
    ensures (exists j :: 0 <= j < |found| && found[j].name == q) <==>
            Holds(root, Split(q)) && UnderPrefix(prefix, q) && VisibleAfter(prefix, q)
  {
    if Holds(root, Split(q)) && UnderPrefix(prefix, q) && VisibleAfter(prefix, q) {
      var p := Lookup(root, Split(q)).value;
      SplitInjective(p.name, q);
      assert p in found;
    }
    if j :| 0 <= j < |found| && found[j].name == q {
      assert found[j] in found;
    }
  }

  function SegmentsOf(names: set<string>): set<string> {
    set q | q in names :: LastSegment(q)
  }

  // ----- the registry -----

  class Registry {
    var root: Trie
    var entries: Names
    var index: Option<NameIndex>
    var endingWithCache: map<string, seq<string>>
    var variantColumns: map<string, nat>
    var properties: set<string>
    var propertyNames: set<string>

    // The structures agree with the dictionary; the trie may have lost names, see Complete.
    ghost predicate Valid()
      reads this
    {
      && TrieSound(root, entries)
      && (index.Some? ==> Indexes(entries, index.value))
      && Coherent(endingWithCache, entries, index)
      && propertyNames == SegmentsOf(properties)
    }

    ghost predicate Complete()
      reads this
    {
      TrieComplete(root, entries)
    }

    constructor (indexed: bool)
      ensures Valid() && Complete() && entries == map[] && index.Some? == indexed
    {
      root, entries := EMPTY, map[];
      index := if indexed then Some(map[]) else None;
      endingWithCache, variantColumns := map[], map[];
      properties, propertyNames := {}, {};
      new;
      forall path {
        EmptyHoldsNothing(path);
      }
    }

    method Add(q: string, kind: string)
      requires Valid()
      modifies this`root, this`entries, this`index, this`endingWithCache
      ensures Valid() && (old(Complete()) ==> Complete())
      ensures entries == old(entries)[q := kind] && index.Some? == old(index.Some?)
      ensures root == Insert(old(root), Split(q), Payload(q, kind))
      ensures endingWithCache == DropStale(old(endingWithCache), q)
    {
      var index' := if index.Some? then Some(IndexInsert(index.value, q)) else None;
      AddKeepsIndex(q, kind, index');
      TrieInsertKeeps(root, entries, q, kind);
      entries, index := entries[q := kind], index';
      endingWithCache := DropStale(endingWithCache, q);
      root := Insert(root, Split(q), Payload(q, kind));
    }

    lemma AddKeepsIndex(q: string, kind: string, index': Option<NameIndex>)
      requires Valid() && index' == if index.Some? then Some(IndexInsert(index.value, q)) else None
      ensures index'.Some? ==> Indexes(entries[q := kind], index'.value)
      ensures Coherent(DropStale(endingWithCache, q), entries[q := kind], index')
    {
      if index.Some? {
        IndexInsertKeeps(entries, index.value, q, kind);
      }
      CoherentAfter(endingWithCache, entries, entries[q := kind], index, index', q);
    }

    lemma RemoveKeepsIndex(q: string, index': Option<NameIndex>)
      requires Valid() && index' == if index.Some? then Some(IndexDelete(index.value, q)) else None
      ensures index'.Some? ==> Indexes(entries - {q}, index'.value)
      ensures Coherent(DropStale(endingWithCache, q), entries - {q}, index')
    {
      if index.Some? {
        IndexDeleteKeeps(entries, index.value, q);
      }
      CoherentAfter(endingWithCache, entries, entries - {q}, index, index', q);
    }

    // Other names are dropped from the trie exactly when the deletion is not safe; everything else stays in step.
    method Remove(q: string)
      requires Valid()
      modifies this
      ensures Valid() && entries == old(entries) - {q} && index.Some? == old(index.Some?)
      ensures q !in old(entries) ==> unchanged(this)
      ensures q in old(entries) ==> properties == old(properties) - {q} && variantColumns == old(variantColumns) - {q}
      ensures q in old(entries) ==> root == Cleanup(old(root), Split(q)).trie
      ensures q in old(entries) ==> endingWithCache == DropStale(old(endingWithCache), q)
      ensures old(Complete()) ==> (Complete() <==> q !in old(entries) || SafeToDelete(old(entries).Keys, q))
    {
      if q in entries {
        TrieDeleteMeaning(root, entries, q);
        RemoveRegistered(q);
      } else {
        assert entries - {q} == entries;
      }
    }

    method RemoveRegistered(q: string)
      requires Valid() && q in entries
      modifies this
      ensures Valid() && entries == old(entries) - {q} && index.Some? == old(index.Some?)
      ensures properties == old(properties) - {q} && variantColumns == old(variantColumns) - {q}
      ensures root == Cleanup(old(root), Split(q)).trie
      ensures endingWithCache == DropStale(old(endingWithCache), q)
    {
      var index' := if index.Some? then Some(IndexDelete(index.value, q)) else None;
      RemoveKeepsIndex(q, index');
      TrieDeleteMeaning(root, entries, q);
      entries, index := entries - {q}, index';
      variantColumns := variantColumns - {q};
      ForgetProperty(q);
      endingWithCache := DropStale(endingWithCache, q);
      root := Cleanup(root, Split(q)).trie;
    }

    method MarkProperty(q: string)
      requires Valid()
      modifies this`properties, this`propertyNames
      ensures Valid() && properties == old(properties) + {q}
    {
      properties := properties + {q};
      propertyNames := propertyNames + {LastSegment(q)};
    }

    // The last segment goes with the last property that has it.
    method ForgetProperty(q: string)
      requires propertyNames == SegmentsOf(properties)
      modifies this`properties, this`propertyNames
      ensures properties == old(properties) - {q} && propertyNames == SegmentsOf(properties)
    {
      if q in properties {
        properties := properties - {q};
        if !exists p :: p in properties && LastSegment(p) == LastSegment(q) {
          propertyNames := propertyNames - {LastSegment(q)};
        }
        forall s ensures s in propertyNames <==> s in SegmentsOf(properties) {
          if p :| p in old(properties) && LastSegment(p) == s {
            assert p == q || p in properties;
          }
        }
      } else {
        assert properties - {q} == properties;
      }
    }

    method RegisterUniqueQn(d: Definition) returns (name: string)
      modifies this`variantColumns
      ensures d.natural !in entries ==> name == d.natural && variantColumns == old(variantColumns)
      ensures d.natural in entries ==> variantColumns == Claim(old(variantColumns), d)
      ensures d.natural in entries ==> name == VariantName(variantColumns, d)
      ensures d.natural in entries ==> Named(d, old(variantColumns), name, variantColumns)
    {
      VariantNamed(variantColumns, d);
      if d.natural !in entries {
        return d.natural;
      }
      variantColumns := Claim(variantColumns, d);
      name := LineVariant(d);
      if variantColumns[name] != d.col {
        name := name + "_" + Digits(d.col);
      }
    }

    // Cached or not, the answer is the one a fresh computation would give.
    method FindEndingWith(suffix: string) returns (result: seq<string>)
      requires Valid()
      modifies this`endingWithCache
      ensures Valid() && result == Answer(entries, index, suffix)
      ensures AnswersInOrder(entries, index.Some?, suffix, result)
    {
      AnswerMeaning(entries, index, suffix);
      if suffix in endingWithCache {
        return endingWithCache[suffix];
      }
      result := Answer(entries, index, suffix);
      endingWithCache := endingWithCache[suffix := result];
    }

    // The entries below a prefix, each once: those of the trie that the prefix filter accepts, less those with a segment
    // after the prefix that starts with the internal prefix.  Unless deletions have lost names, these are the names of
    // the dictionary.
    method FindWithPrefix(prefix: string) returns (results: seq<Payload>)
      requires Valid()
      ensures NoDuplicates(results)
      ensures forall p :: p in results <==>
                Lookup(root, Split(p.name)) == Some(p) && UnderPrefix(prefix, p.name) && VisibleAfter(prefix, p.name)
      ensures Complete() ==> forall p :: p in results <==>
                p.name in entries && entries[p.name] == p.kind && UnderPrefix(prefix, p.name)
                && VisibleAfter(prefix, p.name)
    {
      var node := Navigate(root, PrefixParts(prefix));
      if node.None? {
        results := [];
        forall q | UnderPrefix(prefix, q) ensures !Holds(root, Split(q)) {
          NothingUnderPrefix(root, prefix, q);
        }
      } else {
        NodeDistinct(root, entries, PrefixParts(prefix), node.value);
        results := Collect(node.value);
        forall p: Payload {
          CollectedUnderPrefix(root, entries, prefix, node.value, p);
        }
      }
      forall p: Payload ensures Complete() ==>
        (Lookup(root, Split(p.name)) == Some(p) <==> p.name in entries && entries[p.name] == p.kind)
      {
      }
    }

    method FindWithPrefixAndSuffix(prefix: string, suffix: string) returns (names: seq<string>)
      requires Valid()
      ensures NoDuplicates(names)
      ensures forall q :: q in names <==>
                Holds(root, Split(q)) && UnderPrefix(prefix, q) && VisibleAfter(prefix, q) && EndsWith(q, "." + suffix)
      ensures Complete() ==> forall q :: q in names <==>
                q in entries && UnderPrefix(prefix, q) && VisibleAfter(prefix, q) && EndsWith(q, "." + suffix)
    {
      var found := FindWithPrefix(prefix);
      FoundDistinct(root, found);
      names := NamesEnding(found, "." + suffix);
      forall q ensures (exists j :: 0 <= j < |found| && found[j].name == q) <==>
                       Holds(root, Split(q)) && UnderPrefix(prefix, q) && VisibleAfter(prefix, q)
      {
        FoundNames(root, entries, found, prefix, q);
      }
    }
  }
}
