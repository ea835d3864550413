/**
 Which definitions sit inside which, and the pruning of nested members from a duplicate group
 (codebase_rag/duplicates.py, _qn_normalized to _drop_contained_members).
 */
module Nesting {
  import opened Clones

  // ----- qualified names without registration markers and parameter signatures -----

  function DigitRun(s: string): (n: nat)
    ensures n <= |s|
  {
    if s != "" && '0' <= s[0] <= '9' then 1 + DigitRun(s[1..]) else 0
  }

  // The length of a match of the marker expression (an at sign, digits, optionally an underscore and digits) at the
  // start of s; 0 when there is none.
  function MarkerLength(s: string): (n: nat)
    ensures n <= |s|
  {
    if s == "" || s[0] != '@' || DigitRun(s[1..]) == 0 then 0
    else
      var line := 1 + DigitRun(s[1..]);
      if line < |s| && s[line] == '_' then
        var column := DigitRun(s[line + 1..]);
        if column == 0 then line else line + 1 + column
      else line
  }

  function StripMarkers(s: string): string
    decreases |s|
  {
    if s == "" then ""
    else if MarkerLength(s) > 0 then StripMarkers(s[MarkerLength(s)..])
    else [s[0]] + StripMarkers(s[1..])
  }

  function PlainRun(s: string): (n: nat)
    ensures n <= |s|
  {
    if s != "" && s[0] != '(' && s[0] != ')' then 1 + PlainRun(s[1..]) else 0
  }

  // The length of an innermost parenthesised group at the start of s; 0 when there is none.
  function SignatureLength(s: string): (n: nat)
    ensures n <= |s|
  {
    if s == "" || s[0] != '(' then 0
    else
      var close := 1 + PlainRun(s[1..]);
      if close < |s| && s[close] == ')' then close + 1 else 0
  }

  function StripSignatures(s: string): string
    decreases |s|
  {
    if s == "" then ""
    else if SignatureLength(s) > 0 then StripSignatures(s[SignatureLength(s)..])
    else [s[0]] + StripSignatures(s[1..])
  }

  function Normalized(qualifiedName: string): string {
    StripSignatures(StripMarkers(qualifiedName))
  }

  lemma {:induction false} DigitRunBeforeMarker(s: string, marker: string)
    requires marker != "" && marker[0] == '@'
    ensures DigitRun(s + marker) == DigitRun(s)
  {
    if s == "" {
      assert s + marker == marker;
    } else {
      assert (s + marker)[1..] == s[1..] + marker;
      DigitRunBeforeMarker(s[1..], marker);
    }
  }

  lemma MarkerLengthBeforeMarker(s: string, marker: string)
    requires s != "" && marker != "" && marker[0] == '@'
    ensures MarkerLength(s + marker) == MarkerLength(s)
  {
    assert (s + marker)[1..] == s[1..] + marker;
    DigitRunBeforeMarker(s[1..], marker);
    var line := 1 + DigitRun(s[1..]);
    if line < |s| {
      assert (s + marker)[line + 1..] == s[line + 1..] + marker;
      DigitRunBeforeMarker(s[line + 1..], marker);
    }
  }

  // A registration marker at the end of a qualified name never changes how the name compares.
  lemma {:induction false} MarkerInvisible(qualifiedName: string, marker: string)
    requires marker != "" && MarkerLength(marker) == |marker|
    ensures Normalized(qualifiedName + marker) == Normalized(qualifiedName)
  {
    StripMarkersAppend(qualifiedName, marker);
  }

  lemma {:induction false} StripMarkersAppend(s: string, marker: string)
    requires marker != "" && MarkerLength(marker) == |marker|
    ensures StripMarkers(s + marker) == StripMarkers(s)
    decreases |s|
  {
    if s == "" {
      assert s + marker == marker && marker[|marker|..] == "";
    } else {
      MarkerLengthBeforeMarker(s, marker);
      var n := if MarkerLength(s) > 0 then MarkerLength(s) else 1;
      assert (s + marker)[n..] == s[n..] + marker;
      StripMarkersAppend(s[n..], marker);
    }
  }

  // ----- the two substitutions, by what they drop -----

  predicate IsDigit(c: char) {
    '0' <= c <= '9'
  }

  ghost predicate Decimal(s: string) {
    s != "" && forall i :: 0 <= i < |s| ==> IsDigit(s[i])
  }

  ghost predicate Starts(s: string, c: char) {
    s != "" && s[0] == c
  }

  ghost predicate StartsDigit(s: string) {
    s != "" && IsDigit(s[0])
  }

  lemma {:induction false} DigitRunIs(digits: string, rest: string)
    requires forall i :: 0 <= i < |digits| ==> IsDigit(digits[i])
    requires !StartsDigit(rest)
    ensures DigitRun(digits + rest) == |digits|
  {
    if digits == "" {
      assert digits + rest == rest;
    } else {
      assert (digits + rest)[1..] == digits[1..] + rest;
      DigitRunIs(digits[1..], rest);
    }
  }

  lemma TextParts(head: char, middle: string, rest: string)
    ensures var s := [head] + middle + rest;
            && s != "" && s[0] == head && s[1..] == middle + rest && s[|middle| + 1..] == rest
            && |s| == 1 + |middle| + |rest|
            && (rest != "" ==> s[|middle| + 1] == rest[0] && s[|middle| + 2..] == rest[1..])
  {
    var s := [head] + middle + rest;
    assert s[1..] == middle + rest && s[|middle| + 1..] == rest;
    if rest != "" {
      assert s[|middle| + 2..] == rest[1..];
    }
  }

  lemma NoRun(s: string)
    requires !StartsDigit(s)
    ensures DigitRun(s) == 0
  {
  }

  // An at sign with a line number is dropped.
  lemma LineDropped(line: string, rest: string)
    requires Decimal(line) && !StartsDigit(rest) && !(Starts(rest, '_') && StartsDigit(rest[1..]))
    ensures StripMarkers(['@'] + line + rest) == StripMarkers(rest)
  {
    TextParts('@', line, rest);
    DigitRunIs(line, rest);
    if Starts(rest, '_') {
      NoRun(rest[1..]);
    }
    assert MarkerLength(['@'] + line + rest) == |line| + 1;
  }

  // So is one with a line and a column.
  lemma LineAndColumnDropped(line: string, column: string, rest: string)
    requires Decimal(line) && Decimal(column) && !StartsDigit(rest)
    ensures StripMarkers(['@'] + line + (['_'] + column + rest)) == StripMarkers(rest)
  {
    var tail := ['_'] + column + rest;
    var s := ['@'] + line + tail;
    TextParts('_', column, rest);
    TextParts('@', line, tail);
    DigitRunIs(line, tail);
    DigitRunIs(column, rest);
    assert MarkerLength(s) == |line| + 2 + |column|;
    assert s[|line| + 2 + |column|..] == s[|line| + 1..][1 + |column|..];
  }

  // Everything else stays: other characters, and an at sign without a number.
  lemma RestKept(c: char, rest: string)
    requires c == '@' ==> !StartsDigit(rest)
    ensures StripMarkers([c] + rest) == [c] + StripMarkers(rest)
  {
    assert ([c] + rest)[1..] == rest;
    if c == '@' {
      NoRun(rest);
    }
  }

  ghost predicate NoParentheses(s: string) {
    forall i :: 0 <= i < |s| ==> s[i] != '(' && s[i] != ')'
  }

  lemma {:induction false} PlainRunIs(plain: string, rest: string)
    requires NoParentheses(plain) && (rest == "" || Starts(rest, '(') || Starts(rest, ')'))
    ensures PlainRun(plain + rest) == |plain|
  {
    if plain == "" {
      assert plain + rest == rest;
    } else {
      assert (plain + rest)[1..] == plain[1..] + rest;
      PlainRunIs(plain[1..], rest);
    }
  }

  // A parenthesised group without parentheses in it is dropped.
  lemma SignatureDropped(inner: string, rest: string)
    requires NoParentheses(inner)
    ensures StripSignatures("(" + inner + ")" + rest) == StripSignatures(rest)
  {
    var s := "(" + inner + ")" + rest;
    assert s[1..] == inner + (")" + rest) && s[|inner| + 2..] == rest;
    PlainRunIs(inner, ")" + rest);
  }

  lemma {:induction false} PlainRunPlain(s: string)
    ensures NoParentheses(s[..PlainRun(s)])
  {
    if PlainRun(s) > 0 {
      PlainRunPlain(s[1..]);
      assert s[..PlainRun(s)] == [s[0]] + s[1..][..PlainRun(s) - 1];
    }
  }

  // Where a parenthesised group starts.
  lemma SignatureIff(s: string)
    ensures SignatureLength(s) > 0 <==> exists inner :: NoParentheses(inner) && "(" + inner + ")" <= s
  {
    if inner :| NoParentheses(inner) && "(" + inner + ")" <= s {
      var rest := s[|inner| + 1..];
      assert s[1..] == inner + rest && rest[0] == ')';
      PlainRunIs(inner, rest);
    }
    if SignatureLength(s) > 0 {
      var n := PlainRun(s[1..]);
      PlainRunPlain(s[1..]);
      assert s[..n + 2] == "(" + s[1..][..n] + ")";
    }
  }

  // Everything else stays: other characters, and a parenthesis that no such group starts with.
  lemma OthersKept(c: char, rest: string)
    requires forall inner :: NoParentheses(inner) ==> !("(" + inner + ")" <= [c] + rest)
    ensures StripSignatures([c] + rest) == [c] + StripSignatures(rest)
  {
    SignatureIff([c] + rest);
    assert ([c] + rest)[1..] == rest;
  }

  // ----- nesting -----

  predicate SpanContains(outer: Member, inner: Member) {
    && outer.path == inner.path
    && outer.startLine <= inner.startLine
    && inner.endLine <= outer.endLine
  }

  predicate QnWithin(outer: string, inner: string) {
    Normalized(outer) + "." <= Normalized(inner)
  }

  // inner's definition sits inside outer's: strictly by lines, or by qualified name where a boundary is shared.
  predicate NestedIn(outer: Member, inner: Member) {
    && SpanContains(outer, inner)
    && (|| (outer.startLine < inner.startLine && inner.endLine < outer.endLine)
        || QnWithin(outer.qualifiedName, inner.qualifiedName))
  }

  // What that means, with the comparison of names written out.
  lemma NestedMeaning(outer: Member, inner: Member)
    ensures NestedIn(outer, inner) <==>
            && outer.path == inner.path && outer.startLine <= inner.startLine && inner.endLine <= outer.endLine
            && ((outer.startLine < inner.startLine && inner.endLine < outer.endLine)
                || exists rest :: Normalized(inner.qualifiedName) == Normalized(outer.qualifiedName) + "." + rest)
    ensures Normalized(outer.qualifiedName) == StripSignatures(StripMarkers(outer.qualifiedName))
  {
    var o, i := Normalized(outer.qualifiedName) + ".", Normalized(inner.qualifiedName);
    if o <= i {
      assert i == o + i[|o|..];
    }
  }

  lemma NestedIrreflexive(m: Member)
    ensures !NestedIn(m, m)
  {
  }

  lemma NestedTransitive(a: Member, b: Member, c: Member)
    requires NestedIn(a, b) && NestedIn(b, c)
    ensures NestedIn(a, c)
  {
    if QnWithin(a.qualifiedName, b.qualifiedName) && QnWithin(b.qualifiedName, c.qualifiedName) {
      var x, y, z := Normalized(a.qualifiedName) + ".", Normalized(b.qualifiedName), Normalized(c.qualifiedName);
      assert z[..|x|] == y[..|x|] == x;
    }
  }

  // ----- pruning -----

  predicate Contained(m: Member, members: seq<Member>) {
    exists other :: other in members && NestedIn(other, m)
  }

  // The members of `members` that no member of `among` contains, in their order.
  function Outermost(members: seq<Member>, among: seq<Member>): seq<Member> {
    if members == [] then []
    else (if Contained(members[0], among) then [] else [members[0]]) + Outermost(members[1..], among)
  }

  // _drop_contained_members.  The source skips a member's own identity; nothing is nested in itself, so that test
  // changes nothing.
  function DropContained(members: seq<Member>): seq<Member> {
    Outermost(members, members)
  }

  // Pruning keeps every outermost occurrence, no other one, and every multiplicity.
  lemma {:induction false} OutermostKeeps(members: seq<Member>, among: seq<Member>, m: Member)
    ensures multiset(Outermost(members, among))[m] == if Contained(m, among) then 0 else multiset(members)[m]
  {
    if members != [] {
      OutermostKeeps(members[1..], among, m);
      var head := if Contained(members[0], among) then [] else [members[0]];
      var rest := Outermost(members[1..], among);
      assert multiset(head + rest)[m] == multiset(head)[m] + multiset(rest)[m];
      assert members == [members[0]] + members[1..];
    }
  }

  // The outermost members of a list are those of its parts in turn.
  lemma {:induction false} OutermostAppend(a: seq<Member>, b: seq<Member>, among: seq<Member>)
    ensures Outermost(a + b, among) == Outermost(a, among) + Outermost(b, among)
  {
    if a != [] {
      OutermostAppend(a[1..], b, among);
      assert (a + b)[1..] == a[1..] + b;
    } else {
      assert a + b == b;
    }
  }

  lemma DropContainedKeeps(members: seq<Member>, m: Member)
    ensures m in DropContained(members) <==> m in members && !Contained(m, members)
  {
    OutermostKeeps(members, members, m);
    assert m in DropContained(members) <==> m in multiset(DropContained(members));
    assert m in members <==> m in multiset(members);
  }

  ghost function Containers(m: Member, members: seq<Member>): set<Member> {
    set other | other in members && NestedIn(other, m)
  }

  // Every dropped member has a container that survives.
  lemma {:induction false} SurvivingContainer(members: seq<Member>, m: Member) returns (container: Member)
    requires m in members && Contained(m, members)
    ensures container in DropContained(members) && NestedIn(container, m)
    decreases |Containers(m, members)|
  {
    var other :| other in members && NestedIn(other, m);
    if Contained(other, members) {
      forall x | x in Containers(other, members) ensures x in Containers(m, members) {
        NestedTransitive(x, other, m);
      }
      NestedIrreflexive(other);
      ProperSubsetCount(Containers(other, members), Containers(m, members), other);
      container := SurvivingContainer(members, other);
      NestedTransitive(container, other, m);
    } else {
      DropContainedKeeps(members, other);
      container := other;
    }
  }

  lemma ProperSubsetCount<T>(a: set<T>, b: set<T>, x: T)
    requires a <= b && x in b && x !in a
    ensures |a| < |b|
  {
    assert b == a + (b - a) && x in b - a;
    assert |b| == |a| + |b - a|;
  }

  // A nonempty list always keeps something.
  lemma SomethingSurvives(members: seq<Member>) returns (m: Member)
    requires members != []
    ensures m in DropContained(members)
  {
    m := members[0];
    if Contained(m, members) {
      m := SurvivingContainer(members, m);
    } else {
      DropContainedKeeps(members, m);
    }
  }
}
