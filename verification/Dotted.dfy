/**
 Dotted names: Python's split(".") and ".".join, and what startswith and endswith mean for their segments.
 */
module Dotted {

  function Split(s: string): (parts: seq<string>)
    ensures parts != []
  {
    if s == "" then [""]
    else
      var rest := Split(s[1..]);
      if s[0] == '.' then [""] + rest else [[s[0]] + rest[0]] + rest[1..]
  }

  function Join(parts: seq<string>): string {
    if parts == [] then ""
    else if |parts| == 1 then parts[0]
    else parts[0] + "." + Join(parts[1..])
  }

  ghost predicate DotFree(s: string) {
    '.' !in s
  }

  lemma {:induction false} JoinSplit(s: string)
    ensures Join(Split(s)) == s
  {
    if s != "" {
      var rest := Split(s[1..]);
      JoinSplit(s[1..]);
      if s[0] != '.' {
        assert Split(s)[1..] == rest[1..];
      } else {
        assert Split(s)[1..] == rest;
      }
    }
  }

  lemma {:induction false} SegmentsDotFree(s: string)
    ensures forall i :: 0 <= i < |Split(s)| ==> DotFree(Split(s)[i])
  {
    if s != "" {
      SegmentsDotFree(s[1..]);
    }
  }

  // Different names have different segments.
  lemma SplitInjective(a: string, b: string)
    requires Split(a) == Split(b)
    ensures a == b
  {
    JoinSplit(a);
    JoinSplit(b);
  }

  lemma {:induction false} SplitAppend(a: string, b: string)
    ensures Split(a + "." + b) == Split(a) + Split(b)
  {
    var s := a + "." + b;
    if a == "" {
      assert s[1..] == b;
    } else {
      assert s[1..] == a[1..] + "." + b;
      SplitAppend(a[1..], b);
    }
  }

  lemma {:induction false} SplitDotFree(s: string)
    requires DotFree(s)
    ensures Split(s) == [s]
  {
    if s != "" {
      assert s[0] in s;
      assert forall c :: c in s[1..] ==> c in s;
      SplitDotFree(s[1..]);
      assert [s[0]] + s[1..] == s;
    }
  }

  lemma {:induction false} SplitJoin(parts: seq<string>)
    requires parts != [] && forall i :: 0 <= i < |parts| ==> DotFree(parts[i])
    ensures Split(Join(parts)) == parts
  {
    SplitDotFree(parts[0]);
    if |parts| > 1 {
      SplitAppend(parts[0], Join(parts[1..]));
      SplitJoin(parts[1..]);
    }
  }

  lemma {:induction false} JoinAppend(a: seq<string>, b: seq<string>)
    requires a != [] && b != []
    ensures Join(a + b) == Join(a) + "." + Join(b)
  {
    if |a| == 1 {
      assert (a + b)[1..] == b;
    } else {
      assert (a + b)[1..] == a[1..] + b;
      JoinAppend(a[1..], b);
    }
  }

  lemma JoinExtend(a: seq<string>, b: seq<string>)
    requires a != [] && a <= b
    ensures Join(b) == Join(a) || Join(a) + "." <= Join(b)
  {
    var rest := b[|a|..];
    assert b == a + rest;
    if rest != [] {
      JoinAppend(a, rest);
    }
  }

  // startswith(prefix + ".") or equality, in terms of segments.
  lemma PrefixSegments(prefix: string, name: string)
    ensures Split(prefix) <= Split(name) <==> name == prefix || prefix + "." <= name
  {
    if Split(prefix) <= Split(name) {
      JoinExtend(Split(prefix), Split(name));
      JoinSplit(prefix);
      JoinSplit(name);
    }
    if prefix + "." <= name {
      var rest := name[|prefix| + 1..];
      assert name == prefix + "." + rest;
      SplitAppend(prefix, rest);
    }
  }

  predicate EndsWith(s: string, suffix: string) {
    |suffix| <= |s| && s[|s| - |suffix|..] == suffix
  }

  function LastSegment(s: string): string {
    Split(s)[|Split(s)| - 1]
  }

  lemma EndsWithIff(s: string, suffix: string)
    ensures EndsWith(s, suffix) <==> exists head :: s == head + suffix
  {
    if EndsWith(s, suffix) {
      assert s == s[..|s| - |suffix|] + suffix;
    }
  }

  // The last segment is what follows the last dot, or the whole name.
  lemma LastSegmentIs(name: string)
    ensures '.' !in LastSegment(name)
    ensures name == LastSegment(name) || exists head :: name == head + "." + LastSegment(name)
  {
    SegmentsDotFree(name);
    JoinSplit(name);
    var parts := Split(name);
    if |parts| > 1 {
      var head := parts[..|parts| - 1];
      assert parts == head + [LastSegment(name)];
      JoinAppend(head, [LastSegment(name)]);
    }
  }

  // A dot-free suffix after a dot is the last segment of a name that has a dot.
  lemma SuffixSegment(name: string, suffix: string)
    requires DotFree(suffix)
    ensures EndsWith(name, "." + suffix) <==> LastSegment(name) == suffix && |Split(name)| > 1
  {
    var parts := Split(name);
    JoinSplit(name);
    if EndsWith(name, "." + suffix) {
      var head := name[..|name| - |suffix| - 1];
      assert name == head + "." + suffix;
      SplitAppend(head, suffix);
      SplitDotFree(suffix);
    }
    if LastSegment(name) == suffix && |parts| > 1 {
      var head := parts[..|parts| - 1];
      assert parts == head + [suffix];
      JoinAppend(head, [suffix]);
    }
  }
}
