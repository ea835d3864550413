/**
 Normalization of SQL routine references (codebase_rag/sql_names.py), after the rules for identifiers in section 4.1.1 of
 the PostgreSQL documentation.

 Python's strip().lower() on an unquoted segment is the parameter `fold`.
 */
module SqlNames {
  import opened Dotted
  import opened Orders

  type Fold = string -> string

  const QUOTE := '\"'

  // U+2024 ONE DOT LEADER stands for a literal dot; U+2025 TWO DOT LEADER escapes itself and the former.
  const QUOTED_DOT := '\U{2024}'
  const ESCAPE := '\U{2025}'

  // s.replace(c, by) for a single character c.
  function Replace(s: string, c: char, with: string): string {
    if s == "" then "" else (if s[0] == c then with else [s[0]]) + Replace(s[1..], c, with)
  }

  // _encode_quoted_segment: three replacements in a row.
  function EncodeQuotedSegment(segment: string): string {
    var escaped := Replace(segment, ESCAPE, [ESCAPE, ESCAPE]);
    var leaders := Replace(escaped, QUOTED_DOT, [ESCAPE, QUOTED_DOT]);
    Replace(leaders, '.', [QUOTED_DOT])
  }

  // ----- the encoding -----

  // What the three replacements make of one character.
  function EncodeChar(c: char): string {
    if c == ESCAPE then [ESCAPE, ESCAPE]
    else if c == QUOTED_DOT then [ESCAPE, QUOTED_DOT]
    else if c == '.' then [QUOTED_DOT]
    else [c]
  }

  lemma {:induction false} ReplaceAppend(a: string, b: string, c: char, with: string)
    ensures Replace(a + b, c, with) == Replace(a, c, with) + Replace(b, c, with)
  {
    if a == "" {
      assert a + b == b;
    } else {
      assert (a + b)[1..] == a[1..] + b;
      ReplaceAppend(a[1..], b, c, with);
    }
  }

  lemma ReplaceChar(x: char, c: char, with: string)
    ensures Replace([x], c, with) == if x == c then with else [x]
  {
    assert [x][1..] == "";
  }

  lemma ReplaceTwo(x: char, y: char, c: char, with: string)
    ensures Replace([x, y], c, with) == (if x == c then with else [x]) + (if y == c then with else [y])
  {
    assert [x, y][1..] == [y];
    ReplaceChar(y, c, with);
  }

  lemma EncodeOne(c: char)
    ensures EncodeQuotedSegment([c]) == EncodeChar(c)
  {
    ReplaceChar(c, ESCAPE, [ESCAPE, ESCAPE]);
    ReplaceChar(c, QUOTED_DOT, [ESCAPE, QUOTED_DOT]);
    ReplaceTwo(ESCAPE, ESCAPE, QUOTED_DOT, [ESCAPE, QUOTED_DOT]);
    ReplaceTwo(ESCAPE, ESCAPE, '.', [QUOTED_DOT]);
    ReplaceTwo(ESCAPE, QUOTED_DOT, '.', [QUOTED_DOT]);
    ReplaceChar(c, '.', [QUOTED_DOT]);
  }

  lemma EncodeStep(s: string)
    requires s != ""
    ensures EncodeQuotedSegment(s) == EncodeChar(s[0]) + EncodeQuotedSegment(s[1..])
  {
    assert s == [s[0]] + s[1..];
    var a, b := [s[0]], s[1..];
    ReplaceAppend(a, b, ESCAPE, [ESCAPE, ESCAPE]);
    var a1, b1 := Replace(a, ESCAPE, [ESCAPE, ESCAPE]), Replace(b, ESCAPE, [ESCAPE, ESCAPE]);
    ReplaceAppend(a1, b1, QUOTED_DOT, [ESCAPE, QUOTED_DOT]);
    var a2, b2 := Replace(a1, QUOTED_DOT, [ESCAPE, QUOTED_DOT]), Replace(b1, QUOTED_DOT, [ESCAPE, QUOTED_DOT]);
    ReplaceAppend(a2, b2, '.', [QUOTED_DOT]);
    EncodeOne(s[0]);
  }

  // The encoding, character by character.
  lemma EncodingIs(a: string, b: string)
    ensures EncodeQuotedSegment(a + b) == EncodeQuotedSegment(a) + EncodeQuotedSegment(b)
    ensures EncodeQuotedSegment(".") == "\U{2024}"
    ensures EncodeQuotedSegment("\U{2024}") == "\U{2025}\U{2024}"
    ensures EncodeQuotedSegment("\U{2025}") == "\U{2025}\U{2025}"
    ensures forall c :: c !in ".\U{2024}\U{2025}" ==> EncodeQuotedSegment([c]) == [c]
  {
    EncodeAppend(a, b);
    forall c {
      EncodeOne(c);
    }
    assert "." == ['.'] && "\U{2024}" == [QUOTED_DOT] && "\U{2025}" == [ESCAPE];
  }

  lemma {:induction false} EncodeAppend(a: string, b: string)
    ensures EncodeQuotedSegment(a + b) == EncodeQuotedSegment(a) + EncodeQuotedSegment(b)
  {
    if a == "" {
      assert a + b == b;
    } else {
      EncodeStep(a);
      EncodeStep(a + b);
      assert (a + b)[1..] == a[1..] + b && (a + b)[0] == a[0];
      EncodeAppend(a[1..], b);
      Joined(EncodeChar(a[0]), EncodeQuotedSegment(a[1..]), EncodeQuotedSegment(b));
    }
  }

  // An encoded segment has no dot, so it survives every consumer that splits on dots, and it is empty only if the
  // segment is.
  lemma {:induction false} EncodedDotFree(s: string)
    ensures DotFree(EncodeQuotedSegment(s)) && (EncodeQuotedSegment(s) == "" <==> s == "")
  {
    if s != "" {
      EncodeStep(s);
      EncodedDotFree(s[1..]);
    }
  }

  // The inverse of the encoding.
  function Decode(s: string): string
    decreases |s|
  {
    if s == "" then ""
    else if s[0] == ESCAPE && |s| > 1 then [s[1]] + Decode(s[2..])
    else if s[0] == QUOTED_DOT then ['.'] + Decode(s[1..])
    else [s[0]] + Decode(s[1..])
  }

  lemma {:induction false} DecodeEncode(s: string)
    ensures Decode(EncodeQuotedSegment(s)) == s
  {
    if s != "" {
      EncodeStep(s);
      DecodeEncode(s[1..]);
      var rest := EncodeQuotedSegment(s[1..]);
      assert EncodeQuotedSegment(s)[|EncodeChar(s[0])|..] == rest;
      assert s == [s[0]] + s[1..];
    }
  }

  // ----- the scanner -----

  // flush: the segment collected so far, nothing when it is empty.
  function Flushed(fold: Fold, buf: string, sawQuotes: bool): seq<string> {
    var segment := if sawQuotes then EncodeQuotedSegment(buf) else fold(buf);
    if segment != "" then [segment] else []
  }

  // The segments the scanner still produces from position i on.
  function Scan(fold: Fold, reference: string, i: nat, buf: string, inQuotes: bool, sawQuotes: bool): seq<string>
    requires i <= |reference|
    decreases |reference| - i
  {
    if i == |reference| then Flushed(fold, buf, sawQuotes)
    else if reference[i] == QUOTE then
      if inQuotes && i + 1 < |reference| && reference[i + 1] == QUOTE then
        Scan(fold, reference, i + 2, buf + [QUOTE], inQuotes, sawQuotes)
      else Scan(fold, reference, i + 1, buf, !inQuotes, true)
    else if reference[i] == '.' && !inQuotes then
      Flushed(fold, buf, sawQuotes) + Scan(fold, reference, i + 1, "", inQuotes, false)
    else Scan(fold, reference, i + 1, buf + [reference[i]], inQuotes, sawQuotes)
  }

  function Normalized(fold: Fold, reference: string): string {
    Join(Scan(fold, reference, 0, "", false, false))
  }

  method NormalizeSqlReference(fold: Fold, reference: string) returns (normalized: string)
    ensures normalized == Normalized(fold, reference)
  {
    var segments: seq<string>, buf := [], "";
    var inQuotes, sawQuotes := false, false;
    var i := 0;
    while i < |reference|
      invariant i <= |reference|
      invariant Scan(fold, reference, 0, "", false, false)
             == segments + Scan(fold, reference, i, buf, inQuotes, sawQuotes)
    {
      var ch := reference[i];
      if ch == QUOTE {
        if inQuotes && i + 1 < |reference| && reference[i + 1] == QUOTE {
          buf, i := buf + [QUOTE], i + 2;
          continue;
        }
        inQuotes, sawQuotes, i := !inQuotes, true, i + 1;
        continue;
      }
      if ch == '.' && !inQuotes {
        segments := segments + Flushed(fold, buf, sawQuotes);
        buf, sawQuotes, i := "", false, i + 1;
        continue;
      }
      buf, i := buf + [ch], i + 1;
    }
    segments := segments + Flushed(fold, buf, sawQuotes);
    normalized := Join(segments);
  }

  // ----- references as they are written -----

  // Plain text without quotes and dots, a quoted identifier, or one whose closing quote is missing.
  datatype Piece = Text(text: string) | Quoted(name: string) | Open(name: string)

  // What stands between two dots.
  type Segment = seq<Piece>

  // Quoted identifiers do not touch, for two quotes in a row stand for one, and nothing follows a missing quote.
  ghost predicate WellFormed(segment: Segment) {
    segment == []
    || (&& (segment[0].Text? ==> segment[0].text != "" && DotFree(segment[0].text) && QUOTE !in segment[0].text)
        && (segment[0].Quoted? && |segment| > 1 ==> segment[1].Text?)
        && (segment[0].Open? ==> |segment| == 1)
        && WellFormed(segment[1..]))
  }

  ghost predicate EndsOpen(segment: Segment) {
    segment != [] && segment[|segment| - 1].Open?
  }

  // Quotes inside a quoted identifier are doubled.
  function Doubled(name: string): string {
    if name == "" then "" else (if name[0] == QUOTE then [QUOTE, QUOTE] else [name[0]]) + Doubled(name[1..])
  }

  function WrittenPiece(piece: Piece): string {
    match piece
    case Text(text) => text
    case Quoted(name) => [QUOTE] + Doubled(name) + [QUOTE]
    case Open(name) => [QUOTE] + Doubled(name)
  }

  function Written(segment: Segment): string {
    if segment == [] then "" else WrittenPiece(segment[0]) + Written(segment[1..])
  }

  function ContentOf(piece: Piece): string {
    if piece.Text? then piece.text else piece.name
  }

  function Content(segment: Segment): string {
    if segment == [] then "" else ContentOf(segment[0]) + Content(segment[1..])
  }

  ghost predicate HasQuotes(segment: Segment) {
    exists k :: 0 <= k < |segment| && !segment[k].Text?
  }

  // The key of a segment: its content, encoded if any of it is quoted and folded if not.  One that has no key vanishes.
  ghost function Key(fold: Fold, segment: Segment): seq<string> {
    if HasQuotes(segment) then
      if Content(segment) == "" then [] else [EncodeQuotedSegment(Content(segment))]
    else
      if fold(Content(segment)) == "" then [] else [fold(Content(segment))]
  }

  function Reference(segments: seq<Segment>): string {
    if segments == [] then ""
    else if |segments| == 1 then Written(segments[0])
    else Written(segments[0]) + "." + Reference(segments[1..])
  }

  ghost function Keys(fold: Fold, segments: seq<Segment>): seq<string> {
    if segments == [] then [] else Key(fold, segments[0]) + Keys(fold, segments[1..])
  }

  lemma KeyFlushed(fold: Fold, segment: Segment)
    ensures Flushed(fold, Content(segment), HasQuotes(segment)) == Key(fold, segment)
  {
    EncodedDotFree(Content(segment));
  }

  // `text` is what the reference reads at position i.
  ghost predicate At(reference: string, i: nat, text: string) {
    i + |text| <= |reference| && reference[i..i + |text|] == text
  }

  lemma AtParts(reference: string, i: nat, a: string, b: string)
    requires At(reference, i, a + b)
    ensures At(reference, i, a) && At(reference, i + |a|, b)
  {
    assert reference[i..i + |a|] == (a + b)[..|a|] == a;
    assert reference[i + |a|..i + |a| + |b|] == (a + b)[|a|..] == b;
  }

  lemma AtChar(reference: string, i: nat, text: string, k: nat)
    requires At(reference, i, text) && k < |text|
    ensures reference[i + k] == text[k]
  {
    assert reference[i..i + |text|][k] == reference[i + k];
  }

  // The text of a doubled name up to its first character's copy, and the rest.
  lemma DoubledText(reference: string, i: nat, name: string)
    requires At(reference, i, Doubled(name)) && name != ""
    ensures var width := if name[0] == QUOTE then 2 else 1;
            && |Doubled(name)| == width + |Doubled(name[1..])|
            && At(reference, i + width, Doubled(name[1..]))
            && reference[i] == name[0] && (width == 2 ==> reference[i + 1] == QUOTE)
  {
    var head := if name[0] == QUOTE then [QUOTE, QUOTE] else [name[0]];
    AtParts(reference, i, head, Doubled(name[1..]));
    AtChar(reference, i, head, 0);
    if |head| == 2 {
      AtChar(reference, i, head, 1);
    }
  }

  // Inside quotes the scanner collects the name, undoubling quotes.
  lemma {:induction false} ScanDoubled(fold: Fold, reference: string, i: nat, buf: string, name: string)
    requires At(reference, i, Doubled(name))
    ensures Scan(fold, reference, i, buf, true, true)
         == Scan(fold, reference, i + |Doubled(name)|, buf + name, true, true)
    decreases |name|
  {
    if name == "" {
      assert buf + name == buf;
    } else {
      DoubledText(reference, i, name);
      assert buf + name == buf + [name[0]] + name[1..];
      if name[0] == QUOTE {
        ScanDoubled(fold, reference, i + 2, buf + [QUOTE], name[1..]);
      } else {
        ScanDoubled(fold, reference, i + 1, buf + [name[0]], name[1..]);
      }
    }
  }

  lemma {:induction false} ScanText(fold: Fold, reference: string, i: nat, buf: string, sawQuotes: bool, text: string)
    requires At(reference, i, text) && DotFree(text) && QUOTE !in text
    ensures Scan(fold, reference, i, buf, false, sawQuotes)
         == Scan(fold, reference, i + |text|, buf + text, false, sawQuotes)
    decreases |text|
  {
    if text == "" {
      assert buf + text == buf;
    } else {
      assert text == [text[0]] + text[1..];
      AtParts(reference, i, [text[0]], text[1..]);
      assert reference[i] == reference[i..i + 1][0] == text[0] && text[0] in text;
      ScanText(fold, reference, i + 1, buf + [text[0]], sawQuotes, text[1..]);
      assert buf + text == buf + [text[0]] + text[1..];
    }
  }

  lemma ScanQuoted(fold: Fold, reference: string, i: nat, buf: string, sawQuotes: bool, name: string)
    requires At(reference, i, [QUOTE] + Doubled(name) + [QUOTE])
    requires var end := i + |Doubled(name)| + 2; end < |reference| ==> reference[end] != QUOTE
    ensures Scan(fold, reference, i, buf, false, sawQuotes)
         == Scan(fold, reference, i + |Doubled(name)| + 2, buf + name, false, true)
  {
    AtParts(reference, i, [QUOTE] + Doubled(name), [QUOTE]);
    AtParts(reference, i, [QUOTE], Doubled(name));
    AtChar(reference, i, [QUOTE], 0);
    AtChar(reference, i + |Doubled(name)| + 1, [QUOTE], 0);
    ScanDoubled(fold, reference, i + 1, buf, name);
  }

  lemma ScanOpen(fold: Fold, reference: string, i: nat, buf: string, sawQuotes: bool, name: string)
    requires At(reference, i, [QUOTE] + Doubled(name)) && i + 1 + |Doubled(name)| == |reference|
    ensures Scan(fold, reference, i, buf, false, sawQuotes) == Flushed(fold, buf + name, true)
  {
    AtParts(reference, i, [QUOTE], Doubled(name));
    AtChar(reference, i, [QUOTE], 0);
    ScanDoubled(fold, reference, i + 1, buf, name);
  }

  lemma PiecesAfter(segment: Segment)
    requires segment != [] && WellFormed(segment)
    ensures WellFormed(segment[1..]) && HasQuotes(segment) == (!segment[0].Text? || HasQuotes(segment[1..]))
    ensures EndsOpen(segment) == if |segment| == 1 then segment[0].Open? else EndsOpen(segment[1..])
    ensures segment[0].Open? ==> |segment| == 1
  {
    assert segment == [segment[0]] + segment[1..];
  }

  lemma TextAfterQuoted(segment: Segment)
    requires |segment| > 1 && segment[0].Quoted? && WellFormed(segment)
    ensures var next := segment[1..][0]; next.Text? && next.text != "" && next.text[0] != QUOTE
  {
    var next := segment[1..][0];
    assert WellFormed(segment[1..]) && next == segment[1];
    assert next.text[0] in next.text;
  }

  lemma NoQuoteAfter(reference: string, end: nat, rest: Segment)
    requires At(reference, end, Written(rest))
    requires rest != [] ==> rest[0].Text? && rest[0].text != "" && rest[0].text[0] != QUOTE
    requires Stops(reference, end + |Written(rest)|)
    ensures end < |reference| ==> reference[end] != QUOTE
  {
    if rest != [] {
      AtParts(reference, end, rest[0].text, Written(rest[1..]));
      AtChar(reference, end, rest[0].text, 0);
    }
  }

  // The first piece of a segment, unless its quote stays open.
  lemma ScanPiece(fold: Fold, reference: string, i: nat, buf: string, sawQuotes: bool, piece: Piece, rest: Segment)
    requires At(reference, i, WrittenPiece(piece)) && !piece.Open?
    requires piece.Text? ==> DotFree(piece.text) && QUOTE !in piece.text
    requires var next := i + |WrittenPiece(piece)|;
             piece.Quoted? && next < |reference| ==> reference[next] != QUOTE
    ensures Scan(fold, reference, i, buf, false, sawQuotes)
         == Scan(fold, reference, i + |WrittenPiece(piece)|, buf + ContentOf(piece), false, sawQuotes || piece.Quoted?)
  {
    if piece.Text? {
      ScanText(fold, reference, i, buf, sawQuotes, piece.text);
    } else {
      ScanQuoted(fold, reference, i, buf, sawQuotes, piece.name);
    }
  }

  // What the scanner produces after the dot at position `end`, or at the end of the reference.
  ghost function After(fold: Fold, reference: string, end: nat): seq<string> {
    if end < |reference| then Scan(fold, reference, end + 1, "", false, false) else []
  }

  lemma ScanFlush(fold: Fold, reference: string, end: nat, buf: string, sawQuotes: bool)
    requires end <= |reference| && (end < |reference| ==> reference[end] == '.')
    ensures Scan(fold, reference, end, buf, false, sawQuotes)
         == Flushed(fold, buf, sawQuotes) + After(fold, reference, end)
  {
  }

  ghost predicate Stops(reference: string, end: nat) {
    end < |reference| ==> reference[end] == '.'
  }

  lemma ScanOpenSegment(fold: Fold, reference: string, i: nat, buf: string, sawQuotes: bool, piece: Piece)
    requires piece.Open? && At(reference, i, Written([piece])) && i + |Written([piece])| == |reference|
    ensures Scan(fold, reference, i, buf, false, sawQuotes) == Flushed(fold, buf + Content([piece]), true)
  {
    assert [piece][1..] == [] && Written([piece]) == WrittenPiece(piece) && Content([piece]) == piece.name;
    ScanOpen(fold, reference, i, buf, sawQuotes, piece.name);
  }

  lemma NoQuoteNext(reference: string, next: nat, segment: Segment)
    requires segment != [] && WellFormed(segment) && segment[0].Quoted? && At(reference, next, Written(segment[1..]))
    requires Stops(reference, next + |Written(segment[1..])|)
    ensures next < |reference| ==> reference[next] != QUOTE
  {
    if |segment| > 1 {
      TextAfterQuoted(segment);
    }
    NoQuoteAfter(reference, next, segment[1..]);
  }

  lemma AtSplit(reference: string, i: nat, text: string, a: string, b: string)
    requires text == a + b && At(reference, i, text)
    ensures At(reference, i, a) && At(reference, i + |a|, b) && |text| == |a| + |b|
  {
    AtParts(reference, i, a, b);
  }

  lemma ContentAfter(buf: string, segment: Segment)
    requires segment != []
    ensures buf + Content(segment) == buf + ContentOf(segment[0]) + Content(segment[1..])
  {
  }

  // One segment, up to the dot after it or the end.
  lemma {:induction false} ScanSegment(fold: Fold, reference: string, i: nat, buf: string, sawQuotes: bool,
                                       segment: Segment, end: nat)
    requires At(reference, i, Written(segment)) && WellFormed(segment) && end == i + |Written(segment)|
    requires Stops(reference, end) && (end < |reference| ==> !EndsOpen(segment))
    ensures Scan(fold, reference, i, buf, false, sawQuotes)
         == Flushed(fold, buf + Content(segment), sawQuotes || HasQuotes(segment)) + After(fold, reference, end)
    decreases |segment|, 1
  {
    if segment == [] {
      assert buf + Content(segment) == buf;
      ScanFlush(fold, reference, end, buf, sawQuotes);
    } else {
      PiecesAfter(segment);
      if segment[0].Open? {
        assert segment == [segment[0]];
        ScanOpenSegment(fold, reference, i, buf, sawQuotes, segment[0]);
      } else {
        ContentAfter(buf, segment);
        ScanLonger(fold, reference, i, buf, sawQuotes, segment, end);
      }
    }
  }

  lemma ScanLonger(fold: Fold, reference: string, i: nat, buf: string, sawQuotes: bool, segment: Segment, end: nat)
    requires segment != [] && WellFormed(segment) && WellFormed(segment[1..]) && !segment[0].Open?
    requires At(reference, i, Written(segment)) && end == i + |Written(segment)|
    requires Stops(reference, end) && (end < |reference| ==> !EndsOpen(segment[1..]))
    ensures Scan(fold, reference, i, buf, false, sawQuotes)
         == Flushed(fold, buf + ContentOf(segment[0]) + Content(segment[1..]),
                    sawQuotes || segment[0].Quoted? || HasQuotes(segment[1..])) + After(fold, reference, end)
    decreases |segment|, 0
  {
    var piece, rest, next := segment[0], segment[1..], i + |WrittenPiece(segment[0])|;
    AtSplit(reference, i, Written(segment), WrittenPiece(piece), Written(rest));
    if piece.Quoted? {
      NoQuoteNext(reference, next, segment);
    }
    ScanPiece(fold, reference, i, buf, sawQuotes, piece, rest);
    ScanSegment(fold, reference, next, buf + ContentOf(piece), sawQuotes || piece.Quoted?, rest, end);
  }

  lemma ReferenceText(reference: string, i: nat, segments: seq<Segment>)
    requires i <= |reference| && reference[i..] == Reference(segments) && segments != []
    ensures At(reference, i, Written(segments[0]))
    ensures var end := i + |Written(segments[0])|;
            if |segments| == 1 then end == |reference|
            else end < |reference| && reference[end] == '.' && reference[end + 1..] == Reference(segments[1..])
  {
    var text := Written(segments[0]);
    var end := i + |text|;
    assert reference[i..end] == reference[i..][..|text|];
    if |segments| > 1 {
      assert reference[end] == reference[i..][|text|];
      assert reference[end + 1..] == reference[i..][|text| + 1..];
    }
  }

  // Only the last quote of a reference can stay open.
  ghost predicate AllWellFormed(segments: seq<Segment>) {
    && (forall k :: 0 <= k < |segments| ==> WellFormed(segments[k]))
    && (forall k :: 0 <= k < |segments| - 1 ==> !EndsOpen(segments[k]))
  }

  lemma ScanKey(fold: Fold, reference: string, i: nat, segment: Segment, end: nat)
    requires At(reference, i, Written(segment)) && WellFormed(segment) && end == i + |Written(segment)|
    requires Stops(reference, end) && (end < |reference| ==> !EndsOpen(segment))
    ensures Scan(fold, reference, i, "", false, false) == Key(fold, segment) + After(fold, reference, end)
  {
    ScanSegment(fold, reference, i, "", false, segment, end);
    KeyFlushed(fold, segment);
    assert "" + Content(segment) == Content(segment);
  }

  lemma {:induction false} ScanReference(fold: Fold, reference: string, i: nat, segments: seq<Segment>)
    requires i <= |reference| && reference[i..] == Reference(segments) && segments != [] && AllWellFormed(segments)
    ensures Scan(fold, reference, i, "", false, false) == Keys(fold, segments)
    decreases |segments|
  {
    var end := i + |Written(segments[0])|;
    ReferenceText(reference, i, segments);
    ScanKey(fold, reference, i, segments[0], end);
    if |segments| == 1 {
      assert Keys(fold, segments[1..]) == [];
    } else {
      RestWellFormed(segments);
      ScanReference(fold, reference, end + 1, segments[1..]);
    }
  }

  lemma RestWellFormed(segments: seq<Segment>)
    requires AllWellFormed(segments) && segments != []
    ensures AllWellFormed(segments[1..])
  {
    assert forall k :: 0 <= k < |segments| - 1 ==> segments[1..][k] == segments[k + 1];
  }

  // A written reference normalizes to the dot-join of its segments' keys.
  lemma NormalizedReference(fold: Fold, segments: seq<Segment>)
    requires AllWellFormed(segments)
    ensures segments != [] ==> Normalized(fold, Reference(segments)) == Join(Keys(fold, segments))
  {
    if segments != [] {
      assert Reference(segments)[0..] == Reference(segments);
      ScanReference(fold, Reference(segments), 0, segments);
    }
  }

  // ----- every string is such a reference -----

  ghost predicate StartsQuote(s: string) {
    s != "" && s[0] == QUOTE
  }

  // What follows an opening quote: a doubled name, and a closing quote unless it is missing.
  lemma {:induction false} Unquoted(s: string) returns (name: string, closed: bool, rest: string)
    ensures s == Doubled(name) + if closed then [QUOTE] + rest else ""
    ensures closed ==> |rest| < |s| && !StartsQuote(rest)
    decreases |s|
  {
    if s == "" {
      name, closed, rest := "", false, "";
    } else if s[0] != QUOTE {
      name, closed, rest := Unquoted(s[1..]);
      DoubledFirst(s[0], name);
      name := [s[0]] + name;
    } else if |s| > 1 && s[1] == QUOTE {
      name, closed, rest := Unquoted(s[2..]);
      DoubledFirst(QUOTE, name);
      assert s == [QUOTE, QUOTE] + s[2..];
      name := [QUOTE] + name;
    } else {
      name, closed, rest := "", true, s[1..];
      assert s == [QUOTE] + rest;
    }
  }

  lemma DoubledFirst(c: char, name: string)
    ensures Doubled([c] + name) == (if c == QUOTE then [QUOTE, QUOTE] else [c]) + Doubled(name)
  {
    assert ([c] + name)[1..] == name;
  }

  // The reference reads `s`, and starts with quotes only if `s` does.
  ghost predicate Reads(segments: seq<Segment>, s: string) {
    && segments != [] && AllWellFormed(segments) && Reference(segments) == s
    && (segments[0] != [] && !segments[0][0].Text? ==> StartsQuote(s))
  }

  // A piece in front of the first segment.
  lemma ReadsPiece(piece: Piece, segments: seq<Segment>, s: string)
    requires Reads(segments, s) && !piece.Open?
    requires piece.Text? ==> piece.text != "" && DotFree(piece.text) && QUOTE !in piece.text
    requires piece.Quoted? ==> !StartsQuote(s)
    ensures Reads([[piece] + segments[0]] + segments[1..], WrittenPiece(piece) + s)
  {
    var first := [piece] + segments[0];
    var longer := [first] + segments[1..];
    assert first[1..] == segments[0] && longer[1..] == segments[1..];
    assert WellFormed(first);
    assert EndsOpen(first) == EndsOpen(segments[0]);
    assert Reference(longer) == WrittenPiece(piece) + Reference(segments);
  }

  lemma LongerText(c: char, segment: Segment)
    requires WellFormed(segment) && segment != [] && segment[0].Text? && c != '.' && c != QUOTE
    ensures var longer := [Text([c] + segment[0].text)] + segment[1..];
            WellFormed(longer) && Written(longer) == [c] + Written(segment) && EndsOpen(longer) == EndsOpen(segment)
  {
    var text := [c] + segment[0].text;
    var longer := [Text(text)] + segment[1..];
    assert longer[1..] == segment[1..] && text[0] == c;
    assert forall d :: d in text <==> d == c || d in segment[0].text;
    Joined([c], segment[0].text, Written(segment[1..]));
    assert |longer| == |segment| && (|segment| > 1 ==> longer[|segment| - 1] == segment[|segment| - 1]);
  }

  // A character in front of a text that starts the first segment.
  lemma ReadsChar(c: char, segments: seq<Segment>, s: string)
    requires Reads(segments, s) && c != '.' && c != QUOTE && segments[0] != [] && segments[0][0].Text?
    ensures Reads([[Text([c] + segments[0][0].text)] + segments[0][1..]] + segments[1..], [c] + s)
  {
    var first := [Text([c] + segments[0][0].text)] + segments[0][1..];
    var longer := [first] + segments[1..];
    LongerText(c, segments[0]);
    assert longer[1..] == segments[1..];
    assert Reference(longer) == [c] + Reference(segments);
  }

  lemma ReadsDot(segments: seq<Segment>, s: string)
    requires Reads(segments, s)
    ensures Reads([[]] + segments, "." + s)
  {
    assert ([[]] + segments)[1..] == segments;
    assert Reference([[]] + segments) == "" + "." + Reference(segments);
  }

  lemma ReadsOpen(name: string)
    ensures Reads([[Open(name)]], [QUOTE] + Doubled(name))
  {
    var segment := [Open(name)];
    assert segment[1..] == [];
    assert Written(segment) == WrittenPiece(Open(name)) + "" == [QUOTE] + Doubled(name);
  }

  // So there is no other kind of reference.
  lemma {:induction false} EveryReference(s: string) returns (segments: seq<Segment>)
    ensures Reads(segments, s)
    decreases |s|
  {
    if s == "" {
      segments := [[]];
      assert Reference([[]]) == Written([]) == "" && segments[0] == [];
    } else if s[0] == '.' {
      segments := EveryReference(s[1..]);
      ReadsDot(segments, s[1..]);
      segments := [[]] + segments;
      assert s == "." + s[1..];
    } else if s[0] == QUOTE {
      var name, closed, rest := Unquoted(s[1..]);
      assert s == [QUOTE] + s[1..];
      if closed {
        segments := EveryReference(rest);
        ReadsPiece(Quoted(name), segments, rest);
        segments := [[Quoted(name)] + segments[0]] + segments[1..];
        assert s[1..] == Doubled(name) + ([QUOTE] + rest);
        assert WrittenPiece(Quoted(name)) + rest == [QUOTE] + (Doubled(name) + ([QUOTE] + rest)) == s;
      } else {
        assert s[1..] == Doubled(name) + "" == Doubled(name);
        ReadsOpen(name);
        segments := [[Open(name)]];
      }
    } else {
      segments := EveryReference(s[1..]);
      assert s == [s[0]] + s[1..];
      if segments[0] != [] && segments[0][0].Text? {
        ReadsChar(s[0], segments, s[1..]);
        segments := [[Text([s[0]] + segments[0][0].text)] + segments[0][1..]] + segments[1..];
      } else {
        ReadsPiece(Text([s[0]]), segments, s[1..]);
        segments := [[Text([s[0]])] + segments[0]] + segments[1..];
      }
    }
  }

  // Whatever the string, its normal form is the dot-join of the keys of segments that it is written with.
  lemma NormalizedMeaning(fold: Fold, reference: string)
    ensures exists segments ::
              segments != [] && AllWellFormed(segments) && Reference(segments) == reference
              && Normalized(fold, reference) == Join(Keys(fold, segments))
  {
    var segments := EveryReference(reference);
    NormalizedReference(fold, segments);
  }

  // ----- quoted references -----

  function QuotedParts(names: seq<string>): seq<Segment> {
    seq(|names|, i requires 0 <= i < |names| => [Quoted(names[i])])
  }

  lemma SinglePiece(piece: Piece)
    ensures Content([piece]) == if piece.Text? then piece.text else piece.name
    ensures HasQuotes([piece]) == !piece.Text?
  {
    assert [piece][1..] == [] && [piece][0] == piece;
  }

  function Encoded(names: seq<string>): seq<string> {
    seq(|names|, i requires 0 <= i < |names| => EncodeQuotedSegment(names[i]))
  }

  lemma {:induction false} QuotedKeys(fold: Fold, names: seq<string>)
    requires forall k :: 0 <= k < |names| ==> names[k] != ""
    ensures Keys(fold, QuotedParts(names)) == Encoded(names)
  {
    if names != [] {
      assert QuotedParts(names)[1..] == QuotedParts(names[1..]);
      assert Encoded(names) == [EncodeQuotedSegment(names[0])] + Encoded(names[1..]);
      SinglePiece(Quoted(names[0]));
      QuotedKeys(fold, names[1..]);
    }
  }

  // The identifiers can be read back from the normalized form, dots, quotes, case and leader characters included.
  lemma QuotedRoundTrip(fold: Fold, names: seq<string>)
    requires names != [] && forall k :: 0 <= k < |names| ==> names[k] != ""
    ensures Split(Normalized(fold, Reference(QuotedParts(names)))) == Encoded(names)
    ensures forall k :: 0 <= k < |names| ==> Decode(Encoded(names)[k]) == names[k]
  {
    NormalizedReference(fold, QuotedParts(names));
    QuotedKeys(fold, names);
    forall k | 0 <= k < |names| ensures DotFree(Encoded(names)[k]) && Decode(Encoded(names)[k]) == names[k] {
      EncodedDotFree(names[k]);
      DecodeEncode(names[k]);
    }
    SplitJoin(Encoded(names));
  }

  // Distinct lists of quoted identifiers never collide.
  lemma QuotedInjective(fold: Fold, a: seq<string>, b: seq<string>)
    requires a != [] && b != [] && forall k :: 0 <= k < |a| ==> a[k] != ""
    requires forall k :: 0 <= k < |b| ==> b[k] != ""
    requires Normalized(fold, Reference(QuotedParts(a))) == Normalized(fold, Reference(QuotedParts(b)))
    ensures a == b
  {
    QuotedRoundTrip(fold, a);
    QuotedRoundTrip(fold, b);
    assert |a| == |Encoded(a)| == |Encoded(b)| == |b|;
    forall k | 0 <= k < |a| ensures a[k] == b[k] {
      assert a[k] == Decode(Encoded(a)[k]) == Decode(Encoded(b)[k]) == b[k];
    }
  }

  // ----- quoted against unquoted -----

  ghost predicate Unencoded(s: string) {
    '.' !in s && QUOTED_DOT !in s && ESCAPE !in s
  }

  lemma {:induction false} EncodeUnencoded(s: string)
    requires Unencoded(s)
    ensures EncodeQuotedSegment(s) == s
  {
    if s != "" {
      assert s[0] in s && forall c :: c in s[1..] ==> c in s;
      EncodeStep(s);
      EncodeUnencoded(s[1..]);
      assert s == [s[0]] + s[1..];
    }
  }

  ghost function BareKey(fold: Fold, text: string): (key: seq<string>)
    ensures key == if fold(text) == "" then [] else [fold(text)]
  {
    SinglePiece(Text(text));
    Key(fold, [Text(text)])
  }

  ghost function QuotedKey(fold: Fold, name: string): (key: seq<string>)
    ensures key == if name == "" then [] else [EncodeQuotedSegment(name)]
  {
    SinglePiece(Quoted(name));
    Key(fold, [Quoted(name)])
  }

  // An unquoted name that folds to text without the encoding's characters means the same routine as a quoted one
  // exactly when the quoted name is the folded text.
  lemma BareMeansFolded(fold: Fold, text: string, name: string)
    requires Unencoded(fold(text)) && name != ""
    ensures BareKey(fold, text) == QuotedKey(fold, name) <==> fold(text) == name
  {
    EncodeUnencoded(fold(text));
    EncodedDotFree(name);
    DecodeEncode(name);
    DecodeEncode(fold(text));
    assert QuotedKey(fold, name) == [EncodeQuotedSegment(name)];
    assert QuotedKey(fold, name)[0] == EncodeQuotedSegment(name);
  }

  lemma {:induction false} EncodingGrows(s: string)
    ensures |EncodeQuotedSegment(s)| >= |s|
  {
    if s != "" {
      EncodeStep(s);
      EncodingGrows(s[1..]);
    }
  }

  // Only text without the encoding's characters is its own encoding.
  lemma {:induction false} OwnEncoding(s: string)
    requires EncodeQuotedSegment(s) == s
    ensures Unencoded(s)
  {
    if s != "" {
      var first, rest := EncodeChar(s[0]), EncodeQuotedSegment(s[1..]);
      EncodeStep(s);
      EncodingGrows(s[1..]);
      assert |first| == 1 && s[0] == first[0];
      assert rest == (first + rest)[1..] == s[1..];
      OwnEncoding(s[1..]);
      assert s == [s[0]] + s[1..];
    }
  }

  // Unquoted text means the same routine as exactly the quoted name it folds to, if and only if it folds to text
  // without the encoding's characters.
  lemma BareMeansFoldedIff(fold: Fold, text: string)
    ensures Unencoded(fold(text)) <==>
            forall name :: name != "" ==> (BareKey(fold, text) == QuotedKey(fold, name) <==> fold(text) == name)
  {
    var folded := fold(text);
    if Unencoded(folded) {
      forall name | name != "" {
        BareMeansFolded(fold, text, name);
      }
    } else {
      assert folded != "";
      EncodedDotFree(folded);
      assert BareKey(fold, text) == [folded] && QuotedKey(fold, folded) == [EncodeQuotedSegment(folded)];
      if EncodeQuotedSegment(folded) == folded {
        OwnEncoding(folded);
      } else {
        assert [folded][0] != [EncodeQuotedSegment(folded)][0];
      }
    }
  }

  // Unquoted text is not escaped, so one that folds to an encoding meets a different quoted name under the same key.
  lemma BareLeaderCollides(fold: Fold, text: string)
    requires fold(text) == ['a', QUOTED_DOT, 'b']
    ensures BareKey(fold, text) == QuotedKey(fold, "a.b") && fold(text) != "a.b"
  {
    EncodeStep("a.b");
    EncodeStep(".b");
    EncodeStep("b");
    assert "a.b"[1..] == ".b" && ".b"[1..] == "b" && "b"[1..] == "";
    EncodedDotFree("");
    assert EncodeQuotedSegment("a.b") == ['a', QUOTED_DOT, 'b'];
    assert fold(text)[1] == QUOTED_DOT && "a.b"[1] == '.';
  }
}
