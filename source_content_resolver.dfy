/**
 * The source-snippet extractor of the demo helpers. It reads the lines of a
 * Java source file, finds blocks between a "// begin-source-example" line and a
 * "// end-source-example" line, and turns each block into an example. An
 * example has an optional heading line, an optional type line and the
 * remaining lines with their common indentation removed, joined with "\n".
 *
 * Java lists that the code changes in place become the classes LineList and
 * SubList. Each loop becomes a method proved against a specification function.
 */
module SourceContentResolver {

  datatype Option<T> = None | Some(value: T)

  /** One extracted example; a missing heading (Java null) is None. */
  datatype SourceCodeExample = SourceCodeExample(heading: Option<string>, sourceType: string, sourceCode: string)

  const BeginMarker: string := "// begin-source-example"
  const EndMarker: string := "// end-source-example"
  const HeadingPrefix: string := "// source-example-heading: "
  const TypePrefix: string := "// source-example-type: "
  /** The type an example gets when it has no type line. */
  const UndefinedType: string := "UNDEFINED"
  /** Integer.MAX_VALUE, the start value of the minimum-indent search. */
  const IntegerMaxValue: nat := 0x7fff_ffff

  // ---------------------------------------------------------------------------
  // Characters
  // ---------------------------------------------------------------------------

  /** `\s` in a Java regular expression: space, tab, newline, vertical tab, form feed, carriage return. */
  predicate IsRegexSpace(c: char)
  {
    c == ' ' || '\t' <= c <= '\r'
  }

  /** The characters `.` does not match in a Java regular expression without DOTALL. */
  predicate IsLineTerminator(c: char)
  {
    c == '\n' || c == '\r' || c as int == 0x85 || c as int == 0x2028 || c as int == 0x2029
  }

  /** Character.isWhitespace: the space separators except the no-break ones, and the listed control characters. */
  predicate IsWhitespace(c: char)
  {
    var n := c as int;
    || 9 <= n <= 13
    || 0x1C <= n <= 0x20
    || n == 0x1680
    || 0x2000 <= n <= 0x2006
    || 0x2008 <= n <= 0x200A
    || n == 0x2028 || n == 0x2029 || n == 0x205F || n == 0x3000
  }

  predicate AllRegexSpace(s: string)
  {
    forall k :: 0 <= k < |s| ==> IsRegexSpace(s[k])
  }

  predicate AllWhitespace(s: string)
  {
    forall k :: 0 <= k < |s| ==> IsWhitespace(s[k])
  }

  /** The number of leading characters of `s` that belong to a character class. */
  function LeadingRun(s: string, inClass: char -> bool): (n: nat)
    ensures n <= |s|
  {
    if s != [] && inClass(s[0]) then 1 + LeadingRun(s[1..], inClass) else 0
  }

  /** The run consists of class members and stops at the first non-member. */
  lemma {:induction false} LeadingRunSpec(s: string, inClass: char -> bool)
    ensures var n := LeadingRun(s, inClass);
      && (forall k :: 0 <= k < n ==> inClass(s[k]))
      && (n < |s| ==> !inClass(s[n]))
  {
    if s != [] && inClass(s[0]) {
      LeadingRunSpec(s[1..], inClass);
      var n := LeadingRun(s, inClass);
      forall k | 0 <= k < n
        ensures inClass(s[k])
      {
        if k > 0 {
          assert s[k] == s[1..][k - 1];
        }
      }
    }
  }

  /** Any count with those two properties is the run. */
  lemma {:induction false} LeadingRunUnique(s: string, inClass: char -> bool, n: nat)
    requires n <= |s|
    requires forall k :: 0 <= k < n ==> inClass(s[k])
    requires n < |s| ==> !inClass(s[n])
    ensures LeadingRun(s, inClass) == n
  {
    if n > 0 {
      assert inClass(s[0]);
      forall k | 0 <= k < n - 1
        ensures inClass(s[1..][k])
      {
        assert s[1..][k] == s[k + 1];
      }
      if n - 1 < |s| - 1 {
        assert s[1..][n - 1] == s[n];
      }
      LeadingRunUnique(s[1..], inClass, n - 1);
    }
  }

  // ---------------------------------------------------------------------------
  // The four patterns
  // ---------------------------------------------------------------------------

  /** Every character of `s` belongs to a character class. */
  predicate AllIn(s: string, inClass: char -> bool)
  {
    s == [] || (inClass(s[0]) && AllIn(s[1..], inClass))
  }

  lemma {:induction false} AllInSpec(s: string, inClass: char -> bool)
    ensures AllIn(s, inClass) <==> forall k :: 0 <= k < |s| ==> inClass(s[k])
  {
    if s != [] {
      AllInSpec(s[1..], inClass);
      assert forall k :: 0 < k < |s| ==> s[k] == s[1..][k - 1];
    }
  }

  /** `s` with `prefix` removed from its front, or None when `s` does not start with it. */
  function StripPrefix(prefix: string, s: string): Option<string>
  {
    if prefix == [] then Some(s)
    else if s != [] && s[0] == prefix[0] then StripPrefix(prefix[1..], s[1..])
    else None
  }

  lemma {:induction false} StripPrefixSpec(prefix: string, s: string)
    ensures StripPrefix(prefix, s).Some? <==> prefix <= s
    ensures prefix <= s ==> StripPrefix(prefix, s) == Some(s[|prefix|..])
  {
    if prefix != [] && s != [] {
      StripPrefixSpec(prefix[1..], s[1..]);
      if prefix <= s {
        assert prefix[1..] <= s[1..];
      }
      if s[0] == prefix[0] && prefix[1..] <= s[1..] {
        assert prefix == [s[0]] + prefix[1..];
      }
    }
  }

  /** How many characters `\s*` consumes at the start of a line. */
  function SpaceRun(line: string): nat
  {
    LeadingRun(line, IsRegexSpace)
  }

  /**
   * `\s*` followed by a literal marker matches the whole line. A marker that
   * does not start with a space leaves `\s*` only one way to match: all of the
   * leading spaces.
   */
  predicate MatchesMarker(line: string, marker: string)
  {
    StripPrefix(marker, line[SpaceRun(line)..]) == Some([])
  }

  predicate IsBeginMarker(line: string)
  {
    MatchesMarker(line, BeginMarker)
  }

  predicate IsEndMarker(line: string)
  {
    MatchesMarker(line, EndMarker)
  }

  /** What `\s*` consumes is spaces. */
  lemma SpaceRunIsSpaces(line: string)
    ensures AllRegexSpace(line[..SpaceRun(line)])
  {
    LeadingRunSpec(line, IsRegexSpace);
    assert forall k :: 0 <= k < SpaceRun(line) ==> line[..SpaceRun(line)][k] == line[k];
  }

  /** A matching line is spaces followed by the marker, and spaces followed by the marker always match. */
  lemma MarkerMatchIff(line: string, marker: string)
    requires marker != [] && !IsRegexSpace(marker[0])
    ensures MatchesMarker(line, marker) <==> AllRegexSpace(line[..SpaceRun(line)]) && line == line[..SpaceRun(line)] + marker
  {
    SpaceRunIsSpaces(line);
    var n := SpaceRun(line);
    var rest := line[n..];
    StripPrefixSpec(marker, rest);
    assert line == line[..n] + rest;
    if line == line[..n] + marker {
      assert rest == marker;
      assert rest[|marker|..] == [];
    }
    if MatchesMarker(line, marker) {
      assert rest == marker + rest[|marker|..];
    }
  }

  /** Spaces followed by the marker always match. */
  lemma MarkerMatchesPadded(ws: string, marker: string)
    requires AllRegexSpace(ws)
    requires marker != [] && !IsRegexSpace(marker[0])
    ensures MatchesMarker(ws + marker, marker)
  {
    var line := ws + marker;
    assert line[|ws|] == marker[0];
    LeadingRunUnique(line, IsRegexSpace, |ws|);
    assert line[..|ws|] == ws;
    MarkerMatchIff(line, marker);
  }

  /** No line is both a begin marker and an end marker. */
  lemma EndIsNotBegin(line: string)
    ensures IsEndMarker(line) ==> !IsBeginMarker(line)
  {
    MarkerMatchIff(line, EndMarker);
    MarkerMatchIff(line, BeginMarker);
    assert |BeginMarker| != |EndMarker|;
  }

  /** What a capture group matches: `.*` (any characters but line terminators) or `[A-Z]+`. */
  datatype CaptureClass = AnyText | CapitalWord

  /** A pattern `^\s*<prefix>(<capture>)$`: leading spaces, a fixed prefix, then the captured value. */
  datatype ValuePattern = ValuePattern(prefix: string, capture: CaptureClass)

  const HeadingPattern: ValuePattern := ValuePattern(HeadingPrefix, AnyText)
  const TypePattern: ValuePattern := ValuePattern(TypePrefix, CapitalWord)

  predicate IsNotLineTerminator(c: char)
  {
    !IsLineTerminator(c)
  }

  predicate IsCapital(c: char)
  {
    'A' <= c <= 'Z'
  }

  /** What the capture group can match. */
  predicate ValidCapture(p: ValuePattern, v: string)
  {
    match p.capture
    case AnyText => AllIn(v, IsNotLineTerminator)
    case CapitalWord => |v| > 0 && AllIn(v, IsCapital)
  }

  /** Matcher.matches() on the whole line, then group(1). */
  function Capture(p: ValuePattern, line: string): Option<string>
  {
    match StripPrefix(p.prefix, line[SpaceRun(line)..])
    case None => None
    case Some(v) => if ValidCapture(p, v) then Some(v) else None
  }

  predicate Matches(p: ValuePattern, line: string)
  {
    Capture(p, line).Some?
  }

  /** Spaces, the prefix and a valid value always match and capture that value. */
  lemma CaptureOfPadded(p: ValuePattern, ws: string, v: string)
    requires p.prefix != [] && !IsRegexSpace(p.prefix[0])
    requires AllRegexSpace(ws)
    requires ValidCapture(p, v)
    ensures Capture(p, ws + p.prefix + v) == Some(v)
  {
    var line := ws + p.prefix + v;
    assert line[|ws|] == p.prefix[0];
    LeadingRunUnique(line, IsRegexSpace, |ws|);
    assert line[|ws|..] == p.prefix + v;
    StripPrefixSpec(p.prefix, line[|ws|..]);
  }

  /** A line that captures a value is spaces, the prefix and that value. */
  lemma CaptureDecomposes(p: ValuePattern, line: string)
    requires Matches(p, line)
    ensures AllRegexSpace(line[..SpaceRun(line)])
    ensures ValidCapture(p, Capture(p, line).value)
    ensures line == line[..SpaceRun(line)] + p.prefix + Capture(p, line).value
  {
    SpaceRunIsSpaces(line);
    var n := SpaceRun(line);
    var rest := line[n..];
    StripPrefixSpec(p.prefix, rest);
    var v := rest[|p.prefix|..];
    assert Capture(p, line) == Some(v);
    assert rest == p.prefix + v;
    assert line == line[..n] + rest;
  }

  /** No line is both a heading line and a type line. */
  lemma HeadingIsNotType(line: string)
    requires Matches(HeadingPattern, line)
    ensures !Matches(TypePattern, line)
  {
    var rest := line[SpaceRun(line)..];
    StripPrefixSpec(HeadingPrefix, rest);
    StripPrefixSpec(TypePrefix, rest);
  }

  // ---------------------------------------------------------------------------
  // Lists changed in place
  // ---------------------------------------------------------------------------

  /** A java.util.List<String> of source lines that the scan changes in place. */
  class LineList {
    var lines: seq<string>

    constructor (lines: seq<string>)
      ensures this.lines == lines
    {
      this.lines := lines;
    }
  }

  /**
   * A subList view: the window [offset, offset + size) of its backing list.
   * A removal through the view removes the line from the backing list.
   */
  class SubList {
    const backing: LineList
    const offset: nat
    var size: nat

    predicate Valid()
      reads this, backing
    {
      offset + size <= |backing.lines|
    }

    function Contents(): seq<string>
      reads this, backing
      requires Valid()
    {
      backing.lines[offset..offset + size]
    }

    /** The backing list's lines before the window. */
    ghost function Before(): seq<string>
      reads this, backing
      requires Valid()
    {
      backing.lines[..offset]
    }

    /** The backing list's lines after the window. */
    ghost function After(): seq<string>
      reads this, backing
      requires Valid()
    {
      backing.lines[offset + size..]
    }

    /** The backing list is the lines before the window, the window, and the lines after it. */
    lemma Whole()
      requires Valid()
      ensures backing.lines == Before() + Contents() + After()
    {
    }

    constructor (backing: LineList, from: nat, to: nat)
      requires from <= to <= |backing.lines|
      ensures this.backing == backing && offset == from && size == to - from
      ensures Valid() && Contents() == backing.lines[from..to]
      ensures Before() == backing.lines[..from] && After() == backing.lines[to..]
    {
      this.backing := backing;
      offset := from;
      size := to - from;
    }

    /** List.remove(int) on the view: the line goes from the window and from the backing list. */
    method Remove(i: nat)
      requires Valid() && i < size
      modifies this, backing
      ensures Valid()
      ensures Contents() == old(Contents()[..i] + Contents()[i + 1..])
      ensures Before() == old(Before()) && After() == old(After())
    {
      ghost var before := backing.lines;
      ghost var window := Contents();
      ghost var kept := window[..i] + window[i + 1..];
      ghost var tail := before[offset + size..];
      assert before[..offset + i] == before[..offset] + window[..i];
      assert before[offset + i + 1..] == window[i + 1..] + tail;
      backing.lines := backing.lines[..offset + i] + backing.lines[offset + i + 1..];
      size := size - 1;
      assert backing.lines == before[..offset] + kept + tail;
      assert Contents() == kept;
    }
  }

  // ---------------------------------------------------------------------------
  // Pulling a value line out of a block
  // ---------------------------------------------------------------------------

  /** The value captured (if any) and the lines left after its line is removed. */
  datatype Extraction = Extraction(value: Option<string>, rest: seq<string>)

  /** parseValueFromPattern on values: capture from the first matching line and remove that line. */
  function ValueFromPattern(lines: seq<string>, p: ValuePattern): (r: Extraction)
    ensures |lines| - 1 <= |r.rest| <= |lines|
    ensures r.value.Some? ==> ValidCapture(p, r.value.value)
  {
    if lines == [] then Extraction(None, [])
    else if Matches(p, lines[0]) then Extraction(Capture(p, lines[0]), lines[1..])
    else
      var r := ValueFromPattern(lines[1..], p);
      Extraction(r.value, [lines[0]] + r.rest)
  }

  lemma {:induction false} ValueFromPatternFirst(lines: seq<string>, p: ValuePattern, i: nat)
    requires i < |lines| && Matches(p, lines[i])
    requires forall j :: 0 <= j < i ==> !Matches(p, lines[j])
    ensures ValueFromPattern(lines, p) == Extraction(Capture(p, lines[i]), lines[..i] + lines[i + 1..])
  {
    if i > 0 {
      assert !Matches(p, lines[0]);
      forall j | 0 <= j < i - 1
        ensures !Matches(p, lines[1..][j])
      {
        assert lines[1..][j] == lines[j + 1];
      }
      ValueFromPatternFirst(lines[1..], p, i - 1);
      assert lines[..i] == [lines[0]] + lines[1..][..i - 1];
      assert lines[i + 1..] == lines[1..][i..];
    }
  }

  lemma {:induction false} ValueFromPatternNone(lines: seq<string>, p: ValuePattern)
    ensures ValueFromPattern(lines, p).value.None? <==> forall j :: 0 <= j < |lines| ==> !Matches(p, lines[j])
    ensures ValueFromPattern(lines, p).value.None? ==> ValueFromPattern(lines, p).rest == lines
  {
    if lines != [] && !Matches(p, lines[0]) {
      ValueFromPatternNone(lines[1..], p);
      assert forall j :: 0 < j < |lines| ==> lines[j] == lines[1..][j - 1];
      assert lines == [lines[0]] + lines[1..];
    }
  }

  /**
   * On a match, the value is the capture of the first matching line and exactly
   * that line is removed, the others keeping their order; with no match, the
   * value is missing and the lines are untouched.
   */
  lemma ValueFromPatternSpec(lines: seq<string>, p: ValuePattern, i: nat)
    ensures var r := ValueFromPattern(lines, p);
      && (i < |lines| && Matches(p, lines[i]) && (forall j :: 0 <= j < i ==> !Matches(p, lines[j]))
          ==> r.value == Capture(p, lines[i]) && r.rest == lines[..i] + lines[i + 1..])
      && ((forall j :: 0 <= j < |lines| ==> !Matches(p, lines[j])) ==> r == Extraction(None, lines))
      && (r.value.Some? <==> exists j :: 0 <= j < |lines| && Matches(p, lines[j]))
  {
    if i < |lines| && Matches(p, lines[i]) && (forall j :: 0 <= j < i ==> !Matches(p, lines[j])) {
      ValueFromPatternFirst(lines, p, i);
    }
    ValueFromPatternNone(lines, p);
  }

  /** The lines left are lines of the input. */
  lemma {:induction false} ValueFromPatternKeepsLines(lines: seq<string>, p: ValuePattern)
    ensures multiset(ValueFromPattern(lines, p).rest) <= multiset(lines)
  {
    if lines != [] {
      ValueFromPatternKeepsLines(lines[1..], p);
      assert lines == [lines[0]] + lines[1..];
    }
  }

  /** Removing a line that does not match `q` does not change what a search for `q` captures. */
  lemma {:induction false} RemovingOtherLineKeepsValue(lines: seq<string>, k: nat, q: ValuePattern)
    requires k < |lines| && !Matches(q, lines[k])
    ensures ValueFromPattern(lines[..k] + lines[k + 1..], q).value == ValueFromPattern(lines, q).value
  {
    var shorter := lines[..k] + lines[k + 1..];
    if k == 0 {
      assert shorter == lines[1..];
    } else {
      var tail := lines[1..];
      assert shorter == [lines[0]] + (tail[..k - 1] + tail[k..]);
      assert shorter[0] == lines[0] && shorter[1..] == tail[..k - 1] + tail[k..];
      RemovingOtherLineKeepsValue(tail, k - 1, q);
    }
  }

  /**
   * Removing the first line matching `p` does not change what a search for `q`
   * captures, when no line of the block matches both.
   */
  lemma {:induction false} RemovingFirstMatchKeepsOtherValue(body: seq<string>, p: ValuePattern, q: ValuePattern)
    requires forall j :: 0 <= j < |body| && Matches(p, body[j]) ==> !Matches(q, body[j])
    ensures ValueFromPattern(ValueFromPattern(body, p).rest, q).value == ValueFromPattern(body, q).value
  {
    if body != [] && !Matches(p, body[0]) {
      assert forall j :: 0 <= j < |body| - 1 ==> body[1..][j] == body[j + 1];
      RemovingFirstMatchKeepsOtherValue(body[1..], p, q);
      var rest := ValueFromPattern(body[1..], p).rest;
      assert ([body[0]] + rest)[0] == body[0] && ([body[0]] + rest)[1..] == rest;
    }
  }

  /**
   * The type is searched for after the heading line has been removed, but
   * since a heading line is never a type line, the type found is the one a
   * search of the whole block would find.
   */
  lemma TypeUnaffectedByHeading(body: seq<string>)
    ensures ValueFromPattern(ValueFromPattern(body, HeadingPattern).rest, TypePattern).value
         == ValueFromPattern(body, TypePattern).value
  {
    forall j | 0 <= j < |body| && Matches(HeadingPattern, body[j])
      ensures !Matches(TypePattern, body[j])
    {
      HeadingIsNotType(body[j]);
    }
    RemovingFirstMatchKeepsOtherValue(body, HeadingPattern, TypePattern);
  }

  method ParseValueFromPattern(view: SubList, p: ValuePattern) returns (value: Option<string>)
    requires view.Valid()
    modifies view, view.backing
    ensures view.Valid()
    ensures Extraction(value, view.Contents()) == ValueFromPattern(old(view.Contents()), p)
    ensures view.Before() == old(view.Before()) && view.After() == old(view.After())
  {
    ghost var body := view.Contents();
    var i := 0;
    while i < view.size
      invariant i <= view.size
      invariant view.size == old(view.size) && view.backing.lines == old(view.backing.lines)
      invariant forall j :: 0 <= j < i ==> !Matches(p, body[j])
    {
      var captured := Capture(p, view.backing.lines[view.offset + i]);
      assert view.backing.lines[view.offset + i] == body[i];
      if captured.Some? {
        ValueFromPatternFirst(body, p, i);
        view.Remove(i);
        return captured;
      }
      i := i + 1;
    }
    ValueFromPatternNone(body, p);
    return None;
  }

  // ---------------------------------------------------------------------------
  // Indentation
  // ---------------------------------------------------------------------------

  /** The number of leading whitespace characters of a line. */
  function Indent(line: string): nat
  {
    LeadingRun(line, IsWhitespace)
  }

  method GetWhitespaceCountAtStart(line: string) returns (indent: nat)
    ensures indent <= |line|
    ensures forall k :: 0 <= k < indent ==> IsWhitespace(line[k])
    ensures indent < |line| ==> !IsWhitespace(line[indent])
    ensures indent == Indent(line)
  {
    indent := 0;
    var i := 0;
    while i < |line|
      invariant i <= |line| && indent == i
      invariant forall k :: 0 <= k < i ==> IsWhitespace(line[k])
    {
      if !IsWhitespace(line[i]) {
        LeadingRunUnique(line, IsWhitespace, indent);
        return indent;
      }
      indent := indent + 1;
      i := i + 1;
    }
    LeadingRunUnique(line, IsWhitespace, indent);
  }

  /** The smallest indent over the non-empty lines, Integer.MAX_VALUE when there is none. */
  function MinIndent(lines: seq<string>): nat
  {
    if lines == [] then IntegerMaxValue
    else
      var m := MinIndent(lines[..|lines| - 1]);
      var last := lines[|lines| - 1];
      if last != [] && Indent(last) < m then Indent(last) else m
  }

  lemma {:induction false} MinIndentIsLowerBound(lines: seq<string>)
    ensures forall j :: 0 <= j < |lines| && lines[j] != [] ==> MinIndent(lines) <= Indent(lines[j])
  {
    if lines != [] {
      var front := lines[..|lines| - 1];
      MinIndentIsLowerBound(front);
      assert forall j :: 0 <= j < |front| ==> front[j] == lines[j];
    }
  }

  /**
   * Some non-empty line has exactly the minimum indent; with no non-empty line
   * the minimum stays Integer.MAX_VALUE. Java strings are at most
   * Integer.MAX_VALUE characters long.
   */
  lemma {:induction false} MinIndentIsAttained(lines: seq<string>)
    requires forall j :: 0 <= j < |lines| ==> |lines[j]| <= IntegerMaxValue
    ensures (exists j :: 0 <= j < |lines| && lines[j] != [])
        ==> exists j :: 0 <= j < |lines| && lines[j] != [] && Indent(lines[j]) == MinIndent(lines)
    ensures (forall j :: 0 <= j < |lines| ==> lines[j] == []) ==> MinIndent(lines) == IntegerMaxValue
  {
    if lines != [] {
      var front := lines[..|lines| - 1];
      var last := lines[|lines| - 1];
      assert forall j :: 0 <= j < |front| ==> front[j] == lines[j];
      MinIndentIsAttained(front);
      if last != [] && Indent(last) <= MinIndent(front) {
        assert lines[|lines| - 1] != [] && Indent(lines[|lines| - 1]) == MinIndent(lines);
      } else if exists j :: 0 <= j < |front| && front[j] != [] {
        var j :| 0 <= j < |front| && front[j] != [] && Indent(front[j]) == MinIndent(front);
        assert lines[j] != [] && Indent(lines[j]) == MinIndent(lines);
      } else {
        assert last == [];
        assert forall j :: 0 <= j < |lines| ==> lines[j] == [] by {
          assert forall j :: 0 <= j < |front| ==> front[j] == [];
        }
      }
    }
  }

  /** Every non-empty line is at least m characters long. */
  predicate LongEnough(lines: seq<string>, m: nat)
  {
    forall j :: 0 <= j < |lines| && lines[j] != [] ==> m <= |lines[j]|
  }

  /** Each non-empty line with its first m characters cut off; empty lines stay "". */
  function TrimLines(lines: seq<string>, m: nat): (r: seq<string>)
    requires LongEnough(lines, m)
    ensures |r| == |lines|
  {
    if lines == [] then []
    else
      var last := lines[|lines| - 1];
      assert LongEnough(lines[..|lines| - 1], m) by {
        assert forall j :: 0 <= j < |lines| - 1 ==> lines[..|lines| - 1][j] == lines[j];
      }
      TrimLines(lines[..|lines| - 1], m) + [if last == [] then [] else last[m..]]
  }

  lemma {:induction false} TrimLinesAt(lines: seq<string>, m: nat, j: nat)
    requires LongEnough(lines, m) && j < |lines|
    ensures TrimLines(lines, m)[j] == if lines[j] == [] then [] else lines[j][m..]
  {
    if j < |lines| - 1 {
      var front := lines[..|lines| - 1];
      assert front[j] == lines[j];
      assert forall k :: 0 <= k < |front| ==> front[k] == lines[k];
      TrimLinesAt(front, m, j);
    }
  }

  /** trimWhitespaceAtStart on values. */
  function TrimIndent(lines: seq<string>): (r: seq<string>)
    ensures |r| == |lines|
  {
    MinIndentIsLowerBound(lines);
    TrimLines(lines, MinIndent(lines))
  }

  /**
   * Every non-empty line loses exactly MinIndent leading characters, all of
   * them whitespace; empty lines become "".
   */
  lemma TrimIndentStripsCommonIndent(lines: seq<string>)
    ensures var r := TrimIndent(lines); var m := MinIndent(lines);
      && |r| == |lines|
      && (forall j :: 0 <= j < |lines| && lines[j] == [] ==> r[j] == [])
      && (forall j :: 0 <= j < |lines| && lines[j] != [] ==>
            && |lines[j]| == m + |r[j]|
            && AllWhitespace(lines[j][..m])
            && lines[j] == lines[j][..m] + r[j])
  {
    var r := TrimIndent(lines);
    var m := MinIndent(lines);
    MinIndentIsLowerBound(lines);
    forall j | 0 <= j < |lines|
      ensures r[j] == if lines[j] == [] then [] else lines[j][m..]
      ensures lines[j] != [] ==> AllWhitespace(lines[j][..m])
    {
      TrimLinesAt(lines, m, j);
      LeadingRunSpec(lines[j], IsWhitespace);
    }
  }

  /**
   * When some line is non-empty, some non-empty line keeps no leading
   * whitespace after trimming: the one with the minimum indent is either cut
   * to "" (it held only whitespace) or now starts with a non-whitespace
   * character.
   */
  lemma TrimIndentLeavesOneLineFlush(lines: seq<string>)
    requires forall j :: 0 <= j < |lines| ==> |lines[j]| <= IntegerMaxValue
    requires exists j :: 0 <= j < |lines| && lines[j] != []
    ensures var r := TrimIndent(lines);
      exists j :: 0 <= j < |lines| && lines[j] != [] && (r[j] == [] || !IsWhitespace(r[j][0]))
  {
    MinIndentIsAttained(lines);
    var j :| 0 <= j < |lines| && lines[j] != [] && Indent(lines[j]) == MinIndent(lines);
    LeadingRunSpec(lines[j], IsWhitespace);
    MinIndentIsLowerBound(lines);
    TrimLinesAt(lines, MinIndent(lines), j);
    var r := TrimIndent(lines);
    if r[j] != [] {
      assert r[j][0] == lines[j][MinIndent(lines)];
    }
  }

  /** When no non-empty line holds only whitespace, some trimmed line starts with non-whitespace. */
  lemma TrimIndentFlushWithoutBlankLines(lines: seq<string>)
    requires forall j :: 0 <= j < |lines| ==> |lines[j]| <= IntegerMaxValue
    requires exists j :: 0 <= j < |lines| && lines[j] != []
    requires forall j :: 0 <= j < |lines| && lines[j] != [] ==> Indent(lines[j]) < |lines[j]|
    ensures var r := TrimIndent(lines);
      exists j :: 0 <= j < |lines| && r[j] != [] && !IsWhitespace(r[j][0])
  {
    MinIndentIsAttained(lines);
    var j :| 0 <= j < |lines| && lines[j] != [] && Indent(lines[j]) == MinIndent(lines);
    LeadingRunSpec(lines[j], IsWhitespace);
    MinIndentIsLowerBound(lines);
    TrimLinesAt(lines, MinIndent(lines), j);
    var r := TrimIndent(lines);
    assert r[j][0] == lines[j][MinIndent(lines)];
  }

  method TrimWhitespaceAtStart(sourceLines: seq<string>) returns (trimmed: seq<string>)
    ensures trimmed == TrimIndent(sourceLines)
  {
    var minIndent := IntegerMaxValue;
    var j := 0;
    while j < |sourceLines|
      invariant j <= |sourceLines|
      invariant minIndent == MinIndent(sourceLines[..j])
    {
      var line := sourceLines[j];
      assert sourceLines[..j + 1][..j] == sourceLines[..j];
      if line != [] {
        var indent := GetWhitespaceCountAtStart(line);
        if indent < minIndent {
          minIndent := indent;
        }
      }
      j := j + 1;
    }
    assert sourceLines[..j] == sourceLines;
    MinIndentIsLowerBound(sourceLines);
    trimmed := [];
    j := 0;
    while j < |sourceLines|
      invariant j <= |sourceLines|
      invariant LongEnough(sourceLines[..j], minIndent)
      invariant trimmed == TrimLines(sourceLines[..j], minIndent)
    {
      var line := sourceLines[j];
      assert sourceLines[..j + 1][..j] == sourceLines[..j];
      if line == [] {
        trimmed := trimmed + [""];
      } else {
        trimmed := trimmed + [line[minIndent..]];
      }
      j := j + 1;
    }
    assert sourceLines[..j] == sourceLines;
  }

  // ---------------------------------------------------------------------------
  // Joining lines
  // ---------------------------------------------------------------------------

  /** String.join("\n", lines). */
  function JoinLines(lines: seq<string>): string
  {
    if lines == [] then ""
    else if |lines| == 1 then lines[0]
    else lines[0] + "\n" + JoinLines(lines[1..])
  }

  function NewlineIndex(s: string): (k: nat)
    requires '\n' in s
    ensures k < |s| && s[k] == '\n' && '\n' !in s[..k]
  {
    if s[0] == '\n' then 0
    else
      assert '\n' in s[1..];
      var k := NewlineIndex(s[1..]);
      assert s[..k + 1] == [s[0]] + s[1..][..k];
      k + 1
  }

  /** The pieces of a text between "\n" characters, the independent inverse of JoinLines. */
  function SplitLines(s: string): (r: seq<string>)
    ensures r != []
    decreases |s|
  {
    if '\n' in s then
      var k := NewlineIndex(s);
      [s[..k]] + SplitLines(s[k + 1..])
    else [s]
  }

  /** The first "\n" after a line without one is the one that ends it. */
  lemma {:induction false} NewlineIndexAfterLine(a: string, t: string)
    requires '\n' !in a
    ensures NewlineIndex(a + "\n" + t) == |a|
  {
    var s := a + "\n" + t;
    if a != [] {
      assert s[0] == a[0];
      assert s[1..] == a[1..] + "\n" + t;
      NewlineIndexAfterLine(a[1..], t);
    }
  }

  /** Joining lines that contain no "\n" and splitting again gives the lines back. */
  lemma {:induction false} SplitJoin(lines: seq<string>)
    requires lines != []
    requires forall l <- lines :: '\n' !in l
    ensures SplitLines(JoinLines(lines)) == lines
  {
    if |lines| > 1 {
      var a := lines[0];
      var t := JoinLines(lines[1..]);
      var s := JoinLines(lines);
      assert s == a + "\n" + t;
      NewlineIndexAfterLine(a, t);
      assert s[|a|] == '\n';
      assert s[..|a|] == a;
      assert s[|a| + 1..] == t;
      SplitJoin(lines[1..]);
    }
  }

  /** Splitting any text and joining again gives the text back. */
  lemma {:induction false} JoinSplit(s: string)
    ensures JoinLines(SplitLines(s)) == s
    decreases |s|
  {
    if '\n' in s {
      var k := NewlineIndex(s);
      var tail := SplitLines(s[k + 1..]);
      JoinSplit(s[k + 1..]);
      var parts := SplitLines(s);
      assert parts == [s[..k]] + tail;
      assert parts[0] == s[..k] && parts[1..] == tail;
      assert JoinLines(parts) == s[..k] + "\n" + JoinLines(tail);
      assert s == s[..k] + "\n" + s[k + 1..];
    }
  }

  // ---------------------------------------------------------------------------
  // One example
  // ---------------------------------------------------------------------------

  /** The example made from a block, and the block's lines after the heading and type lines were removed. */
  datatype ExampleParse = ExampleParse(example: SourceCodeExample, rest: seq<string>)

  /** parseSourceCodeExample on values. */
  function ParseExample(body: seq<string>): (r: ExampleParse)
    ensures |r.rest| <= |body|
  {
    var heading := ValueFromPattern(body, HeadingPattern);
    var sourceType := ValueFromPattern(heading.rest, TypePattern);
    var typeName := if sourceType.value.Some? then sourceType.value.value else UndefinedType;
    ExampleParse(SourceCodeExample(heading.value, typeName, JoinLines(TrimIndent(sourceType.rest))), sourceType.rest)
  }

  /** The type is UNDEFINED or a word of capitals, the only names the type pattern captures. */
  lemma ParseExampleTypeIsValid(body: seq<string>)
    ensures ParseExample(body).example.sourceType == UndefinedType
      || ValidCapture(TypePattern, ParseExample(body).example.sourceType)
  {
  }

  /**
   * The heading is the capture of the first heading line, or missing; the type
   * is the capture of the first type line, or UNDEFINED; each is found
   * exactly when the block has such a line.
   */
  lemma ParseExampleValues(body: seq<string>)
    ensures var e := ParseExample(body).example;
      && e.heading == ValueFromPattern(body, HeadingPattern).value
      && (e.heading.Some? <==> exists j :: 0 <= j < |body| && Matches(HeadingPattern, body[j]))
      && ((forall j :: 0 <= j < |body| ==> !Matches(TypePattern, body[j])) ==> e.sourceType == UndefinedType)
      && (forall i :: 0 <= i < |body| && Matches(TypePattern, body[i]) && (forall j :: 0 <= j < i ==> !Matches(TypePattern, body[j]))
            ==> e.sourceType == Capture(TypePattern, body[i]).value)
  {
    ValueFromPatternSpec(body, HeadingPattern, 0);
    TypeUnaffectedByHeading(body);
    ValueFromPatternNone(body, TypePattern);
    forall i | 0 <= i < |body| && Matches(TypePattern, body[i]) && (forall j :: 0 <= j < i ==> !Matches(TypePattern, body[j]))
      ensures ParseExample(body).example.sourceType == Capture(TypePattern, body[i]).value
    {
      ValueFromPatternSpec(body, TypePattern, i);
    }
  }

  /** Lines holding no "\n" keep none after trimming, so their join splits back into them. */
  lemma TrimmedLinesSplitBack(lines: seq<string>)
    requires lines != []
    requires forall l <- lines :: '\n' !in l
    ensures SplitLines(JoinLines(TrimIndent(lines))) == TrimIndent(lines)
  {
    var t := TrimIndent(lines);
    TrimIndentStripsCommonIndent(lines);
    forall l | l in t
      ensures '\n' !in l
    {
      var j :| 0 <= j < |t| && t[j] == l;
      var line := lines[j];
      assert line in lines;
      if line != [] {
        var m := MinIndent(lines);
        assert line == line[..m] + l;
        assert forall k :: 0 <= k < |l| ==> l[k] == line[m + k];
      }
    }
    SplitJoin(t);
  }

  /**
   * When the block's lines hold no "\n" (they come from a line reader) and
   * some line is left, the source text splits back into exactly the trimmed
   * remaining lines.
   */
  lemma SourceCodeSplitsIntoTrimmedLines(body: seq<string>)
    requires forall l <- body :: '\n' !in l
    requires ParseExample(body).rest != []
    ensures SplitLines(ParseExample(body).example.sourceCode) == TrimIndent(ParseExample(body).rest)
  {
    var heading := ValueFromPattern(body, HeadingPattern);
    var rest := ValueFromPattern(heading.rest, TypePattern).rest;
    assert ParseExample(body).rest == rest;
    assert forall l <- rest :: '\n' !in l by {
      ValueFromPatternKeepsLines(body, HeadingPattern);
      ValueFromPatternKeepsLines(heading.rest, TypePattern);
      assert forall l <- heading.rest :: l in multiset(body);
      assert forall l <- rest :: l in multiset(heading.rest);
    }
    TrimmedLinesSplitBack(rest);
  }

  method ParseSourceCodeExample(view: SubList) returns (example: SourceCodeExample)
    requires view.Valid()
    modifies view, view.backing
    ensures view.Valid()
    ensures example == ParseExample(old(view.Contents())).example
    ensures view.Contents() == ParseExample(old(view.Contents())).rest
    ensures view.Before() == old(view.Before()) && view.After() == old(view.After())
  {
    var heading := ParseValueFromPattern(view, HeadingPattern);
    var typeName := ParseValueFromPattern(view, TypePattern);
    var sourceType := if typeName.Some? then typeName.value else UndefinedType;
    var trimmed := TrimWhitespaceAtStart(view.Contents());
    example := SourceCodeExample(heading, sourceType, JoinLines(trimmed));
  }

  // ---------------------------------------------------------------------------
  // The scan over a file
  // ---------------------------------------------------------------------------

  /** What the scan sees in a line: a begin marker, else an end marker, else neither. */
  datatype LineKind = BeginLine | EndLine | OtherLine

  /** The source's classification: the begin pattern is tried first, then the end pattern. */
  function KindOf(line: string): LineKind
  {
    if IsBeginMarker(line) then BeginLine
    else if IsEndMarker(line) then EndLine
    else OtherLine
  }

  /** A line is classified as a begin (end) line exactly when it matches the begin (end) pattern. */
  lemma KindOfMatches(line: string)
    ensures KindOf(line) == BeginLine <==> IsBeginMarker(line)
    ensures KindOf(line) == EndLine <==> IsEndMarker(line)
    ensures KindOf(line) == OtherLine <==> !IsBeginMarker(line) && !IsEndMarker(line)
  {
    EndIsNotBegin(line);
  }

  /**
   * A classification of lines. The scan below is stated for any
   * classification and any block parser; the source's scan is the one with
   * KindOf and ParseExample.
   */
  type Classifier = string -> LineKind

  /** The scan's startIndex and endIndex; -1 means not set. */
  datatype Markers = Markers(start: int, end: int)

  const Unset: Markers := Markers(-1, -1)

  /** Record a begin or an end marker found at line i. */
  function Mark(k: LineKind, i: nat, m: Markers): Markers
  {
    match k
    case BeginLine => m.(start := i)
    case EndLine => m.(end := i)
    case OtherLine => m
  }

  /** Both markers set, with at least one line between them. */
  predicate Ready(m: Markers)
  {
    m.start != -1 && m.end != -1 && m.start + 1 < m.end
  }

  /** Markers that point to lines already scanned. */
  predicate WellMarked(lines: seq<string>, i: nat, m: Markers)
  {
    -1 <= m.start < |lines| && m.start < i && -1 <= m.end < |lines| && m.end < i
  }

  /** The examples found and the state of the (changed) line list at the end. */
  datatype Scanned = Scanned(examples: seq<SourceCodeExample>, lines: seq<string>)

  /** What is done with one block's lines: the example made from them, and the lines left of the block. */
  type BlockParser = seq<string> -> ExampleParse

  /** A block parser that never adds lines to a block. */
  ghost predicate Shrinks(parse: BlockParser)
  {
    forall body :: |parse(body).rest| <= |body|
  }

  /**
   * parseSourceCodeExamples as written, from line i on. The block's lines that
   * `parse` removes are removed from the scanned list itself (they go through
   * a subList view), while the scan index goes on from where it was.
   */
  function ScanInPlaceFrom(lines: seq<string>, i: nat, m: Markers, kind: Classifier, parse: BlockParser): Scanned
    requires WellMarked(lines, i, m) && Shrinks(parse)
    decreases |lines| - i
  {
    if i >= |lines| then Scanned([], lines)
    else
      var m' := Mark(kind(lines[i]), i, m);
      if Ready(m') then
        var parsed := parse(lines[m'.start + 1..m'.end]);
        var shortened := lines[..m'.start + 1] + parsed.rest + lines[m'.end..];
        var r := ScanInPlaceFrom(shortened, i + 1, Unset, kind, parse);
        Scanned([parsed.example] + r.examples, r.lines)
      else ScanInPlaceFrom(lines, i + 1, m', kind, parse)
  }

  /** parseSourceCodeExamples as written: what it returns, and what it leaves of the list. */
  function ScanInPlace(lines: seq<string>): Scanned
  {
    ScanInPlaceFrom(lines, 0, Unset, KindOf, ParseExample)
  }

  /** One emitted block: parse the lines strictly between the two markers through a subList view. */
  method ParseBlock(sourceLines: LineList, startIndex: nat, endIndex: nat) returns (example: SourceCodeExample)
    requires startIndex + 1 <= endIndex <= |sourceLines.lines|
    modifies sourceLines
    ensures example == ParseExample(old(sourceLines.lines[startIndex + 1..endIndex])).example
    ensures sourceLines.lines == old(sourceLines.lines[..startIndex + 1])
      + ParseExample(old(sourceLines.lines[startIndex + 1..endIndex])).rest + old(sourceLines.lines[endIndex..])
    ensures |sourceLines.lines| <= old(|sourceLines.lines|)
  {
    ghost var before, body, after := sourceLines.lines[..startIndex + 1], sourceLines.lines[startIndex + 1..endIndex], sourceLines.lines[endIndex..];
    var view := new SubList(sourceLines, startIndex + 1, endIndex);
    example := ParseSourceCodeExample(view);
    view.Whole();
    assert view.Before() == before && view.After() == after;
    assert view.Contents() == ParseExample(body).rest;
  }

  /** The scan's result when `found` are the examples already collected and the scan goes on from line i. */
  function Resume(found: seq<SourceCodeExample>, lines: seq<string>, i: nat, m: Markers, kind: Classifier, parse: BlockParser): Scanned
    requires WellMarked(lines, i, m) && Shrinks(parse)
  {
    Scanned(found + ScanInPlaceFrom(lines, i, m, kind, parse).examples, ScanInPlaceFrom(lines, i, m, kind, parse).lines)
  }

  /** One step of the scan where the markers become ready: the block between s and e is parsed and removed. */
  lemma ResumeEmitStep(found: seq<SourceCodeExample>, lines: seq<string>, i: nat, m: Markers, kind: Classifier, parse: BlockParser,
                       s: nat, e: nat)
    requires i < |lines| && WellMarked(lines, i, m) && Shrinks(parse)
    requires Mark(kind(lines[i]), i, m) == Markers(s, e) && s + 1 < e
    ensures WellMarked(lines[..s + 1] + parse(lines[s + 1..e]).rest + lines[e..], i + 1, Unset)
    ensures Resume(found, lines, i, m, kind, parse)
      == Resume(found + [parse(lines[s + 1..e]).example], lines[..s + 1] + parse(lines[s + 1..e]).rest + lines[e..], i + 1, Unset, kind, parse)
  {
    var after := ScanInPlaceFrom(lines[..s + 1] + parse(lines[s + 1..e]).rest + lines[e..], i + 1, Unset, kind, parse);
    assert ScanInPlaceFrom(lines, i, m, kind, parse) == Scanned([parse(lines[s + 1..e]).example] + after.examples, after.lines);
    assert found + ([parse(lines[s + 1..e]).example] + after.examples) == (found + [parse(lines[s + 1..e]).example]) + after.examples;
  }

  /** One step of the scan where no block is ready: only the markers change. */
  lemma ResumeSkipStep(found: seq<SourceCodeExample>, lines: seq<string>, i: nat, m: Markers, kind: Classifier, parse: BlockParser)
    requires i < |lines| && WellMarked(lines, i, m) && Shrinks(parse)
    requires !Ready(Mark(kind(lines[i]), i, m))
    ensures WellMarked(lines, i + 1, Mark(kind(lines[i]), i, m))
    ensures Resume(found, lines, i, m, kind, parse) == Resume(found, lines, i + 1, Mark(kind(lines[i]), i, m), kind, parse)
  {
  }

  method ParseSourceCodeExamples(sourceLines: LineList) returns (examples: seq<SourceCodeExample>)
    modifies sourceLines
    ensures examples == ScanInPlace(old(sourceLines.lines)).examples
    ensures sourceLines.lines == ScanInPlace(old(sourceLines.lines)).lines
  {
    ghost var result := ScanInPlace(sourceLines.lines);
    examples := [];
    var startIndex: int := -1;
    var endIndex: int := -1;
    var i: nat := 0;
    assert Resume([], sourceLines.lines, 0, Unset, KindOf, ParseExample) == result;
    while i < |sourceLines.lines|
      invariant WellMarked(sourceLines.lines, i, Markers(startIndex, endIndex))
      invariant Resume(examples, sourceLines.lines, i, Markers(startIndex, endIndex), KindOf, ParseExample) == result
      decreases |sourceLines.lines| - i
    {
      ghost var lines := sourceLines.lines;
      ghost var m := Markers(startIndex, endIndex);
      var line := sourceLines.lines[i];
      var k := KindOf(line);
      if k == BeginLine {
        startIndex := i;
      } else if k == EndLine {
        endIndex := i;
      }
      assert Markers(startIndex, endIndex) == Mark(KindOf(lines[i]), i, m);
      if startIndex != -1 && endIndex != -1 && startIndex + 1 < endIndex {
        ResumeEmitStep(examples, lines, i, m, KindOf, ParseExample, startIndex, endIndex);
        var example := ParseBlock(sourceLines, startIndex, endIndex);
        examples := examples + [example];
        startIndex := -1;
        endIndex := -1;
      } else {
        ResumeSkipStep(examples, lines, i, m, KindOf, ParseExample);
      }
      i := i + 1;
    }
  }

  // ---------------------------------------------------------------------------
  // The scan with each block's body taken as a copy
  // ---------------------------------------------------------------------------

  /** The begin and end marker lines of one emitted block. */
  datatype Block = Block(start: nat, end: nat)

  /** The blocks the scan emits from line i on when the scanned list is never changed. */
  function BlocksFrom(lines: seq<string>, i: nat, m: Markers, kind: Classifier): seq<Block>
    requires i <= |lines| && m.start >= -1 && m.end >= -1
    decreases |lines| - i
  {
    if i == |lines| then []
    else
      var m' := Mark(kind(lines[i]), i, m);
      if Ready(m') then [Block(m'.start, m'.end)] + BlocksFrom(lines, i + 1, Unset, kind)
      else BlocksFrom(lines, i + 1, m', kind)
  }

  function Blocks(lines: seq<string>): seq<Block>
  {
    BlocksFrom(lines, 0, Unset, KindOf)
  }

  /** Markers the scan can be in before line i: a set start points to the last begin line. */
  predicate Tracked(lines: seq<string>, i: nat, m: Markers, kind: Classifier)
  {
    && i <= |lines|
    && -1 <= m.start < i && -1 <= m.end < i
    && !Ready(m)
    && (m.start != -1 ==> kind(lines[m.start]) == BeginLine && forall j :: m.start < j < i ==> kind(lines[j]) != BeginLine)
  }

  /** The block lies inside the list, with a begin line, an end line and no begin line in between. */
  predicate WellFormedBlock(lines: seq<string>, b: Block, kind: Classifier)
  {
    && b.start + 1 < b.end < |lines|
    && kind(lines[b.start]) == BeginLine
    && kind(lines[b.end]) == EndLine
    && forall j :: b.start < j < b.end ==> kind(lines[j]) != BeginLine
  }

  /** The first line a block from line i on with markers m can start at. */
  function FirstStart(i: nat, m: Markers): int
  {
    if m.start == -1 then i else m.start
  }

  lemma {:induction false} BlocksFromWellFormed(lines: seq<string>, i: nat, m: Markers, kind: Classifier)
    requires Tracked(lines, i, m, kind)
    ensures forall k :: 0 <= k < |BlocksFrom(lines, i, m, kind)| ==>
      && WellFormedBlock(lines, BlocksFrom(lines, i, m, kind)[k], kind)
      && i <= BlocksFrom(lines, i, m, kind)[k].end
      && FirstStart(i, m) <= BlocksFrom(lines, i, m, kind)[k].start
    ensures forall k :: 0 <= k < |BlocksFrom(lines, i, m, kind)| - 1 ==>
      BlocksFrom(lines, i, m, kind)[k].end < BlocksFrom(lines, i, m, kind)[k + 1].start
    decreases |lines| - i
  {
    if i < |lines| {
      var m' := Mark(kind(lines[i]), i, m);
      if Ready(m') {
        BlocksFromWellFormed(lines, i + 1, Unset, kind);
      } else {
        BlocksFromWellFormed(lines, i + 1, m', kind);
      }
    }
  }

  /**
   * Every emitted block's body lies strictly between a begin line and the end
   * line after it, with no other begin line in between; blocks come out in
   * source order without overlapping.
   */
  lemma BlocksWellFormed(lines: seq<string>)
    ensures forall k :: 0 <= k < |Blocks(lines)| ==> WellFormedBlock(lines, Blocks(lines)[k], KindOf)
    ensures forall k :: 0 <= k < |Blocks(lines)| - 1 ==> Blocks(lines)[k].end < Blocks(lines)[k + 1].start
  {
    BlocksFromWellFormed(lines, 0, Unset, KindOf);
  }

  /** The number of end marker lines from line i on. */
  function EndMarkersFrom(lines: seq<string>, i: nat, kind: Classifier): nat
    requires i <= |lines|
    decreases |lines| - i
  {
    if i == |lines| then 0
    else (if kind(lines[i]) == EndLine then 1 else 0) + EndMarkersFrom(lines, i + 1, kind)
  }

  lemma {:induction false} BlocksFromCount(lines: seq<string>, i: nat, m: Markers, kind: Classifier)
    requires i <= |lines| && -1 <= m.start && -1 <= m.end < i && !Ready(m)
    ensures |BlocksFrom(lines, i, m, kind)| <= EndMarkersFrom(lines, i, kind)
    decreases |lines| - i
  {
    if i < |lines| {
      var m' := Mark(kind(lines[i]), i, m);
      if Ready(m') {
        BlocksFromCount(lines, i + 1, Unset, kind);
      } else {
        BlocksFromCount(lines, i + 1, m', kind);
      }
    }
  }

  /** There are at most as many examples as end marker lines. */
  lemma BlocksAtMostEndMarkers(lines: seq<string>)
    ensures |Blocks(lines)| <= EndMarkersFrom(lines, 0, KindOf)
  {
    BlocksFromCount(lines, 0, Unset, KindOf);
  }

  /** From line i up to a clean pair's end, nothing is emitted and the start marker stays. */
  lemma {:induction false} PairBodyEmitsNothing(lines: seq<string>, s: nat, e: nat, i: nat, en: int, kind: Classifier)
    requires s < i <= e < |lines| && s + 1 < e
    requires -1 <= en < s
    requires kind(lines[e]) == EndLine
    requires forall j :: s < j < e ==> kind(lines[j]) == OtherLine
    ensures BlocksFrom(lines, i, Markers(s, en), kind) == [Block(s, e)] + BlocksFrom(lines, e + 1, Unset, kind)
    decreases e - i
  {
    if i < e {
      PairBodyEmitsNothing(lines, s, e, i + 1, en, kind);
    }
  }

  lemma {:induction false} BlocksFromComplete(lines: seq<string>, s: nat, e: nat, i: nat, m: Markers, kind: Classifier)
    requires i <= s && s + 1 < e < |lines|
    requires -1 <= m.start < i && -1 <= m.end < i && !Ready(m)
    requires kind(lines[s]) == BeginLine && kind(lines[e]) == EndLine
    requires forall j :: s < j < e ==> kind(lines[j]) == OtherLine
    ensures Block(s, e) in BlocksFrom(lines, i, m, kind)
    decreases s - i
  {
    var m' := Mark(kind(lines[i]), i, m);
    if i < s {
      if Ready(m') {
        BlocksFromComplete(lines, s, e, i + 1, Unset, kind);
      } else {
        BlocksFromComplete(lines, s, e, i + 1, m', kind);
      }
    } else {
      PairBodyEmitsNothing(lines, s, e, s + 1, m.end, kind);
    }
  }

  /**
   * A begin line and a later end line with at least one line and no other
   * marker line between them always give a block.
   */
  lemma BlocksComplete(lines: seq<string>, s: nat, e: nat)
    requires s + 1 < e < |lines|
    requires IsBeginMarker(lines[s]) && IsEndMarker(lines[e])
    requires forall j :: s < j < e ==> !IsBeginMarker(lines[j]) && !IsEndMarker(lines[j])
    ensures Block(s, e) in Blocks(lines)
  {
    EndIsNotBegin(lines[e]);
    BlocksFromComplete(lines, s, e, 0, Unset, KindOf);
  }

  /** Every block's markers lie inside the list, the begin line before the end line. */
  predicate Inside(lines: seq<string>, bs: seq<Block>)
  {
    forall k :: 0 <= k < |bs| ==> bs[k].start < bs[k].end <= |lines|
  }

  /** The examples of the given blocks, each made by `parse` from a copy of its lines. */
  function ExamplesOf(lines: seq<string>, bs: seq<Block>, parse: BlockParser): (r: seq<SourceCodeExample>)
    requires Inside(lines, bs)
    ensures |r| == |bs|
  {
    if bs == [] then []
    else [parse(lines[bs[0].start + 1..bs[0].end]).example] + ExamplesOf(lines, bs[1..], parse)
  }

  /** The examples the scan finds when each body is taken as a copy and the list is left alone. */
  function ExtractExamples(lines: seq<string>): (r: seq<SourceCodeExample>)
    ensures |r| == |Blocks(lines)|
  {
    BlocksWellFormed(lines);
    ExamplesOf(lines, Blocks(lines), ParseExample)
  }

  /** The k-th example is made from the lines strictly between the k-th block's markers. */
  lemma {:induction false} ExamplesOfAt(lines: seq<string>, bs: seq<Block>, parse: BlockParser, k: nat)
    requires Inside(lines, bs)
    requires k < |bs|
    ensures ExamplesOf(lines, bs, parse)[k] == parse(lines[bs[k].start + 1..bs[k].end]).example
  {
    if k > 0 {
      ExamplesOfAt(lines, bs[1..], parse, k - 1);
    }
  }

  /** Each example of the copying scan is parsed from a well-formed block's body. */
  lemma ExtractExamplesAt(lines: seq<string>, k: nat)
    requires k < |Blocks(lines)|
    ensures WellFormedBlock(lines, Blocks(lines)[k], KindOf)
    ensures ExtractExamples(lines)[k] == ParseExample(lines[Blocks(lines)[k].start + 1..Blocks(lines)[k].end]).example
  {
    BlocksWellFormed(lines);
    ExamplesOfAt(lines, Blocks(lines), ParseExample, k);
  }

  /** Splicing a block's own lines back into the list leaves the list as it was. */
  lemma EmitKeepingLines(lines: seq<string>, i: nat, s: nat, e: nat, parsed: ExampleParse)
    requires s < e <= i < |lines|
    requires parsed.rest == lines[s + 1..e]
    ensures lines[..s + 1] + parsed.rest + lines[e..] == lines
  {
  }

  /** Every block found from line i on lies inside the list. */
  lemma {:induction false} BlocksFromInRange(lines: seq<string>, i: nat, m: Markers, kind: Classifier)
    requires i <= |lines| && WellMarked(lines, i, m)
    ensures Inside(lines, BlocksFrom(lines, i, m, kind))
    decreases |lines| - i
  {
    if i < |lines| {
      var m' := Mark(kind(lines[i]), i, m);
      if Ready(m') {
        BlocksFromInRange(lines, i + 1, Unset, kind);
      } else {
        BlocksFromInRange(lines, i + 1, m', kind);
      }
    }
  }

  /** The parser takes nothing out of any slice of the list. */
  ghost predicate KeepsSlices(lines: seq<string>, parse: BlockParser)
  {
    forall s, e :: 0 <= s <= e <= |lines| ==> parse(lines[s..e]).rest == lines[s..e]
  }

  /** The emitting step of ScanInPlaceFromKeepingLines, with the claim for the later lines given. */
  lemma KeepingLinesEmitStep(lines: seq<string>, i: nat, m: Markers, kind: Classifier, parse: BlockParser, s: nat, e: nat)
    requires i < |lines| && WellMarked(lines, i, m) && Shrinks(parse)
    requires Mark(kind(lines[i]), i, m) == Markers(s, e) && s + 1 < e
    requires parse(lines[s + 1..e]).rest == lines[s + 1..e]
    requires Inside(lines, BlocksFrom(lines, i, m, kind)) && Inside(lines, BlocksFrom(lines, i + 1, Unset, kind))
    requires ScanInPlaceFrom(lines, i + 1, Unset, kind, parse) == Scanned(ExamplesOf(lines, BlocksFrom(lines, i + 1, Unset, kind), parse), lines)
    ensures ScanInPlaceFrom(lines, i, m, kind, parse) == Scanned(ExamplesOf(lines, BlocksFrom(lines, i, m, kind), parse), lines)
  {
    var parsed := parse(lines[s + 1..e]);
    EmitKeepingLines(lines, i, s, e, parsed);
    var later := BlocksFrom(lines, i + 1, Unset, kind);
    var after := ScanInPlaceFrom(lines, i + 1, Unset, kind, parse);
    assert ScanInPlaceFrom(lines, i, m, kind, parse) == Scanned([parsed.example] + after.examples, after.lines);
    assert BlocksFrom(lines, i, m, kind) == [Block(s, e)] + later;
    assert ([Block(s, e)] + later)[1..] == later;
    assert ExamplesOf(lines, [Block(s, e)] + later, parse) == [parsed.example] + ExamplesOf(lines, later, parse);
  }

  lemma {:induction false} ScanInPlaceFromKeepingLines(lines: seq<string>, i: nat, m: Markers, kind: Classifier, parse: BlockParser)
    requires i <= |lines| && WellMarked(lines, i, m) && Shrinks(parse)
    requires KeepsSlices(lines, parse)
    ensures Inside(lines, BlocksFrom(lines, i, m, kind))
    ensures ScanInPlaceFrom(lines, i, m, kind, parse) == Scanned(ExamplesOf(lines, BlocksFrom(lines, i, m, kind), parse), lines)
    decreases |lines| - i
  {
    BlocksFromInRange(lines, i, m, kind);
    if i < |lines| {
      var m' := Mark(kind(lines[i]), i, m);
      ScanInPlaceFromKeepingLines(lines, i + 1, if Ready(m') then Unset else m', kind, parse);
      if Ready(m') {
        KeepingLinesEmitStep(lines, i, m, kind, parse, m'.start, m'.end);
      }
    }
  }

  /**
   * When no line is a heading or type line, nothing is removed, and the scan
   * as written finds exactly the examples of the copying scan.
   */
  lemma ScanInPlaceAgreesWithoutValueLines(lines: seq<string>)
    requires forall j :: 0 <= j < |lines| ==> !Matches(HeadingPattern, lines[j]) && !Matches(TypePattern, lines[j])
    ensures ScanInPlace(lines) == Scanned(ExtractExamples(lines), lines)
  {
    forall s, e | 0 <= s <= e <= |lines|
      ensures ParseExample(lines[s..e]).rest == lines[s..e]
    {
      var body := lines[s..e];
      assert forall j :: 0 <= j < |body| ==> body[j] == lines[s + j];
      ValueFromPatternNone(body, HeadingPattern);
      ValueFromPatternNone(body, TypePattern);
    }
    ScanInPlaceFromKeepingLines(lines, 0, Unset, KindOf, ParseExample);
  }

  // ---------------------------------------------------------------------------
  // What the scan as written keeps of the copying scan
  // ---------------------------------------------------------------------------

  /** `a` is `b` with some of its elements left out, the others in order. */
  predicate IsSubsequence<T(==)>(a: seq<T>, b: seq<T>)
    decreases |b|
  {
    a == [] || (b != [] && ((a[0] == b[0] && IsSubsequence(a[1..], b[1..])) || IsSubsequence(a, b[1..])))
  }

  predicate IsSuffix<T(==)>(a: seq<T>, b: seq<T>)
  {
    |a| <= |b| && b[|b| - |a|..] == a
  }

  lemma {:induction false} SubsequenceLength<T>(a: seq<T>, b: seq<T>)
    requires IsSubsequence(a, b)
    ensures |a| <= |b|
    decreases |b|
  {
    if a != [] {
      if a[0] == b[0] && IsSubsequence(a[1..], b[1..]) {
        SubsequenceLength(a[1..], b[1..]);
      } else {
        SubsequenceLength(a, b[1..]);
      }
    }
  }

  lemma {:induction false} SubsequenceOfSuffix<T>(a: seq<T>, b: seq<T>, c: seq<T>)
    requires IsSubsequence(a, b) && IsSuffix(b, c)
    ensures IsSubsequence(a, c)
    decreases |c|
  {
    if a != [] && |b| < |c| {
      assert IsSuffix(b, c[1..]) by {
        assert c[1..][|c[1..]| - |b|..] == c[|c| - |b|..];
      }
      SubsequenceOfSuffix(a, b, c[1..]);
    }
  }

  lemma SubsequenceCons<T>(x: T, a: seq<T>, b: seq<T>)
    requires IsSubsequence(a, b)
    ensures IsSubsequence([x] + a, [x] + b)
  {
    assert ([x] + a)[1..] == a && ([x] + b)[1..] == b;
  }

  lemma SuffixTransitive<T>(a: seq<T>, b: seq<T>, c: seq<T>)
    requires IsSuffix(a, b) && IsSuffix(b, c)
    ensures IsSuffix(a, c)
  {
    assert c[|c| - |a|..] == c[|c| - |b|..][|b| - |a|..];
  }

  /** The body read since the last begin line, or None before any. */
  function OpenOf(lines: seq<string>, m: Markers, i: nat): Option<seq<string>>
    requires -1 <= m.start < i <= |lines|
  {
    if m.start == -1 then None else Some(lines[m.start + 1..i])
  }

  /** One more line read into an open body. */
  function Extend(open: Option<seq<string>>, line: string): Option<seq<string>>
  {
    if open.None? then None else Some(open.value + [line])
  }

  /**
   * The copying scan, on the lines still to be read and the body read so far:
   * a begin line opens an empty body, an end line closes a non-empty one into
   * an example, and any other line joins the open body.
   */
  function CopyScan(t: seq<string>, open: Option<seq<string>>, kind: Classifier, parse: BlockParser): seq<SourceCodeExample>
    decreases |t|
  {
    if t == [] then []
    else if kind(t[0]) == BeginLine then CopyScan(t[1..], Some([]), kind, parse)
    else if kind(t[0]) == EndLine && open.Some? && open.value != [] then
      [parse(open.value).example] + CopyScan(t[1..], None, kind, parse)
    else CopyScan(t[1..], Extend(open, t[0]), kind, parse)
  }

  /** Starting with no open body finds the last examples of a start with any open body. */
  lemma {:induction false} CopyScanClosedIsSuffix(t: seq<string>, open: Option<seq<string>>, kind: Classifier, parse: BlockParser)
    ensures IsSuffix(CopyScan(t, None, kind, parse), CopyScan(t, open, kind, parse))
    decreases |t|
  {
    if t != [] {
      if kind(t[0]) == BeginLine {
        assert CopyScan(t, None, kind, parse) == CopyScan(t, open, kind, parse);
      } else if kind(t[0]) == EndLine && open.Some? && open.value != [] {
        var later := CopyScan(t[1..], None, kind, parse);
        assert CopyScan(t, open, kind, parse) == [parse(open.value).example] + later;
        assert ([parse(open.value).example] + later)[1..] == later;
      } else {
        CopyScanClosedIsSuffix(t[1..], Extend(open, t[0]), kind, parse);
      }
    }
  }

  /** Leaving out the first d lines keeps only the last examples of the copying scan. */
  lemma {:induction false} CopyScanDropIsSuffix(t: seq<string>, d: nat, kind: Classifier, parse: BlockParser)
    requires d <= |t|
    ensures IsSuffix(CopyScan(t[d..], None, kind, parse), CopyScan(t, None, kind, parse))
    decreases d
  {
    var all := CopyScan(t, None, kind, parse);
    if d == 0 {
      assert t[d..] == t;
    } else {
      var rest := CopyScan(t[1..], None, kind, parse);
      CopyScanDropIsSuffix(t[1..], d - 1, kind, parse);
      assert t[1..][d - 1..] == t[d..];
      assert IsSuffix(rest, all) by {
        if kind(t[0]) == BeginLine {
          CopyScanClosedIsSuffix(t[1..], Some([]), kind, parse);
        } else {
          assert all == rest;
        }
      }
      SuffixTransitive(CopyScan(t[d..], None, kind, parse), rest, all);
    }
  }

  /** The copying scan reading a line that closes no block. */
  lemma CopyScanUnfold(t: seq<string>, open: Option<seq<string>>, kind: Classifier, parse: BlockParser)
    requires t != [] && !(kind(t[0]) == EndLine && open.Some? && open.value != [])
    ensures CopyScan(t, open, kind, parse)
      == CopyScan(t[1..], if kind(t[0]) == BeginLine then Some([]) else Extend(open, t[0]), kind, parse)
  {
  }

  /** The open body after line i follows the markers: emptied by a begin line, grown by any other line. */
  lemma OpenOfStep(lines: seq<string>, i: nat, m: Markers, k: LineKind)
    requires i < |lines| && WellMarked(lines, i, m)
    ensures OpenOf(lines, Mark(k, i, m), i + 1)
      == if k == BeginLine then Some([]) else Extend(OpenOf(lines, m, i), lines[i])
  {
    if k == BeginLine {
      assert lines[i + 1..i + 1] == [];
    } else if m.start != -1 {
      assert lines[m.start + 1..i + 1] == lines[m.start + 1..i] + [lines[i]];
    }
  }

  /** Reading line i when no block becomes ready: the open body follows the markers. */
  lemma CopyScanSkipStep(lines: seq<string>, i: nat, m: Markers, kind: Classifier, parse: BlockParser)
    requires i < |lines| && WellMarked(lines, i, m) && !Ready(m)
    requires !Ready(Mark(kind(lines[i]), i, m))
    ensures CopyScan(lines[i..], OpenOf(lines, m, i), kind, parse)
      == CopyScan(lines[i + 1..], OpenOf(lines, Mark(kind(lines[i]), i, m), i + 1), kind, parse)
  {
    var t, open := lines[i..], OpenOf(lines, m, i);
    assert t[0] == lines[i] && t[1..] == lines[i + 1..];
    OpenOfStep(lines, i, m, kind(lines[i]));
    if kind(lines[i]) == EndLine && m.start != -1 {
      assert open.value == [];
    }
    CopyScanUnfold(t, open, kind, parse);
  }

  /** Reading line i when a block becomes ready: line i ends it, its body is the open body, and nothing stays open. */
  lemma CopyScanEmitStep(lines: seq<string>, i: nat, m: Markers, kind: Classifier, parse: BlockParser)
    requires i < |lines| && WellMarked(lines, i, m) && !Ready(m)
    requires Ready(Mark(kind(lines[i]), i, m))
    ensures kind(lines[i]) == EndLine && Mark(kind(lines[i]), i, m) == Markers(m.start, i)
    ensures CopyScan(lines[i..], OpenOf(lines, m, i), kind, parse)
      == [parse(lines[m.start + 1..i]).example] + CopyScan(lines[i + 1..], None, kind, parse)
  {
    assert lines[i..][0] == lines[i] && lines[i..][1..] == lines[i + 1..];
  }

  /** The block that becomes ready at line i comes first, and its example is parsed from its body. */
  lemma ExamplesOfBlocksEmitStep(lines: seq<string>, i: nat, m: Markers, kind: Classifier, parse: BlockParser)
    requires i < |lines| && WellMarked(lines, i, m)
    requires Mark(kind(lines[i]), i, m) == Markers(m.start, i) && Ready(Markers(m.start, i))
    requires Inside(lines, BlocksFrom(lines, i + 1, Unset, kind))
    ensures Inside(lines, BlocksFrom(lines, i, m, kind))
    ensures ExamplesOf(lines, BlocksFrom(lines, i, m, kind), parse)
      == [parse(lines[m.start + 1..i]).example] + ExamplesOf(lines, BlocksFrom(lines, i + 1, Unset, kind), parse)
  {
    var later := BlocksFrom(lines, i + 1, Unset, kind);
    var all := [Block(m.start, i)] + later;
    assert BlocksFrom(lines, i, m, kind) == all;
    assert all[0] == Block(m.start, i) && all[1..] == later;
    assert forall k :: 1 <= k < |all| ==> all[k] == later[k - 1];
  }

  /** From line i on, the examples of the blocks are those of the copying scan on the lines left to read. */
  lemma {:induction false} CopyScanIsExamplesOfBlocks(lines: seq<string>, i: nat, m: Markers, kind: Classifier, parse: BlockParser)
    requires i <= |lines| && WellMarked(lines, i, m) && !Ready(m)
    ensures Inside(lines, BlocksFrom(lines, i, m, kind))
    ensures ExamplesOf(lines, BlocksFrom(lines, i, m, kind), parse) == CopyScan(lines[i..], OpenOf(lines, m, i), kind, parse)
    decreases |lines| - i
  {
    BlocksFromInRange(lines, i, m, kind);
    if i < |lines| {
      var m' := Mark(kind(lines[i]), i, m);
      if Ready(m') {
        CopyScanIsExamplesOfBlocks(lines, i + 1, Unset, kind, parse);
        CopyScanEmitStep(lines, i, m, kind, parse);
        ExamplesOfBlocksEmitStep(lines, i, m, kind, parse);
      } else {
        CopyScanIsExamplesOfBlocks(lines, i + 1, m', kind, parse);
        CopyScanSkipStep(lines, i, m, kind, parse);
      }
    } else {
      assert lines[i..] == [];
    }
  }

  /** The lines after a removal, from the index after the end marker on, are the original lines with d fewer. */
  lemma SpliceTail(lines: seq<string>, front: seq<string>, i: nat, d: nat)
    requires i < |lines| && |front| + d == i
    requires i + 1 <= |front| + |lines| - i
    ensures (front + lines[i..])[i + 1..] == lines[i + 1 + d..]
  {
    var tail := (front + lines[i..])[i + 1..];
    assert forall j :: 0 <= j < |tail| ==> tail[j] == lines[i + 1 + d + j];
  }

  /** The list after the block between lines s and e is parsed and its removed lines are taken out. */
  function Spliced(lines: seq<string>, s: nat, e: nat, parse: BlockParser): seq<string>
    requires s < e <= |lines|
  {
    lines[..s + 1] + parse(lines[s + 1..e]).rest + lines[e..]
  }

  /**
   * After a removal the scan reads on from a later point of the same lines,
   * and the copying scan from there keeps only the last examples.
   */
  lemma ReadOnAfterRemoval(lines: seq<string>, front: seq<string>, i: nat, after: seq<SourceCodeExample>, kind: Classifier, parse: BlockParser)
    requires |front| <= i < |lines|
    requires i + 1 <= |front + lines[i..]| ==> IsSubsequence(after, CopyScan((front + lines[i..])[i + 1..], None, kind, parse))
    requires i + 1 > |front + lines[i..]| ==> after == []
    ensures IsSubsequence(after, CopyScan(lines[i + 1..], None, kind, parse))
  {
    var d := i - |front|;
    if i + 1 <= |front + lines[i..]| {
      SpliceTail(lines, front, i, d);
      assert lines[i + 1..][d..] == lines[i + 1 + d..];
      CopyScanDropIsSuffix(lines[i + 1..], d, kind, parse);
      SubsequenceOfSuffix(after, CopyScan(lines[i + 1 + d..], None, kind, parse), CopyScan(lines[i + 1..], None, kind, parse));
    }
  }

  /** The emitting step of ScanInPlaceFrom, with the spliced list named. */
  lemma ScanInPlaceEmitUnfold(lines: seq<string>, i: nat, m: Markers, kind: Classifier, parse: BlockParser)
    requires i < |lines| && WellMarked(lines, i, m) && Shrinks(parse)
    requires Mark(kind(lines[i]), i, m) == Markers(m.start, i) && 0 <= m.start && m.start + 1 < i
    ensures ScanInPlaceFrom(lines, i, m, kind, parse).examples
      == [parse(lines[m.start + 1..i]).example] + ScanInPlaceFrom(Spliced(lines, m.start, i, parse), i + 1, Unset, kind, parse).examples
  {
  }

  /**
   * The emitting step of ScanInPlaceFromIsSubsequence, with the claim for the
   * shortened list given.
   */
  lemma ScanInPlaceEmitSubsequence(lines: seq<string>, i: nat, m: Markers, kind: Classifier, parse: BlockParser)
    requires i < |lines| && WellMarked(lines, i, m) && !Ready(m) && Shrinks(parse)
    requires Ready(Mark(kind(lines[i]), i, m))
    requires i + 1 <= |Spliced(lines, m.start, i, parse)| ==>
      IsSubsequence(ScanInPlaceFrom(Spliced(lines, m.start, i, parse), i + 1, Unset, kind, parse).examples,
                    CopyScan(Spliced(lines, m.start, i, parse)[i + 1..], None, kind, parse))
    ensures IsSubsequence(ScanInPlaceFrom(lines, i, m, kind, parse).examples, CopyScan(lines[i..], OpenOf(lines, m, i), kind, parse))
  {
    CopyScanEmitStep(lines, i, m, kind, parse);
    ScanInPlaceEmitUnfold(lines, i, m, kind, parse);
    var parsed := parse(lines[m.start + 1..i]);
    var front := lines[..m.start + 1] + parsed.rest;
    var shortened := Spliced(lines, m.start, i, parse);
    assert shortened == front + lines[i..];
    var after := ScanInPlaceFrom(shortened, i + 1, Unset, kind, parse).examples;
    ReadOnAfterRemoval(lines, front, i, after, kind, parse);
    SubsequenceCons(parsed.example, after, CopyScan(lines[i + 1..], None, kind, parse));
  }

  /**
   * From line i on, the scan as written finds some of the examples of the
   * copying scan, in the same order.
   */
  lemma {:induction false} ScanInPlaceFromIsSubsequence(lines: seq<string>, i: nat, m: Markers, kind: Classifier, parse: BlockParser)
    requires i <= |lines| && WellMarked(lines, i, m) && !Ready(m) && Shrinks(parse)
    ensures IsSubsequence(ScanInPlaceFrom(lines, i, m, kind, parse).examples, CopyScan(lines[i..], OpenOf(lines, m, i), kind, parse))
    decreases |lines| - i
  {
    if i < |lines| {
      var m' := Mark(kind(lines[i]), i, m);
      if Ready(m') {
        var shortened := Spliced(lines, m.start, i, parse);
        if i + 1 <= |shortened| {
          ScanInPlaceFromIsSubsequence(shortened, i + 1, Unset, kind, parse);
        }
        ScanInPlaceEmitSubsequence(lines, i, m, kind, parse);
      } else {
        ScanInPlaceFromIsSubsequence(lines, i + 1, m', kind, parse);
        CopyScanSkipStep(lines, i, m, kind, parse);
      }
    }
  }

  /** The copying scan's examples, read off the lines one at a time. */
  lemma ExtractExamplesIsCopyScan(lines: seq<string>)
    ensures ExtractExamples(lines) == CopyScan(lines, None, KindOf, ParseExample)
  {
    CopyScanIsExamplesOfBlocks(lines, 0, Unset, KindOf, ParseExample);
    assert lines[0..] == lines;
  }

  /**
   * The examples parseSourceCodeExamples returns are examples of the copying
   * scan, in the same order; what the removals cost is examples left out,
   * never an example the file does not hold.
   */
  lemma ScanInPlaceIsSubsequence(lines: seq<string>)
    ensures IsSubsequence(ScanInPlace(lines).examples, ExtractExamples(lines))
  {
    ScanInPlaceFromIsSubsequence(lines, 0, Unset, KindOf, ParseExample);
    ExtractExamplesIsCopyScan(lines);
    assert lines[0..] == lines;
  }

  /** parseSourceCodeExamples returns at most one example per end marker line. */
  lemma ScanInPlaceAtMostEndMarkers(lines: seq<string>)
    ensures |ScanInPlace(lines).examples| <= EndMarkersFrom(lines, 0, KindOf)
  {
    ScanInPlaceIsSubsequence(lines);
    SubsequenceLength(ScanInPlace(lines).examples, ExtractExamples(lines));
    BlocksAtMostEndMarkers(lines);
  }

  // ---------------------------------------------------------------------------
  // The skipped example
  // ---------------------------------------------------------------------------

  /**
   * Seven lines: a block of two lines whose first line the parser removes,
   * then a block of one line. The removal moves the second begin line to the
   * index the scan has just passed, so the scan as written gives one example
   * where the copying scan finds both blocks.
   */
  lemma SkipsBlockAfterRemoval(lines: seq<string>, kind: Classifier, parse: BlockParser)
    requires |lines| == 7 && Shrinks(parse)
    requires kind(lines[0]) == BeginLine && kind(lines[4]) == BeginLine
    requires kind(lines[3]) == EndLine && kind(lines[6]) == EndLine
    requires kind(lines[1]) == OtherLine && kind(lines[2]) == OtherLine && kind(lines[5]) == OtherLine
    requires parse([lines[1], lines[2]]).rest == [lines[2]]
    ensures |ScanInPlaceFrom(lines, 0, Unset, kind, parse).examples| == 1
    ensures BlocksFrom(lines, 0, Unset, kind) == [Block(0, 3), Block(4, 6)]
  {
    assert lines[1..3] == [lines[1], lines[2]];
    var shortened := lines[..1] + [lines[2]] + lines[3..];
    assert shortened == [lines[0], lines[2], lines[3], lines[4], lines[5], lines[6]];
    assert ScanInPlaceFrom(shortened, 5, Unset, kind, parse) == Scanned([], shortened);
    assert ScanInPlaceFrom(shortened, 4, Unset, kind, parse) == Scanned([], shortened);
    assert |ScanInPlaceFrom(lines, 3, Markers(0, -1), kind, parse).examples| == 1;
    assert ScanInPlaceFrom(lines, 2, Markers(0, -1), kind, parse) == ScanInPlaceFrom(lines, 3, Markers(0, -1), kind, parse);
    assert ScanInPlaceFrom(lines, 1, Markers(0, -1), kind, parse) == ScanInPlaceFrom(lines, 2, Markers(0, -1), kind, parse);
    assert ScanInPlaceFrom(lines, 0, Unset, kind, parse) == ScanInPlaceFrom(lines, 1, Markers(0, -1), kind, parse);

    assert BlocksFrom(lines, 6, Markers(4, -1), kind) == [Block(4, 6)];
    assert BlocksFrom(lines, 5, Markers(4, -1), kind) == [Block(4, 6)];
    assert BlocksFrom(lines, 4, Unset, kind) == [Block(4, 6)];
    assert BlocksFrom(lines, 3, Markers(0, -1), kind) == [Block(0, 3), Block(4, 6)];
    assert BlocksFrom(lines, 2, Markers(0, -1), kind) == BlocksFrom(lines, 3, Markers(0, -1), kind);
    assert BlocksFrom(lines, 1, Markers(0, -1), kind) == BlocksFrom(lines, 2, Markers(0, -1), kind);
  }

  /** A line that starts with neither a space nor '/' is no marker and no value line. */
  lemma NotAMarker(line: string)
    requires line != [] && !IsRegexSpace(line[0]) && line[0] != '/'
    ensures KindOf(line) == OtherLine && !Matches(HeadingPattern, line) && !Matches(TypePattern, line)
  {
    LeadingRunUnique(line, IsRegexSpace, 0);
    assert BeginMarker[0] == '/' && EndMarker[0] == '/';
    assert HeadingPrefix[0] == '/' && TypePrefix[0] == '/';
  }

  lemma MarkerKinds()
    ensures KindOf(BeginMarker) == BeginLine && KindOf(EndMarker) == EndLine
  {
    assert BeginMarker[0] == '/' && EndMarker[0] == '/';
    UnpaddedMarkerMatch(BeginMarker, BeginMarker);
    UnpaddedMarkerMatch(EndMarker, BeginMarker);
    UnpaddedMarkerMatch(EndMarker, EndMarker);
    assert |BeginMarker| != |EndMarker|;
  }

  /** A line that does not start with a space matches a marker only by being it. */
  lemma UnpaddedMarkerMatch(line: string, marker: string)
    requires line != [] && !IsRegexSpace(line[0])
    ensures MatchesMarker(line, marker) <==> line == marker
  {
    LeadingRunUnique(line, IsRegexSpace, 0);
    assert line[SpaceRun(line)..] == line;
    StripPrefixSpec(marker, line);
  }

  /** A heading line is never a marker line: its text after the spaces is longer than either marker. */
  lemma HeadingLineIsNoMarker(line: string)
    requires Matches(HeadingPattern, line)
    ensures KindOf(line) == OtherLine
  {
    var rest := line[SpaceRun(line)..];
    StripPrefixSpec(HeadingPrefix, rest);
    StripPrefixSpec(BeginMarker, rest);
    StripPrefixSpec(EndMarker, rest);
    assert |HeadingPrefix| > |BeginMarker| && |HeadingPrefix| > |EndMarker|;
  }

  /** In a block of a heading line and another line, the heading line goes and the other stays. */
  lemma HeadedBlockParse(headingLine: string, source: string)
    requires Matches(HeadingPattern, headingLine)
    requires !Matches(HeadingPattern, source) && !Matches(TypePattern, source)
    ensures ParseExample([headingLine, source]).rest == [source]
  {
    var body := [headingLine, source];
    assert ValueFromPattern(body, HeadingPattern).rest == [source];
    assert ValueFromPattern([source], TypePattern).rest == [source];
  }

  /**
   * In a file with a headed example followed by a second example, the scan as
   * written removes the heading line from the list it is scanning; the second
   * begin line moves to the index just scanned and is never seen, so only one
   * example comes out where the copying scan finds two.
   */
  lemma ScanInPlaceSkipsExample(begin: string, end: string, headingLine: string, source1: string, source2: string)
    requires KindOf(begin) == BeginLine && KindOf(end) == EndLine
    requires Matches(HeadingPattern, headingLine)
    requires KindOf(source1) == OtherLine && !Matches(HeadingPattern, source1) && !Matches(TypePattern, source1)
    requires KindOf(source2) == OtherLine
    ensures |ScanInPlace([begin, headingLine, source1, end, begin, source2, end]).examples| == 1
    ensures |ExtractExamples([begin, headingLine, source1, end, begin, source2, end])| == 2
  {
    var lines := [begin, headingLine, source1, end, begin, source2, end];
    HeadingLineIsNoMarker(headingLine);
    HeadedBlockParse(headingLine, source1);
    assert lines[0] == lines[4] == begin && lines[3] == lines[6] == end;
    assert lines[1] == headingLine && lines[2] == source1 && lines[5] == source2;
    SkipsBlockAfterRemoval(lines, KindOf, ParseExample);
  }

  /**
   * The heading line of a small file that shows the skip: the two markers as
   * they are, the heading line for "A", and the source lines "a" and "b"
   * (NotAMarker and MarkerKinds give the other lines' kinds).
   */
  lemma SampleHeadingMatches()
    ensures Matches(HeadingPattern, HeadingPrefix + "A")
  {
    assert HeadingPrefix[0] == '/';
    CaptureOfPadded(HeadingPattern, "", "A");
    assert "" + HeadingPrefix + "A" == HeadingPrefix + "A";
  }

  // ---------------------------------------------------------------------------
  // Resource path
  // ---------------------------------------------------------------------------

  /** String.replace(char, char). */
  function ReplaceChar(s: string, from: char, to: char): string
  {
    seq(|s|, k requires 0 <= k < |s| => if s[k] == from then to else s[k])
  }

  /** Replacing back restores a string that did not contain the replacement. */
  lemma ReplaceCharRoundTrip(s: string, from: char, to: char)
    requires to !in s
    ensures ReplaceChar(ReplaceChar(s, from, to), to, from) == s
    ensures from != to ==> from !in ReplaceChar(s, from, to)
  {
  }

  /** The package name with '.' replaced by '/', then "/", the simple class name and ".java". */
  function ResourcePath(packageName: string, simpleName: string): (r: string)
    ensures |r| == |packageName| + |simpleName| + 6
    ensures '.' !in r[..|packageName|] && r[|packageName|] == '/'
    ensures r[|packageName| + 1..] == simpleName + ".java"
  {
    ReplaceChar(packageName, '.', '/') + "/" + simpleName + ".java"
  }

  /** Different classes (package and simple names without '/') get different resource paths. */
  lemma ResourcePathInjective(p1: string, c1: string, p2: string, c2: string)
    requires '/' !in p1 && '/' !in p2 && '/' !in c1 && '/' !in c2
    requires ResourcePath(p1, c1) == ResourcePath(p2, c2)
    ensures p1 == p2 && c1 == c2
  {
    var r := ResourcePath(p1, c1);
    assert forall k :: |p1| < k < |r| ==> r[k] != '/' by {
      assert r[|p1| + 1..] == c1 + ".java";
    }
    assert forall k :: |p2| < k < |r| ==> r[k] != '/' by {
      assert r[|p2| + 1..] == c2 + ".java";
    }
    assert r[|p1|] == '/' && r[|p2|] == '/';
    assert |p1| == |p2|;
    assert ReplaceChar(p1, '.', '/') == r[..|p1|] == ReplaceChar(p2, '.', '/');
    ReplaceCharRoundTrip(p1, '.', '/');
    ReplaceCharRoundTrip(p2, '.', '/');
    assert c1 + ".java" == r[|p1| + 1..] == c2 + ".java";
    assert c1 == (c1 + ".java")[..|c1|];
  }
}
