/**
 * The line classifier of `MarkdownText`: the content is split on `\n` and each line, in
 * order, is a fence opening a code block, a blank line, a heading, a bullet item, a
 * numbered item, a quote, a rule or a paragraph; the first that applies wins. Each regular
 * expression of the source is written out as a function with the same backtracking
 * outcome; a regular expression `.` does not match `\n`, `\r`, U+2028 or U+2029, while
 * `\s` matches all of them. The block list stands for the rendered elements; the text of a
 * bullet, numbered item, quote or paragraph is what the source hands to `InlineText`, which
 * renders `InlineMarkdown.Inline` of it, while a heading's text is shown as it is.
 */
module BlockMarkdown {
  import opened Optional
  import opened Strings
  import opened Seqs
  import opened InlineMarkdown

  datatype Block =
    | CodeBlock(code: string)
    | Heading(level: nat, text: string)
    | Bullet(indent: nat, text: string)
    | Numbered(indent: nat, labelText: string, text: string)
    | Quote(text: string)
    | Rule
    | Paragraph(text: string)

  /** `line.trimStart().startsWith('```')` */
  predicate OpensFence(line: string) {
    "```" <= TrimStart(line)
  }

  /** `line.trim() === ''` */
  predicate IsBlank(line: string) {
    Trim(line) == ""
  }

  /** Number of leading `c` characters. */
  function LeadingRun(s: string, c: char): (n: nat)
    ensures n <= |s|
    ensures n < |s| ==> s[n] != c
  {
    if |s| > 0 && s[0] == c then 1 + LeadingRun(s[1..], c) else 0
  }

  /** Everything `LeadingRun` counts is `c`. */
  lemma {:induction false} LeadingRunIsRun(s: string, c: char)
    ensures forall k :: 0 <= k < LeadingRun(s, c) ==> s[k] == c
    decreases |s|
  {
    if |s| > 0 && s[0] == c {
      LeadingRunIsRun(s[1..], c);
      assert forall k :: 1 <= k < LeadingRun(s, c) ==> s[k] == s[1..][k - 1];
    }
  }

  /**
   * What `\s+(.+)$` captures when matched at the start of `rest`: `\s+` first takes all the
   * white space; if nothing is left for `.+` it gives back one character, which `.` must
   * accept. A line terminator in the captured text makes the match fail.
   */
  function SpacedTail(rest: string): Option<string> {
    var w := LeadingSpaces(rest);
    if w < |rest| then
      if w >= 1 && NoLineTerminator(rest[w..]) then Some(rest[w..]) else None
    else if w >= 2 && !IsLineTerminator(rest[w - 1]) then Some([rest[w - 1]])
    else None
  }

  /** The captured text is non-empty, free of line terminators, and ends `rest`; what comes
      before it is white space, at least one character of it. */
  lemma SpacedTailShape(rest: string)
    ensures var r := SpacedTail(rest);
      r.Some? ==> (
        && r.value != "" && NoLineTerminator(r.value)
        && |r.value| < |rest| && rest[|rest| - |r.value|..] == r.value
        && AllSpace(rest[..|rest| - |r.value|]) && IsSpace(rest[0]))
  {
    var w := LeadingSpaces(rest);
    LeadingSpacesAreSpace(rest);
    if w >= |rest| && SpacedTail(rest).Some? {
      assert rest[..w - 1] == rest[..w][..w - 1];
    }
  }

  /** `/^(#{1,3})\s+(.+)$/`; the heading text is kept as written (not inline-parsed). */
  function HeadingMatch(line: string): Option<Block> {
    var h := LeadingRun(line, '#');
    if 1 <= h <= 3 then
      match SpacedTail(line[h..])
      case Some(t) => Some(Heading(h, t))
      case None => None
    else None
  }

  /** A heading match has one to three leading `#`, then white space, then a non-empty text
      free of line terminators that ends the line. */
  lemma HeadingMatchShape(line: string)
    ensures var r := HeadingMatch(line);
      r.Some? ==> (
        && r.value.Heading? && 1 <= r.value.level <= 3 && r.value.level < |line|
        && (forall k :: 0 <= k < r.value.level ==> line[k] == '#') && IsSpace(line[r.value.level])
        && r.value.text != "" && NoLineTerminator(r.value.text)
        && |r.value.text| < |line| && line[|line| - |r.value.text|..] == r.value.text)
  {
    var h := LeadingRun(line, '#');
    LeadingRunIsRun(line, '#');
    if 1 <= h <= 3 {
      SpacedTailShape(line[h..]);
    }
  }

  predicate IsBulletMarker(c: char) {
    c == '-' || c == '*' || c == '+'
  }

  /** `/^(\s*)[-*+]\s+(.+)$/`: the indent `floor(leading white space / 2)` and the captured text. */
  function BulletMatch(line: string): Option<(nat, string)> {
    var ws := LeadingSpaces(line);
    if ws < |line| && IsBulletMarker(line[ws]) then
      match SpacedTail(line[ws + 1..])
      case Some(t) => Some((ws / 2, t))
      case None => None
    else None
  }

  /** A bullet match has half the leading white space as its indent, a marker after that
      white space, and a non-empty text free of line terminators that ends the line. */
  lemma BulletMatchShape(line: string)
    ensures var r := BulletMatch(line);
      r.Some? ==> (
        && r.value.0 == LeadingSpaces(line) / 2
        && LeadingSpaces(line) < |line| && IsBulletMarker(line[LeadingSpaces(line)])
        && r.value.1 != "" && NoLineTerminator(r.value.1)
        && |r.value.1| < |line| && line[|line| - |r.value.1|..] == r.value.1)
  {
    var ws := LeadingSpaces(line);
    if ws < |line| && IsBulletMarker(line[ws]) {
      SpacedTailShape(line[ws + 1..]);
    }
  }

  /** `/^(\s*)(\d+)[.)]\s+(.+)$/`: the indent, the label (the digits followed by `.`, whichever
      of `.` and `)` the line used) and the captured text. */
  function NumberedMatch(line: string): Option<(nat, string, string)> {
    var ws := LeadingSpaces(line);
    NumberedFrom(line, ws, LeadingDigits(line[ws..]))
  }

  function NumberedFrom(line: string, ws: nat, d: nat): Option<(nat, string, string)>
    requires ws + d <= |line|
  {
    if d >= 1 && ws + d < |line| && (line[ws + d] == '.' || line[ws + d] == ')') then
      match SpacedTail(line[ws + d + 1..])
      case Some(t) => Some((ws / 2, line[ws..ws + d] + ".", t))
      case None => None
    else None
  }

  /** A numbered match has the indent of the line's leading white space, a label of digits
      followed by `.`, and a non-empty text free of line terminators that ends the line. */
  lemma NumberedMatchShape(line: string)
    ensures var r := NumberedMatch(line);
      r.Some? ==> (
        && r.value.0 == LeadingSpaces(line) / 2
        && 2 <= |r.value.1| && r.value.1[|r.value.1| - 1] == '.'
        && (forall k :: 0 <= k < |r.value.1| - 1 ==> IsDigit(r.value.1[k]))
        && r.value.2 != "" && NoLineTerminator(r.value.2)
        && |r.value.2| < |line| && line[|line| - |r.value.2|..] == r.value.2)
  {
    var ws := LeadingSpaces(line);
    LeadingDigitsAreDigits(line[ws..]);
    NumberedFromShape(line, ws, LeadingDigits(line[ws..]));
  }

  lemma NumberedFromShape(line: string, ws: nat, d: nat)
    requires ws + d <= |line|
    requires forall k :: 0 <= k < d ==> IsDigit(line[ws..][k])
    ensures var r := NumberedFrom(line, ws, d);
      r.Some? ==> (
        && r.value.0 == ws / 2
        && 2 <= |r.value.1| && r.value.1[|r.value.1| - 1] == '.'
        && (forall k :: 0 <= k < |r.value.1| - 1 ==> IsDigit(r.value.1[k]))
        && r.value.2 != "" && NoLineTerminator(r.value.2)
        && |r.value.2| < |line| && line[|line| - |r.value.2|..] == r.value.2)
  {
    if d >= 1 && ws + d < |line| && (line[ws + d] == '.' || line[ws + d] == ')') {
      var rest := line[ws + d + 1..];
      SpacedTailShape(rest);
      DigitsTag(line, ws, d);
      if SpacedTail(rest).Some? {
        SuffixOfSuffix(line, ws + d + 1, SpacedTail(rest).value);
      }
    }
  }

  lemma DigitsTag(line: string, ws: nat, d: nat)
    requires ws + d <= |line|
    requires forall k :: 0 <= k < d ==> IsDigit(line[ws..][k])
    ensures var tag := line[ws..ws + d] + ".";
      2 <= |tag| + 1 - d && tag[|tag| - 1] == '.' && forall k :: 0 <= k < |tag| - 1 ==> IsDigit(tag[k])
  {
    var tag := line[ws..ws + d] + ".";
    assert forall k :: 0 <= k < d ==> tag[k] == line[ws..][k];
  }

  /** What ends a tail of a string ends the string. */
  lemma SuffixOfSuffix(line: string, i: nat, t: string)
    requires i <= |line| && |t| <= |line| - i
    requires line[i..][|line| - i - |t|..] == t
    ensures line[|line| - |t|..] == t
  {
    assert line[i..][|line| - i - |t|..] == line[|line| - |t|..];
  }

  /** `/^>\s*(.*)$/`: `\s*` takes all the white space; what is left is captured and must hold
      no line terminator. */
  function QuoteMatch(line: string): Option<string> {
    if |line| > 0 && line[0] == '>' then
      var rest := line[1..];
      var w := LeadingSpaces(rest);
      if NoLineTerminator(rest[w..]) then Some(rest[w..]) else None
    else None
  }

  /** A quote match starts with `>`, then white space, then the captured text, free of line
      terminators, which ends the line. */
  lemma QuoteMatchShape(line: string)
    ensures var r := QuoteMatch(line);
      r.Some? ==> (
        && |line| > 0 && line[0] == '>' && NoLineTerminator(r.value)
        && |r.value| < |line| && line[|line| - |r.value|..] == r.value
        && AllSpace(line[1..|line| - |r.value|]))
  {
    if |line| > 0 && line[0] == '>' {
      var rest := line[1..];
      var w := LeadingSpaces(rest);
      LeadingSpacesAreSpace(rest);
      assert line[1..|line| - |rest[w..]|] == rest[..w];
    }
  }

  predicate IsRuleChar(c: char) {
    c == '-' || c == '*' || c == '_'
  }

  /** `/^[-*_]{3,}$/.test(line.trim())` */
  predicate IsRule(line: string) {
    var t := Trim(line);
    |t| >= 3 && forall k :: 0 <= k < |t| ==> IsRuleChar(t[k])
  }

  /** The block of a line that is neither a fence nor blank: the first pattern that matches. */
  function Classify(line: string): Block {
    var heading := HeadingMatch(line);
    if heading.Some? then heading.value
    else
      var bullet := BulletMatch(line);
      if bullet.Some? then Bullet(bullet.value.0, bullet.value.1)
      else
        var numbered := NumberedMatch(line);
        if numbered.Some? then Numbered(numbered.value.0, numbered.value.1, numbered.value.2)
        else
          var quote := QuoteMatch(line);
          if quote.Some? then Quote(quote.value)
          else if IsRule(line) then Rule
          else Paragraph(line)
  }

  /** The first line at or after `j` that opens (or closes) a fence, or `|lines|`. */
  function FenceEnd(lines: seq<string>, j: nat): (e: nat)
    requires j <= |lines|
    ensures j <= e <= |lines|
    ensures e < |lines| ==> OpensFence(lines[e])
    ensures forall k :: j <= k < e ==> !OpensFence(lines[k])
    decreases |lines| - j
  {
    if j == |lines| then j
    else if OpensFence(lines[j]) then j
    else FenceEnd(lines, j + 1)
  }

  /**
   * What the loop of `MarkdownText` makes of the lines before any line is classified: the
   * code of a fenced block, or one line that is neither a fence line nor blank.
   */
  datatype Segment = Fenced(code: string) | Line(line: string)

  /** The segments of `lines[i..]`. A fence runs to the next line that opens one, which it
      skips, or to the end of the input; its lines are joined back with `\n`, unparsed.
      Blank lines outside fences give nothing. */
  function SegmentsFrom(lines: seq<string>, i: nat): seq<Segment>
    decreases |lines| - i
  {
    if i >= |lines| then []
    else if OpensFence(lines[i]) then
      var e := FenceEnd(lines, i + 1);
      [Fenced(Join(lines[i + 1..e], "\n"))] + SegmentsFrom(lines, e + 1)
    else if IsBlank(lines[i]) then SegmentsFrom(lines, i + 1)
    else [Line(lines[i])] + SegmentsFrom(lines, i + 1)
  }

  function RenderSegment(segment: Segment): Block {
    match segment
    case Fenced(code) => CodeBlock(code)
    case Line(line) => Classify(line)
  }

  function RenderAll(segments: seq<Segment>): (r: seq<Block>)
    ensures |r| == |segments|
  {
    if |segments| == 0 then [] else [RenderSegment(segments[0])] + RenderAll(segments[1..])
  }

  lemma {:induction false} RenderAllAppend(a: seq<Segment>, b: seq<Segment>)
    ensures RenderAll(a + b) == RenderAll(a) + RenderAll(b)
    decreases |a|
  {
    if |a| == 0 {
      assert a + b == b;
    } else {
      assert (a + b)[1..] == a[1..] + b;
      RenderAllAppend(a[1..], b);
    }
  }

  /** The blocks of `lines[i..]`. */
  function BlocksFrom(lines: seq<string>, i: nat): seq<Block> {
    RenderAll(SegmentsFrom(lines, i))
  }

  function Markdown(content: string): seq<Block> {
    BlocksFrom(Split(content, '\n'), 0)
  }

  /** `MarkdownText`: split the content on `\n` and classify the lines. */
  method RenderMarkdown(content: string) returns (blocks: seq<Block>)
    ensures blocks == Markdown(content)
  {
    var lines := Split(content, '\n');
    blocks := RenderLines(lines);
  }

  /** The `while (i < lines.length)` loop of `MarkdownText`, with its inner fence loop. */
  method RenderLines(lines: seq<string>) returns (blocks: seq<Block>)
    ensures blocks == BlocksFrom(lines, 0)
  {
    blocks := [];
    var i: nat := 0;
    while i < |lines|
      invariant blocks + BlocksFrom(lines, i) == BlocksFrom(lines, 0)
      decreases |lines| - i
    {
      var line := lines[i];
      if OpensFence(line) {
        var codeLines, close := FenceBody(lines, i + 1);
        var code := Join(codeLines, "\n");
        FenceAdvance(lines, i, close, blocks);
        blocks := blocks + [CodeBlock(code)];
        i := close + 1;
      } else if IsBlank(line) {
        BlankAdvance(lines, i);
        i := i + 1;
      } else {
        LineAdvance(lines, i, blocks);
        blocks := blocks + [Classify(line)];
        i := i + 1;
      }
    }
  }

  /** A fence line and its body make one code block; rendering goes on after the closing line. */
  lemma FenceAdvance(lines: seq<string>, i: nat, e: nat, blocks: seq<Block>)
    requires i < |lines| && OpensFence(lines[i])
    requires e == FenceEnd(lines, i + 1)
    ensures blocks + BlocksFrom(lines, i)
         == (blocks + [CodeBlock(Join(lines[i + 1..e], "\n"))]) + BlocksFrom(lines, e + 1)
  {
    var fence := Fenced(Join(lines[i + 1..e], "\n"));
    assert SegmentsFrom(lines, i) == [fence] + SegmentsFrom(lines, e + 1);
    RenderAllAppend([fence], SegmentsFrom(lines, e + 1));
    Seqs.AppendAssoc(blocks, [RenderSegment(fence)], BlocksFrom(lines, e + 1));
  }

  /** A blank line outside fences renders nothing. */
  lemma BlankAdvance(lines: seq<string>, i: nat)
    requires i < |lines| && !OpensFence(lines[i]) && IsBlank(lines[i])
    ensures BlocksFrom(lines, i) == BlocksFrom(lines, i + 1)
  {
  }

  /** Any other line renders as its class. */
  lemma LineAdvance(lines: seq<string>, i: nat, blocks: seq<Block>)
    requires i < |lines| && !OpensFence(lines[i]) && !IsBlank(lines[i])
    ensures blocks + BlocksFrom(lines, i) == (blocks + [Classify(lines[i])]) + BlocksFrom(lines, i + 1)
  {
    var line := Line(lines[i]);
    assert SegmentsFrom(lines, i) == [line] + SegmentsFrom(lines, i + 1);
    RenderAllAppend([line], SegmentsFrom(lines, i + 1));
    Seqs.AppendAssoc(blocks, [RenderSegment(line)], BlocksFrom(lines, i + 1));
  }

  /** The inner loop: the lines up to the next fence line, and where it is. */
  method FenceBody(lines: seq<string>, from: nat) returns (codeLines: seq<string>, i: nat)
    requires from <= |lines|
    ensures i == FenceEnd(lines, from)
    ensures codeLines == lines[from..i]
  {
    codeLines := [];
    i := from;
    while i < |lines| && !OpensFence(lines[i])
      invariant from <= i <= |lines|
      invariant codeLines == lines[from..i]
      invariant FenceEnd(lines, from) == FenceEnd(lines, i)
      decreases |lines| - i
    {
      codeLines := codeLines + [lines[i]];
      i := i + 1;
    }
  }

  // ---- properties ----

  function ClassifyAll(lines: seq<string>): (r: seq<Block>)
    ensures |r| == |lines|
  {
    if |lines| == 0 then [] else [Classify(lines[0])] + ClassifyAll(lines[1..])
  }

  predicate NotBlank(line: string) {
    !IsBlank(line)
  }

  /** Outside fences, each non-blank line yields exactly one block, in order, and blank
      lines yield none. */
  lemma {:induction false} OneBlockPerLine(lines: seq<string>, i: nat)
    requires i <= |lines|
    requires forall k :: i <= k < |lines| ==> !OpensFence(lines[k])
    ensures BlocksFrom(lines, i) == ClassifyAll(Filter(NotBlank, lines[i..]))
    decreases |lines| - i
  {
    if i < |lines| {
      OneBlockPerLine(lines, i + 1);
      var s := lines[i..];
      assert s[0] == lines[i] && s[1..] == lines[i + 1..];
      var rest := Filter(NotBlank, s[1..]);
      if NotBlank(lines[i]) {
        assert Filter(NotBlank, s) == [lines[i]] + rest;
        assert ([lines[i]] + rest)[1..] == rest;
        RenderAllAppend([Line(lines[i])], SegmentsFrom(lines, i + 1));
      } else {
        assert Filter(NotBlank, s) == rest;
      }
    }
  }

  /** A fence that is never closed takes every remaining line into one code block. */
  lemma UnclosedFence(lines: seq<string>, i: nat)
    requires i < |lines| && OpensFence(lines[i])
    requires forall k :: i < k < |lines| ==> !OpensFence(lines[k])
    ensures BlocksFrom(lines, i) == [CodeBlock(Join(lines[i + 1..], "\n"))]
  {
    var e := FenceEnd(lines, i + 1);
    assert e == |lines|;
    assert lines[i + 1..e] == lines[i + 1..];
    assert SegmentsFrom(lines, i) == [Fenced(Join(lines[i + 1..], "\n"))];
  }

  /** A heading is one to three `#`, white space and a text free of line terminators, which
      is kept as written. */
  lemma HeadingLine(level: nat, space: string, text: string)
    requires 1 <= level <= 3
    requires |space| >= 1 && AllSpace(space)
    requires text != "" && !IsSpace(text[0]) && NoLineTerminator(text)
    ensures Classify(seq(level, _ => '#') + space + text) == Heading(level, text)
  {
    var line := seq(level, _ => '#') + space + text;
    assert LeadingRun(line, '#') == level by {
      LeadingRunAt(seq(level, _ => '#'), space + text, '#');
      assert line == seq(level, _ => '#') + (space + text);
    }
    assert line[level..] == space + text;
    TrimStartAt(space, text);
    LeadingSpacesAt(space, text);
  }

  lemma {:induction false} LeadingRunAt(run: string, rest: string, c: char)
    requires forall k :: 0 <= k < |run| ==> run[k] == c
    requires |rest| > 0 && rest[0] != c
    ensures LeadingRun(run + rest, c) == |run|
    decreases |run|
  {
    if |run| == 0 {
      assert run + rest == rest;
    } else {
      assert (run + rest)[1..] == run[1..] + rest;
      LeadingRunAt(run[1..], rest, c);
    }
  }

  lemma {:induction false} LeadingSpacesAt(space: string, rest: string)
    requires AllSpace(space)
    requires |rest| > 0 && !IsSpace(rest[0])
    ensures LeadingSpaces(space + rest) == |space|
    decreases |space|
  {
    if |space| == 0 {
      assert space + rest == rest;
    } else {
      assert (space + rest)[1..] == space[1..] + rest;
      LeadingSpacesAt(space[1..], rest);
    }
  }

  lemma SpacedTailAt(space: string, text: string)
    requires |space| >= 1 && AllSpace(space)
    requires text != "" && !IsSpace(text[0]) && NoLineTerminator(text)
    ensures SpacedTail(space + text) == Some(text)
  {
    LeadingSpacesAt(space, text);
    assert (space + text)[|space|..] == text;
  }

  /** A bullet item: its indent is half the leading white space, rounded down, and its text
      is inline-parsed. */
  lemma BulletLine(lead: string, marker: char, space: string, text: string)
    requires AllSpace(lead) && IsBulletMarker(marker)
    requires |space| >= 1 && AllSpace(space)
    requires text != "" && !IsSpace(text[0]) && NoLineTerminator(text)
    ensures Classify(lead + [marker] + space + text) == Bullet(|lead| / 2, text)
  {
    var line := lead + ([marker] + (space + text));
    SpacedTailAt(space, text);
    BulletMatchAt(lead, marker, space + text, text);
    NoHeading(line);
    ClassifyBullet(line);
    Seqs.Associate4(lead, [marker], space, text);
  }

  lemma BulletMatchAt(lead: string, marker: char, rest: string, text: string)
    requires AllSpace(lead) && IsBulletMarker(marker)
    requires SpacedTail(rest) == Some(text)
    ensures BulletMatch(lead + ([marker] + rest)) == Some((|lead| / 2, text))
  {
    var line := lead + ([marker] + rest);
    LeadingSpacesAt(lead, [marker] + rest);
    DropPrefix(lead, [marker] + rest);
    DropPrefix([marker], rest);
    assert line[|lead| + 1..] == rest;
  }

  lemma ClassifyBullet(line: string)
    requires HeadingMatch(line).None? && BulletMatch(line).Some?
    ensures Classify(line) == Bullet(BulletMatch(line).value.0, BulletMatch(line).value.1)
  {
  }

  lemma NoHeading(line: string)
    requires LeadingRun(line, '#') == 0
    ensures HeadingMatch(line).None?
  {
  }

  /** A numbered item: its label is its digits followed by `.`. */
  lemma NumberedLine(lead: string, digits: string, closer: char, space: string, text: string)
    requires AllSpace(lead)
    requires |digits| >= 1 && forall k :: 0 <= k < |digits| ==> IsDigit(digits[k])
    requires closer == '.' || closer == ')'
    requires |space| >= 1 && AllSpace(space)
    requires text != "" && !IsSpace(text[0]) && NoLineTerminator(text)
    ensures Classify(lead + digits + [closer] + space + text)
         == Numbered(|lead| / 2, digits + ".", text)
  {
    Seqs.Associate5(lead, digits, [closer], space, text);
    NumberedLineNested(lead, digits, closer, space, text);
  }

  lemma NumberedLineNested(lead: string, digits: string, closer: char, space: string, text: string)
    requires AllSpace(lead)
    requires |digits| >= 1 && forall k :: 0 <= k < |digits| ==> IsDigit(digits[k])
    requires closer == '.' || closer == ')'
    requires |space| >= 1 && AllSpace(space)
    requires text != "" && !IsSpace(text[0]) && NoLineTerminator(text)
    ensures Classify(lead + (digits + ([closer] + (space + text))))
         == Numbered(|lead| / 2, digits + ".", text)
  {
    var line := lead + (digits + ([closer] + (space + text)));
    SpacedTailAt(space, text);
    NumberedMatchAt(lead, digits, closer, space + text, text);
    NumberedNotEarlier(lead, digits, closer, space + text);
    ClassifyNumbered(line);
  }

  /** A line that starts with white space and then a digit is neither a heading nor a bullet. */
  lemma NumberedNotEarlier(lead: string, digits: string, closer: char, rest: string)
    requires AllSpace(lead)
    requires |digits| >= 1 && forall k :: 0 <= k < |digits| ==> IsDigit(digits[k])
    requires closer == '.' || closer == ')'
    ensures HeadingMatch(lead + (digits + ([closer] + rest))).None?
    ensures BulletMatch(lead + (digits + ([closer] + rest))).None?
  {
    var line := lead + (digits + ([closer] + rest));
    NumberedLayout(lead, digits, closer, rest);
    assert line[|lead|] == line[|lead|..|lead| + |digits|][0];
    NoHeading(line);
  }

  lemma ClassifyNumbered(line: string)
    requires HeadingMatch(line).None? && BulletMatch(line).None? && NumberedMatch(line).Some?
    ensures Classify(line) == Numbered(NumberedMatch(line).value.0, NumberedMatch(line).value.1, NumberedMatch(line).value.2)
  {
  }

  lemma NumberedMatchAt(lead: string, digits: string, closer: char, rest: string, text: string)
    requires AllSpace(lead)
    requires |digits| >= 1 && forall k :: 0 <= k < |digits| ==> IsDigit(digits[k])
    requires closer == '.' || closer == ')'
    requires SpacedTail(rest) == Some(text)
    ensures NumberedMatch(lead + (digits + ([closer] + rest))) == Some((|lead| / 2, digits + ".", text))
  {
    var line := lead + (digits + ([closer] + rest));
    var ws, d := |lead|, |digits|;
    NumberedLayout(lead, digits, closer, rest);
    assert line[ws + d + 1..] == rest;
    assert SpacedTail(line[ws + d + 1..]) == Some(text);
    NumberedMatchParts(line, ws, d, digits, text);
  }

  lemma NumberedLayout(lead: string, digits: string, closer: char, rest: string)
    requires AllSpace(lead)
    requires |digits| >= 1 && forall k :: 0 <= k < |digits| ==> IsDigit(digits[k])
    requires closer == '.' || closer == ')'
    ensures var line := lead + (digits + ([closer] + rest));
      && LeadingSpaces(line) == |lead|
      && LeadingDigits(line[|lead|..]) == |digits|
      && line[|lead|..|lead| + |digits|] == digits
      && line[|lead| + |digits|] == closer
      && line[|lead| + |digits| + 1..] == rest
  {
    var tail := [closer] + rest;
    var after := digits + tail;
    var line := lead + after;
    assert after[0] == digits[0];
    LeadingSpacesAt(lead, after);
    DropPrefix(lead, after);
    LeadingDigitsAt(digits, tail);
    DropPrefix(digits, tail);
    assert line[|lead|..|lead| + |digits|] == after[..|digits|];
    assert line[|lead| + |digits|..] == tail;
    DropPrefix([closer], rest);
  }

  lemma NumberedMatchParts(line: string, ws: nat, d: nat, digits: string, text: string)
    requires LeadingSpaces(line) == ws && ws + d < |line|
    requires d >= 1 && LeadingDigits(line[ws..]) == d
    requires line[ws..ws + d] == digits
    requires line[ws + d] == '.' || line[ws + d] == ')'
    requires SpacedTail(line[ws + d + 1..]) == Some(text)
    ensures NumberedMatch(line) == Some((ws / 2, digits + ".", text))
  {
  }

  lemma DropPrefix(a: string, b: string)
    ensures (a + b)[|a|..] == b
    ensures (a + b)[..|a|] == a
  {
  }

  lemma {:induction false} LeadingDigitsAt(digits: string, rest: string)
    requires forall k :: 0 <= k < |digits| ==> IsDigit(digits[k])
    requires |rest| > 0 && !IsDigit(rest[0])
    ensures LeadingDigits(digits + rest) == |digits|
    decreases |digits|
  {
    if |digits| == 0 {
      assert digits + rest == rest;
    } else {
      assert (digits + rest)[1..] == digits[1..] + rest;
      LeadingDigitsAt(digits[1..], rest);
    }
  }

  /** A quote: `>`, optional white space, and the rest inline-parsed. */
  lemma QuoteLine(space: string, text: string)
    requires AllSpace(space)
    requires (text == "" || !IsSpace(text[0])) && NoLineTerminator(text)
    ensures Classify(">" + space + text) == Quote(text)
  {
    var line := ">" + space + text;
    assert line[1..] == space + text;
    if text == "" {
      assert space + text == space;
    } else {
      LeadingSpacesAt(space, text);
    }
    assert LeadingRun(line, '#') == 0;
    assert LeadingSpaces(line) == 0;
    assert LeadingDigits(line[0..]) == 0;
  }

  /** A carriage return after a heading's text defeats the heading pattern, because `.` does
      not match it: such a line is a paragraph. */
  lemma HeadingWithCarriageReturn()
    ensures Classify("# Title\r") == Paragraph("# Title\r")
  {
    var line := "# Title\r";
    MatchedItemEndsClean(line);
    assert QuoteMatch(line).None?;
    FirstCharRulesOutRule(line);
  }

  /** A line whose first character is neither white space nor a rule character is no rule. */
  lemma FirstCharRulesOutRule(line: string)
    requires |line| > 0 && !IsSpace(line[0]) && !IsRuleChar(line[0])
    ensures !IsRule(line)
  {
    TrimKeepsFirst(line);
  }

  /** `.` matches no line terminator and the captured text ends the line, so a heading or a
      list item never ends in a line terminator. */
  lemma MatchedItemEndsClean(line: string)
    ensures HeadingMatch(line).Some? || BulletMatch(line).Some? || NumberedMatch(line).Some? ==>
      |line| > 0 && !IsLineTerminator(line[|line| - 1])
  {
    HeadingMatchShape(line);
    if HeadingMatch(line).Some? {
      CleanTextEndsClean(line, HeadingMatch(line).value.text);
    }
    BulletMatchShape(line);
    if BulletMatch(line).Some? {
      CleanTextEndsClean(line, BulletMatch(line).value.1);
    }
    NumberedMatchShape(line);
    if NumberedMatch(line).Some? {
      CleanTextEndsClean(line, NumberedMatch(line).value.2);
    }
  }

  lemma CleanTextEndsClean(line: string, t: string)
    requires 0 < |t| <= |line| && line[|line| - |t|..] == t && NoLineTerminator(t)
    ensures !IsLineTerminator(line[|line| - 1])
  {
    assert t[|t| - 1] == line[|line| - 1];
  }

  /** Three or more rule characters make a rule, but spaced dashes make a bullet item. */
  lemma DashesMakeRule()
    ensures Classify("---") == Rule
  {
    var line := "---";
    assert LeadingRun(line, '#') == 0;
    NoHeading(line);
    assert LeadingSpaces(line) == 0;
    assert line[1..] == "--" && LeadingSpaces("--") == 0;
    assert BulletMatch(line).None?;
    assert line[0..] == line && LeadingDigits(line) == 0;
    assert NumberedMatch(line).None?;
    assert TrimStart(line) == line;
    assert TrimEnd(line) == line;
    ClassifyRule(line);
  }

  lemma ClassifyRule(line: string)
    requires HeadingMatch(line).None? && BulletMatch(line).None? && NumberedMatch(line).None?
    requires QuoteMatch(line).None? && IsRule(line)
    ensures Classify(line) == Rule
  {
  }

  lemma SpacedDashesMakeBullet()
    ensures Classify("- - -") == Bullet(0, "- -")
  {
    BulletLine("", '-', " ", "- -");
    assert "" + ['-'] + " " + "- -" == "- - -";
  }
}
