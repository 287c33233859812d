/**
 * The chat endpoint's reply stream: newline-separated frames of which only
 * `data: {"type":"text-delta","delta":"…"}` contributes text. This is a loose
 * subset of the server-sent events format, not a conforming reader: it splits
 * on `\n` only, needs the exact prefix `data: ` after trimming, and reads no
 * other field.
 */
module StreamFrames {
  import opened Optional
  import opened Strings

  /** What `JSON.parse` makes of a payload, seen through the two members the parser
      reads: each is present only when it is a string. */
  datatype Frame = Frame(frameType: Option<string>, delta: Option<string>)

  /** `JSON.parse` (foreign): `None` when it throws or yields something without members. */
  type Decoder = string -> Option<Frame>

  const DataPrefix: string := "data: "

  /** `parseSSELine`: the delta text of one frame, or `None`. */
  function ParseSseLine(decode: Decoder, line: string): (r: Option<string>)
    ensures r.Some? ==> DataPrefix <= Trim(line)
    ensures r.Some? ==> decode(Trim(line)[|DataPrefix|..]) == Some(Frame(Some("text-delta"), r))
  {
    var trimmed := Trim(line);
    if !(DataPrefix <= trimmed) then None
    else
      match decode(trimmed[|DataPrefix|..])
      case Some(Frame(Some(t), Some(d))) => if t == "text-delta" then Some(d) else None
      case _ => None
  }

  /** The delta a line contributes after `.filter(Boolean)` / `if (delta)`: none for
      `null` and none for `""`. */
  function Kept(delta: Option<string>): (r: seq<string>)
    ensures |r| <= 1
  {
    if delta.Some? && delta.value != "" then [delta.value] else []
  }

  /** A per-line parser; the stream reader uses `SseLine(decode)`. */
  type LineParser = string -> Option<string>

  /** `parseSSELine` as a value, for the functions below that work for any line parser. */
  function SseLine(decode: Decoder): LineParser {
    line => ParseSseLine(decode, line)
  }

  /** The non-empty deltas `parse` finds in `lines`, in order. */
  function Deltas(parse: LineParser, lines: seq<string>): seq<string> {
    if |lines| == 0 then []
    else Deltas(parse, lines[..|lines| - 1]) + Kept(parse(lines[|lines| - 1]))
  }

  lemma {:induction false} DeltasNonEmpty(parse: LineParser, lines: seq<string>)
    ensures forall k :: 0 <= k < |Deltas(parse, lines)| ==> Deltas(parse, lines)[k] != ""
    decreases |lines|
  {
    if |lines| > 0 {
      DeltasNonEmpty(parse, lines[..|lines| - 1]);
    }
  }

  /** `parseSSEResponse`: split on newlines, parse each line, drop the empty results, join. */
  function ParseSseResponse(decode: Decoder, text: string): string {
    Concat(Deltas(SseLine(decode), Split(text, '\n')))
  }

  /** The lines of `text` that end in a newline (every piece but the last). */
  function CompleteLines(text: string): seq<string> {
    var pieces := Split(text, '\n');
    pieces[..|pieces| - 1]
  }

  /** The successive values of `fullContent` after each non-empty delta. */
  function RunningTotals(deltas: seq<string>): (r: seq<string>)
    ensures |r| == |deltas|
  {
    if |deltas| == 0 then [] else RunningTotals(deltas[..|deltas| - 1]) + [Concat(deltas)]
  }

  lemma {:induction false} DeltasAppend(parse: LineParser, a: seq<string>, b: seq<string>)
    ensures Deltas(parse, a + b) == Deltas(parse, a) + Deltas(parse, b)
    decreases |b|
  {
    if |b| == 0 {
      assert a + b == a;
    } else {
      var b' := b[..|b| - 1];
      assert (a + b)[..|a + b| - 1] == a + b';
      DeltasAppend(parse, a, b');
    }
  }

  lemma DeltasSnoc(parse: LineParser, lines: seq<string>, line: string)
    ensures Deltas(parse, lines + [line]) == Deltas(parse, lines) + Kept(parse(line))
  {
    assert (lines + [line])[..|lines|] == lines;
  }

  lemma RunningTotalsSnoc(deltas: seq<string>, d: string)
    ensures RunningTotals(deltas + [d]) == RunningTotals(deltas) + [Concat(deltas) + d]
    ensures Concat(deltas + [d]) == Concat(deltas) + d
  {
    assert (deltas + [d])[..|deltas|] == deltas;
  }

  // ---- the single-frame parser ----

  /** A line that does not start with `data: ` once trimmed never contributes, whatever the
      decoder would say. In particular `data:{…}` without the space is ignored. */
  lemma ParseSseLineNeedsPrefix(decode: Decoder, line: string)
    requires !(DataPrefix <= Trim(line))
    ensures ParseSseLine(decode, line) == None
  {
  }

  /** A `data: ` frame, with any white space around it, yields exactly the string `delta` of a
      `text-delta` object, and nothing for malformed JSON or any other object. */
  lemma ParseSseLineFrame(decode: Decoder, pre: string, payload: string, post: string)
    requires AllSpace(pre) && AllSpace(post)
    requires |payload| > 0 && !IsSpace(payload[|payload| - 1])
    ensures ParseSseLine(decode, pre + DataPrefix + payload + post)
         == if decode(payload).Some? && decode(payload).value.frameType == Some("text-delta")
            then decode(payload).value.delta else None
  {
    var x := DataPrefix + payload;
    assert pre + DataPrefix + payload + post == pre + x + post;
    TrimAround(pre, x, post);
    assert x[|DataPrefix|..] == payload;
  }

  /** A line that is not a data frame never contributes. */
  lemma NonDataLineIgnored(decode: Decoder)
    ensures ParseSseLine(decode, "not-a-data-line") == None
  {
    TrimAround("", "not-a-data-line", "");
    assert "" + "not-a-data-line" + "" == "not-a-data-line";
    assert "not-a-data-line"[0] != DataPrefix[0];
  }

  /** A frame of another type, and a malformed frame, never contribute. */
  lemma PingAndMalformedFramesIgnored(decode: Decoder, ping: string, malformed: string)
    requires |ping| > 0 && !IsSpace(ping[|ping| - 1]) && |malformed| > 0 && !IsSpace(malformed[|malformed| - 1])
    requires decode(ping) == Some(Frame(Some("ping"), None))
    requires decode(malformed) == None
    ensures ParseSseLine(decode, DataPrefix + ping) == None
    ensures ParseSseLine(decode, DataPrefix + malformed) == None
  {
    ParseSseLineFrame(decode, "", ping, "");
    assert "" + DataPrefix + ping + "" == DataPrefix + ping;
    ParseSseLineFrame(decode, "", malformed, "");
    assert "" + DataPrefix + malformed + "" == DataPrefix + malformed;
  }

  // ---- the whole-body parser ----

  lemma ParseSseResponseEmpty(decode: Decoder)
    ensures ParseSseResponse(decode, "") == ""
  {
  }

  /** One more line adds its delta, if any, at the end: deltas are never reordered. */
  lemma ParseSseResponseAddLine(decode: Decoder, text: string, line: string)
    requires '\n' !in line
    ensures ParseSseResponse(decode, text + "\n" + line)
         == ParseSseResponse(decode, text) + Concat(Kept(ParseSseLine(decode, line)))
  {
    SplitAddLine(text, line, '\n');
    DeltasSnoc(SseLine(decode), Split(text, '\n'), line);
    ConcatAppend(Deltas(SseLine(decode), Split(text, '\n')), Kept(ParseSseLine(decode, line)));
  }

  /** The trailing piece of a body completes what the complete lines gave. */
  lemma CompleteLinesPrefix(decode: Decoder, text: string)
    ensures Concat(Deltas(SseLine(decode), CompleteLines(text))) <= ParseSseResponse(decode, text)
  {
    var p := Split(text, '\n');
    assert p == CompleteLines(text) + [p[|p| - 1]];
    ConcatAppend(Deltas(SseLine(decode), CompleteLines(text)), Kept(ParseSseLine(decode, p[|p| - 1])));
  }

  /** Every published value is a proper prefix of the next one and a prefix of the total. */
  lemma {:induction false} RunningTotalsArePrefixes(deltas: seq<string>)
    requires forall k :: 0 <= k < |deltas| ==> deltas[k] != ""
    ensures forall i :: 0 <= i < |deltas| ==> RunningTotals(deltas)[i] <= Concat(deltas)
    ensures forall i, j :: 0 <= i < j < |deltas| ==> RunningTotals(deltas)[i] < RunningTotals(deltas)[j]
    decreases |deltas|
  {
    if |deltas| > 0 {
      var front := deltas[..|deltas| - 1];
      RunningTotalsArePrefixes(front);
      var r := RunningTotals(deltas);
      assert r == RunningTotals(front) + [Concat(deltas)];
      assert Concat(deltas) == Concat(front) + deltas[|deltas| - 1];
      forall i | 0 <= i < |deltas| ensures r[i] <= Concat(deltas) {
        if i < |front| {
          PrefixTransitive(r[i], Concat(front), Concat(deltas));
        }
      }
      forall i, j | 0 <= i < j < |deltas| ensures r[i] < r[j] {
        if j == |front| {
          PrefixTransitive(r[i], Concat(front), Concat(deltas));
        }
      }
    }
  }

  lemma PrefixTransitive(a: string, b: string, c: string)
    requires a <= b && b <= c
    ensures a <= c
  {
    assert c[..|b|] == b;
    assert b[..|a|] == a;
    assert c[..|a|] == c[..|b|][..|a|];
  }

  /** `parseSSELine("")` is `null`, so an empty residual buffer adds nothing. */
  lemma EmptyLineContributesNothing(decode: Decoder)
    ensures Kept(ParseSseLine(decode, "")) == []
  {
  }

  // ---- the streaming read loop ----

  /**
   * The buffered read loop of the streaming path: append each already-decoded chunk to
   * `buffer`, parse every complete line, keep the partial last line, and at the end parse
   * what is left (without publishing it). `published` records the arguments of
   * `setStreamingContent`, in call order. However the body was cut into chunks, the result
   * is what `ParseSseResponse` makes of the whole body.
   */
  method ReadStream(decode: Decoder, chunks: seq<string>) returns (fullContent: string, published: seq<string>)
    ensures fullContent == ParseSseResponse(decode, Concat(chunks))
    ensures published == RunningTotals(Deltas(SseLine(decode), CompleteLines(Concat(chunks))))
    ensures forall i :: 0 <= i < |published| ==> published[i] <= fullContent
    ensures forall i, j :: 0 <= i < j < |published| ==> published[i] < published[j]
  {
    var buffer := "";
    fullContent := "";
    published := [];
    ghost var done: seq<string> := [];
    var k := 0;
    while k < |chunks|
      invariant 0 <= k <= |chunks|
      invariant Split(Concat(chunks[..k]), '\n') == done + [buffer]
      invariant fullContent == Concat(Deltas(SseLine(decode), done))
      invariant published == RunningTotals(Deltas(SseLine(decode), done))
    {
      StreamStep(chunks, k, done, buffer);
      buffer := buffer + chunks[k];
      var lines := Split(buffer, '\n');
      buffer := lines[|lines| - 1];
      fullContent, published := ParseLines(SseLine(decode), lines[..|lines| - 1], done, fullContent, published);
      done := done + lines[..|lines| - 1];
      k := k + 1;
    }
    assert chunks[..k] == chunks;
    StreamEnd(decode, Concat(chunks), done, buffer);
    DeltasNonEmpty(SseLine(decode), done);
    RunningTotalsArePrefixes(Deltas(SseLine(decode), done));
    ghost var streamed := fullContent;
    fullContent := FlushBuffer(decode, buffer, fullContent);
    forall i | 0 <= i < |published| ensures published[i] <= fullContent {
      PrefixTransitive(published[i], streamed, fullContent);
    }
  }

  /** `if (buffer) { … }` after the loop: the residual buffer is parsed as one more line, unpublished. */
  method FlushBuffer(decode: Decoder, buffer: string, content: string) returns (fullContent: string)
    ensures fullContent == content + Concat(Kept(ParseSseLine(decode, buffer)))
    ensures content <= fullContent
  {
    fullContent := content;
    if buffer != "" {
      var delta := ParseSseLine(decode, buffer);
      if delta.Some? && delta.value != "" {
        fullContent := fullContent + delta.value;
      }
    }
    assert Concat(Kept(ParseSseLine(decode, buffer))) == fullContent[|content|..];
  }

  /**
   * The `for (const line of lines)` loop over the complete lines of one chunk: each text
   * delta is appended to `fullContent`, and the new running value is published.
   */
  method ParseLines(parse: LineParser, lines: seq<string>, ghost done: seq<string>, content: string, shown: seq<string>)
    returns (fullContent: string, published: seq<string>)
    requires content == Concat(Deltas(parse, done))
    requires shown == RunningTotals(Deltas(parse, done))
    ensures fullContent == Concat(Deltas(parse, done + lines))
    ensures published == RunningTotals(Deltas(parse, done + lines))
  {
    fullContent, published := content, shown;
    ghost var seen := done;
    var j := 0;
    while j < |lines|
      invariant 0 <= j <= |lines|
      invariant seen == done + lines[..j]
      invariant fullContent == Concat(Deltas(parse, seen))
      invariant published == RunningTotals(Deltas(parse, seen))
    {
      PrefixSnoc(done, lines, j);
      var delta := parse(lines[j]);
      if delta.Some? && delta.value != "" {
        LineAddsDelta(parse, seen, lines[j]);
        fullContent := fullContent + delta.value;
        published := published + [fullContent];
      } else {
        LineAddsNothing(parse, seen, lines[j]);
      }
      seen := seen + [lines[j]];
      j := j + 1;
    }
    assert lines[..j] == lines;
  }

  lemma PrefixSnoc(done: seq<string>, lines: seq<string>, j: nat)
    requires j < |lines|
    ensures done + lines[..j + 1] == (done + lines[..j]) + [lines[j]]
  {
    assert lines[..j + 1] == lines[..j] + [lines[j]];
  }

  lemma LineAddsDelta(parse: LineParser, seen: seq<string>, line: string)
    requires parse(line).Some? && parse(line).value != ""
    ensures var total := Concat(Deltas(parse, seen)) + parse(line).value;
      Concat(Deltas(parse, seen + [line])) == total
      && RunningTotals(Deltas(parse, seen + [line])) == RunningTotals(Deltas(parse, seen)) + [total]
  {
    DeltasSnoc(parse, seen, line);
    RunningTotalsSnoc(Deltas(parse, seen), parse(line).value);
  }

  lemma LineAddsNothing(parse: LineParser, seen: seq<string>, line: string)
    requires !(parse(line).Some? && parse(line).value != "")
    ensures Deltas(parse, seen + [line]) == Deltas(parse, seen)
  {
    DeltasSnoc(parse, seen, line);
    assert Deltas(parse, seen) + [] == Deltas(parse, seen);
  }

  /** One chunk of the loop: the buffer plus the chunk splits into new complete lines and a new buffer. */
  lemma StreamStep(chunks: seq<string>, k: nat, done: seq<string>, buffer: string)
    requires k < |chunks|
    requires Split(Concat(chunks[..k]), '\n') == done + [buffer]
    ensures var lines := Split(buffer + chunks[k], '\n');
      Split(Concat(chunks[..k + 1]), '\n') == (done + lines[..|lines| - 1]) + [lines[|lines| - 1]]
  {
    ConcatSnoc(chunks, k);
    SplitAppend(Concat(chunks[..k]), chunks[k], '\n');
    InitAndLast(done, buffer, Split(buffer + chunks[k], '\n'));
  }

  lemma InitAndLast(done: seq<string>, buffer: string, lines: seq<string>)
    requires |lines| >= 1
    ensures (done + [buffer])[..|done|] == done && (done + [buffer])[|done|] == buffer
    ensures done + lines == (done + lines[..|lines| - 1]) + [lines[|lines| - 1]]
  {
    assert lines == lines[..|lines| - 1] + [lines[|lines| - 1]];
  }

  /** At the end of the stream the residual buffer is the last piece of the body. */
  lemma StreamEnd(decode: Decoder, body: string, done: seq<string>, buffer: string)
    requires Split(body, '\n') == done + [buffer]
    ensures CompleteLines(body) == done
    ensures ParseSseResponse(decode, body) == Concat(Deltas(SseLine(decode), done)) + Concat(Kept(ParseSseLine(decode, buffer)))
    ensures buffer == "" ==> Kept(ParseSseLine(decode, buffer)) == []
  {
    CompleteLinesOfSplit(body, done, buffer);
    DeltasSnoc(SseLine(decode), done, buffer);
    ConcatAppend(Deltas(SseLine(decode), done), Kept(ParseSseLine(decode, buffer)));
  }

  lemma CompleteLinesOfSplit(body: string, done: seq<string>, buffer: string)
    requires Split(body, '\n') == done + [buffer]
    ensures CompleteLines(body) == done
  {
    assert (done + [buffer])[..|done|] == done;
  }
}
