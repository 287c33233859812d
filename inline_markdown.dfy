/**
 * `parseInline`: the inline layer of the chat's markdown subset. The source scans a line
 * with one global regular expression whose alternatives are, in this order, inline code
 * `` `x` ``, bold `**x**`, italic `*x*`, italic `_x_` and a link `[t](u)`; each
 * `exec` reports the leftmost position where some alternative matches, and among the
 * alternatives matching there the first one. The text between matches becomes plain text.
 * Here the regular expression is replaced by `MatchAt` (one position, alternatives in
 * order) and the scan by `Scan`; `ParseInline` is the loop.
 */
module InlineMarkdown {
  import opened Optional
  import Seqs

  /** Which character delimited an italic span. The source's italic node does not record it;
      it is kept here so that a node can be turned back into the text it came from. */
  datatype Delimiter = Asterisk | Underscore

  datatype MdNode =
    | Plain(text: string)
    | Bold(text: string)
    | Italic(text: string, delimiter: Delimiter)
    | Code(text: string)
    | Link(text: string, url: string)

  /** One match of the regular expression: the node it yields and where it ends. */
  datatype Match = Match(node: MdNode, end: nat)

  /** The first position at or after `from` holding `c`. */
  function FindFrom(s: string, c: char, from: nat): (r: Option<nat>)
    ensures r.Some? ==> from <= r.value < |s| && s[r.value] == c
    ensures r.Some? ==> forall k :: from <= k < r.value ==> s[k] != c
    ensures r.None? ==> forall k :: from <= k < |s| ==> s[k] != c
    decreases |s| - from
  {
    if from >= |s| then None
    else if s[from] == c then Some(from)
    else FindFrom(s, c, from + 1)
  }

  /** `[^c]+c` starting at `from`: the position of the closing `c`, which must be the first
      `c` and must leave at least one character before it. */
  function Closing(s: string, from: nat, c: char): (r: Option<nat>)
    ensures r.Some? ==> from < r.value < |s| && s[r.value] == c
    ensures r.Some? ==> forall k :: from <= k < r.value ==> s[k] != c
    ensures r.None? ==> (from < |s| && s[from] == c) || forall k :: from <= k < |s| ==> s[k] != c
  {
    match FindFrom(s, c, from)
    case Some(q) => if q > from then Some(q) else None
    case None => None
  }

  /** `` `[^`]+` `` at `p`. */
  function CodeAt(s: string, p: nat): (r: Option<Match>)
    ensures r.Some? ==> p < r.value.end <= |s| && s[p..r.value.end] == Render(r.value.node)
    ensures r.Some? ==> WellFormed(r.value.node) && !r.value.node.Plain?
  {
    if p < |s| && s[p] == '`' then
      match Closing(s, p + 1, '`')
      case Some(q) =>
        assert s[p..q + 1] == "`" + s[p + 1..q] + "`";
        Some(Match(Code(s[p + 1..q]), q + 1))
      case None => None
    else None
  }

  /** `\*\*[^*]+\*\*` at `p`. */
  function BoldAt(s: string, p: nat): (r: Option<Match>)
    ensures r.Some? ==> p < r.value.end <= |s| && s[p..r.value.end] == Render(r.value.node)
    ensures r.Some? ==> WellFormed(r.value.node) && !r.value.node.Plain?
  {
    if p + 1 < |s| && s[p] == '*' && s[p + 1] == '*' then
      match Closing(s, p + 2, '*')
      case Some(q) =>
        if q + 1 < |s| && s[q + 1] == '*' then
          assert s[p..q + 2] == "**" + s[p + 2..q] + "**";
          Some(Match(Bold(s[p + 2..q]), q + 2))
        else None
      case None => None
    else None
  }

  /** `\*[^*]+\*` or `_[^_]+_` at `p`. */
  function ItalicAt(s: string, p: nat, d: Delimiter): (r: Option<Match>)
    ensures r.Some? ==> p < r.value.end <= |s| && s[p..r.value.end] == Render(r.value.node)
    ensures r.Some? ==> WellFormed(r.value.node) && !r.value.node.Plain?
  {
    var c := DelimiterChar(d);
    if p < |s| && s[p] == c then
      match Closing(s, p + 1, c)
      case Some(q) =>
        assert s[p..q + 1] == [c] + s[p + 1..q] + [c];
        Some(Match(Italic(s[p + 1..q], d), q + 1))
      case None => None
    else None
  }

  function DelimiterChar(d: Delimiter): char {
    match d
    case Asterisk => '*'
    case Underscore => '_'
  }

  /** `\[([^\]]+)\]\(([^)]+)\)` at `p`. */
  function LinkAt(s: string, p: nat): (r: Option<Match>)
    ensures r.Some? ==> p < r.value.end <= |s| && s[p..r.value.end] == Render(r.value.node)
    ensures r.Some? ==> WellFormed(r.value.node) && !r.value.node.Plain?
  {
    if p < |s| && s[p] == '[' then
      match Closing(s, p + 1, ']')
      case Some(q1) =>
        if q1 + 1 < |s| && s[q1 + 1] == '(' then
          match Closing(s, q1 + 2, ')')
          case Some(q2) =>
            assert s[p..q2 + 1] == "[" + s[p + 1..q1] + "](" + s[q1 + 2..q2] + ")";
            Some(Match(Link(s[p + 1..q1], s[q1 + 2..q2]), q2 + 1))
          case None => None
        else None
      case None => None
    else None
  }

  /** The regular expression at one position: the first alternative that matches. */
  function MatchAt(s: string, p: nat): (r: Option<Match>)
    ensures r.Some? ==> p < r.value.end <= |s| && s[p..r.value.end] == Render(r.value.node)
    ensures r.Some? ==> WellFormed(r.value.node) && !r.value.node.Plain?
  {
    var code := CodeAt(s, p);
    if code.Some? then code
    else
      var bold := BoldAt(s, p);
      if bold.Some? then bold
      else
        var star := ItalicAt(s, p, Asterisk);
        if star.Some? then star
        else
          var under := ItalicAt(s, p, Underscore);
          if under.Some? then under
          else LinkAt(s, p)
  }

  // ---------------------------------------------------------------------------
  // The alternatives as patterns, independently of the matchers
  // ---------------------------------------------------------------------------

  /** `` `[^`]+` `` spans `s[p..q + 1]`. */
  predicate CodeSpan(s: string, p: nat, q: nat) {
    p + 1 < q < |s| && s[p] == '`' && s[q] == '`' && forall k :: p < k < q ==> s[k] != '`'
  }

  /** `\*\*[^*]+\*\*` spans `s[p..q + 2]`. */
  predicate BoldSpan(s: string, p: nat, q: nat) {
    p + 2 < q && q + 1 < |s| && s[p] == '*' && s[p + 1] == '*' && s[q] == '*' && s[q + 1] == '*' &&
    forall k :: p + 2 <= k < q ==> s[k] != '*'
  }

  /** `\*[^*]+\*` or `_[^_]+_` spans `s[p..q + 1]`. */
  predicate ItalicSpan(s: string, p: nat, q: nat, d: Delimiter) {
    var c := DelimiterChar(d);
    p + 1 < q < |s| && s[p] == c && s[q] == c && forall k :: p < k < q ==> s[k] != c
  }

  /** `\[([^\]]+)\]\(([^)]+)\)` spans `s[p..q2 + 1]`, with `]` at `q1`. */
  predicate LinkSpan(s: string, p: nat, q1: nat, q2: nat) {
    p + 1 < q1 && q1 + 2 < q2 < |s| && s[p] == '[' && s[q1] == ']' && s[q1 + 1] == '(' && s[q2] == ')' &&
    (forall k :: p < k < q1 ==> s[k] != ']') && (forall k :: q1 + 2 <= k < q2 ==> s[k] != ')')
  }

  /** Every code span is found, with the text between the backticks. */
  lemma CodeAtComplete(s: string, p: nat, q: nat)
    requires CodeSpan(s, p, q)
    ensures CodeAt(s, p) == Some(Match(Code(s[p + 1..q]), q + 1))
  {
  }

  /** Every bold span is found, with the text between the `**` pairs. */
  lemma BoldAtComplete(s: string, p: nat, q: nat)
    requires BoldSpan(s, p, q)
    ensures BoldAt(s, p) == Some(Match(Bold(s[p + 2..q]), q + 2))
  {
  }

  /** Every italic span is found, with its delimiter and inner text. */
  lemma ItalicAtComplete(s: string, p: nat, q: nat, d: Delimiter)
    requires ItalicSpan(s, p, q, d)
    ensures ItalicAt(s, p, d) == Some(Match(Italic(s[p + 1..q], d), q + 1))
  {
  }

  /** Every link span is found, with its text and url. */
  lemma LinkAtComplete(s: string, p: nat, q1: nat, q2: nat)
    requires LinkSpan(s, p, q1, q2)
    ensures LinkAt(s, p) == Some(Match(Link(s[p + 1..q1], s[q1 + 2..q2]), q2 + 1))
  {
  }

  /**
   * At one position at most one alternative matches: the opening characters
   * differ, and `*[^*]+*` cannot start where `**` does. So taking the first
   * alternative that matches is taking the one that matches.
   */
  lemma AlternativesExclusive(s: string, p: nat, q: nat, q': nat)
    ensures !(BoldSpan(s, p, q) && ItalicSpan(s, p, q', Asterisk))
  {
  }

  /** `MatchAt` yields the node of whichever alternative spans the text at `p`. */
  lemma MatchAtComplete(s: string, p: nat, q: nat)
    ensures CodeSpan(s, p, q) ==> MatchAt(s, p) == Some(Match(Code(s[p + 1..q]), q + 1))
    ensures BoldSpan(s, p, q) ==> MatchAt(s, p) == Some(Match(Bold(s[p + 2..q]), q + 2))
    ensures ItalicSpan(s, p, q, Asterisk) ==> MatchAt(s, p) == Some(Match(Italic(s[p + 1..q], Asterisk), q + 1))
    ensures ItalicSpan(s, p, q, Underscore) ==> MatchAt(s, p) == Some(Match(Italic(s[p + 1..q], Underscore), q + 1))
  {
    if CodeSpan(s, p, q) {
      CodeAtComplete(s, p, q);
    } else if BoldSpan(s, p, q) {
      BoldAtComplete(s, p, q);
    } else if ItalicSpan(s, p, q, Asterisk) {
      ItalicAtComplete(s, p, q, Asterisk);
    } else if ItalicSpan(s, p, q, Underscore) {
      ItalicAtComplete(s, p, q, Underscore);
    }
  }

  /** `MatchAt` yields the link that spans the text at `p`. */
  lemma MatchAtLink(s: string, p: nat, q1: nat, q2: nat)
    requires LinkSpan(s, p, q1, q2)
    ensures MatchAt(s, p) == Some(Match(Link(s[p + 1..q1], s[q1 + 2..q2]), q2 + 1))
  {
    LinkAtComplete(s, p, q1, q2);
  }

  /** `MatchAt` finds nothing exactly where no alternative spans any text from `p`. */
  lemma MatchAtNone(s: string, p: nat)
    requires MatchAt(s, p).None?
    ensures forall q :: !CodeSpan(s, p, q) && !BoldSpan(s, p, q)
    ensures forall q :: !ItalicSpan(s, p, q, Asterisk) && !ItalicSpan(s, p, q, Underscore)
    ensures forall q1, q2 :: !LinkSpan(s, p, q1, q2)
  {
    forall q ensures !CodeSpan(s, p, q) && !BoldSpan(s, p, q) {
      MatchAtComplete(s, p, q);
    }
    forall q ensures !ItalicSpan(s, p, q, Asterisk) && !ItalicSpan(s, p, q, Underscore) {
      MatchAtComplete(s, p, q);
    }
    forall q1, q2 | LinkSpan(s, p, q1, q2) ensures false {
      MatchAtLink(s, p, q1, q2);
    }
  }

  /** The text a node stands for, delimiters included. */
  function Render(n: MdNode): string {
    match n
    case Plain(t) => t
    case Bold(t) => "**" + t + "**"
    case Italic(t, d) => [DelimiterChar(d)] + t + [DelimiterChar(d)]
    case Code(t) => "`" + t + "`"
    case Link(t, u) => "[" + t + "](" + u + ")"
  }

  function RenderAll(nodes: seq<MdNode>): string {
    if |nodes| == 0 then "" else Render(nodes[0]) + RenderAll(nodes[1..])
  }

  /** Inner texts are non-empty and free of their own closing delimiter. */
  predicate WellFormed(n: MdNode) {
    match n
    case Plain(t) => t != ""
    case Bold(t) => t != "" && '*' !in t
    case Italic(t, d) => t != "" && DelimiterChar(d) !in t
    case Code(t) => t != "" && '`' !in t
    case Link(t, u) => t != "" && ']' !in t && u != "" && ')' !in u
  }

  /** The plain text between the end of the last match and the next one, if any. */
  function Gap(s: string, last: nat, p: nat): (r: seq<MdNode>)
    requires last <= p <= |s|
  {
    if last < p then [Plain(s[last..p])] else []
  }

  /**
   * The nodes of `s` when the previous match ended at `last` and positions `last` up to
   * `pos` hold no match.
   */
  function Scan(s: string, last: nat, pos: nat): seq<MdNode>
    requires last <= pos <= |s|
    decreases |s| - pos
  {
    if pos == |s| then Gap(s, last, pos)
    else
      match MatchAt(s, pos)
      case None => Scan(s, last, pos + 1)
      case Some(m) => Gap(s, last, pos) + [m.node] + Scan(s, m.end, m.end)
  }

  function Inline(s: string): seq<MdNode> {
    Scan(s, 0, 0)
  }

  /** `parseInline`: the `regex.exec` loop, one position tried at a time. */
  method ParseInline(line: string) returns (nodes: seq<MdNode>)
    ensures nodes == Inline(line)
  {
    nodes := [];
    var lastIndex: nat := 0;
    var pos: nat := 0;
    while pos < |line|
      invariant lastIndex <= pos <= |line|
      invariant nodes + Scan(line, lastIndex, pos) == Inline(line)
      decreases |line| - pos
    {
      var m := MatchAt(line, pos);
      if m.Some? {
        ParseAtMatch(line, nodes, lastIndex, pos);
        if pos > lastIndex {
          nodes := nodes + [Plain(line[lastIndex..pos])];
        }
        nodes := nodes + [m.value.node];
        lastIndex := m.value.end;
        pos := m.value.end;
      } else {
        ParseNoMatch(line, nodes, lastIndex, pos);
        pos := pos + 1;
      }
    }
    ParseAtEnd(line, nodes, lastIndex);
    if lastIndex < |line| {
      nodes := nodes + [Plain(line[lastIndex..])];
    }
  }

  /** One match: the text before it, if any, and its node are emitted; scanning resumes
      where it ends. */
  lemma ParseAtMatch(line: string, nodes: seq<MdNode>, last: nat, pos: nat)
    requires last <= pos < |line| && MatchAt(line, pos).Some?
    requires nodes + Scan(line, last, pos) == Inline(line)
    ensures var m := MatchAt(line, pos).value;
      var emitted := if pos > last then nodes + [Plain(line[last..pos])] else nodes;
      emitted + [m.node] + Scan(line, m.end, m.end) == Inline(line)
  {
    var m := MatchAt(line, pos).value;
    ScanAtMatch(line, last, pos);
    var g := Gap(line, last, pos);
    Seqs.AppendAssoc(nodes, g + [m.node], Scan(line, m.end, m.end));
    Seqs.AppendAssoc(nodes, g, [m.node]);
    assert g == [] ==> nodes + g == nodes;
  }

  lemma ParseNoMatch(line: string, nodes: seq<MdNode>, last: nat, pos: nat)
    requires last <= pos < |line| && MatchAt(line, pos).None?
    requires nodes + Scan(line, last, pos) == Inline(line)
    ensures nodes + Scan(line, last, pos + 1) == Inline(line)
  {
  }

  /** At the end of the line the text after the last match, if any, is emitted. */
  lemma ParseAtEnd(line: string, nodes: seq<MdNode>, last: nat)
    requires last <= |line|
    requires nodes + Scan(line, last, |line|) == Inline(line)
    ensures (if last < |line| then nodes + [Plain(line[last..])] else nodes) == Inline(line)
  {
    assert line[last..] == line[last..|line|];
    assert nodes + [] == nodes;
  }

  // ---- properties ----

  lemma ScanAtMatch(s: string, last: nat, pos: nat)
    requires last <= pos < |s| && MatchAt(s, pos).Some?
    ensures Scan(s, last, pos) == Gap(s, last, pos) + [MatchAt(s, pos).value.node]
                                  + Scan(s, MatchAt(s, pos).value.end, MatchAt(s, pos).value.end)
  {
  }

  lemma {:induction false} RenderAllAppend(a: seq<MdNode>, b: seq<MdNode>)
    ensures RenderAll(a + b) == RenderAll(a) + RenderAll(b)
    decreases |a|
  {
    if |a| == 0 {
      assert a + b == b;
    } else {
      assert (a + b)[1..] == a[1..] + b;
      RenderAllAppend(a[1..], b);
    }
  }

  lemma {:induction false} ScanRenders(s: string, last: nat, pos: nat)
    requires last <= pos <= |s|
    ensures RenderAll(Scan(s, last, pos)) == s[last..]
    decreases |s| - pos
  {
    if pos == |s| {
      assert s[last..] == s[last..pos];
    } else if MatchAt(s, pos).None? {
      ScanRenders(s, last, pos + 1);
    } else {
      var m := MatchAt(s, pos).value;
      ScanAtMatch(s, last, pos);
      ScanRenders(s, m.end, m.end);
      RenderThree(Gap(s, last, pos), m.node, Scan(s, m.end, m.end));
      GapRenders(s, last, pos);
      Seqs.SliceThree(s, last, pos, m.end);
    }
  }

  lemma RenderThree(g: seq<MdNode>, node: MdNode, rest: seq<MdNode>)
    ensures RenderAll(g + [node] + rest) == RenderAll(g) + Render(node) + RenderAll(rest)
  {
    RenderAllAppend(g + [node], rest);
    RenderAllAppend(g, [node]);
    RenderSingle(node);
  }

  lemma RenderSingle(node: MdNode)
    ensures RenderAll([node]) == Render(node)
  {
    assert RenderAll([node]) == Render(node) + RenderAll([]);
  }

  lemma GapRenders(s: string, last: nat, pos: nat)
    requires last <= pos <= |s|
    ensures RenderAll(Gap(s, last, pos)) == s[last..pos]
  {
  }

  /** Turning every node back into its delimited text and joining them gives the line. */
  lemma InlineRoundTrip(s: string)
    ensures RenderAll(Inline(s)) == s
  {
    ScanRenders(s, 0, 0);
  }

  predicate NoAdjacentPlain(nodes: seq<MdNode>) {
    forall i :: 0 <= i < |nodes| - 1 ==> !(nodes[i].Plain? && nodes[i + 1].Plain?)
  }

  lemma {:induction false} ScanShape(s: string, last: nat, pos: nat)
    requires last <= pos <= |s|
    ensures NoAdjacentPlain(Scan(s, last, pos))
    ensures forall i :: 0 <= i < |Scan(s, last, pos)| ==> WellFormed(Scan(s, last, pos)[i])
    decreases |s| - pos
  {
    if pos == |s| {
    } else {
      match MatchAt(s, pos)
      case None =>
        ScanShape(s, last, pos + 1);
      case Some(m) =>
        ScanShape(s, m.end, m.end);
        var g := Gap(s, last, pos);
        var rest := Scan(s, m.end, m.end);
        var r := g + [m.node] + rest;
        forall i | 0 <= i < |r| - 1 ensures !(r[i].Plain? && r[i + 1].Plain?) {
          if i >= |g| + 1 {
            assert r[i] == rest[i - |g| - 1] && r[i + 1] == rest[i - |g|];
          }
        }
        forall i | 0 <= i < |r| ensures WellFormed(r[i]) {
          if i >= |g| + 1 {
            assert r[i] == rest[i - |g| - 1];
          }
        }
    }
  }

  /** Plain text never comes in two consecutive nodes, and every inner text is non-empty and
      free of its delimiter. */
  lemma InlineShape(s: string)
    ensures NoAdjacentPlain(Inline(s))
    ensures forall i :: 0 <= i < |Inline(s)| ==> WellFormed(Inline(s)[i])
  {
    ScanShape(s, 0, 0);
  }

  lemma {:induction false} ScanLeftmost(s: string, last: nat, pos: nat)
    requires last <= pos <= |s|
    requires forall k :: last <= k < pos ==> MatchAt(s, k).None?
    ensures var r := Scan(s, last, pos);
      |r| > 0 && r[0].Plain? ==> forall k :: last <= k < last + |r[0].text| ==> MatchAt(s, k).None?
    ensures var r := Scan(s, last, pos);
      |r| > 0 && !r[0].Plain? ==> MatchAt(s, last).Some? && MatchAt(s, last).value.node == r[0]
    decreases |s| - pos
  {
    if pos < |s| {
      if MatchAt(s, pos).None? {
        ScanLeftmost(s, last, pos + 1);
      } else {
        ScanLeftmostAtMatch(s, last, pos);
      }
    }
  }

  lemma ScanLeftmostAtMatch(s: string, last: nat, pos: nat)
    requires last <= pos < |s| && MatchAt(s, pos).Some?
    requires forall k :: last <= k < pos ==> MatchAt(s, k).None?
    ensures var r := Scan(s, last, pos);
      |r| > 0 && r[0].Plain? ==> forall k :: last <= k < last + |r[0].text| ==> MatchAt(s, k).None?
    ensures var r := Scan(s, last, pos);
      |r| > 0 && !r[0].Plain? ==> MatchAt(s, last).Some? && MatchAt(s, last).value.node == r[0]
  {
    ScanAtMatch(s, last, pos);
    var m := MatchAt(s, pos).value;
    var rest := Scan(s, m.end, m.end);
    if last < pos {
      assert Scan(s, last, pos) == [Plain(s[last..pos])] + [m.node] + rest;
    } else {
      assert Scan(s, last, pos) == [] + [m.node] + rest;
    }
  }

  /** The scan is leftmost: leading plain text holds no position where some alternative
      matches, and a leading markup node is the match at position 0. */
  lemma InlineLeftmost(s: string)
    ensures var r := Inline(s);
      |r| > 0 && r[0].Plain? ==> forall k :: 0 <= k < |r[0].text| ==> MatchAt(s, k).None?
    ensures var r := Inline(s);
      |r| > 0 && !r[0].Plain? ==> MatchAt(s, 0).Some? && MatchAt(s, 0).value.node == r[0]
  {
    ScanLeftmost(s, 0, 0);
  }

  /** A line without any of the five opening characters is one plain node, or none. */
  lemma {:induction false} ScanWithoutMarkup(s: string, last: nat, pos: nat)
    requires last <= pos <= |s|
    requires forall k :: pos <= k < |s| ==> s[k] !in "`*_["
    ensures Scan(s, last, pos) == Gap(s, last, |s|)
    decreases |s| - pos
  {
    if pos < |s| {
      ScanWithoutMarkup(s, last, pos + 1);
    }
  }

  lemma InlineWithoutMarkup(s: string)
    requires forall k :: 0 <= k < |s| ==> s[k] !in "`*_["
    ensures Inline(s) == (if s == "" then [] else [Plain(s)])
  {
    ScanWithoutMarkup(s, 0, 0);
    assert s[0..|s|] == s;
  }

  /** Bold wins over italic at the same position; an unclosed `**` falls back to italic when
      a lone `*` closes it. */
  lemma BoldBeforeItalic()
    ensures MatchAt("**a**", 0) == Some(Match(Bold("a"), 5))
    ensures MatchAt("**a*", 0) == None
    ensures MatchAt("*a*", 0) == Some(Match(Italic("a", Asterisk), 3))
  {
    assert Closing("**a**", 2, '*') == Some(3);
    assert "**a**"[2..3] == "a";
    assert BoldAt("**a**", 0) == Some(Match(Bold("a"), 5));
    assert Closing("**a*", 2, '*') == Some(3);
    assert BoldAt("**a*", 0) == None;
    assert Closing("**a*", 1, '*') == None;
    assert ItalicAt("**a*", 0, Asterisk) == None;
    assert Closing("*a*", 1, '*') == Some(2);
    assert "*a*"[1..2] == "a";
    assert BoldAt("*a*", 0) == None;
    assert ItalicAt("*a*", 0, Asterisk) == Some(Match(Italic("a", Asterisk), 3));
  }

  /** Code wins over everything inside it: markup between backticks is not parsed. */
  lemma CodeBeforeBold()
    ensures MatchAt("`**x**`", 0) == Some(Match(Code("**x**"), 7))
  {
    assert FindFrom("`**x**`", '`', 6) == Some(6);
    assert Closing("`**x**`", 1, '`') == Some(6);
    assert "`**x**`"[1..6] == "**x**";
    assert CodeAt("`**x**`", 0) == Some(Match(Code("**x**"), 7));
  }

  /** A link needs its `(` right after the `]` and a non-empty url. */
  lemma LinkShape()
    ensures MatchAt("[a](b)", 0) == Some(Match(Link("a", "b"), 6))
    ensures MatchAt("[a] (b)", 0) == None
    ensures MatchAt("[a]()", 0) == None
  {
    assert Closing("[a](b)", 1, ']') == Some(2);
    assert Closing("[a](b)", 4, ')') == Some(5);
    assert "[a](b)"[1..2] == "a" && "[a](b)"[4..5] == "b";
    assert LinkAt("[a](b)", 0) == Some(Match(Link("a", "b"), 6));
    assert Closing("[a] (b)", 1, ']') == Some(2);
    assert Closing("[a]()", 1, ']') == Some(2);
    assert Closing("[a]()", 4, ')') == None;
  }
}
