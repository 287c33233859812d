/**
 * The few JavaScript string primitives the core relies on, over `seq<char>`:
 * white space as `\s` and `trim` see it, `split` on one character, `join`,
 * `includes`, ASCII `toLowerCase`, and the decimal form of a number.
 */
module Strings {

  /** ECMAScript WhiteSpace and LineTerminator code points: what `\s` matches and `trim` removes. */
  predicate IsSpace(c: char) {
    c == '\t' || c == '\n' || c == '\U{000B}' || c == '\U{000C}' || c == '\r' || c == ' '
    || c == '\U{00A0}' || c == '\U{1680}' || ('\U{2000}' <= c <= '\U{200A}')
    || c == '\U{2028}' || c == '\U{2029}' || c == '\U{202F}' || c == '\U{205F}'
    || c == '\U{3000}' || c == '\U{FEFF}'
  }

  /** The characters a regular expression `.` (without the `s` flag) does not match. */
  predicate IsLineTerminator(c: char) {
    c == '\n' || c == '\r' || c == '\U{2028}' || c == '\U{2029}'
  }

  predicate AllSpace(s: string) {
    forall k :: 0 <= k < |s| ==> IsSpace(s[k])
  }

  predicate NoLineTerminator(s: string) {
    forall k :: 0 <= k < |s| ==> !IsLineTerminator(s[k])
  }

  /** Number of leading white-space characters: the length of what `^\s*` matches. */
  function LeadingSpaces(s: string): (n: nat)
    ensures n <= |s|
    ensures n < |s| ==> !IsSpace(s[n])
  {
    if |s| > 0 && IsSpace(s[0]) then 1 + LeadingSpaces(s[1..]) else 0
  }

  /** Everything `LeadingSpaces` counts is white space. */
  lemma {:induction false} LeadingSpacesAreSpace(s: string)
    ensures AllSpace(s[..LeadingSpaces(s)])
    decreases |s|
  {
    if |s| > 0 && IsSpace(s[0]) {
      LeadingSpacesAreSpace(s[1..]);
      var n := LeadingSpaces(s);
      assert forall k :: 1 <= k < n ==> s[..n][k] == s[1..][..n - 1][k - 1];
    }
  }

  /** `s.trimStart()` */
  function TrimStart(s: string): string
    decreases |s|
  {
    if |s| > 0 && IsSpace(s[0]) then TrimStart(s[1..]) else s
  }

  /** `s.trimEnd()` */
  function TrimEnd(s: string): string
    decreases |s|
  {
    if |s| > 0 && IsSpace(s[|s| - 1]) then TrimEnd(s[..|s| - 1]) else s
  }

  /** `s.trim()` */
  function Trim(s: string): string {
    TrimEnd(TrimStart(s))
  }

  lemma {:induction false} TrimStartDropsLeadingSpaces(s: string)
    ensures TrimStart(s) == s[LeadingSpaces(s)..]
    decreases |s|
  {
    if |s| > 0 && IsSpace(s[0]) {
      TrimStartDropsLeadingSpaces(s[1..]);
      assert s[1..][LeadingSpaces(s[1..])..] == s[1 + LeadingSpaces(s[1..])..];
    }
  }

  lemma {:induction false} TrimEndEmptyIffAllSpace(s: string)
    ensures TrimEnd(s) == "" <==> AllSpace(s)
    decreases |s|
  {
    if |s| > 0 {
      TrimEndEmptyIffAllSpace(s[..|s| - 1]);
      if IsSpace(s[|s| - 1]) {
        assert AllSpace(s) <==> AllSpace(s[..|s| - 1]) by {
          if AllSpace(s[..|s| - 1]) {
            forall k | 0 <= k < |s| ensures IsSpace(s[k]) {
              if k < |s| - 1 { assert s[k] == s[..|s| - 1][k]; }
            }
          }
        }
      }
    }
  }

  lemma TrimEmptyIffAllSpace(s: string)
    ensures Trim(s) == "" <==> AllSpace(s)
  {
    TrimStartDropsLeadingSpaces(s);
    LeadingSpacesAreSpace(s);
    var n := LeadingSpaces(s);
    TrimEndEmptyIffAllSpace(s[n..]);
    assert n < |s| ==> s[n..][0] == s[n];
    assert n == |s| ==> s[..n] == s;
  }

  /** `s.toLowerCase()`, for the ASCII letters. */
  function Lower(s: string): (r: string)
    ensures |r| == |s|
    ensures forall k :: 0 <= k < |s| ==> r[k] == LowerChar(s[k])
  {
    if |s| == 0 then "" else [LowerChar(s[0])] + Lower(s[1..])
  }

  function LowerChar(c: char): char {
    if 'A' <= c <= 'Z' then (c as int + 32) as char else c
  }

  /** `s.includes(sub)` */
  predicate Contains(s: string, sub: string)
    decreases |s|
  {
    sub <= s || (|s| > 0 && Contains(s[1..], sub))
  }

  /** `sub` occurs in `s` starting at index `k`. */
  predicate OccursAt(s: string, sub: string, k: int) {
    0 <= k <= |s| - |sub| && s[k..k + |sub|] == sub
  }

  lemma {:induction false} ContainsAt(s: string, sub: string)
    ensures Contains(s, sub) <==> exists k :: OccursAt(s, sub, k)
    decreases |s|
  {
    if sub <= s {
      assert s[0..|sub|] == sub;
      assert OccursAt(s, sub, 0);
    } else if |s| > 0 {
      ContainsAt(s[1..], sub);
      if Contains(s[1..], sub) {
        var k :| OccursAt(s[1..], sub, k);
        assert s[k + 1..k + 1 + |sub|] == s[1..][k..k + |sub|];
        assert OccursAt(s, sub, k + 1);
      } else {
        forall k | 0 < k <= |s| - |sub| ensures !OccursAt(s, sub, k) {
          assert s[k..k + |sub|] == s[1..][k - 1..k - 1 + |sub|];
          assert !OccursAt(s[1..], sub, k - 1);
        }
        assert !OccursAt(s, sub, 0);
      }
    } else {
      assert forall k :: !OccursAt(s, sub, k);
    }
  }

  /** `s.substring(0, n)`: at most `n` leading characters. */
  function Take(s: string, n: nat): (r: string)
    ensures |r| == if |s| < n then |s| else n
    ensures r <= s
  {
    if |s| <= n then s else s[..n]
  }

  /**
   * `s.split(sep)` for a one-character separator, read from the left one
   * character at a time: a separator closes the current piece, any other
   * character extends it.
   */
  function Split(s: string, sep: char): (r: seq<string>)
    ensures |r| >= 1
    decreases |s|
  {
    if |s| == 0 then [""] else Extend(Split(s[..|s| - 1], sep), s[|s| - 1], sep)
  }

  /** The pieces so far, followed by one more character. */
  function Extend(pieces: seq<string>, c: char, sep: char): (r: seq<string>)
    requires |pieces| >= 1
    ensures |r| >= 1
  {
    if c == sep then pieces + [""]
    else pieces[..|pieces| - 1] + [pieces[|pieces| - 1] + [c]]
  }

  /** Only the last piece is ever extended. */
  lemma ExtendAppend(p: seq<string>, q: seq<string>, c: char, sep: char)
    requires |q| >= 1
    ensures Extend(p + q, c, sep) == p + Extend(q, c, sep)
  {
    if c != sep {
      assert (p + q)[..|p + q| - 1] == p + q[..|q| - 1];
    }
  }

  /** `Split` reads one character: the string without its last character, then that character. */
  lemma SplitSnoc(s: string, c: char, sep: char)
    ensures Split(s + [c], sep) == Extend(Split(s, sep), c, sep)
  {
    assert (s + [c])[..|s|] == s;
  }

  /** `parts.join(sep)` */
  function Join(parts: seq<string>, sep: string): string
    decreases |parts|
  {
    if |parts| == 0 then ""
    else if |parts| == 1 then parts[0]
    else parts[0] + sep + Join(parts[1..], sep)
  }

  /** `parts.join('')` */
  function Concat(parts: seq<string>): (r: string)
  {
    if |parts| == 0 then "" else Concat(parts[..|parts| - 1]) + parts[|parts| - 1]
  }

  lemma {:induction false} ConcatAppend(a: seq<string>, b: seq<string>)
    ensures Concat(a + b) == Concat(a) + Concat(b)
    decreases |b|
  {
    if |b| == 0 {
      assert a + b == a;
    } else {
      InitOfAppend(a, b);
      ConcatAppend(a, b[..|b| - 1]);
    }
  }

  lemma InitOfAppend<T>(a: seq<T>, b: seq<T>)
    requires |b| > 0
    ensures (a + b)[..|a + b| - 1] == a + b[..|b| - 1]
    ensures (a + b)[|a + b| - 1] == b[|b| - 1]
  {
  }

  lemma {:induction false} SplitPieces(s: string, sep: char)
    ensures forall k :: 0 <= k < |Split(s, sep)| ==> sep !in Split(s, sep)[k]
    decreases |s|
  {
    if |s| > 0 {
      SplitPieces(s[..|s| - 1], sep);
    }
  }

  lemma {:induction false} SplitWithoutSeparator(s: string, sep: char)
    requires sep !in s
    ensures Split(s, sep) == [s]
    decreases |s|
  {
    if |s| > 0 {
      SplitWithoutSeparator(s[..|s| - 1], sep);
      assert s[..|s| - 1] + [s[|s| - 1]] == s;
    }
  }

  /** Splitting `x + y` splits `x`, then continues the last piece of `x` with `y`. */
  lemma {:induction false} SplitAppend(x: string, y: string, sep: char)
    ensures var sx := Split(x, sep);
      Split(x + y, sep) == sx[..|sx| - 1] + Split(sx[|sx| - 1] + y, sep)
    decreases |y|
  {
    if |y| == 0 {
      SplitKeepsLast(x, sep);
      assert x + y == x;
      var sx := Split(x, sep);
      assert sx[|sx| - 1] + y == sx[|sx| - 1];
    } else {
      SplitAppend(x, y[..|y| - 1], sep);
      SplitAppendStep(x, y[..|y| - 1], y[|y| - 1], sep);
      assert y[..|y| - 1] + [y[|y| - 1]] == y;
    }
  }

  /** The last piece splits into itself alone. */
  lemma SplitKeepsLast(x: string, sep: char)
    ensures var sx := Split(x, sep);
      sx == sx[..|sx| - 1] + Split(sx[|sx| - 1], sep)
  {
    var sx := Split(x, sep);
    SplitPieces(x, sep);
    SplitWithoutSeparator(sx[|sx| - 1], sep);
  }

  lemma SplitAppendStep(x: string, y: string, d: char, sep: char)
    requires var sx := Split(x, sep);
      Split(x + y, sep) == sx[..|sx| - 1] + Split(sx[|sx| - 1] + y, sep)
    ensures var sx := Split(x, sep);
      Split(x + (y + [d]), sep) == sx[..|sx| - 1] + Split(sx[|sx| - 1] + (y + [d]), sep)
  {
    var sx := Split(x, sep);
    SplitSnocAfter(x, y, d, sep);
    SplitSnocAfter(sx[|sx| - 1], y, d, sep);
    ExtendAppend(sx[..|sx| - 1], Split(sx[|sx| - 1] + y, sep), d, sep);
  }

  lemma SplitSnocAfter(a: string, y: string, d: char, sep: char)
    ensures Split(a + (y + [d]), sep) == Extend(Split(a + y, sep), d, sep)
  {
    assert a + (y + [d]) == (a + y) + [d];
    SplitSnoc(a + y, d, sep);
  }

  /** A separator followed by a separator-free line adds that line as one more piece. */
  lemma SplitAddLine(text: string, line: string, sep: char)
    requires sep !in line
    ensures Split(text + [sep] + line, sep) == Split(text, sep) + [line]
  {
    var p := Split(text, sep);
    SplitSnoc(text, sep, sep);
    SplitAppend(text + [sep], line, sep);
    assert "" + line == line;
    SplitWithoutSeparator(line, sep);
    assert (p + [""])[..|p|] == p;
  }

  lemma ConcatSnoc(parts: seq<string>, k: nat)
    requires k < |parts|
    ensures Concat(parts[..k + 1]) == Concat(parts[..k]) + parts[k]
  {
    assert parts[..k + 1][..k] == parts[..k];
  }

  /** Joining the pieces with the separator gives back the string. */
  lemma {:induction false} SplitJoin(s: string, sep: char)
    ensures Join(Split(s, sep), [sep]) == s
    decreases |s|
  {
    if |s| > 0 {
      var init, c := s[..|s| - 1], s[|s| - 1];
      SplitJoin(init, sep);
      var p := Split(init, sep);
      if c == sep {
        JoinSnoc(p, "", [sep]);
      } else {
        JoinExtendLast(p, c, [sep]);
      }
      assert init + [c] == s;
    }
  }

  lemma {:induction false} JoinSnoc(p: seq<string>, a: string, sep: string)
    requires |p| >= 1
    ensures Join(p + [a], sep) == Join(p, sep) + sep + a
    decreases |p|
  {
    if |p| > 1 {
      JoinSnoc(p[1..], a, sep);
      assert (p + [a])[1..] == p[1..] + [a];
    }
  }

  lemma {:induction false} JoinExtendLast(p: seq<string>, c: char, sep: string)
    requires |p| >= 1
    ensures Join(p[..|p| - 1] + [p[|p| - 1] + [c]], sep) == Join(p, sep) + [c]
    decreases |p|
  {
    if |p| > 1 {
      JoinExtendLast(p[1..], c, sep);
      var q := p[..|p| - 1] + [p[|p| - 1] + [c]];
      assert q[0] == p[0];
      assert q[1..] == p[1..][..|p| - 2] + [p[|p| - 1] + [c]];
    }
  }

  /** The piece after the last separator: `s.split(sep).pop()`. */
  function LastSegment(s: string, sep: char): string {
    var parts := Split(s, sep);
    parts[|parts| - 1]
  }

  lemma LastSegmentAfterSeparator(prefix: string, suffix: string, sep: char)
    requires sep !in suffix
    ensures LastSegment(prefix + [sep] + suffix, sep) == suffix
  {
    SplitSnoc(prefix, sep, sep);
    SplitAppend(prefix + [sep], suffix, sep);
    assert "" + suffix == suffix;
    SplitWithoutSeparator(suffix, sep);
  }

  lemma LastSegmentWithoutSeparator(s: string, sep: char)
    requires sep !in s
    ensures LastSegment(s, sep) == s
  {
    SplitWithoutSeparator(s, sep);
  }

  /** `n.toString()` for a non-negative integer. */
  function NatToString(n: nat): (r: string)
    ensures |r| >= 1
    ensures forall k :: 0 <= k < |r| ==> '0' <= r[k] <= '9'
  {
    if n < 10 then [Digit(n)] else NatToString(n / 10) + [Digit(n % 10)]
  }

  /** Different numbers print differently. */
  lemma {:induction false} NatToStringInjective(a: nat, b: nat)
    requires NatToString(a) == NatToString(b)
    ensures a == b
    decreases a
  {
    if a >= 10 && b >= 10 {
      var sa, sb := NatToString(a), NatToString(b);
      assert sa[|sa| - 1] == Digit(a % 10) && sb[|sb| - 1] == Digit(b % 10);
      assert sa[..|sa| - 1] == NatToString(a / 10) && sb[..|sb| - 1] == NatToString(b / 10);
      NatToStringInjective(a / 10, b / 10);
    } else if a < 10 && b < 10 {
      assert NatToString(a)[0] == Digit(a);
    }
  }

  function Digit(d: nat): (c: char)
    requires d < 10
    ensures '0' <= c <= '9'
  {
    (d + '0' as int) as char
  }

  predicate IsDigit(c: char) {
    '0' <= c <= '9'
  }

  /** Number of leading ASCII digits: the length of what `^\d*` matches. */
  function LeadingDigits(s: string): (n: nat)
    ensures n <= |s|
    ensures n < |s| ==> !IsDigit(s[n])
  {
    if |s| > 0 && IsDigit(s[0]) then 1 + LeadingDigits(s[1..]) else 0
  }

  /** Everything `LeadingDigits` counts is a digit. */
  lemma {:induction false} LeadingDigitsAreDigits(s: string)
    ensures forall k :: 0 <= k < LeadingDigits(s) ==> IsDigit(s[k])
    decreases |s|
  {
    if |s| > 0 && IsDigit(s[0]) {
      LeadingDigitsAreDigits(s[1..]);
      assert forall k :: 1 <= k < LeadingDigits(s) ==> s[k] == s[1..][k - 1];
    }
  }

  /** Trimming keeps a first character that is not white space. */
  lemma TrimKeepsFirst(s: string)
    requires |s| > 0 && !IsSpace(s[0])
    ensures |Trim(s)| > 0 && Trim(s)[0] == s[0]
  {
    assert TrimStart(s) == s;
    TrimEndKeepsFirst(s);
  }

  lemma {:induction false} TrimEndKeepsFirst(s: string)
    requires |s| > 0 && !IsSpace(s[0])
    ensures |TrimEnd(s)| > 0 && TrimEnd(s)[0] == s[0]
    decreases |s|
  {
    if IsSpace(s[|s| - 1]) {
      TrimEndKeepsFirst(s[..|s| - 1]);
    }
  }

  /** Trimming removes exactly the white space around a word that starts and ends with other characters. */
  lemma TrimAround(pre: string, x: string, post: string)
    requires AllSpace(pre) && AllSpace(post)
    requires |x| > 0 && !IsSpace(x[0]) && !IsSpace(x[|x| - 1])
    ensures Trim(pre + x + post) == x
  {
    assert pre + x + post == pre + (x + post);
    TrimStartAt(pre, x + post);
    TrimEndAt(x, post);
  }

  lemma {:induction false} TrimStartAt(pre: string, rest: string)
    requires AllSpace(pre) && |rest| > 0 && !IsSpace(rest[0])
    ensures TrimStart(pre + rest) == rest
    decreases |pre|
  {
    if |pre| == 0 {
      assert pre + rest == rest;
    } else {
      assert (pre + rest)[1..] == pre[1..] + rest;
      assert pre[0] == (pre + rest)[0];
      TrimStartAt(pre[1..], rest);
    }
  }

  lemma {:induction false} TrimEndAt(x: string, post: string)
    requires AllSpace(post) && |x| > 0 && !IsSpace(x[|x| - 1])
    ensures TrimEnd(x + post) == x
    decreases |post|
  {
    if |post| == 0 {
      assert x + post == x;
    } else {
      var post' := post[..|post| - 1];
      assert (x + post)[..|x + post| - 1] == x + post';
      assert post[|post| - 1] == (x + post)[|x + post| - 1];
      TrimEndAt(x, post');
    }
  }
}
