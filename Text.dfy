/** The pieces of Python's text handling that the memory log relies on:
    `str.isspace` / `str.strip`, the universal-newline translation of a file
    opened in text mode, iteration over a file's lines, the UTF-8 size of
    the bytes written, and decimal formatting of an `int`. */
module Text {

  /** Python's `str.isspace`: the characters `str.strip()` removes. */
  predicate IsSpace(c: char) {
    var n := c as int;
    n == 32 || 9 <= n <= 13 || 28 <= n <= 31 || n == 0x85 || n == 0xA0 ||
    n == 0x1680 || 0x2000 <= n <= 0x200A || n == 0x2028 || n == 0x2029 ||
    n == 0x202F || n == 0x205F || n == 0x3000
  }

  /** Every character of `s` is whitespace (true of the empty string). */
  predicate AllSpace(s: string) {
    forall i | 0 <= i < |s| :: IsSpace(s[i])
  }

  /** `s` with its leading whitespace removed. */
  function TrimStart(s: string): (r: string)
    ensures |r| <= |s| && r == s[|s| - |r|..]
    ensures r != [] ==> !IsSpace(r[0])
    ensures forall i | 0 <= i < |s| - |r| :: IsSpace(s[i])
  {
    if s != [] && IsSpace(s[0]) then TrimStart(s[1..]) else s
  }

  /** `s` with its trailing whitespace removed. */
  function TrimEnd(s: string): (r: string)
    ensures |r| <= |s| && r == s[..|r|]
    ensures r != [] ==> !IsSpace(r[|r| - 1])
    ensures forall i | |r| <= i < |s| :: IsSpace(s[i])
  {
    if s != [] && IsSpace(s[|s| - 1]) then TrimEnd(s[..|s| - 1]) else s
  }

  /** Python's `s.strip()`: the longest infix of `s` that neither starts nor
      ends with whitespace; empty exactly when `s` is all whitespace. */
  function Strip(s: string): (r: string)
    ensures |r| <= |s|
    ensures r == [] <==> AllSpace(s)
    ensures r != [] ==> !IsSpace(r[0]) && !IsSpace(r[|r| - 1])
  {
    var t := TrimStart(s);
    var r := TrimEnd(t);
    r
  }

  /** A string without carriage returns. */
  predicate NoCarriageReturn(s: string) {
    forall i | 0 <= i < |s| :: s[i] != '\r'
  }

  /** A string without line breaks of either kind. */
  predicate NoLineBreak(s: string) {
    NoCarriageReturn(s) && forall i | 0 <= i < |s| :: s[i] != '\n'
  }

  /** `suffix` is the end of `s`. */
  predicate EndsWith(s: string, suffix: string) {
    |suffix| <= |s| && s[|s| - |suffix|..] == suffix
  }

  /** Dropping the first character keeps a shorter suffix. */
  lemma EndsWithTail(e: string, body: string)
    requires EndsWith(e, body) && |body| < |e|
    ensures EndsWith(e[1..], body)
  {
    var rest := e[1..];
    var k := |rest| - |body|;
    forall i | 0 <= i < |body| ensures rest[k..][i] == body[i] {
      assert rest[k..][i] == e[k + 1 + i] == e[|e| - |body|..][i];
    }
    assert rest[k..] == body;
  }

  /** The last `k` characters of `a + b` are those of `b` when `b` has
      that many; the first `|a|` are `a`. */
  lemma ConcatEnds(a: string, b: string, k: nat)
    requires k <= |b|
    ensures (a + b)[|a + b| - k..] == b[|b| - k..]
    ensures (a + b)[..|a|] == a
  {
    assert (a + b)[|a + b| - k..] == (a + b)[|a|..][|b| - k..];
  }

  /** `p + rest` starts with `p`. */
  lemma KeepsPrefix(p: string, rest: string)
    ensures |p + rest| >= |p| && forall i | 0 <= i < |p| :: (p + rest)[i] == p[i]
  {
  }

  lemma NoCarriageReturnTail(s: string)
    requires s != [] && NoCarriageReturn(s)
    ensures NoCarriageReturn(s[1..])
  {
    forall i | 0 <= i < |s| - 1 ensures s[1..][i] != '\r' {
      assert s[1..][i] == s[i + 1];
    }
  }

  lemma NoCarriageReturnConcat(a: string, b: string)
    requires NoCarriageReturn(a) && NoCarriageReturn(b)
    ensures NoCarriageReturn(a + b)
  {
    forall i | 0 <= i < |a + b| ensures (a + b)[i] != '\r' {
      if i >= |a| {
        assert (a + b)[i] == b[i - |a|];
      }
    }
  }

  /** What a file opened with `open(path, "r")` yields for the text `s` on
      disk: Python's universal newlines turn "\r\n" and a lone "\r" into
      "\n". */
  function Translate(s: string): (r: string)
    ensures NoCarriageReturn(r)
    ensures |r| <= |s|
  {
    if s == [] then []
    else if s[0] == '\r' then
      "\n" + Translate(if |s| > 1 && s[1] == '\n' then s[2..] else s[1..])
    else [s[0]] + Translate(s[1..])
  }

  /** Text without carriage returns reads back verbatim. */
  lemma {:induction false} TranslateVerbatim(s: string)
    requires NoCarriageReturn(s)
    ensures Translate(s) == s
  {
    if s != [] {
      TranslateVerbatim(s[1..]);
    }
  }

  /** Translation distributes over a concatenation unless a "\r" at the end
      of the first part could pair with a "\n" at the start of the second. */
  lemma {:induction false} TranslateConcat(a: string, b: string)
    requires a == [] || a[|a| - 1] != '\r'
    ensures Translate(a + b) == Translate(a) + Translate(b)
    decreases |a|
  {
    if a == [] {
      assert a + b == b;
    } else {
      var s := a + b;
      assert s[0] == a[0];
      var k := if a[0] == '\r' && a[1] == '\n' then 2 else 1;
      var head := if a[0] == '\r' then "\n" else [a[0]];
      assert a[0] == '\r' ==> s[1] == a[1];
      assert Translate(s) == head + Translate(s[k..]);
      assert Translate(a) == head + Translate(a[k..]);
      assert s[k..] == a[k..] + b;
      TranslateConcat(a[k..], b);
      AppendAssoc(head, Translate(a[k..]), Translate(b));
    }
  }

  /** A "\r\n" pair ends a line whatever precedes it: the text up to its
      "\r" reads as if that "\r" stood alone, and the rest after it. */
  lemma {:induction false} TranslateCrLf(a: string, x: string)
    ensures Translate(a + "\r\n" + x) == Translate(a + "\r") + Translate(x)
    decreases |a|
  {
    var s := a + "\r\n" + x;
    var t := a + "\r";
    if a == [] {
      assert s == "\r\n" + x && s[2..] == x;
      assert t == "\r" && t[1..] == [];
    } else {
      var k := if a[0] == '\r' && |a| > 1 && a[1] == '\n' then 2 else 1;
      var head := if a[0] == '\r' then "\n" else [a[0]];
      var rest := a[k..];
      assert Translate(s) == head + Translate(rest + "\r\n" + x) by {
        assert s[0] == a[0];
        assert |a| > 1 ==> s[1] == a[1];
        assert |a| == 1 ==> s[1] == '\r';
        assert s[k..] == rest + "\r\n" + x;
      }
      assert Translate(t) == head + Translate(rest + "\r") by {
        assert t[0] == a[0];
        assert |a| > 1 ==> t[1] == a[1];
        assert |a| == 1 ==> t[1] == '\r';
        assert t[k..] == rest + "\r";
      }
      TranslateCrLf(rest, x);
      AppendAssoc(head, Translate(rest + "\r"), Translate(x));
    }
  }

  /** A "\r" not followed by "\n" ends a line whatever precedes it. */
  lemma {:induction false} TranslateLoneCr(a: string, x: string)
    requires x == [] || x[0] != '\n'
    ensures Translate(a + "\r" + x) == Translate(a + "\r") + Translate(x)
    decreases |a|
  {
    var s := a + "\r" + x;
    var t := a + "\r";
    if a == [] {
      assert s == "\r" + x && s[1..] == x;
      assert t == "\r" && t[1..] == [];
    } else {
      var k := if a[0] == '\r' && |a| > 1 && a[1] == '\n' then 2 else 1;
      var head := if a[0] == '\r' then "\n" else [a[0]];
      var rest := a[k..];
      assert Translate(s) == head + Translate(rest + "\r" + x) by {
        assert s[0] == a[0];
        assert |a| > 1 ==> s[1] == a[1];
        assert |a| == 1 ==> s[1] == '\r';
        assert s[k..] == rest + "\r" + x;
      }
      assert Translate(t) == head + Translate(rest + "\r") by {
        assert t[0] == a[0];
        assert |a| > 1 ==> t[1] == a[1];
        assert |a| == 1 ==> t[1] == '\r';
        assert t[k..] == rest + "\r";
      }
      TranslateLoneCr(rest, x);
      AppendAssoc(head, Translate(rest + "\r"), Translate(x));
    }
  }

  /** Text ending with "\r" reads as text ending with "\n". */
  lemma {:induction false} TranslateEndsCr(a: string)
    ensures var r := Translate(a + "\r"); r != [] && r[|r| - 1] == '\n'
    decreases |a|
  {
    var t := a + "\r";
    if a == [] {
      assert t == "\r" && t[1..] == [];
    } else {
      assert t[0] == a[0];
      var k := if a[0] == '\r' && |a| > 1 && a[1] == '\n' then 2 else 1;
      var head := if a[0] == '\r' then "\n" else [a[0]];
      assert a[0] == '\r' && |a| > 1 ==> t[1] == a[1];
      assert Translate(t) == head + Translate(t[k..]);
      assert t[k..] == a[k..] + "\r";
      TranslateEndsCr(a[k..]);
    }
  }

  /** Text not ending with "\r" reads as text ending with "\n" exactly when
      it ends with "\n" itself. */
  lemma {:induction false} TranslateLast(c: string)
    requires c != [] && c[|c| - 1] != '\r'
    ensures var r := Translate(c); r != [] && (r[|r| - 1] == '\n' <==> c[|c| - 1] == '\n')
    decreases |c|
  {
    var k := if c[0] == '\r' && |c| > 1 && c[1] == '\n' then 2 else 1;
    var head := if c[0] == '\r' then "\n" else [c[0]];
    assert Translate(c) == head + Translate(c[k..]);
    assert |head| == 1;
    if k < |c| {
      assert c[k..][|c[k..]| - 1] == c[|c| - 1];
      TranslateLast(c[k..]);
    } else {
      assert c[k..] == [];
    }
  }

  lemma CarriageReturnSplit(c: string)
    requires c != [] && c[|c| - 1] == '\r'
    ensures c == c[..|c| - 1] + "\r"
  {
    assert c[|c| - 1..] == "\r";
    assert c == c[..|c| - 1] + c[|c| - 1..];
  }

  lemma LineBreakSplit(e: string)
    requires e != [] && e[0] == '\n'
    ensures e == "\n" + e[1..]
  {
    assert e == [e[0]] + e[1..];
  }

  lemma CrLfJoin(a: string, rest: string)
    ensures (a + "\r") + ("\n" + rest) == a + "\r\n" + rest
  {
    assert "\r" + "\n" == "\r\n";
  }

  /** What was read before text is added stays a prefix of what is read
      after, whatever is added. */
  lemma TranslatePrefix(c: string, e: string)
    ensures Translate(c) <= Translate(c + e)
  {
    if c == [] || c[|c| - 1] != '\r' {
      TranslateConcat(c, e);
    } else {
      var a := c[..|c| - 1];
      CarriageReturnSplit(c);
      if e != [] && e[0] == '\n' {
        LineBreakSplit(e);
        CrLfJoin(a, e[1..]);
        TranslateCrLf(a, e[1..]);
      } else {
        TranslateLoneCr(a, e);
      }
    }
  }

  /** Number of "\n" characters in `s`. */
  function NewlineCount(s: string): (n: nat)
    ensures n <= |s|
  {
    if s == [] then 0 else (if s[0] == '\n' then 1 else 0) + NewlineCount(s[1..])
  }

  lemma {:induction false} NewlineCountConcat(a: string, b: string)
    ensures NewlineCount(a + b) == NewlineCount(a) + NewlineCount(b)
  {
    if a == [] {
      assert a + b == b;
    } else {
      assert (a + b)[0] == a[0];
      assert (a + b)[1..] == a[1..] + b;
      NewlineCountConcat(a[1..], b);
    }
  }

  lemma {:induction false} NewlineCountNone(s: string)
    requires NoLineBreak(s)
    ensures NewlineCount(s) == 0
  {
    if s != [] {
      NewlineCountNone(s[1..]);
    }
  }

  /** Length of the first line of `s`, its "\n" included when there is one. */
  function FirstLineLength(s: string): (n: nat)
    requires s != []
    ensures 1 <= n <= |s|
    ensures n == |s| || s[n - 1] == '\n'
    ensures forall k | 0 <= k < n - 1 :: s[k] != '\n'
  {
    if s[0] == '\n' || |s| == 1 then 1 else 1 + FirstLineLength(s[1..])
  }

  /** The lines `for line in f` yields: each ends with "\n" except perhaps
      the last, and none is empty. */
  function SplitLines(s: string): (lines: seq<string>)
    decreases |s|
  {
    if s == [] then []
    else
      var n := FirstLineLength(s);
      [s[..n]] + SplitLines(s[n..])
  }

  function Concat(parts: seq<string>): string {
    if parts == [] then "" else Concat(parts[..|parts| - 1]) + parts[|parts| - 1]
  }

  lemma AppendAssoc(a: string, b: string, c: string)
    ensures (a + b) + c == a + (b + c)
  {
  }

  lemma ConcatSnoc(parts: seq<string>, x: string)
    ensures Concat(parts + [x]) == Concat(parts) + x
  {
    assert (parts + [x])[..|parts|] == parts;
  }

  lemma {:induction false} ConcatFront(x: string, parts: seq<string>)
    ensures Concat([x] + parts) == x + Concat(parts)
    decreases |parts|
  {
    if parts != [] {
      var all := [x] + parts;
      assert all[..|all| - 1] == [x] + parts[..|parts| - 1];
      ConcatFront(x, parts[..|parts| - 1]);
    } else {
      assert [x][..0] == [];
    }
  }

  /** Joining the lines gives back the text. */
  lemma {:induction false} SplitLinesJoin(s: string)
    ensures Concat(SplitLines(s)) == s
    decreases |s|
  {
    if s != [] {
      var n := FirstLineLength(s);
      var rest := SplitLines(s[n..]);
      assert SplitLines(s) == [s[..n]] + rest;
      SplitLinesJoin(s[n..]);
      ConcatFront(s[..n], rest);
      assert s[..n] + s[n..] == s;
    }
  }

  /** No line is empty. */
  lemma {:induction false} SplitLinesNonEmpty(s: string)
    ensures forall i | 0 <= i < |SplitLines(s)| :: SplitLines(s)[i] != []
    decreases |s|
  {
    if s != [] {
      var n := FirstLineLength(s);
      var rest := SplitLines(s[n..]);
      assert SplitLines(s) == [s[..n]] + rest;
      SplitLinesNonEmpty(s[n..]);
      forall i | 0 <= i < |SplitLines(s)| ensures SplitLines(s)[i] != [] {
        if i > 0 {
          assert SplitLines(s)[i] == rest[i - 1];
        }
      }
    }
  }

  /** The number of lines is the number of "\n" characters, plus one for a
      last line that has no "\n". */
  lemma {:induction false} SplitLinesCount(s: string)
    ensures |SplitLines(s)| == NewlineCount(s) + (if s != [] && s[|s| - 1] != '\n' then 1 else 0)
    decreases |s|
  {
    if s != [] {
      var n := FirstLineLength(s);
      var rest := s[n..];
      assert |SplitLines(s)| == 1 + |SplitLines(rest)|;
      SplitLinesCount(rest);
      assert NewlineCount(s) == NewlineCount(s[..n]) + NewlineCount(rest) by {
        SplitAt(s, n);
        NewlineCountConcat(s[..n], rest);
      }
      FirstLineNewlines(s);
      if n < |s| {
        assert s[|s| - 1] == rest[|rest| - 1];
      }
    }
  }

  lemma SplitAt(s: string, n: nat)
    requires n <= |s|
    ensures s[..n] + s[n..] == s
  {
  }

  /** The first line holds a "\n" exactly when it is followed by more text
      or ends the text with one. */
  lemma FirstLineNewlines(s: string)
    requires s != []
    ensures NewlineCount(s[..FirstLineLength(s)]) == if s[FirstLineLength(s) - 1] == '\n' then 1 else 0
  {
    var n := FirstLineLength(s);
    NewlineCountConcat(s[..n - 1], [s[n - 1]]);
    assert s[..n - 1] + [s[n - 1]] == s[..n];
    NewlineCountNoneBefore(s, n - 1);
  }

  lemma {:induction false} NewlineCountNoneBefore(s: string, n: nat)
    requires n <= |s|
    requires forall k | 0 <= k < n :: s[k] != '\n'
    ensures NewlineCount(s[..n]) == 0
  {
    if n > 0 {
      assert s[..n][1..] == s[1..][..n - 1];
      NewlineCountNoneBefore(s[1..], n - 1);
    }
  }

  /** Adding a text that starts a new line and holds exactly one line break
      (its first character) adds one line, or two when the text before it
      was empty or already ended its last line. */
  lemma SplitLinesAppend(t: string, e: string)
    requires e != [] && e[0] == '\n' && NewlineCount(e) == 1 && e[|e| - 1] != '\n'
    ensures |SplitLines(t + e)| == |SplitLines(t)| + (if t == [] || t[|t| - 1] == '\n' then 2 else 1)
  {
    SplitLinesCount(t);
    SplitLinesCount(t + e);
    NewlineCountConcat(t, e);
    assert (t + e)[|t + e| - 1] == e[|e| - 1];
  }

  /** Adding a text without line breaks after a finished last line adds
      one line. */
  lemma SplitLinesAppendPlain(t: string, e: string)
    requires t != [] && t[|t| - 1] == '\n'
    requires e != [] && NewlineCount(e) == 0 && e[|e| - 1] != '\n'
    ensures |SplitLines(t + e)| == |SplitLines(t)| + 1
  {
    SplitLinesCount(t);
    SplitLinesCount(t + e);
    NewlineCountConcat(t, e);
    assert (t + e)[|t + e| - 1] == e[|e| - 1];
  }

  /** The text whose last character could pair with a following "\n". */
  predicate EndsWithCarriageReturn(s: string) {
    s != [] && s[|s| - 1] == '\r'
  }

  /** Text without carriage returns, added after text that does not end
      with "\r", reads verbatim after the earlier read. */
  lemma TranslateAppendPlain(c: string, e: string)
    requires !EndsWithCarriageReturn(c) && NoCarriageReturn(e)
    ensures Translate(c + e) == Translate(c) + e
  {
    TranslateConcat(c, e);
    TranslateVerbatim(e);
  }

  /** Text starting with "\n" and holding no carriage return, added after
      text that ends with "\r": the pair reads as one line break, and the
      rest verbatim. */
  lemma TranslateAppendAfterCr(c: string, e: string)
    requires EndsWithCarriageReturn(c)
    requires e != [] && e[0] == '\n' && NoCarriageReturn(e)
    ensures Translate(c + e) == Translate(c) + e[1..]
  {
    var a := c[..|c| - 1];
    var rest := e[1..];
    CarriageReturnSplit(c);
    LineBreakSplit(e);
    CrLfJoin(a, rest);
    TranslateCrLf(a, rest);
    NoCarriageReturnTail(e);
    TranslateVerbatim(rest);
  }

  /** A suffix of the added text stays a suffix of the read when a final
      "\r" merges with the added "\n". */
  lemma EndsWithAfterCr(c: string, e: string, body: string)
    requires EndsWithCarriageReturn(c)
    requires e != [] && e[0] == '\n' && NoCarriageReturn(e)
    requires EndsWith(e, body) && |body| < |e|
    ensures EndsWith(Translate(c + e), body)
  {
    TranslateAppendAfterCr(c, e);
    EndsWithTail(e, body);
    ConcatEnds(Translate(c), e[1..], |body|);
  }

  /** Adding a text that starts with its only line break, holds no carriage
      return and does not end with "\n": two more lines when the earlier text
      is empty or ends with "\n", one more otherwise (a final "\r" merges
      with the added "\n"). */
  lemma LineCountAppendLine(c: string, e: string)
    requires e != [] && e[0] == '\n' && NewlineCount(e) == 1 && e[|e| - 1] != '\n'
    requires NoCarriageReturn(e)
    ensures LineCount(c + e) == LineCount(c) + (if c == [] || c[|c| - 1] == '\n' then 2 else 1)
  {
    if EndsWithCarriageReturn(c) {
      LineCountAfterCr(c, e);
    } else {
      TranslateAppendPlain(c, e);
      if c != [] {
        TranslateLast(c);
      }
      SplitLinesAppend(Translate(c), e);
    }
  }

  lemma LineCountAfterCr(c: string, e: string)
    requires EndsWithCarriageReturn(c)
    requires e != [] && e[0] == '\n' && NewlineCount(e) == 1 && e[|e| - 1] != '\n'
    requires NoCarriageReturn(e)
    ensures LineCount(c + e) == LineCount(c) + 1
  {
    TranslateAppendAfterCr(c, e);
    assert Translate(c) != [] && Translate(c)[|Translate(c)| - 1] == '\n' by {
      CarriageReturnSplit(c);
      TranslateEndsCr(c[..|c| - 1]);
    }
    assert |e| > 1;
    var rest := e[1..];
    assert NewlineCount(rest) == 0;
    assert rest[|rest| - 1] == e[|e| - 1];
    SplitLinesAppendPlain(Translate(c), rest);
  }

  /** The number of lines Python counts with `sum(1 for _ in f)` on a file
      whose bytes are `content`. */
  function LineCount(content: string): nat {
    |SplitLines(Translate(content))|
  }

  /** Bytes UTF-8 uses for one character. */
  function Utf8Width(c: char): (w: nat)
    ensures 1 <= w <= 4
    ensures w == 1 <==> c as int < 0x80
  {
    var n := c as int;
    if n < 0x80 then 1 else if n < 0x800 then 2 else if n < 0x10000 then 3 else 4
  }

  /** Size in bytes of `s` encoded as UTF-8. */
  function Utf8Length(s: string): (n: nat)
    ensures |s| <= n <= 4 * |s|
  {
    if s == [] then 0 else Utf8Width(s[0]) + Utf8Length(s[1..])
  }

  lemma {:induction false} Utf8LengthConcat(a: string, b: string)
    ensures Utf8Length(a + b) == Utf8Length(a) + Utf8Length(b)
  {
    if a == [] {
      assert a + b == b;
    } else {
      assert (a + b)[0] == a[0];
      assert (a + b)[1..] == a[1..] + b;
      Utf8LengthConcat(a[1..], b);
    }
  }

  /** Text made of ASCII characters only. */
  predicate IsAscii(s: string) {
    forall i | 0 <= i < |s| :: s[i] as int < 0x80
  }

  lemma {:induction false} Utf8LengthAscii(s: string)
    requires IsAscii(s)
    ensures Utf8Length(s) == |s|
  {
    if s != [] {
      Utf8LengthAscii(s[1..]);
    }
  }

  function DigitChar(d: nat): (c: char)
    requires d < 10
    ensures '0' <= c <= '9' && c as int - '0' as int == d
  {
    "0123456789"[d]
  }

  /** Decimal digits of `n`, most significant first, no leading zero. */
  function NatToString(n: nat): (s: string)
    ensures s != [] && (s[0] == '0' ==> n == 0)
    ensures forall i | 0 <= i < |s| :: '0' <= s[i] <= '9'
  {
    if n < 10 then [DigitChar(n)] else NatToString(n / 10) + [DigitChar(n % 10)]
  }

  /** The value of a string of decimal digits. */
  function DigitsValue(s: string): nat
    requires forall i | 0 <= i < |s| :: '0' <= s[i] <= '9'
  {
    if s == [] then 0 else 10 * DigitsValue(s[..|s| - 1]) + (s[|s| - 1] as int - '0' as int)
  }

  /** Reading the digits back gives the number formatted. */
  lemma {:induction false} NatToStringRoundTrip(n: nat)
    ensures DigitsValue(NatToString(n)) == n
  {
    if n >= 10 {
      var s := NatToString(n);
      assert s[..|s| - 1] == NatToString(n / 10);
      NatToStringRoundTrip(n / 10);
    }
  }

  /** Python's `str(i)` for an `int`. */
  function IntToString(i: int): (s: string)
    ensures s != []
  {
    if i < 0 then "-" + NatToString(-i) else NatToString(i)
  }
}
