/** Python's `str` operations that the chat analyser relies on: whitespace (`isspace`),
    `strip()`, `split()` with no argument, `" ".join`, `lower()` (ASCII letters only),
    `str(n)` for naturals, zero-padded decimals and the `<` order on strings. */
module Text {

  /** `c.isspace()`: the characters that `str.split()` and `str.strip()` treat as whitespace. */
  predicate IsSpace(c: char) {
    || ('\t' <= c <= '\r')
    || ('\U{1C}' <= c <= ' ')
    || c == '\U{85}' || c == '\U{A0}' || c == '\U{1680}'
    || ('\U{2000}' <= c <= '\U{200A}')
    || c == '\U{2028}' || c == '\U{2029}' || c == '\U{202F}' || c == '\U{205F}' || c == '\U{3000}'
  }

  predicate IsDigit(c: char) { '0' <= c <= '9' }

  predicate AllDigits(s: string) { forall i :: 0 <= i < |s| ==> IsDigit(s[i]) }

  function DigitValue(c: char): (d: nat)
    requires IsDigit(c)
    ensures d < 10
  {
    c as int - '0' as int
  }

  function DigitChar(d: nat): (c: char)
    requires d < 10
    ensures IsDigit(c) && DigitValue(c) == d
  {
    ('0' as int + d) as char
  }

  /** The number a string of decimal digits denotes, as `int(s)` reads it. */
  function DigitsValue(s: string): nat
    requires AllDigits(s)
    decreases |s|
  {
    if s == [] then 0 else 10 * DigitsValue(s[..|s| - 1]) + DigitValue(s[|s| - 1])
  }

  /** A string of `w` digits denotes a number below `10 ^ w`. */
  lemma {:induction false} DigitsBound(s: string)
    requires AllDigits(s)
    ensures DigitsValue(s) < Pow10(|s|)
    decreases |s|
  {
    if s != [] {
      DigitsBound(s[..|s| - 1]);
    }
  }

  /** `str(n)` for a natural number: its shortest decimal rendering. */
  function NatToString(n: nat): (s: string)
    ensures |s| > 0 && AllDigits(s)
    ensures DigitsValue(s) == n
    ensures (s[0] == '0') == (n == 0)
    decreases n
  {
    if n < 10 then [DigitChar(n)]
    else
      var s := NatToString(n / 10) + [DigitChar(n % 10)];
      assert s[..|s| - 1] == NatToString(n / 10);
      s
  }

  /** `str(i)` for any integer: a minus sign for negative numbers, then the digits of the
      magnitude. */
  function IntToString(i: int): (s: string)
    ensures |s| > 0 && (s[0] == '-' <==> i < 0)
    ensures i < 0 ==> AllDigits(s[1..]) && DigitsValue(s[1..]) == -i
    ensures i >= 0 ==> AllDigits(s) && DigitsValue(s) == i
  {
    if i < 0 then
      var s := "-" + NatToString(-i);
      assert s[1..] == NatToString(-i);
      s
    else NatToString(i)
  }

  function Pow10(w: nat): (p: nat)
    ensures p >= 1
  {
    if w == 0 then 1 else 10 * Pow10(w - 1)
  }

  /** `n` written with exactly `width` decimal digits, zeros in front, as `%02d` and
      strftime's `%Y`, `%m`, `%d` write it. */
  function ZeroPad(n: nat, width: nat): (s: string)
    requires n < Pow10(width)
    ensures |s| == width && AllDigits(s)
    ensures DigitsValue(s) == n
  {
    if width == 0 then []
    else
      var s := ZeroPad(n / 10, width - 1) + [DigitChar(n % 10)];
      assert s[..|s| - 1] == ZeroPad(n / 10, width - 1);
      s
  }

  lemma ZeroPadInjective(x: nat, y: nat, width: nat)
    requires x < Pow10(width) && y < Pow10(width)
    ensures ZeroPad(x, width) == ZeroPad(y, width) <==> x == y
  {
  }

  // ---------------------------------------------------------------------------
  // strip()

  /** `s.lstrip()`. */
  function TrimStart(s: string): (r: string)
    ensures |r| <= |s| && r == s[|s| - |r|..]
    ensures forall i :: 0 <= i < |s| - |r| ==> IsSpace(s[i])
    ensures r != [] ==> !IsSpace(r[0])
  {
    if s != [] && IsSpace(s[0]) then TrimStart(s[1..]) else s
  }

  /** `s.rstrip()`. */
  function TrimEnd(s: string): (r: string)
    ensures |r| <= |s| && r == s[..|r|]
    ensures forall i :: |r| <= i < |s| ==> IsSpace(s[i])
    ensures r != [] ==> !IsSpace(r[|r| - 1])
  {
    if s != [] && IsSpace(s[|s| - 1]) then TrimEnd(s[..|s| - 1]) else s
  }

  /** `s.strip()`: empty exactly when every character of `s` is whitespace. */
  function Strip(s: string): (r: string)
    ensures r == [] <==> forall i :: 0 <= i < |s| ==> IsSpace(s[i])
    ensures r != [] ==> !IsSpace(r[0]) && !IsSpace(r[|r| - 1])
  {
    var left := TrimStart(s);
    var r := TrimEnd(left);
    assert r == [] ==> left == [];
    assert left != [] ==> left[0] == s[|s| - |left|];
    r
  }

  // ---------------------------------------------------------------------------
  // split() and " ".join

  /** A token `str.split()` can produce: non-empty, no whitespace in it. */
  predicate IsWord(w: string) {
    |w| > 0 && forall i :: 0 <= i < |w| ==> !IsSpace(w[i])
  }

  /** Length of the longest whitespace-free prefix of `s`. */
  function WordLength(s: string): (n: nat)
    ensures n <= |s|
    ensures forall i :: 0 <= i < n ==> !IsSpace(s[i])
    ensures n == |s| || IsSpace(s[n])
  {
    if s == [] || IsSpace(s[0]) then 0 else 1 + WordLength(s[1..])
  }

  /** `s.split()`: the maximal runs of non-whitespace characters, left to right. */
  function Split(s: string): (words: seq<string>)
    ensures forall k :: 0 <= k < |words| ==> IsWord(words[k])
    decreases |s|
  {
    if s == [] then []
    else if IsSpace(s[0]) then Split(s[1..])
    else
      var n := WordLength(s);
      [s[..n]] + Split(s[n..])
  }

  /** `sep.join(parts)`. */
  function Join(parts: seq<string>, sep: string): string
  {
    if |parts| == 0 then ""
    else if |parts| == 1 then parts[0]
    else parts[0] + sep + Join(parts[1..], sep)
  }

  /** `[w for m in messages for w in m.split()]`. */
  function WordsOf(messages: seq<string>): seq<string>
  {
    if messages == [] then [] else Split(messages[0]) + WordsOf(messages[1..])
  }

  lemma WordsOfAppend(a: seq<string>, b: seq<string>)
    ensures WordsOf(a + b) == WordsOf(a) + WordsOf(b)
  {
    if a != [] {
      assert (a + b)[0] == a[0] && (a + b)[1..] == a[1..] + b;
      WordsOfAppend(a[1..], b);
      assert WordsOf(a + b) == Split(a[0]) + (WordsOf(a[1..]) + WordsOf(b));
    } else {
      assert a + b == b;
    }
  }

  /** A single token splits to itself. */
  lemma SplitWord(w: string)
    requires IsWord(w)
    ensures Split(w) == [w]
  {
    assert w[..|w|] == w;
  }

  lemma {:induction false} WordLengthBeforeSpace(a: string, c: char, b: string)
    requires IsSpace(c)
    ensures WordLength(a + [c] + b) == WordLength(a)
  {
    var s := a + [c] + b;
    var n, m := WordLength(a), WordLength(s);
    assert n == |a| ==> s[n] == c;
    assert n < |a| ==> s[n] == a[n];
    assert forall i :: 0 <= i < n ==> s[i] == a[i];
  }

  /** Splitting at a whitespace character splits the two sides independently. */
  lemma {:induction false} SplitAtSpace(a: string, c: char, b: string)
    requires IsSpace(c)
    ensures Split(a + [c] + b) == Split(a) + Split(b)
    decreases |a|
  {
    if a == [] {
      assert (a + [c] + b)[1..] == b;
    } else if IsSpace(a[0]) {
      SplitAtSpace(a[1..], c, b);
      SplitAfterSpace(a, c, b);
    } else {
      var n := WordLength(a);
      SplitAtSpace(a[n..], c, b);
      SplitAfterWord(a, c, b, n);
    }
  }

  /** The step of `SplitAtSpace` when `a` starts with whitespace. */
  lemma SplitAfterSpace(a: string, c: char, b: string)
    requires a != [] && IsSpace(a[0])
    requires Split(a[1..] + [c] + b) == Split(a[1..]) + Split(b)
    ensures Split(a + [c] + b) == Split(a) + Split(b)
  {
    assert (a + [c] + b)[1..] == a[1..] + [c] + b;
  }

  /** The step of `SplitAtSpace` when `a` starts with a token of length `n`. */
  lemma SplitAfterWord(a: string, c: char, b: string, n: nat)
    requires IsSpace(c) && a != [] && !IsSpace(a[0]) && n == WordLength(a)
    requires Split(a[n..] + [c] + b) == Split(a[n..]) + Split(b)
    ensures Split(a + [c] + b) == Split(a) + Split(b)
  {
    SplitLeadWord(a, c, b, n);
    SplitWordStep(a, n);
  }

  /** The first token of `a + [c] + b` is the first token of `a`. */
  lemma SplitLeadWord(a: string, c: char, b: string, n: nat)
    requires IsSpace(c) && a != [] && !IsSpace(a[0]) && n == WordLength(a)
    ensures Split(a + [c] + b) == [a[..n]] + Split(a[n..] + [c] + b)
  {
    var s := a + [c] + b;
    WordLengthBeforeSpace(a, c, b);
    assert s[..n] == a[..n] && s[n..] == a[n..] + [c] + b;
    SplitWordStep(s, n);
  }

  /** A leading token is split off whole. */
  lemma SplitWordStep(s: string, n: nat)
    requires s != [] && !IsSpace(s[0]) && n == WordLength(s)
    ensures n <= |s| && Split(s) == [s[..n]] + Split(s[n..])
  {
  }

  /** Two tokens with a space between them split into those two tokens. */
  lemma SplitTwoWords(a: string, b: string)
    requires IsWord(a) && IsWord(b)
    ensures Split(a + [' '] + b) == [a, b]
  {
    SplitAtSpace(a, ' ', b);
    SplitWord(a);
    SplitWord(b);
  }

  /** Splitting a space-joined text gives the tokens of each part, in order. */
  lemma {:induction false} SplitJoin(parts: seq<string>)
    ensures Split(Join(parts, " ")) == WordsOf(parts)
  {
    if |parts| == 1 {
      assert WordsOf(parts[1..]) == [];
    } else if |parts| > 1 {
      SplitJoin(parts[1..]);
      assert Join(parts, " ") == parts[0] + [' '] + Join(parts[1..], " ");
      SplitAtSpace(parts[0], ' ', Join(parts[1..], " "));
    }
  }

  /** `" ".join(ws).split() == ws` for tokens `split()` can produce. */
  lemma {:induction false} SplitJoinWords(ws: seq<string>)
    requires forall k :: 0 <= k < |ws| ==> IsWord(ws[k])
    ensures Split(Join(ws, " ")) == ws
  {
    SplitJoin(ws);
    WordsOfWords(ws);
  }

  lemma {:induction false} WordsOfWords(ws: seq<string>)
    requires forall k :: 0 <= k < |ws| ==> IsWord(ws[k])
    ensures WordsOf(ws) == ws
  {
    if ws != [] {
      SplitWord(ws[0]);
      WordsOfWords(ws[1..]);
    }
  }

  /** Every character of a token of `s.split()` is a character of `s`. */
  lemma {:induction false} SplitChars(s: string)
    ensures forall k, j :: 0 <= k < |Split(s)| && 0 <= j < |Split(s)[k]| ==> Split(s)[k][j] in s
    decreases |s|
  {
    if s != [] {
      if IsSpace(s[0]) {
        SplitChars(s[1..]);
        assert forall c :: c in s[1..] ==> c in s;
      } else {
        var n := WordLength(s);
        SplitChars(s[n..]);
        assert Split(s) == [s[..n]] + Split(s[n..]);
        assert forall c :: c in s[n..] ==> c in s;
        assert forall c :: c in s[..n] ==> c in s;
      }
    }
  }

  // ---------------------------------------------------------------------------
  // lower()

  predicate IsUpperAscii(c: char) { 'A' <= c <= 'Z' }

  function LowerChar(c: char): char
  {
    if IsUpperAscii(c) then (c as int + 32) as char else c
  }

  /** `s.lower()` restricted to ASCII letters: other characters are kept. */
  function Lower(s: string): (r: string)
    ensures |r| == |s|
    ensures forall i :: 0 <= i < |r| ==> !IsUpperAscii(r[i])
    ensures forall i :: 0 <= i < |r| ==> IsSpace(r[i]) == IsSpace(s[i])
    ensures forall i :: 0 <= i < |r| ==> !IsUpperAscii(s[i]) ==> r[i] == s[i]
    ensures forall i :: 0 <= i < |r| ==> IsUpperAscii(s[i]) ==>
      'a' <= r[i] <= 'z' && r[i] as int == s[i] as int + 32
  {
    seq(|s|, i requires 0 <= i < |s| => LowerChar(s[i]))
  }

  /** A string without upper-case letters is its own `lower()`. */
  lemma LowerOfLower(s: string)
    requires forall c :: c in s ==> !IsUpperAscii(c)
    ensures Lower(s) == s
  {
  }

  lemma LowerIdempotent(s: string)
    ensures Lower(Lower(s)) == Lower(s)
  {
  }

  // ---------------------------------------------------------------------------
  // The order of Python strings

  /** `a < b` on Python strings: code-point lexicographic order. */
  predicate LexLess(a: string, b: string)
    decreases |a|
  {
    |b| > 0 && (|a| == 0 || a[0] < b[0] || (a[0] == b[0] && LexLess(a[1..], b[1..])))
  }

  lemma {:induction false} LexLessIrreflexive(a: string)
    ensures !LexLess(a, a)
    decreases |a|
  {
    if |a| > 0 { LexLessIrreflexive(a[1..]); }
  }

  lemma {:induction false} LexLessTransitive(a: string, b: string, c: string)
    requires LexLess(a, b) && LexLess(b, c)
    ensures LexLess(a, c)
    decreases |a|
  {
    if |a| > 0 && a[0] == b[0] && b[0] == c[0] {
      LexLessTransitive(a[1..], b[1..], c[1..]);
    }
  }

  lemma {:induction false} LexLessAsymmetric(a: string, b: string)
    ensures LexLess(a, b) ==> !LexLess(b, a)
    decreases |a|
  {
    if |a| > 0 && |b| > 0 && a[0] == b[0] {
      LexLessAsymmetric(a[1..], b[1..]);
    }
  }

  lemma {:induction false} LexLessTotal(a: string, b: string)
    ensures a == b || LexLess(a, b) || LexLess(b, a)
    decreases |a|
  {
    if |a| > 0 && |b| > 0 && a[0] == b[0] {
      LexLessTotal(a[1..], b[1..]);
      if a[1..] == b[1..] {
        assert a == [a[0]] + a[1..] && b == [b[0]] + b[1..];
      }
    }
  }

  /** `LexLess` is a strict total order on strings. */
  lemma LexLessIsStrictTotalOrder()
    ensures forall a: string :: !LexLess(a, a)
    ensures forall a: string, b: string, c: string :: LexLess(a, b) && LexLess(b, c) ==> LexLess(a, c)
    ensures forall a: string, b: string :: a != b ==> LexLess(a, b) || LexLess(b, a)
  {
    forall a: string { LexLessIrreflexive(a); }
    forall a: string, b: string, c: string | LexLess(a, b) && LexLess(b, c) { LexLessTransitive(a, b, c); }
    forall a: string, b: string { LexLessTotal(a, b); }
  }

  /** Comparing two concatenations whose first parts have equal length compares the first
      parts, then the second. */
  lemma {:induction false} LexLessConcat(a: string, c: string, b: string, d: string)
    requires |a| == |b|
    ensures LexLess(a + c, b + d) <==> LexLess(a, b) || (a == b && LexLess(c, d))
    decreases |a|
  {
    if |a| > 0 {
      assert (a + c)[0] == a[0] && (b + d)[0] == b[0];
      assert (a + c)[1..] == a[1..] + c && (b + d)[1..] == b[1..] + d;
      LexLessConcat(a[1..], c, b[1..], d);
      if a[0] == b[0] && a[1..] == b[1..] {
        assert a == [a[0]] + a[1..] && b == [b[0]] + b[1..];
      }
    } else {
      assert a + c == c && b + d == d;
    }
  }

  lemma DivModOrder(x: nat, y: nat)
    ensures x < y <==> x / 10 < y / 10 || (x / 10 == y / 10 && x % 10 < y % 10)
  {
  }

  /** Zero-padded numbers of one width sort as strings exactly as they sort as numbers. */
  lemma {:induction false} ZeroPadOrder(x: nat, y: nat, width: nat)
    requires x < Pow10(width) && y < Pow10(width)
    ensures LexLess(ZeroPad(x, width), ZeroPad(y, width)) <==> x < y
  {
    if width > 0 {
      DivModOrder(x, y);
      var qx, rx := ZeroPadStep(x, width);
      var qy, ry := ZeroPadStep(y, width);
      var px, py := ZeroPad(qx, width - 1), ZeroPad(qy, width - 1);
      ZeroPadOrder(qx, qy, width - 1);
      ZeroPadInjective(qx, qy, width - 1);
      LexLessConcat(px, [DigitChar(rx)], py, [DigitChar(ry)]);
      DigitOrder(rx, ry);
    }
  }

  /** A padded number is its padded tens followed by its last digit. */
  lemma ZeroPadStep(x: nat, width: nat) returns (q: nat, d: nat)
    requires 0 < width && x < Pow10(width)
    ensures q == x / 10 && d == x % 10 && q < Pow10(width - 1) && d < 10
    ensures ZeroPad(x, width) == ZeroPad(q, width - 1) + [DigitChar(d)]
  {
    q, d := x / 10, x % 10;
  }

  /** One-digit strings sort as their digits do. */
  lemma DigitOrder(a: nat, b: nat)
    requires a < 10 && b < 10
    ensures LexLess([DigitChar(a)], [DigitChar(b)]) <==> a < b
  {
    assert [DigitChar(a)][1..] == [] && [DigitChar(b)][1..] == [];
  }
}
