/** Regular expressions of the restricted kind the chat analyser uses, read element by
    element.

    Both regular expressions that decide what the analyser sees are a fixed sequence of
    elements: the message pattern of the parser, and the pattern that `strptime` builds
    from the timestamp format. In both, an element that repeats is followed by one that
    cannot start with what it repeats, and an alternation never has two branches that both
    lead to a match. For such patterns, reading each element as far as it goes (`Step`),
    one after another (`Run`), and failing as soon as one does not fit, finds exactly the
    match the backtracking engine finds. `Fits` says which texts an element can match,
    `Follows` what must come after a piece for the element to stop there, and `RunChain`
    proves that reading pieces written one after another gives those pieces back. */
module Reader {
  import opened Text
  import opened Wrappers

  predicate IsDateSep(c: char) { c == '/' || c == '.' || c == '-' }

  predicate IsMeridiem(s: string) { s == "AM" || s == "PM" }

  predicate IsNonZeroDigit(c: char) { '1' <= c <= '9' }

  /** Number of decimal digits at the start of `s`, counting at most `max`. */
  function DigitRun(s: string, max: nat): (n: nat)
    ensures n <= max && n <= |s|
    ensures forall i :: 0 <= i < n ==> IsDigit(s[i])
    ensures n < max && n < |s| ==> !IsDigit(s[n])
  {
    if max == 0 || s == [] || !IsDigit(s[0]) then 0 else 1 + DigitRun(s[1..], max - 1)
  }

  /** Number of whitespace characters at the start of `s`. */
  function SpaceRun(s: string): (n: nat)
    ensures n <= |s|
    ensures forall i :: 0 <= i < n ==> IsSpace(s[i])
    ensures n < |s| ==> !IsSpace(s[n])
  {
    if s == [] || !IsSpace(s[0]) then 0 else 1 + SpaceRun(s[1..])
  }

  /** Index of the first `c` in `s`, or `|s|` when there is none. */
  function IndexOf(s: string, c: char): (i: nat)
    ensures i <= |s| && (i < |s| ==> s[i] == c)
    ensures forall j :: 0 <= j < i ==> s[j] != c
  {
    if s == [] || s[0] == c then 0 else 1 + IndexOf(s[1..], c)
  }

  // ---------------------------------------------------------------------------
  // Elements

  datatype Token =
    | Digits(lo: nat, hi: nat)   // from `lo` to `hi` decimal digits
    | DateSep                    // one of `/`, `.`, `-`
    | Lit(text: string)          // exactly `text`
    | OptComma                   // a comma or nothing
    | Meridiem                   // optional space and optional `AM`/`PM`, before ` - `
    | Sender                     // one or more characters other than `:`
    | Body                       // one or more characters other than a newline
    | Day                        // `strptime`'s `%d`: one or two digits, or a space and a digit 1-9
    | Blank                      // one or more whitespace characters

  predicate IsSender(u: string) { |u| > 0 && ':' !in u }

  predicate IsMessageText(m: string) { |m| > 0 && '\n' !in m }

  predicate IsMeridiemPiece(m: string) {
    m == "" || m == " " || IsMeridiem(m) || (|m| == 3 && m[0] == ' ' && IsMeridiem(m[1..]))
  }

  predicate IsBlank(b: string) { |b| > 0 && forall i :: 0 <= i < |b| ==> IsSpace(b[i]) }

  /** A `%d` field as written: one or two digits, or a space and a non-zero digit. */
  predicate IsDayField(d: string) {
    (1 <= |d| <= 2 && AllDigits(d)) || (|d| == 2 && d[0] == ' ' && IsNonZeroDigit(d[1]))
  }

  /** The texts an element can match. */
  predicate Fits(tok: Token, piece: string) {
    match tok
    case Digits(lo, hi) => lo <= |piece| <= hi && AllDigits(piece)
    case DateSep => |piece| == 1 && IsDateSep(piece[0])
    case Lit(x) => piece == x
    case OptComma => piece == "" || piece == ","
    case Meridiem => IsMeridiemPiece(piece)
    case Sender => IsSender(piece)
    case Body => IsMessageText(piece)
    case Day => IsDayField(piece)
    case Blank => IsBlank(piece)
  }

  /** Each piece fits the element at its position. */
  predicate FitsAll(ts: seq<Token>, ps: seq<string>) {
    |ps| == |ts| && forall i :: 0 <= i < |ts| ==> Fits(ts[i], ps[i])
  }

  /** What must come after `piece` for the element to stop right after it. */
  predicate Follows(tok: Token, piece: string, after: string) {
    match tok
    case Digits(_, hi) => |piece| == hi || after == [] || !IsDigit(after[0])
    case OptComma => piece == "," || after == [] || after[0] != ','
    case Meridiem => |after| >= 3 && after[..3] == " - "
    case Sender => after != [] && after[0] == ':'
    case Body => after == [] || after[0] == '\n'
    case Day => |piece| == 2 || after == [] || !IsDigit(after[0])
    case Blank => after == [] || !IsSpace(after[0])
    case _ => true
  }

  /** One to `hi` digits, at least `lo` of them, as many as there are. */
  function StepDigits(lo: nat, hi: nat, t: string): (r: Option<(string, string)>)
    ensures r.Some? ==> lo <= |r.value.0| <= hi && AllDigits(r.value.0) && t == r.value.0 + r.value.1
  {
    var n := DigitRun(t, hi);
    if n < lo then None
    else
      assert t == t[..n] + t[n..];
      Some((t[..n], t[n..]))
  }

  /** The first `n` characters of `t`, and the rest. */
  function Cut(t: string, n: nat): (r: (string, string))
    requires n <= |t|
    ensures |r.0| == n && t == r.0 + r.1 && r.0 == t[..n] && r.1 == t[n..]
  {
    assert t == t[..n] + t[n..];
    (t[..n], t[n..])
  }

  /** The optional space and meridiem before ` - `: the four shapes that can precede it. */
  function StepMeridiem(t: string): (r: Option<(string, string)>)
    ensures r.Some? ==> IsMeridiemPiece(r.value.0) && t == r.value.0 + r.value.1
  {
    if |t| >= 6 && t[0] == ' ' && IsMeridiem(t[1..3]) && t[3..6] == " - " then
      assert t[..3][1..] == t[1..3];
      Some(Cut(t, 3))
    else if |t| >= 4 && t[..4] == "  - " then
      assert t[..1] == " ";
      Some(Cut(t, 1))
    else if |t| >= 5 && IsMeridiem(t[..2]) && t[2..5] == " - " then
      Some(Cut(t, 2))
    else if |t| >= 3 && t[..3] == " - " then
      Some(Cut(t, 0))
    else None
  }

  /** One or more characters up to the first `c` (or the end). */
  function StepUntil(t: string, c: char): (r: Option<(string, string)>)
    ensures r.Some? ==> |r.value.0| > 0 && c !in r.value.0 && t == r.value.0 + r.value.1
    ensures r.Some? ==> r.value.1 == [] || r.value.1[0] == c
  {
    var n := IndexOf(t, c);
    if n == 0 then None else Some(Cut(t, n))
  }

  /** `%d`: a space and a non-zero digit, or one or two digits. */
  function StepDay(t: string): (r: Option<(string, string)>)
    ensures r.Some? ==> IsDayField(r.value.0) && t == r.value.0 + r.value.1
  {
    if |t| >= 2 && t[0] == ' ' && IsNonZeroDigit(t[1]) then Some(Cut(t, 2))
    else StepDigits(1, 2, t)
  }

  /** One or more whitespace characters, as many as there are. */
  function StepBlank(t: string): (r: Option<(string, string)>)
    ensures r.Some? ==> IsBlank(r.value.0) && t == r.value.0 + r.value.1
  {
    var n := SpaceRun(t);
    if n == 0 then None else Some(Cut(t, n))
  }

  /** Reads one element at the start of `t`: the piece it matches and the text after it. */
  function Step(tok: Token, t: string): (r: Option<(string, string)>)
    ensures r.Some? ==> Fits(tok, r.value.0) && t == r.value.0 + r.value.1
    ensures r.Some? && tok == Body ==> r.value.1 == [] || r.value.1[0] == '\n'
  {
    match tok
    case Digits(lo, hi) => StepDigits(lo, hi, t)
    case DateSep => if t != [] && IsDateSep(t[0]) then Some(Cut(t, 1)) else None
    case Lit(x) => if |x| <= |t| && t[..|x|] == x then Some(Cut(t, |x|)) else None
    case OptComma => if t != [] && t[0] == ',' then Some(Cut(t, 1)) else Some(Cut(t, 0))
    case Meridiem => StepMeridiem(t)
    case Sender => StepUntil(t, ':')
    case Body => StepUntil(t, '\n')
    case Day => StepDay(t)
    case Blank => StepBlank(t)
  }

  /** The pieces written one after another, followed by `rest`. */
  function Chain(ps: seq<string>, rest: string): string
    decreases |ps|
  {
    if ps == [] then rest else ps[0] + Chain(ps[1..], rest)
  }

  /** Reads the elements `ts` one after another from the start of `t`: the pieces they
      match, each fitting its element, and the text after the last one. */
  function Run(ts: seq<Token>, t: string): (r: Option<(seq<string>, string)>)
    ensures r.Some? ==> |r.value.0| == |ts| && t == Chain(r.value.0, r.value.1)
    ensures r.Some? ==> forall i {:trigger r.value.0[i]} :: 0 <= i < |ts| ==> Fits(ts[i], r.value.0[i])
    ensures r.Some? && ts != [] && ts[|ts| - 1] == Body ==> r.value.1 == [] || r.value.1[0] == '\n'
    decreases |ts|
  {
    if ts == [] then Some(([], t))
    else
      match Step(ts[0], t)
      case None => None
      case Some((piece, after)) =>
        match Run(ts[1..], after)
        case None => None
        case Some((pieces, rest)) =>
          assert ([piece] + pieces)[1..] == pieces;
          Some(([piece] + pieces, rest))
  }

  // ---------------------------------------------------------------------------
  // Facts about chains of pieces

  lemma Assoc(a: string, b: string, c: string)
    ensures a + (b + c) == a + b + c
  {
  }

  lemma {:induction false} ChainThen(ps: seq<string>, rest: string)
    ensures Chain(ps, rest) == Chain(ps, []) + rest
    decreases |ps|
  {
    if ps != [] {
      ChainThen(ps[1..], rest);
      Assoc(ps[0], Chain(ps[1..], []), rest);
    }
  }

  /** Chaining two runs of pieces is chaining the first before the chain of the second. */
  lemma {:induction false} ChainAppend(ps: seq<string>, qs: seq<string>, rest: string)
    ensures Chain(ps + qs, rest) == Chain(ps, Chain(qs, rest))
    decreases |ps|
  {
    if ps != [] {
      assert (ps + qs)[1..] == ps[1..] + qs;
      ChainAppend(ps[1..], qs, rest);
    } else {
      assert ps + qs == qs;
    }
  }

  lemma {:induction false} ChainLength(ps: seq<string>, k: nat, rest: string)
    requires k < |ps|
    ensures |Chain(ps, rest)| >= |ps[k]| + |rest|
    decreases |ps|
  {
    if k > 0 {
      ChainLength(ps[1..], k - 1, rest);
    } else {
      ChainLength0(ps[1..], rest);
    }
  }

  lemma {:induction false} ChainLength0(ps: seq<string>, rest: string)
    ensures |Chain(ps, rest)| >= |rest|
    decreases |ps|
  {
    if ps != [] {
      ChainLength0(ps[1..], rest);
    }
  }

  lemma ChainFrom(ps: seq<string>, k: nat, rest: string)
    requires k < |ps|
    ensures Chain(ps[k..], rest) == ps[k] + Chain(ps[k + 1..], rest)
  {
    assert ps[k..][1..] == ps[k + 1..];
  }

  /** When the text from `p` on is `x` followed by `rest`, `x` sits at `p` and `rest`
      starts right after it. */
  lemma SuffixSplit(s: string, p: nat, x: string, rest: string)
    requires p <= |s| && s[p..] == x + rest
    ensures p + |x| <= |s| && s[p..p + |x|] == x
    ensures p + |x| < |s| ==> rest != [] && s[p + |x|] == rest[0]
  {
    assert s[p..p + |x|] == s[p..][..|x|];
    if p + |x| < |s| {
      assert s[p + |x|] == s[p..][|x|];
    }
  }

  // ---------------------------------------------------------------------------
  // Reading back what was written

  lemma {:induction false} DigitRunOf(piece: string, after: string, max: nat)
    requires |piece| <= max && AllDigits(piece)
    requires |piece| == max || after == [] || !IsDigit(after[0])
    ensures DigitRun(piece + after, max) == |piece|
    decreases |piece|
  {
    if piece != [] {
      assert (piece + after)[1..] == piece[1..] + after;
      DigitRunOf(piece[1..], after, max - 1);
    } else {
      assert piece + after == after;
    }
  }

  lemma {:induction false} SpaceRunOf(piece: string, after: string)
    requires forall i :: 0 <= i < |piece| ==> IsSpace(piece[i])
    requires after == [] || !IsSpace(after[0])
    ensures SpaceRun(piece + after) == |piece|
    decreases |piece|
  {
    if piece != [] {
      assert (piece + after)[1..] == piece[1..] + after;
      SpaceRunOf(piece[1..], after);
    } else {
      assert piece + after == after;
    }
  }

  lemma IndexOfAfter(piece: string, after: string, c: char)
    requires c !in piece && (after != [] ==> after[0] == c)
    ensures IndexOf(piece + after, c) == |piece|
  {
    assert forall j :: 0 <= j < |piece| ==> (piece + after)[j] == piece[j];
    assert after != [] ==> (piece + after)[|piece|] == after[0];
  }

  /** The optional space and meridiem stop before ` - `, whichever of the four shapes is
      written. */
  lemma MeridiemOf(piece: string, after: string)
    requires IsMeridiemPiece(piece) && |after| >= 3 && after[..3] == " - "
    ensures StepMeridiem(piece + after) == Some((piece, after))
  {
    if |piece| == 3 {
      MeridiemFull(piece, after);
    } else if piece == " " {
      MeridiemSpace(after);
    } else if |piece| == 2 {
      MeridiemBare(piece, after);
    } else {
      assert piece == [] && piece + after == after;
      MeridiemNone(after);
    }
  }

  /** A space and a meridiem before ` - `. */
  lemma MeridiemFull(piece: string, after: string)
    requires |piece| == 3 && piece[0] == ' ' && IsMeridiem(piece[1..]) && |after| >= 3 && after[..3] == " - "
    ensures StepMeridiem(piece + after) == Some((piece, after))
  {
    var t := piece + after;
    assert t[..3] == piece && t[3..] == after;
    assert t[1..3] == piece[1..] && t[3..6] == after[..3];
  }

  /** A lone space before ` - `. */
  lemma MeridiemSpace(after: string)
    requires |after| >= 3 && after[..3] == " - "
    ensures StepMeridiem(" " + after) == Some((" ", after))
  {
    var t := " " + after;
    assert t[1..3] == " -" && t[..4] == "  - ";
    assert t[..1] == " " && t[1..] == after;
  }

  /** A meridiem right before ` - `. */
  lemma MeridiemBare(piece: string, after: string)
    requires IsMeridiem(piece) && |after| >= 3 && after[..3] == " - "
    ensures StepMeridiem(piece + after) == Some((piece, after))
  {
    var t := piece + after;
    assert t[0] == piece[0] != ' ';
    assert t[..2] == piece && t[2..5] == after[..3] && t[2..] == after;
  }

  /** Nothing between the minutes and ` - `. */
  lemma MeridiemNone(after: string)
    requires |after| >= 3 && after[..3] == " - "
    ensures StepMeridiem(after) == Some(("", after))
  {
    assert after[0] == ' ' && after[1] == '-';
    assert after[1..3][0] == '-';
    assert after[..2][1] == '-';
    assert |after| >= 4 ==> after[..4][1] == '-';
  }

  /** An element reads back the piece it fits when what follows lets it stop there. */
  lemma StepOf(tok: Token, piece: string, after: string)
    requires Fits(tok, piece) && Follows(tok, piece, after)
    ensures Step(tok, piece + after) == Some((piece, after))
  {
    var t := piece + after;
    assert t[..|piece|] == piece && t[|piece|..] == after;
    match tok
    case Digits(lo, hi) =>
      DigitRunOf(piece, after, hi);
    case DateSep =>
    case Lit(x) =>
    case OptComma =>
      if piece == "" {
        assert t == after;
      }
    case Meridiem =>
      MeridiemOf(piece, after);
    case Sender =>
      IndexOfAfter(piece, after, ':');
    case Body =>
      IndexOfAfter(piece, after, '\n');
    case Day =>
      if piece[0] != ' ' {
        assert AllDigits(piece);
        DigitRunOf(piece, after, 2);
      }
    case Blank =>
      SpaceRunOf(piece, after);
  }

  /** Reading elements over pieces written one after another, each fitting its element and
      followed by what lets it stop, gives back exactly those pieces and the rest. */
  lemma {:induction false} RunChain(ts: seq<Token>, ps: seq<string>, rest: string)
    requires FitsAll(ts, ps)
    requires forall i :: 0 <= i < |ts| ==> Follows(ts[i], ps[i], Chain(ps[i + 1..], rest))
    ensures Run(ts, Chain(ps, rest)) == Some((ps, rest))
    decreases |ts|
  {
    if ts != [] {
      var after := Chain(ps[1..], rest);
      assert ps[1..] == ps[0 + 1..];
      StepOf(ts[0], ps[0], after);
      ChainTail(ts, ps, rest);
      RunChain(ts[1..], ps[1..], rest);
      RunCons(ts, ps[0] + after, ps[0], after);
      assert [ps[0]] + ps[1..] == ps;
    }
  }

  /** What `RunChain` demands of a chain holds of the chain without its first piece. */
  lemma ChainTail(ts: seq<Token>, ps: seq<string>, rest: string)
    requires ts != [] && FitsAll(ts, ps)
    requires forall i :: 0 <= i < |ts| ==> Follows(ts[i], ps[i], Chain(ps[i + 1..], rest))
    ensures FitsAll(ts[1..], ps[1..])
    ensures forall i :: 0 <= i < |ts| - 1 ==> Follows(ts[1..][i], ps[1..][i], Chain(ps[1..][i + 1..], rest))
  {
    forall i | 0 <= i < |ts| - 1
      ensures Follows(ts[1..][i], ps[1..][i], Chain(ps[1..][i + 1..], rest))
    {
      assert ps[1..][i + 1..] == ps[i + 2..];
      assert ts[1..][i] == ts[i + 1] && ps[1..][i] == ps[i + 1];
    }
  }

  /** `RunChain` with the text after each piece given as a table: `after[i]` is what
      follows piece `i`, so it is piece `i + 1` followed by `after[i + 1]`, and the text
      after the last piece is `rest`. */
  lemma RunSuffixes(ts: seq<Token>, ps: seq<string>, after: seq<string>, rest: string)
    requires FitsAll(ts, ps) && |after| == |ts| > 0
    requires forall i {:trigger ps[i]} :: 0 < i < |ts| ==> after[i - 1] == ps[i] + after[i]
    requires after[|ts| - 1] == rest
    requires forall i :: 0 <= i < |ts| ==> Follows(ts[i], ps[i], after[i])
    ensures Run(ts, Chain(ps, rest)) == Some((ps, rest))
  {
    SuffixTable(ps, after, rest, 0);
    forall i | 0 <= i < |ts|
      ensures Follows(ts[i], ps[i], Chain(ps[i + 1..], rest))
    {
      assert after[i] == Chain(ps[i + 1..], rest);
    }
    RunChain(ts, ps, rest);
  }

  lemma {:induction false} SuffixTable(ps: seq<string>, after: seq<string>, rest: string, k: nat)
    requires |after| == |ps| && k < |ps|
    requires forall i {:trigger ps[i]} :: 0 < i < |ps| ==> after[i - 1] == ps[i] + after[i]
    requires after[|ps| - 1] == rest
    ensures forall i :: k <= i < |ps| ==> after[i] == Chain(ps[i + 1..], rest)
    decreases |ps| - k
  {
    if k == |ps| - 1 {
      assert ps[k + 1..] == [];
    } else {
      SuffixTable(ps, after, rest, k + 1);
      ChainFrom(ps, k + 1, rest);
      assert after[k] == ps[k + 1] + after[k + 1];
    }
  }

  /** When the first `n` pieces fit the first `n` elements and stop where they must,
      reading the elements goes on from the text after piece `n - 1` with the remaining
      elements. The text after each piece is given as in `RunSuffixes`. */
  lemma RunPrefix(ts: seq<Token>, ps: seq<string>, after: seq<string>, rest: string, n: nat)
    requires 0 < n <= |ts| && n <= |ps| == |after|
    requires forall i {:trigger ps[i]} :: 0 < i < |ps| ==> after[i - 1] == ps[i] + after[i]
    requires after[|ps| - 1] == rest
    requires forall i :: 0 <= i < n ==> Fits(ts[i], ps[i]) && Follows(ts[i], ps[i], after[i])
    ensures Run(ts, Chain(ps, rest)) ==
      match Run(ts[n..], after[n - 1])
      case None => None
      case Some((qs, r)) => Some((ps[..n] + qs, r))
  {
    PrefixRun(ts, ps, after, rest, n);
    assert ts == ts[..n] + ts[n..];
    RunAppend(ts[..n], ts[n..], Chain(ps, rest));
  }

  /** The first `n` elements read exactly the first `n` pieces, leaving the text after
      piece `n - 1`. */
  lemma PrefixRun(ts: seq<Token>, ps: seq<string>, after: seq<string>, rest: string, n: nat)
    requires 0 < n <= |ts| && n <= |ps| == |after|
    requires forall i {:trigger ps[i]} :: 0 < i < |ps| ==> after[i - 1] == ps[i] + after[i]
    requires after[|ps| - 1] == rest
    requires forall i :: 0 <= i < n ==> Fits(ts[i], ps[i]) && Follows(ts[i], ps[i], after[i])
    ensures Run(ts[..n], Chain(ps, rest)) == Some((ps[..n], after[n - 1]))
  {
    var pa, aa := ps[..n], after[..n];
    PrefixChain(ps, after, rest, n);
    forall i {:trigger pa[i]} | 0 < i < n
      ensures aa[i - 1] == pa[i] + aa[i]
    {
      assert pa[i] == ps[i];
    }
    RunSuffixes(ts[..n], pa, aa, after[n - 1]);
  }

  /** The text of all pieces is the text of the first `n` followed by what comes after
      piece `n - 1`. */
  lemma PrefixChain(ps: seq<string>, after: seq<string>, rest: string, n: nat)
    requires 0 < n <= |ps| == |after|
    requires forall i {:trigger ps[i]} :: 0 < i < |ps| ==> after[i - 1] == ps[i] + after[i]
    requires after[|ps| - 1] == rest
    ensures Chain(ps, rest) == Chain(ps[..n], after[n - 1])
  {
    SuffixTable(ps, after, rest, 0);
    assert ps == ps[..n] + ps[n..];
    ChainAppend(ps[..n], ps[n..], rest);
    assert ps[n - 1 + 1..] == ps[n..];
  }

  /** A run stops as soon as one element fails: the first element read `piece` and the
      rest of the elements fail on what follows it. */
  lemma RunStops(ts: seq<Token>, t: string, piece: string, after: string)
    requires ts != [] && Step(ts[0], t) == Some((piece, after)) && Run(ts[1..], after).None?
    ensures Run(ts, t).None?
  {
  }

  /** Reading `a`, then `b` from where `a` stopped; the pieces of both, and what `b` left. */
  function RunThen(a: seq<Token>, b: seq<Token>, t: string): Option<(seq<string>, string)> {
    match Run(a, t)
    case None => None
    case Some((ps, r)) =>
      match Run(b, r)
      case None => None
      case Some((qs, r')) => Some((ps + qs, r'))
  }

  /** Reading `a + b` is reading `a`, then `b` from where `a` stopped. */
  lemma {:induction false} RunAppend(a: seq<Token>, b: seq<Token>, t: string)
    ensures Run(a + b, t) == RunThen(a, b, t)
    decreases |a|
  {
    if a == [] {
      assert a + b == b;
      match Run(b, t)
      case None =>
      case Some((qs, r')) =>
        assert [] + qs == qs;
    } else {
      assert (a + b)[0] == a[0];
      match Step(a[0], t)
      case None =>
      case Some((piece, after)) =>
        RunAppend(a[1..], b, after);
        RunAppendStep(a, b, t, piece, after);
    }
  }

  /** The step of `RunAppend`: the first element of `a` reads `piece`, and the rest of `a`
      followed by `b` reads as the rest of `a`, then `b`. */
  lemma RunAppendStep(a: seq<Token>, b: seq<Token>, t: string, piece: string, after: string)
    requires a != [] && Step(a[0], t) == Some((piece, after))
    requires Run(a[1..] + b, after) == RunThen(a[1..], b, after)
    ensures Run(a + b, t) == RunThen(a, b, t)
  {
    TailAppend(a, b);
    RunCons(a, t, piece, after);
    RunCons(a + b, t, piece, after);
    match Run(a[1..], after)
    case None =>
    case Some((pieces, r)) =>
      match Run(b, r)
      case None =>
      case Some((qs, r')) =>
        ConsAssoc(piece, pieces, qs);
  }

  /** Reading `ts` is reading its first element, then the others from where it stopped. */
  lemma RunCons(ts: seq<Token>, t: string, piece: string, after: string)
    requires ts != [] && Step(ts[0], t) == Some((piece, after))
    ensures Run(ts, t) ==
      match Run(ts[1..], after)
      case None => None
      case Some((pieces, rest)) => Some(([piece] + pieces, rest))
  {
  }

  lemma TailAppend<T>(a: seq<T>, b: seq<T>)
    requires a != []
    ensures (a + b)[0] == a[0] && (a + b)[1..] == a[1..] + b
  {
  }

  lemma ConsAssoc<T>(x: T, ys: seq<T>, zs: seq<T>)
    ensures [x] + (ys + zs) == ([x] + ys) + zs
  {
  }
}
