/** The tokenizer of src/main.cpp: set_digits and set_tokens.

  The text is scanned left to right. Blanks and `//` comments produce no
  token, each of the ten symbol characters produces one, a digit starts a
  decimal literal read into a 16-bit accumulator, and any other word
  character starts a name that runs to the last word character. */
module Lexer {
  import opened Results
  import opened Syntax
  import opened Arith

  /** The modulus of the u16 accumulator of set_digits. */
  const Word16: nat := 0x1_0000

  predicate IsAlpha(c: char) {
    ('A' <= c <= 'Z') || ('a' <= c <= 'z')
  }

  predicate IsDigit(c: char) {
    '0' <= c <= '9'
  }

  predicate IsPunct(c: char) {
    c == '_' || c == '.' || c == '$' || c == ':'
  }

  /** A character that may appear in a name or a literal. */
  predicate IsWordChar(c: char) {
    IsAlpha(c) || IsDigit(c) || IsPunct(c)
  }

  predicate IsBlank(c: char) {
    c == ' ' || c == '\t' || c == '\r' || c == '\n'
  }

  /** The three runs the scanner skips over: the digits of a literal, the
      characters of a name, and the rest of a comment line. */
  datatype Run = DigitRun | WordRun | CommentRun

  predicate Continues(run: Run, c: char) {
    match run
    case DigitRun => IsDigit(c)
    case WordRun => IsWordChar(c)
    case CommentRun => c != '\n'
  }

  /** The token of a one-character symbol. */
  function Symbol(c: char): Option<Kind>
  {
    match c
    case '(' => Some(LParen)
    case ')' => Some(RParen)
    case '@' => Some(At)
    case '=' => Some(Equals)
    case ';' => Some(SColon)
    case '+' => Some(Plus)
    case '-' => Some(Minus)
    case '!' => Some(Bang)
    case '&' => Some(Ampers)
    case '|' => Some(Pipe)
    case _ => None
  }

  // ---------------------------------------------------------------------------
  // Decimal literals

  predicate AllDigits(s: string) {
    forall k :: 0 <= k < |s| ==> IsDigit(s[k])
  }

  function DigitValue(c: char): (d: int)
    ensures IsDigit(c) ==> 0 <= d < 10
  {
    (c as int) - ('0' as int)
  }

  /** The value of a digit string read as a decimal numeral. */
  function Decimal(s: string): (v: int)
    ensures AllDigits(s) ==> 0 <= v
  {
    if |s| == 0 then 0 else Decimal(s[..|s| - 1]) * 10 + DigitValue(s[|s| - 1])
  }

  /** The shortest decimal numeral of v. */
  function DecimalText(v: nat): (s: string)
    ensures 0 < |s| && AllDigits(s)
  {
    var c := ('0' as int + v % 10) as char;
    if v < 10 then [c] else DecimalText(v / 10) + [c]
  }

  /** The first index at or after i whose character does not continue the run. */
  function Span(text: string, i: nat, run: Run): (e: nat)
    requires i <= |text|
    ensures i <= e <= |text|
    ensures e == |text| || !Continues(run, text[e])
    decreases |text| - i
  {
    if i < |text| && Continues(run, text[i]) then Span(text, i + 1, run) else i
  }

  /** Every character of a span continues its run. */
  lemma {:induction false} SpanRun(text: string, i: nat, run: Run)
    requires i <= |text|
    ensures forall k :: i <= k < Span(text, i, run) ==> Continues(run, text[k])
    decreases |text| - i
  {
    if i < |text| && Continues(run, text[i]) {
      SpanRun(text, i + 1, run);
    }
  }

  /** The loop of set_digits from index i with accumulator a: each digit is
      folded in as a * 10 + d truncated to 16 bits, and the run aborts as
      soon as the truncated value is smaller than its predecessor. */
  function Accumulate(text: string, i: nat, a: nat): (r: Result<(nat, nat)>)
    requires i <= |text| && a < Word16
    ensures r.Success? ==> r.value.0 < Word16 && r.value.1 == Span(text, i, DigitRun)
    decreases |text| - i
  {
    if i < |text| && IsDigit(text[i]) then
      var b := (a * 10 + DigitValue(text[i])) % Word16;
      if b < a then Failure else Accumulate(text, i + 1, b)
    else
      Success((a, i))
  }

  /** set_digits: the digit run starting at i, read into a u16. On success
      the value is the run's decimal value modulo 2^16 and scanning resumes
      after the run; a run whose value is below 2^16 is always read exactly. */
  function SetDigits(text: string, i: nat): (r: Result<(nat, nat)>)
    requires i <= |text|
    ensures r.Success? ==>
      && r.value.1 == Span(text, i, DigitRun)
      && r.value.0 == Decimal(text[i..r.value.1]) % Word16
    ensures Decimal(text[i..Span(text, i, DigitRun)]) < Word16 ==>
      r == Success((Decimal(text[i..Span(text, i, DigitRun)]), Span(text, i, DigitRun)))
  {
    SpanRun(text, i, DigitRun);
    DigitsBetween(text, i, i);
    AccumulateValue(text, i, i, 0);
    AccumulateExact(text, i, i, 0);
    Accumulate(text, i, 0)
  }

  // ---------------------------------------------------------------------------
  // Tokens

  /** The index just after the lexeme that begins at i. */
  function LexemeEnd(text: string, i: nat): (e: nat)
    requires i < |text|
    ensures i < e <= |text|
  {
    if IsDigit(text[i]) then Span(text, i, DigitRun)
    else if IsWordChar(text[i]) then Span(text, i, WordRun)
    else i + 1
  }

  /** Token t is what the text spells at t's offset. */
  ghost predicate Spells(text: string, t: Token)
  {
    && t.offset < |text|
    && var e := LexemeEnd(text, t.offset);
       match t.kind
       case Int(v) => IsDigit(text[t.offset]) && v == Decimal(text[t.offset..e]) % Word16
       case Str(s) => IsWordChar(text[t.offset]) && !IsDigit(text[t.offset]) && s == text[t.offset..e]
       case _ => Symbol(text[t.offset]) == Some(t.kind)
  }

  /** Text that yields no token: blanks and `//` comments. A comment runs to
      its newline; only text that ends the input (`last`) may stop inside
      one. */
  predicate Gap(g: string, last: bool)
    decreases |g|
  {
    if |g| == 0 then true
    else if IsBlank(g[0]) then Gap(g[1..], last)
    else if 2 <= |g| && g[0] == '/' && g[1] == '/' then
      var e := Span(g, 2, CommentRun);
      if e == |g| then last else Gap(g[e..], last)
    else false
  }

  /** Token t's lexeme ends at or before token u begins, and only blanks and
      closed comments lie between them. */
  ghost predicate Adjacent(text: string, t: Token, u: Token)
  {
    && t.offset < |text|
    && LexemeEnd(text, t.offset) <= u.offset <= |text|
    && Gap(text[LexemeEnd(text, t.offset)..u.offset], false)
  }

  /** A character set_tokens has no case for. */
  predicate Stray(c: char) {
    !IsBlank(c) && c != '/' && Symbol(c).None? && !IsWordChar(c)
  }

  /** One turn of the set_tokens loop at index i: the token that begins
      there, if any, and the index where scanning resumes. */
  function Scan(text: string, i: nat): (r: Result<(Option<Kind>, nat)>)
    requires i < |text|
    ensures r.Success? ==> i < r.value.1 <= |text|
  {
    var c := text[i];
    if c == '/' then
      if |text| <= i + 1 || text[i + 1] != '/' then Failure
      else Success((None, Span(text, i + 1, CommentRun)))
    else if IsBlank(c) then
      Success((None, i + 1))
    else if Symbol(c).Some? then
      Success((Symbol(c), i + 1))
    else if !IsWordChar(c) then
      Failure
    else if IsDigit(c) then
      var (v, e) :- SetDigits(text, i);
      if MaxU15 < v then Failure else Success((Some(Int(v)), e))
    else
      Success((Some(Str(text[i..Span(text, i, WordRun)])), Span(text, i, WordRun)))
  }

  /** The set_tokens loop from index i, with the tokens found so far. A token
      beyond the token capacity aborts. */
  function LexFrom(lim: Limits, text: string, i: nat, toks: seq<Token>): (r: Result<seq<Token>>)
    requires i <= |text|
    ensures r.Success? ==> |toks| <= |r.value| && r.value[..|toks|] == toks
    ensures r.Success? && |toks| <= lim.tokens ==> |r.value| <= lim.tokens
    decreases |text| - i
  {
    if i == |text| then
      Success(toks)
    else
      var step :- Scan(text, i);
      match step.0
      case None => LexFrom(lim, text, step.1, toks)
      case Some(k) =>
        if lim.tokens <= |toks| then Failure
        else LexFrom(lim, text, step.1, toks + [Token(k, i)])
  }

  /** set_tokens: the tokens of the whole text, in order, each spelling the
      text at its offset, and nothing but blanks and comments before, between
      and after them. */
  function Lex(lim: Limits, text: string): (r: Result<seq<Token>>)
    ensures r.Success? ==> |r.value| <= lim.tokens
    ensures r.Success? ==> forall k :: 0 <= k < |r.value| ==> Spells(text, r.value[k])
    ensures r.Success? ==>
      forall k :: 0 <= k < |r.value| - 1 ==> Adjacent(text, r.value[k], r.value[k + 1])
    ensures r.Success? && |r.value| == 0 ==> Gap(text, true)
    ensures r.Success? && 0 < |r.value| ==>
      && r.value[0].offset < |text|
      && Gap(text[..r.value[0].offset], false)
      && r.value[|r.value| - 1].offset < |text|
      && Gap(text[LexemeEnd(text, r.value[|r.value| - 1].offset)..], true)
  {
    LexFromSound(lim, text, 0, [], 0);
    assert text[0..] == text;
    LexFrom(lim, text, 0, [])
  }

  /** What one scanning step does at index i: a token it yields spells the
      text there and scanning resumes after that lexeme; no token means a
      blank or a comment running to the end of its line; a lone `/` and a
      stray character abort; a literal of at most 32767 is read exactly and
      one from 32768 to 65535 aborts. */
  lemma ScanSpec(text: string, i: nat)
    requires i < |text|
    ensures Scan(text, i).Success? && Scan(text, i).value.0.Some? ==>
      Spells(text, Token(Scan(text, i).value.0.value, i)) && Scan(text, i).value.1 == LexemeEnd(text, i)
    ensures Scan(text, i).Success? && Scan(text, i).value.0.None? ==>
      IsBlank(text[i]) || (text[i] == '/' && (Scan(text, i).value.1 == |text| || text[Scan(text, i).value.1] == '\n'))
    ensures text[i] == '/' ==> (Scan(text, i).Success? <==> i + 1 < |text| && text[i + 1] == '/')
    ensures Stray(text[i]) ==> Scan(text, i).Failure?
    ensures IsWordChar(text[i]) && !IsDigit(text[i]) ==> Scan(text, i).Success?
    ensures IsDigit(text[i]) ==>
      var v := Decimal(text[i..Span(text, i, DigitRun)]);
      && (v <= MaxU15 ==> Scan(text, i) == Success((Some(Int(v)), Span(text, i, DigitRun))))
      && (MaxU15 < v < Word16 ==> Scan(text, i).Failure?)
  {
    if IsDigit(text[i]) {
      SpanRun(text, i, DigitRun);
      DigitsBetween(text, i, Span(text, i, DigitRun));
    } else if text[i] == '/' && i + 1 < |text| {
      SpanRun(text, i + 1, CommentRun);
    }
  }

  /** Tokens from index `from` on spell the text at offsets no smaller than
      i, and each ends before the next begins. */
  ghost predicate SoundFrom(text: string, toks: seq<Token>, from: nat, i: nat)
  {
    && (forall k :: from <= k < |toks| ==> i <= toks[k].offset && Spells(text, toks[k]))
    && (forall k :: from <= k < |toks| - 1 ==> Adjacent(text, toks[k], toks[k + 1]))
  }

  /** Only blanks and comments lie between e and i, and a comment still open
      at i is about to be closed by a newline. */
  ghost predicate Between(text: string, e: nat, i: nat)
  {
    && e <= i <= |text|
    && Gap(text[e..i], true)
    && (i < |text| && text[i] != '\n' ==> Gap(text[e..i], false))
  }

  /** The tokens from index n on, when scanning last resumed at e: a gap
      leads from e to the first of them (or to the end of the text), and a
      gap follows the last one. */
  ghost predicate Framed(text: string, toks: seq<Token>, n: nat, e: nat)
  {
    && n <= |toks|
    && e <= |text|
    && (n == |toks| ==> Gap(text[e..], true))
    && (n < |toks| ==>
        && e <= toks[n].offset < |text|
        && Gap(text[e..toks[n].offset], false)
        && toks[|toks| - 1].offset < |text|
        && Gap(text[LexemeEnd(text, toks[|toks| - 1].offset)..], true))
  }

  /** Every token LexFrom adds spells the text at its offset, at or after
      index i; consecutive tokens are apart by a gap, and gaps lead from e to
      the first of them and from the last to the end of the text. */
  lemma {:induction false} LexFromSound(lim: Limits, text: string, i: nat, toks: seq<Token>, e: nat)
    requires Between(text, e, i)
    ensures LexFrom(lim, text, i, toks).Success? ==>
      && SoundFrom(text, LexFrom(lim, text, i, toks).value, |toks|, i)
      && Framed(text, LexFrom(lim, text, i, toks).value, |toks|, e)
    decreases |text| - i
  {
    if i == |text| {
      assert text[e..i] == text[e..];
    } else if Scan(text, i).Success? {
      var step := Scan(text, i).value;
      ScanSpec(text, i);
      if step.0.None? {
        ScanBetween(text, e, i);
        LexFromSound(lim, text, step.1, toks, e);
      } else if |toks| < lim.tokens {
        var t := Token(step.0.value, i);
        var toks' := toks + [t];
        assert text[step.1..step.1] == [];
        LexFromSound(lim, text, step.1, toks', step.1);
        assert LexFrom(lim, text, i, toks) == LexFrom(lim, text, step.1, toks');
        var r := LexFrom(lim, text, i, toks);
        if r.Success? {
          assert r.value[|toks|] == t by {
            assert r.value[..|toks'|] == toks';
            assert toks'[|toks|] == t;
          }
          TokenFramed(text, r.value, |toks|, e);
        }
      }
    }
  }

  /** A blank or a comment extends the gap that began at e. */
  lemma ScanBetween(text: string, e: nat, i: nat)
    requires Between(text, e, i) && i < |text|
    requires Scan(text, i).Success? && Scan(text, i).value.0.None?
    ensures Between(text, e, Scan(text, i).value.1)
  {
    var next := Scan(text, i).value.1;
    var g := text[e..i];
    if IsBlank(text[i]) {
      assert text[e..i + 1] == g + [text[i]];
      if text[i] == '\n' {
        GapClose(g);
      } else {
        GapBlank(g, text[i]);
      }
      GapWeaken(text[e..i + 1]);
    } else {
      var cm := text[i..next];
      SpanRun(text, i + 1, CommentRun);
      assert cm[0] == '/' && cm[1] == '/';
      assert forall j :: 0 <= j < |cm| ==> cm[j] != '\n' by {
        forall j | 0 <= j < |cm|
          ensures cm[j] != '\n'
        {
          assert cm[j] == text[i + j];
        }
      }
      assert text[e..next] == g + cm;
      GapComment(g, cm);
    }
  }

  /** The token at index n, at offset i, preceded by a gap from e and followed
      by the tokens and gaps LexFrom found after it. */
  lemma TokenFramed(text: string, toks: seq<Token>, n: nat, e: nat)
    requires n < |toks| && e <= toks[n].offset < |text|
    requires Between(text, e, toks[n].offset) && text[toks[n].offset] != '\n'
    requires SoundFrom(text, toks, n + 1, LexemeEnd(text, toks[n].offset))
    requires Framed(text, toks, n + 1, LexemeEnd(text, toks[n].offset))
    requires Spells(text, toks[n])
    ensures SoundFrom(text, toks, n, toks[n].offset)
    ensures Framed(text, toks, n, e)
  {
    if n + 1 < |toks| {
      assert Adjacent(text, toks[n], toks[n + 1]);
    }
  }

  // ---------------------------------------------------------------------------
  // Rendering: the partner of Lex

  /** The text of a token kind. */
  function Spelling(k: Kind): string
  {
    match k
    case Int(v) => DecimalText(v)
    case Str(s) => s
    case LParen => "("
    case RParen => ")"
    case At => "@"
    case Equals => "="
    case SColon => ";"
    case Plus => "+"
    case Minus => "-"
    case Bang => "!"
    case Ampers => "&"
    case Pipe => "|"
  }

  /** A kind the lexer can give back from its spelling: a name is a nonempty
      run of word characters that does not start with a digit. */
  predicate Lexable(k: Kind) {
    k.Str? ==>
      && 0 < |k.text|
      && !IsDigit(k.text[0])
      && forall j :: 0 <= j < |k.text| ==> IsWordChar(k.text[j])
  }

  /** A kind spelled with word characters, whose lexeme would run on into
      a word character written right after it. */
  predicate IsWord(k: Kind) {
    k.Int? || k.Str?
  }

  /** Token j can be lexed back and gap j may follow it: only the last gap
      may stop inside a comment, and a gap may be empty only next to a
      symbol or at the very end. */
  predicate LaidOut(ks: seq<Kind>, gaps: seq<string>, j: nat)
    requires j < |ks| == |gaps|
  {
    && Lexable(ks[j])
    && Gap(gaps[j], j + 1 == |ks|)
    && (gaps[j] == [] && j + 1 < |ks| ==> !IsWord(ks[j]) || !IsWord(ks[j + 1]))
  }

  /** Kinds the lexer can give back, each followed by a gap that keeps it
      apart from the next. */
  predicate Layout(ks: seq<Kind>, gaps: seq<string>)
  {
    && |ks| == |gaps|
    && forall j :: 0 <= j < |ks| ==> LaidOut(ks, gaps, j)
  }

  /** Tokens written out, each followed by its gap. */
  function Render(ks: seq<Kind>, gaps: seq<string>): string
    requires |ks| == |gaps|
  {
    if |ks| == 0 then [] else Spelling(ks[0]) + gaps[0] + Render(ks[1..], gaps[1..])
  }

  // ---------------------------------------------------------------------------
  // Gaps

  /** A span that stops inside g stops at the same place in any extension of g. */
  lemma SpanPrefix(g: string, x: string, i: nat, run: Run)
    requires i <= |g| && Span(g, i, run) < |g|
    ensures Span(g + x, i, run) == Span(g, i, run)
  {
    var e := Span(g, i, run);
    SpanRun(g, i, run);
    forall k | i <= k <= e
      ensures (g + x)[k] == g[k]
    {
    }
    SpanAt(g + x, i, e, run);
  }

  /** A gap without an open comment also ends the text. */
  lemma {:induction false} GapWeaken(g: string)
    ensures Gap(g, false) ==> Gap(g, true)
    decreases |g|
  {
    if 0 < |g| {
      if IsBlank(g[0]) {
        GapWeaken(g[1..]);
      } else if 2 <= |g| && g[0] == '/' && g[1] == '/' {
        var e := Span(g, 2, CommentRun);
        if e < |g| {
          GapWeaken(g[e..]);
        }
      }
    }
  }

  /** A blank after a gap without an open comment extends it. */
  lemma {:induction false} GapBlank(g: string, c: char)
    requires Gap(g, false) && IsBlank(c)
    ensures Gap(g + [c], false)
    decreases |g|
  {
    if |g| == 0 {
      assert (g + [c])[1..] == [];
    } else if IsBlank(g[0]) {
      assert (g + [c])[1..] == g[1..] + [c];
      GapBlank(g[1..], c);
    } else {
      var e := Span(g, 2, CommentRun);
      SpanPrefix(g, [c], 2, CommentRun);
      assert (g + [c])[e..] == g[e..] + [c];
      GapBlank(g[e..], c);
    }
  }

  /** A newline closes the comment a gap may end in. */
  lemma {:induction false} GapClose(g: string)
    requires Gap(g, true)
    ensures Gap(g + "\n", false)
    decreases |g|
  {
    if |g| == 0 {
      assert (g + "\n")[1..] == [];
    } else if IsBlank(g[0]) {
      assert (g + "\n")[1..] == g[1..] + "\n";
      GapClose(g[1..]);
    } else {
      var e := Span(g, 2, CommentRun);
      if e == |g| {
        SpanRun(g, 2, CommentRun);
        SpanAt(g + "\n", 2, e, CommentRun);
        assert (g + "\n")[e..] == "\n";
        assert "\n"[1..] == [];
      } else {
        SpanPrefix(g, "\n", 2, CommentRun);
        assert (g + "\n")[e..] == g[e..] + "\n";
        GapClose(g[e..]);
      }
    }
  }

  /** A comment without its newline after a gap makes a gap that ends the text. */
  lemma {:induction false} GapComment(g: string, cm: string)
    requires Gap(g, false)
    requires 2 <= |cm| && cm[0] == '/' && cm[1] == '/'
    requires forall j :: 0 <= j < |cm| ==> cm[j] != '\n'
    ensures Gap(g + cm, true)
    decreases |g|
  {
    if |g| == 0 {
      assert g + cm == cm;
      SpanAt(cm, 2, |cm|, CommentRun);
    } else if IsBlank(g[0]) {
      assert (g + cm)[1..] == g[1..] + cm;
      GapComment(g[1..], cm);
    } else {
      var e := Span(g, 2, CommentRun);
      SpanPrefix(g, cm, 2, CommentRun);
      assert (g + cm)[e..] == g[e..] + cm;
      GapComment(g[e..], cm);
    }
  }

  // ---------------------------------------------------------------------------
  // Lemmas

  lemma {:induction false} DecimalTextValue(v: nat)
    ensures Decimal(DecimalText(v)) == v
  {
    var c := ('0' as int + v % 10) as char;
    if v >= 10 {
      var s := DecimalText(v / 10);
      DecimalTextValue(v / 10);
      assert (s + [c])[..|s|] == s;
    }
  }

  /** Decimal value never decreases as digits are appended. */
  lemma {:induction false} DecimalPrefix(s: string, j: nat)
    requires AllDigits(s) && j <= |s|
    ensures Decimal(s[..j]) <= Decimal(s)
    decreases |s|
  {
    if j < |s| {
      var p := s[..|s| - 1];
      assert s[..j] == p[..j];
      DecimalPrefix(p, j);
    } else {
      assert s[..j] == s;
    }
  }

  lemma WrapStep(x: nat, d: nat)
    ensures ((x % Word16) * 10 + d) % Word16 == (x * 10 + d) % Word16
  {
    var q := x / Word16;
    var r := x % Word16;
    assert x * 10 + d == (q * 10) * Word16 + (r * 10 + d);
    var t := r * 10 + d;
    assert x * 10 + d == (q * 10 + t / Word16) * Word16 + t % Word16;
    ModOfMultiplePlus(q * 10 + t / Word16, Word16, t % Word16);
  }

  /** A slice of digits is a digit string. */
  lemma DigitsBetween(text: string, s: nat, e: nat)
    requires s <= e <= |text|
    requires forall k :: s <= k < e ==> IsDigit(text[k])
    ensures AllDigits(text[s..e])
  {
    forall k | 0 <= k < e - s
      ensures IsDigit(text[s..e][k])
    {
      assert text[s..e][k] == text[s + k];
    }
  }

  /** Appending one digit: the value is multiplied by ten and the digit added. */
  lemma DecimalSnoc(text: string, s: nat, i: nat)
    requires s <= i < |text|
    requires forall k :: s <= k <= i ==> IsDigit(text[k])
    ensures AllDigits(text[s..i]) && AllDigits(text[s..i + 1])
    ensures Decimal(text[s..i + 1]) == Decimal(text[s..i]) * 10 + DigitValue(text[i])
  {
    DigitsBetween(text, s, i);
    DigitsBetween(text, s, i + 1);
    assert text[s..i + 1][..i - s] == text[s..i];
  }

  /** The decimal value of a longer digit slice is no smaller. */
  lemma DecimalGrows(text: string, s: nat, i: nat, e: nat)
    requires s <= i <= e <= |text|
    requires forall k :: s <= k < e ==> IsDigit(text[k])
    ensures AllDigits(text[s..i]) && AllDigits(text[s..e])
    ensures Decimal(text[s..i]) <= Decimal(text[s..e])
  {
    DigitsBetween(text, s, i);
    DigitsBetween(text, s, e);
    assert text[s..e][..i - s] == text[s..i];
    DecimalPrefix(text[s..e], i - s);
  }

  /** The accumulator of set_digits holds the decimal value of the digits
      read so far, modulo 2^16, and so does the value it returns. */
  lemma {:induction false} AccumulateValue(text: string, s: nat, i: nat, a: nat)
    requires s <= i <= |text|
    requires forall k :: s <= k < i ==> IsDigit(text[k])
    requires a == Decimal(text[s..i]) % Word16
    ensures Accumulate(text, i, a).Success? ==>
      Accumulate(text, i, a).value.0 == Decimal(text[s..Span(text, i, DigitRun)]) % Word16
    decreases |text| - i
  {
    if i < |text| && IsDigit(text[i]) {
      DecimalSnoc(text, s, i);
      WrapStep(Decimal(text[s..i]), DigitValue(text[i]));
      assert Span(text, i + 1, DigitRun) == Span(text, i, DigitRun);
      var b := (a * 10 + DigitValue(text[i])) % Word16;
      if a <= b {
        AccumulateValue(text, s, i + 1, b);
        AccumulateDigit(text, i, a, b);
      }
    }
  }

  /** A run whose decimal value is below 2^16 never lowers the accumulator,
      so it is read to its end, exactly. */
  lemma {:induction false} AccumulateExact(text: string, s: nat, i: nat, a: nat)
    requires s <= i <= |text|
    requires forall k :: s <= k < Span(text, i, DigitRun) ==> IsDigit(text[k])
    requires a == Decimal(text[s..i])
    ensures Decimal(text[s..Span(text, i, DigitRun)]) < Word16 ==>
      && a < Word16
      && Accumulate(text, i, a) ==
         Success((Decimal(text[s..Span(text, i, DigitRun)]), Span(text, i, DigitRun)))
    decreases |text| - i
  {
    var e := Span(text, i, DigitRun);
    DecimalGrows(text, s, i, e);
    if i < |text| && IsDigit(text[i]) && Decimal(text[s..e]) < Word16 {
      DecimalSnoc(text, s, i);
      DecimalGrows(text, s, i + 1, e);
      ModBelow(a * 10 + DigitValue(text[i]), Word16);
      assert Span(text, i + 1, DigitRun) == e;
      var b := (a * 10 + DigitValue(text[i])) % Word16;
      AccumulateExact(text, s, i + 1, b);
      AccumulateDigit(text, i, a, b);
    }
  }

  /** One digit folded in without lowering the accumulator. */
  lemma AccumulateDigit(text: string, i: nat, a: nat, b: nat)
    requires i < |text| && IsDigit(text[i]) && a < Word16
    requires b == (a * 10 + DigitValue(text[i])) % Word16 && a <= b
    ensures Accumulate(text, i, a) == Accumulate(text, i + 1, b)
  {
  }

  /** Span stops exactly at the first character that fails p. */
  lemma {:induction false} SpanAt(text: string, i: nat, e: nat, run: Run)
    requires i <= e <= |text|
    requires forall k :: i <= k < e ==> Continues(run, text[k])
    requires e == |text| || !Continues(run, text[e])
    ensures Span(text, i, run) == e
    decreases e - i
  {
    if i < e {
      SpanAt(text, i + 1, e, run);
    }
  }

  /** No word character follows index e. */
  predicate Ends(text: string, e: nat) {
    e == |text| || (e < |text| && !IsWordChar(text[e]))
  }

  /** A copy of w in the text whose characters all continue the run, followed
      by the end of the text or a character that does not, is exactly the
      span of the run. */
  lemma SpanOfCopy(text: string, i: nat, w: string, run: Run)
    requires i + |w| <= |text| && text[i..i + |w|] == w
    requires forall j :: 0 <= j < |w| ==> Continues(run, w[j])
    requires i + |w| == |text| || !Continues(run, text[i + |w|])
    ensures Span(text, i, run) == i + |w|
  {
    forall j | i <= j < i + |w|
      ensures Continues(run, text[j])
    {
      assert text[j] == w[j - i];
    }
    SpanAt(text, i, i + |w|, run);
  }

  lemma ScanLiteral(text: string, i: nat, v: U15)
    requires i + |DecimalText(v)| <= |text|
    requires text[i..i + |DecimalText(v)|] == DecimalText(v)
    requires Ends(text, i + |DecimalText(v)|)
    ensures Scan(text, i) == Success((Some(Int(v)), i + |DecimalText(v)|))
  {
    var w := DecimalText(v);
    assert text[i] == w[0];
    assert forall j :: 0 <= j < |w| ==> Continues(DigitRun, w[j]);
    SpanOfCopy(text, i, w, DigitRun);
    DecimalTextValue(v);
    assert SetDigits(text, i) == Success((v, i + |w|));
  }

  lemma ScanName(text: string, i: nat, w: string)
    requires Lexable(Str(w))
    requires i + |w| <= |text| && text[i..i + |w|] == w
    requires Ends(text, i + |w|)
    ensures Scan(text, i) == Success((Some(Str(w)), i + |w|))
  {
    assert text[i] == w[0];
    assert forall j :: 0 <= j < |w| ==> Continues(WordRun, w[j]);
    SpanOfCopy(text, i, w, WordRun);
  }

  /** A spelled token scans back to itself; a name or a literal needs no
      word character right after it. */
  lemma ScanSpelling(text: string, i: nat, k: Kind)
    requires Lexable(k)
    requires i + |Spelling(k)| <= |text|
    requires text[i..i + |Spelling(k)|] == Spelling(k)
    requires IsWord(k) ==> Ends(text, i + |Spelling(k)|)
    ensures Scan(text, i) == Success((Some(k), i + |Spelling(k)|))
  {
    match k
    case Int(v) => ScanLiteral(text, i, v);
    case Str(w) => ScanName(text, i, w);
    case _ => assert text[i] == Spelling(k)[0];
  }

  /** A gap yields no token: scanning passes over it. */
  lemma {:induction false} SkipGap(lim: Limits, text: string, j: nat, g: string, last: bool, next: nat,
                                   acc: seq<Token>)
    requires Gap(g, last)
    requires next == j + |g| <= |text| && text[j..next] == g
    requires last ==> next == |text|
    ensures LexFrom(lim, text, j, acc) == LexFrom(lim, text, next, acc)
    decreases |g|
  {
    if 0 < |g| {
      assert text[j] == g[0];
      if IsBlank(g[0]) {
        assert text[j + 1..next] == g[1..];
        SkipGap(lim, text, j + 1, g[1..], last, next, acc);
      } else {
        var e := Span(g, 2, CommentRun);
        SkipComment(text, j, g);
        if e < |g| {
          assert text[j + e..next] == g[e..];
          SkipGap(lim, text, j + e, g[e..], last, next, acc);
        }
      }
    }
  }

  /** The comment a gap begins with is the comment the scanner skips. */
  lemma SkipComment(text: string, j: nat, g: string)
    requires 2 <= |g| && g[0] == '/' && g[1] == '/'
    requires j + |g| <= |text| && text[j..j + |g|] == g
    requires Span(g, 2, CommentRun) == |g| ==> j + |g| == |text|
    ensures Scan(text, j) == Success((None, j + Span(g, 2, CommentRun)))
  {
    var e := Span(g, 2, CommentRun);
    SpanRun(g, 2, CommentRun);
    assert text[j] == g[0] && text[j + 1] == g[1];
    forall k | j + 1 <= k < j + e
      ensures Continues(CommentRun, text[k])
    {
      assert text[k] == g[k - j];
    }
    if e < |g| {
      assert text[j + e] == g[e];
    }
    SpanAt(text, j + 1, j + e, CommentRun);
  }

  /** A scanned token is appended and scanning resumes after it. */
  lemma LexStep(lim: Limits, text: string, i: nat, k: Kind, j: nat, acc: seq<Token>, acc': seq<Token>)
    requires i < |text| && |acc| < lim.tokens
    requires Scan(text, i) == Success((Some(k), j))
    requires acc' == acc + [Token(k, i)]
    ensures LexFrom(lim, text, i, acc) == LexFrom(lim, text, j, acc')
  {
  }

  /** Cutting a text that continues with w + g + rest. */
  lemma RenderSlices(text: string, i: nat, w: string, g: string, rest: string)
    requires i <= |text| && text[i..] == w + g + rest
    ensures i + |w| + |g| <= |text|
    ensures text[i..i + |w|] == w
    ensures text[i + |w|..i + |w| + |g|] == g
    ensures text[i + |w| + |g|..] == rest
  {
    assert text[i..i + |w|] == text[i..][..|w|];
    assert text[i + |w|..i + |w| + |g|] == text[i..][|w|..|w| + |g|];
    assert text[i + |w| + |g|..] == text[i..][|w| + |g|..];
  }

  /** A spelled token and the gap after it yield one token, then scanning
      resumes after the gap: what lexing from there yields, lexing from the
      token yields too. */
  lemma LexTokenGap(lim: Limits, text: string, i: nat, k: Kind, j: nat, g: string, last: bool, next: nat,
                     acc: seq<Token>, acc': seq<Token>)
    requires Lexable(k) && Gap(g, last) && |acc| < lim.tokens
    requires j == i + |Spelling(k)| && next == j + |g| <= |text|
    requires last ==> next == |text|
    requires text[i..j] == Spelling(k)
    requires text[j..next] == g
    requires IsWord(k) ==> Ends(text, j)
    requires acc' == acc + [Token(k, i)]
    ensures LexFrom(lim, text, i, acc) == LexFrom(lim, text, next, acc')
  {
    ScanSpelling(text, i, k);
    LexStep(lim, text, i, k, j, acc, acc');
    SkipGap(lim, text, j, g, last, next, acc');
  }

  lemma KindsShift(acc: seq<Token>, t: Token, ks: seq<Kind>)
    requires 0 < |ks| && ks[0] == t.kind
    ensures Kinds(acc + [t]) + ks[1..] == Kinds(acc) + ks
  {
    assert Kinds(acc + [t]) == Kinds(acc) + [t.kind];
  }

  /** A layout stays a layout without its first token. */
  lemma LayoutTail(ks: seq<Kind>, gaps: seq<string>)
    requires Layout(ks, gaps) && 0 < |ks|
    ensures Layout(ks[1..], gaps[1..])
  {
    forall j | 0 <= j < |ks| - 1
      ensures LaidOut(ks[1..], gaps[1..], j)
    {
      assert LaidOut(ks, gaps, j + 1);
    }
  }

  /** The first token of a rendered layout is not followed by a word
      character: its gap starts with a blank or a `/`, or else a symbol or
      the end of the text comes next. */
  lemma FirstEnds(text: string, i: nat, ks: seq<Kind>, gaps: seq<string>)
    requires Layout(ks, gaps) && 0 < |ks|
    requires i <= |text| && text[i..] == Render(ks, gaps)
    requires IsWord(ks[0])
    ensures Ends(text, i + |Spelling(ks[0])|)
  {
    var j := i + |Spelling(ks[0])|;
    var rest := Render(ks[1..], gaps[1..]);
    RenderSlices(text, i, Spelling(ks[0]), gaps[0], rest);
    assert LaidOut(ks, gaps, 0);
    if gaps[0] != [] {
      assert text[j] == gaps[0][0];
    } else if 1 < |ks| {
      assert LaidOut(ks, gaps, 0);
      assert text[j] == rest[0];
    }
  }

  /** A token, its gap and the rest of the text: one token, and scanning
      resumes where the rest begins. */
  lemma RenderedStep(lim: Limits, text: string, i: nat, k: Kind, g: string, last: bool,
                     rest: string, next: nat, acc: seq<Token>, acc': seq<Token>)
    requires Lexable(k) && Gap(g, last) && |acc| < lim.tokens
    requires last ==> |rest| == 0
    requires i <= |text| && text[i..] == Spelling(k) + g + rest
    requires IsWord(k) ==> Ends(text, i + |Spelling(k)|)
    requires next == i + |Spelling(k)| + |g| && acc' == acc + [Token(k, i)]
    ensures next <= |text| && text[next..] == rest
    ensures LexFrom(lim, text, i, acc) == LexFrom(lim, text, next, acc')
  {
    var j := i + |Spelling(k)|;
    RenderSlices(text, i, Spelling(k), g, rest);
    LexTokenGap(lim, text, i, k, j, g, last, next, acc, acc');
  }

  /** Lexing a rendered suffix yields the rendered kinds. */
  lemma {:induction false} LexRendered(lim: Limits, text: string, i: nat, ks: seq<Kind>,
                                       gaps: seq<string>, acc: seq<Token>)
    requires Layout(ks, gaps) && |acc| + |ks| <= lim.tokens
    requires i <= |text| && text[i..] == Render(ks, gaps)
    ensures LexFrom(lim, text, i, acc).Success?
    ensures Kinds(LexFrom(lim, text, i, acc).value) == Kinds(acc) + ks
    decreases |ks|
  {
    if |ks| == 0 {
      assert |text[i..]| == 0;
      assert Kinds(acc) + [] == Kinds(acc);
    } else {
      var acc' := acc + [Token(ks[0], i)];
      var rest := Render(ks[1..], gaps[1..]);
      var next := i + |Spelling(ks[0])| + |gaps[0]|;
      assert LaidOut(ks, gaps, 0);
      if IsWord(ks[0]) {
        FirstEnds(text, i, ks, gaps);
      }
      RenderedStep(lim, text, i, ks[0], gaps[0], |ks| == 1, rest, next, acc, acc');
      LayoutTail(ks, gaps);
      LexRendered(lim, text, next, ks[1..], gaps[1..], acc');
      KindsShift(acc, Token(ks[0], i), ks);
    }
  }

  /** Lexing inverts rendering: whatever blanks and comments lead, separate
      and trail the tokens, every symbol yields one token, and literals and
      names come back with their values. */
  lemma LexRender(lim: Limits, lead: string, ks: seq<Kind>, gaps: seq<string>)
    requires Layout(ks, gaps) && |ks| <= lim.tokens
    requires Gap(lead, |ks| == 0)
    ensures Lex(lim, lead + Render(ks, gaps)).Success?
    ensures Kinds(Lex(lim, lead + Render(ks, gaps)).value) == ks
  {
    LexLeadRendered(lim, lead + Render(ks, gaps), lead, ks, gaps);
  }

  /** LexRender, for the scanning loop from the start of the text. */
  lemma LexLeadRendered(lim: Limits, text: string, lead: string, ks: seq<Kind>, gaps: seq<string>)
    requires Layout(ks, gaps) && |ks| <= lim.tokens
    requires Gap(lead, |ks| == 0)
    requires text == lead + Render(ks, gaps)
    ensures LexFrom(lim, text, 0, []).Success?
    ensures Kinds(LexFrom(lim, text, 0, []).value) == ks
  {
    var body := Render(ks, gaps);
    assert |ks| == 0 ==> |body| == 0;
    assert text[0..|lead|] == lead;
    SkipGap(lim, text, 0, lead, |ks| == 0, |lead|, []);
    assert text[|lead|..] == body;
    LexRendered(lim, text, |lead|, ks, gaps, []);
    assert Kinds([]) + ks == ks;
  }

  /** The u16 accumulator wraps silently when the wrapped value does not
      drop: "72820" is read as 72820 - 65536 = 7284. */
  lemma WrappedLiteral(t: string)
    requires t == "72820"
    ensures SetDigits(t, 0) == Success((7284, 5))
  {
    assert Accumulate(t, 5, 7284) == Success((7284, 5));
    assert Accumulate(t, 4, 7282) == Accumulate(t, 5, 7284);
    assert Accumulate(t, 3, 728) == Accumulate(t, 4, 7282);
    assert Accumulate(t, 2, 72) == Accumulate(t, 3, 728);
    assert Accumulate(t, 1, 7) == Accumulate(t, 2, 72);
    assert Accumulate(t, 0, 0) == Accumulate(t, 1, 7);
    assert t[..4][..3][..2][..1][..0] == [];
  }

  /** A wrap that lowers the accumulator is rejected: 7000 * 10 wraps to
      4464 < 7000. */
  lemma OverflowingLiteral(u: string)
    requires u == "70000"
    ensures SetDigits(u, 0).Failure?
  {
    assert Accumulate(u, 4, 7000).Failure? by {
      assert IsDigit(u[4]) && DigitValue(u[4]) == 0;
    }
    assert Accumulate(u, 3, 700) == Accumulate(u, 4, 7000) by {
      assert IsDigit(u[3]) && DigitValue(u[3]) == 0;
    }
    assert Accumulate(u, 2, 70) == Accumulate(u, 3, 700) by {
      assert IsDigit(u[2]) && DigitValue(u[2]) == 0;
    }
    assert Accumulate(u, 1, 7) == Accumulate(u, 2, 70) by {
      assert IsDigit(u[1]) && DigitValue(u[1]) == 0;
    }
    assert Accumulate(u, 0, 0) == Accumulate(u, 1, 7) by {
      assert IsDigit(u[0]) && DigitValue(u[0]) == 7;
    }
  }
}
