/** From filter text to tokens and back. */
module FilterLexer {
  import opened Words
  import opened FilterSyntax
  import opened FilterParser

  // ZT_PROBE_FILTER_EXPR_MAX counts the terminating NUL.
  const EXPR_MAX: nat := 128

  predicate IsSpace(c: char) {
    c == ' ' || '\t' <= c <= '\r'
  }

  // The value of c as a digit, at least 16 if it is none.
  function DigitValue(c: char): nat {
    if '0' <= c <= '9' then (c as int) - ('0' as int)
    else if 'a' <= c <= 'f' then (c as int) - ('a' as int) + 10
    else if 'A' <= c <= 'F' then (c as int) - ('A' as int) + 10
    else 16
  }

  predicate IsDigit(c: char, base: nat) {
    DigitValue(c) < base
  }

  function SkipFrom(text: string, p: nat): (q: nat)
    requires p <= |text|
    ensures p <= q <= |text|
    decreases |text| - p
  {
    if p < |text| && IsSpace(text[p]) then SkipFrom(text, p + 1) else p
  }

  function DigitsEnd(text: string, p: nat, base: nat): (q: nat)
    requires p <= |text|
    ensures p <= q <= |text|
    decreases |text| - p
  {
    if p < |text| && IsDigit(text[p], base) then DigitsEnd(text, p + 1, base) else p
  }

  // n times the base, for the three bases there are.
  function Scale(n: nat, base: nat): nat {
    if base == 8 then 8 * n else if base == 10 then 10 * n else 16 * n
  }

  function Positional(digits: string, base: nat): nat {
    if digits == [] then 0
    else Scale(Positional(digits[..|digits| - 1], base), base) + DigitValue(digits[|digits| - 1])
  }

  // strtoull(.., 0) on text that starts with a digit: section 7.22.1.4 of ISO C11.
  // Returns the base, where the digits start and where they end.
  function NumberSpan(text: string, p: nat): (r: (nat, nat, nat))
    requires p < |text|
    ensures p <= r.1 <= r.2 <= |text|
  {
    if text[p] == '0' && p + 2 < |text| && text[p + 1] in {'x', 'X'} && IsDigit(text[p + 2], 16) then
      (16, p + 2, DigitsEnd(text, p + 2, 16))
    else if text[p] == '0' then (8, p, DigitsEnd(text, p, 8))
    else (10, p, DigitsEnd(text, p, 10))
  }

  datatype Lexeme = NoLexeme | Lexeme(token: Token, end: nat)

  predicate StartsWith(text: string, p: nat, word: string) {
    p + |word| <= |text| && text[p..p + |word|] == word
  }

  function NextArg(text: string, p: nat): (r: Lexeme)
    requires p + 3 < |text|
    ensures r.Lexeme? ==> p < r.end <= |text|
  {
    var end := DigitsEnd(text, p + 3, 10);
    var index := Positional(text[p + 3..end], 10);
    if index >= GP_ARG_COUNT then NoLexeme else Lexeme(TArg(index), end)
  }

  function NextNumber(text: string, p: nat): (r: Lexeme)
    requires p < |text| && IsDigit(text[p], 10)
    ensures r.Lexeme? ==> p < r.end <= |text|
  {
    var (base, start, end) := NumberSpan(text, p);
    var value := Positional(text[start..end], base);
    if value >= TWO64 || end == p then NoLexeme else Lexeme(TNum(value), end)
  }

  function TwoCharOp(c: char, d: char): Token {
    if c == '=' && d == '=' then TBin(Eq)
    else if c == '!' && d == '=' then TBin(Ne)
    else if c == '>' && d == '=' then TBin(Ge)
    else if c == '<' && d == '=' then TBin(Le)
    else if c == '&' && d == '&' then TBin(And)
    else if c == '|' && d == '|' then TBin(Or)
    else TEnd
  }

  function OneCharOp(c: char): Token {
    match c
    case '>' => TBin(Gt)
    case '<' => TBin(Lt)
    case '!' => TNot
    case '+' => TBin(Add)
    case '-' => TBin(Sub)
    case '*' => TBin(Mul)
    case '/' => TBin(Div)
    case '(' => TLParen
    case ')' => TRParen
    case _ => TEnd
  }

  // Two-character operators are tried before their one-character prefixes.
  function NextOperator(text: string, p: nat): (r: Lexeme)
    requires p < |text|
    ensures r.Lexeme? ==> p < r.end <= |text|
  {
    if p + 1 < |text| && !TwoCharOp(text[p], text[p + 1]).TEnd? then Lexeme(TwoCharOp(text[p], text[p + 1]), p + 2)
    else if !OneCharOp(text[p]).TEnd? then Lexeme(OneCharOp(text[p]), p + 1)
    else NoLexeme
  }

  function NextToken(text: string, from: nat): (r: Lexeme)
    requires from <= |text|
    ensures r.Lexeme? ==> from < r.end <= |text|
  {
    var p := SkipFrom(text, from);
    if p == |text| then NoLexeme
    else if StartsWith(text, p, "arg") && p + 3 < |text| && IsDigit(text[p + 3], 10) then NextArg(text, p)
    else if IsDigit(text[p], 10) then NextNumber(text, p)
    else NextOperator(text, p)
  }

  datatype Lexed = Rejected | Tokens(tokens: seq<Token>)

  function LexFrom(text: string, p: nat, got: seq<Token>): Lexed
    requires p <= |text|
    decreases |text| - p
  {
    if p == |text| then Tokens(got)
    else
      match NextToken(text, p)
      case NoLexeme => Rejected
      case Lexeme(t, q) => if |got| >= TOKEN_CAP then Rejected else LexFrom(text, q, got + [t])
  }

  method SkipSpaces(text: string, p: nat) returns (q: nat)
    requires p <= |text|
    ensures q == SkipFrom(text, p)
  {
    q := p;
    while q < |text| && IsSpace(text[q])
      invariant p <= q <= |text| && SkipFrom(text, q) == SkipFrom(text, p)
    {
      q := q + 1;
    }
  }

  // ---------------------------------------------------------------------------
  // Printing and reading back

  function DigitChar(d: nat): char
    requires d < 10
  {
    "0123456789"[d]
  }

  function Decimal(n: nat): (s: string)
    ensures s != []
  {
    if n < 10 then [DigitChar(n)] else Decimal(n / 10) + [DigitChar(n % 10)]
  }

  function OpText(op: BinOp): string {
    match op
    case Or => "||"
    case And => "&&"
    case Eq => "=="
    case Ne => "!="
    case Gt => ">"
    case Ge => ">="
    case Lt => "<"
    case Le => "<="
    case Add => "+"
    case Sub => "-"
    case Mul => "*"
    case Div => "/"
  }

  // Tokens the lexer can produce at all.
  predicate Printable(t: Token) {
    !t.TEnd? && (t.TArg? ==> t.index < GP_ARG_COUNT)
  }

  function TokenText(t: Token): (s: string)
    requires Printable(t)
    ensures s != []
  {
    match t
    case TArg(i) => "arg" + Decimal(i)
    case TNum(v) => Decimal(v)
    case TBin(op) => OpText(op)
    case TNot => "!"
    case TLParen => "("
    case TRParen => ")"
  }

  // Token texts with one space between neighbours.
  function Print(ts: seq<Token>): string
    requires forall i | 0 <= i < |ts| :: Printable(ts[i])
  {
    if ts == [] then ""
    else if |ts| == 1 then TokenText(ts[0])
    else TokenText(ts[0]) + " " + Print(ts[1..])
  }

  predicate AllDecimal(s: string) {
    forall i | 0 <= i < |s| :: IsDigit(s[i], 10)
  }

  lemma PositionalAppend(digits: string, d: nat)
    requires d < 10
    ensures IsDigit(DigitChar(d), 10) && (DigitChar(d) == '0' ==> d == 0)
    ensures Positional([], 10) == 0
    ensures Positional(digits + [DigitChar(d)], 10) == 10 * Positional(digits, 10) + d
  {
    assert (digits + [DigitChar(d)])[..|digits|] == digits;
  }

  lemma {:induction false} DecimalReadsBack(n: nat)
    ensures AllDecimal(Decimal(n)) && Positional(Decimal(n), 10) == n
    ensures Decimal(n)[0] == '0' ==> n == 0
  {
    hide Positional;
    if n < 10 {
      assert [] + [DigitChar(n)] == [DigitChar(n)];
      PositionalAppend([], n);
    } else {
      DecimalReadsBack(n / 10);
      PositionalAppend(Decimal(n / 10), n % 10);
    }
  }

  lemma DecimalZero()
    ensures Decimal(0) == "0"
  {
  }

  // The digits of `word` at p are all there is: what follows is no digit.
  lemma {:induction false} DigitsStop(text: string, p: nat, q: nat, base: nat)
    requires p <= q <= |text| && (forall i | p <= i < q :: IsDigit(text[i], base))
    requires q < |text| ==> !IsDigit(text[q], base)
    ensures DigitsEnd(text, p, base) == q
    decreases q - p
  {
    if p < q {
      DigitsStop(text, p + 1, q, base);
    }
  }

  lemma NumberReadsBack(text: string, p: nat, n: nat)
    requires StartsWith(text, p, Decimal(n)) && n < TWO64
    requires p + |Decimal(n)| < |text| ==> text[p + |Decimal(n)|] == ' '
    ensures p < |text| && IsDigit(text[p], 10)
    ensures NextNumber(text, p) == Lexeme(TNum(n), p + |Decimal(n)|)
  {
    hide Decimal;
    DecimalReadsBack(n);
    DecimalZero();
    var q := p + |Decimal(n)|;
    assert forall i | p <= i < q :: text[i] == text[p..q][i - p];
    if n == 0 {
      DigitsStop(text, p, q, 8);
    } else {
      DigitsStop(text, p, q, 10);
    }
    assert Positional(text[p..q], if n == 0 then 8 else 10) == n by {
      if n == 0 {
        assert text[p..q] == "0" && "0"[..0] == [];
        assert Positional("0", 8) == 8 * Positional([], 8) + 0;
      }
    }
  }

  lemma ArgReadsBack(text: string, p: nat, i: nat)
    requires StartsWith(text, p, "arg" + Decimal(i)) && i < GP_ARG_COUNT
    requires p + 3 + |Decimal(i)| < |text| ==> text[p + 3 + |Decimal(i)|] == ' '
    ensures p + 3 < |text| && StartsWith(text, p, "arg") && IsDigit(text[p + 3], 10)
    ensures NextArg(text, p) == Lexeme(TArg(i), p + 3 + |Decimal(i)|)
  {
    DecimalReadsBack(i);
    var word := "arg" + Decimal(i);
    var q := p + |word|;
    assert text[p..q] == word;
    assert text[p..p + 3] == word[..3] == "arg";
    assert text[p + 3..q] == word[3..] == Decimal(i);
    assert forall k | p + 3 <= k < q :: text[k] == text[p + 3..q][k - (p + 3)];
    DigitsStop(text, p + 3, q, 10);
  }

  lemma OperatorReadsBack(text: string, p: nat, t: Token)
    requires Printable(t) && (t.TBin? || t.TNot? || t.TLParen? || t.TRParen?)
    requires StartsWith(text, p, TokenText(t))
    requires p + |TokenText(t)| < |text| ==> text[p + |TokenText(t)|] == ' '
    ensures p < |text| && !IsSpace(text[p]) && !IsDigit(text[p], 10) && text[p] != 'a'
    ensures NextOperator(text, p) == Lexeme(t, p + |TokenText(t)|)
  {
    var w := TokenText(t);
    assert text[p..p + |w|] == w;
    assert text[p] == w[0];
    if |w| == 2 {
      assert text[p + 1] == w[1];
    }
  }

  // Which rule NextToken picks at a solid character.
  lemma NextIsNumber(text: string, p: nat)
    requires p < |text| && IsDigit(text[p], 10)
    ensures NextToken(text, p) == NextNumber(text, p)
  {
    assert p + 3 <= |text| ==> text[p] == text[p..p + 3][0];
  }

  lemma NextIsArg(text: string, p: nat)
    requires p + 3 < |text| && StartsWith(text, p, "arg") && IsDigit(text[p + 3], 10)
    ensures NextToken(text, p) == NextArg(text, p)
  {
    assert text[p] == text[p..p + 3][0] == 'a';
  }

  lemma NextIsOperator(text: string, p: nat)
    requires p < |text| && !IsSpace(text[p]) && !IsDigit(text[p], 10) && text[p] != 'a'
    ensures NextToken(text, p) == NextOperator(text, p)
  {
    assert p + 3 <= |text| ==> text[p] == text[p..p + 3][0];
  }

  /** Wherever the text of a token stands alone, the lexer reads exactly that token. */
  lemma TokenReadsBack(text: string, p: nat, t: Token)
    requires Printable(t) && StartsWith(text, p, TokenText(t))
    requires p + |TokenText(t)| < |text| ==> text[p + |TokenText(t)|] == ' '
    ensures NextToken(text, p) == Lexeme(t, p + |TokenText(t)|)
  {
    match t
    case TNum(v) =>
      NumberReadsBack(text, p, v);
      NextIsNumber(text, p);
    case TArg(i) =>
      ArgReadsBack(text, p, i);
      NextIsArg(text, p);
    case _ =>
      OperatorReadsBack(text, p, t);
      NextIsOperator(text, p);
  }

  // A word followed by nothing, or by a blank and more text, at position q.
  lemma WordThenMore(text: string, q: nat, word: string, more: string)
    requires q <= |text| && text[q..] == word + more && (more == [] || more[0] == ' ')
    ensures StartsWith(text, q, word) && q + |word| <= |text|
    ensures q + |word| < |text| ==> text[q + |word|] == ' '
    ensures text[q + |word|..] == more
  {
    assert text[q..q + |word|] == text[q..][..|word|];
    assert text[q + |word|..] == text[q..][|word|..];
  }

  // What Print puts after the first token.
  function Tail(ts: seq<Token>): string
    requires ts != [] && forall i | 0 <= i < |ts| :: Printable(ts[i])
  {
    if |ts| == 1 then "" else " " + Print(ts[1..])
  }

  lemma TailStartsBlank(ts: seq<Token>)
    requires ts != [] && forall i | 0 <= i < |ts| :: Printable(ts[i])
    ensures Tail(ts) == [] || Tail(ts)[0] == ' '
  {
  }

  lemma PrintIsWordThenTail(ts: seq<Token>)
    requires ts != [] && forall i | 0 <= i < |ts| :: Printable(ts[i])
    ensures Print(ts) == TokenText(ts[0]) + Tail(ts)
  {
  }

  // The first printed token is read, with or without a blank in front of it.
  lemma FirstReadsBack(text: string, p: nat, ts: seq<Token>) returns (end: nat)
    requires p <= |text| && ts != []
    requires forall i | 0 <= i < |ts| :: Printable(ts[i])
    requires text[p..] == Print(ts) || text[p..] == " " + Print(ts)
    ensures p < end <= |text| && NextToken(text, p) == Lexeme(ts[0], end)
    ensures text[end..] == Tail(ts)
  {
    hide NextToken;
    hide Print;
    hide TokenText;
    hide Tail;
    var q := if text[p..] == Print(ts) then p else p + 1;
    TailStartsBlank(ts);
    assert q == p + 1 ==> text[p] == text[p..][0] && text[q..] == text[p..][1..];
    PrintIsWordThenTail(ts);
    var word := TokenText(ts[0]);
    WordThenMore(text, q, word, Tail(ts));
    TokenReadsBack(text, q, ts[0]);
    NextSkips(text, p, q);
    end := q + |word|;
  }

  // The printed ts stands at the end of the text, at p or after one blank at p.
  lemma {:induction false} PrintReadsBack(text: string, p: nat, ts: seq<Token>, got: seq<Token>)
    requires p <= |text| && ts != [] && |got| + |ts| <= TOKEN_CAP
    requires forall i | 0 <= i < |ts| :: Printable(ts[i])
    requires text[p..] == Print(ts) || text[p..] == " " + Print(ts)
    ensures LexFrom(text, p, got) == Tokens(got + ts)
    decreases |ts|
  {
    var end := FirstReadsBack(text, p, ts);
    LexStep(text, p, got, ts[0], end);
    MoveFirst(got, ts);
    if |ts| > 1 {
      PrintReadsBack(text, end, ts[1..], got + [ts[0]]);
    } else {
      assert |text[end..]| == 0;
    }
  }

  lemma MoveFirst(got: seq<Token>, ts: seq<Token>)
    requires ts != []
    ensures got + [ts[0]] + ts[1..] == got + ts
    ensures |ts| == 1 ==> got + [ts[0]] == got + ts
  {
    assert ts == [ts[0]] + ts[1..];
  }

  lemma LexStep(text: string, p: nat, got: seq<Token>, t: Token, end: nat)
    requires p < end <= |text| && |got| < TOKEN_CAP && NextToken(text, p) == Lexeme(t, end)
    ensures LexFrom(text, p, got) == LexFrom(text, end, got + [t])
  {
  }

  lemma NextSkips(text: string, p: nat, q: nat)
    requires p <= q <= p + 1 && q <= |text| && (q == p + 1 ==> text[p] == ' ')
    ensures NextToken(text, p) == NextToken(text, q)
  {
  }

  lemma TextStartsSolid(t: Token)
    requires Printable(t)
    ensures !IsSpace(TokenText(t)[0])
  {
    match t
    case TNum(v) => DecimalReadsBack(v);
    case TArg(i) => assert TokenText(t)[0] == 'a';
    case TBin(op) =>
    case TNot =>
    case TLParen =>
    case TRParen =>
  }

  // Printed text never starts with a blank.
  lemma PrintStartsSolid(ts: seq<Token>)
    requires ts != [] && forall i | 0 <= i < |ts| :: Printable(ts[i])
    ensures Print(ts) != [] && !IsSpace(Print(ts)[0])
  {
    TextStartsSolid(ts[0]);
    PrintIsWordThenTail(ts);
  }

  ghost predicate Fits(ts: seq<Token>) {
    && |ts| <= TOKEN_CAP
    && (forall i | 0 <= i < |ts| :: Printable(ts[i]))
    && |Print(ts)| < EXPR_MAX
  }

  lemma PrintedTextLexes(ts: seq<Token>)
    requires Accepts(ts) && Fits(ts)
    ensures Print(ts) != [] && SkipFrom(Print(ts), 0) == 0
    ensures LexFrom(Print(ts), 0, []) == Tokens(ts)
  {
    PrintStartsSolid(ts);
    assert Print(ts)[0..] == Print(ts);
    PrintReadsBack(Print(ts), 0, ts, []);
    assert [] + ts == ts;
  }

  /* Octal and hexadecimal spellings. */

  function DigitIn(d: nat): char
    requires d < 16
  {
    "0123456789abcdef"[d]
  }

  // The digits of n in base 8 or 16.
  function Numeral(n: nat, base: nat): (s: string)
    requires base == 8 || base == 16
    ensures s != []
  {
    if n < base then [DigitIn(n)] else Numeral(n / base, base) + [DigitIn(n % base)]
  }

  lemma DigitInIs(d: nat)
    requires d < 16
    ensures DigitValue(DigitIn(d)) == d
  {
  }

  lemma PositionalAppendIn(digits: string, d: nat, base: nat)
    requires d < base && (base == 8 || base == 16)
    ensures Positional([], base) == 0
    ensures Positional(digits + [DigitIn(d)], base) == (if base == 8 then 8 else 16) * Positional(digits, base) + d
  {
    hide DigitIn;
    DigitInIs(d);
    assert (digits + [DigitIn(d)])[..|digits|] == digits;
  }

  lemma {:induction false} NumeralReadsBack(n: nat, base: nat)
    requires base == 8 || base == 16
    ensures Positional(Numeral(n, base), base) == n
    ensures forall i | 0 <= i < |Numeral(n, base)| :: IsDigit(Numeral(n, base)[i], base)
  {
    hide Positional;
    hide DigitIn;
    if n < base {
      DigitInIs(n);
      assert [] + [DigitIn(n)] == [DigitIn(n)];
      PositionalAppendIn([], n, base);
    } else {
      NumeralReadsBack(n / base, base);
      DigitInIs(n % base);
      PositionalAppendIn(Numeral(n / base, base), n % base, base);
    }
  }

  /** 0x and the hexadecimal digits of any 64-bit number, up to where no such digit follows. */
  lemma HexReadsBack(text: string, p: nat, n: nat)
    requires StartsWith(text, p, "0x" + Numeral(n, 16)) && n < TWO64
    requires var q := p + 2 + |Numeral(n, 16)|; q < |text| ==> !IsDigit(text[q], 16)
    ensures p < |text| && IsDigit(text[p], 10)
    ensures NextNumber(text, p) == Lexeme(TNum(n), p + 2 + |Numeral(n, 16)|)
  {
    hide Numeral;
    NumeralReadsBack(n, 16);
    var word := "0x" + Numeral(n, 16);
    var q := p + |word|;
    assert forall i | 0 <= i < |word| :: text[p + i] == text[p..q][i] == word[i];
    assert word[0] == '0' && word[1] == 'x';
    assert forall i | p + 2 <= i < q :: text[i] == Numeral(n, 16)[i - p - 2];
    DigitsStop(text, p + 2, q, 16);
    assert text[p + 2..q] == Numeral(n, 16);
  }

  /** 0 and the octal digits likewise. */
  lemma OctalReadsBack(text: string, p: nat, n: nat)
    requires StartsWith(text, p, "0" + Numeral(n, 8)) && n < TWO64
    requires var q := p + 1 + |Numeral(n, 8)|; q < |text| ==> !IsDigit(text[q], 8)
    ensures p < |text| && IsDigit(text[p], 10)
    ensures NextNumber(text, p) == Lexeme(TNum(n), p + 1 + |Numeral(n, 8)|)
  {
    hide Numeral;
    NumeralReadsBack(n, 8);
    var word := "0" + Numeral(n, 8);
    var q := p + |word|;
    assert forall i | 0 <= i < |word| :: text[p + i] == text[p..q][i] == word[i];
    assert word[0] == '0' && IsDigit(word[1], 8);
    DigitsStop(text, p, q, 8);
    assert text[p..q] == word;
    LeadingZero(Numeral(n, 8));
  }

  lemma {:induction false} LeadingZero(digits: string)
    ensures Positional("0" + digits, 8) == Positional(digits, 8)
  {
    var n := |digits|;
    if n > 0 {
      LeadingZero(digits[..n - 1]);
      assert ("0" + digits)[..n] == "0" + digits[..n - 1];
    } else {
      assert "0" + digits == "0" && "0"[..0] == [];
    }
  }
}
