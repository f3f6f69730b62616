/** What a filter text spells, without reference to how it is read: blanks, then words, each
    as long as possible. The compiler accepts exactly the texts that spell a grammatical
    token list. */
module FilterSpelling {
  import opened Words
  import opened FilterSyntax
  import opened FilterParser
  import opened FilterLexer

  predicate AllDigits(w: string, base: nat) {
    forall i | 0 <= i < |w| :: IsDigit(w[i], base)
  }

  // C integer constants without suffix: hexadecimal, octal and decimal.
  predicate IsHex(w: string) {
    |w| >= 3 && w[0] == '0' && (w[1] == 'x' || w[1] == 'X') && AllDigits(w[2..], 16)
  }

  predicate IsNumber(w: string) {
    w != [] && (IsHex(w) || AllDigits(w, if w[0] == '0' then 8 else 10))
  }

  function NumberValue(w: string): nat
    requires w != []
  {
    if IsHex(w) then Positional(w[2..], 16) else Positional(w, if w[0] == '0' then 8 else 10)
  }

  predicate IsArg(w: string) {
    |w| > 3 && w[..3] == "arg" && AllDigits(w[3..], 10)
  }

  predicate IsOperator(w: string) {
    w in {"||", "&&", "==", "!=", ">", ">=", "<", "<=", "+", "-", "*", "/", "!", "(", ")"}
  }

  predicate IsWord(w: string) {
    IsNumber(w) || IsArg(w) || IsOperator(w)
  }

  predicate Spells(w: string, t: Token) {
    match t
    case TNum(v) => IsNumber(w) && NumberValue(w) == v
    case TArg(i) => IsArg(w) && Positional(w[3..], 10) == i < 6
    case TBin(op) => w == OpText(op)
    case TNot => w == "!"
    case TLParen => w == "("
    case TRParen => w == ")"
    case TEnd => false
  }

  // C's blanks, by character code.
  predicate IsBlank(c: char) {
    c as int in {32, 9, 10, 11, 12, 13}
  }

  // The digits in the order of their values, letters in both cases.
  const Digits: string := "0123456789abcdef"
  const UpperDigits: string := "0123456789ABCDEF"

  /** The characters that are blanks and digits, and what the digits are worth. */
  lemma CharactersAre(c: char, base: nat)
    requires base <= 16
    ensures IsSpace(c) <==> IsBlank(c)
    ensures IsDigit(c, base) <==> exists v: nat :: v < base && (Digits[v] == c || UpperDigits[v] == c) && DigitValue(c) == v
  {
    if IsDigit(c, base) {
      var v := DigitValue(c);
      assert Digits[v] == c || UpperDigits[v] == c;
    }
  }

  // From p on: blanks up to s, and the word [s, e), which no longer word starts with.
  ghost predicate WordAt(text: string, p: nat, s: nat, e: nat) {
    && p <= s < e <= |text|
    && (forall i | p <= i < s :: IsBlank(text[i]))
    && IsWord(text[s..e])
    && forall e' | e < e' <= |text| :: !IsWord(text[s..e'])
  }

  ghost predicate SpelledAt(text: string, p: nat, s: nat, e: nat, t: Token) {
    WordAt(text, p, s, e) && Spells(text[s..e], t)
  }

  // From p on, the text is exactly the words of ts with blanks before them.
  ghost predicate Reads(text: string, p: nat, ts: seq<Token>)
    decreases |ts|
  {
    if ts == [] then p == |text|
    else exists s: nat, e: nat :: SpelledAt(text, p, s, e, ts[0]) && Reads(text, e, ts[1..])
  }

  /* What the lexer reads is spelled there. */

  lemma {:induction false} SkipIsBlank(text: string, p: nat)
    requires p <= |text|
    ensures var s := SkipFrom(text, p);
            (forall i | p <= i < s :: IsSpace(text[i])) && (s < |text| ==> !IsSpace(text[s]))
    decreases |text| - p
  {
    if p < |text| && IsSpace(text[p]) {
      SkipIsBlank(text, p + 1);
    }
  }

  lemma {:induction false} DigitsEndIsMaximal(text: string, p: nat, base: nat)
    requires p <= |text|
    ensures var e := DigitsEnd(text, p, base);
            AllDigits(text[p..e], base) && (e < |text| ==> !IsDigit(text[e], base)) && (p < |text| && IsDigit(text[p], base) ==> p < e)
    decreases |text| - p
  {
    if p < |text| && IsDigit(text[p], base) {
      DigitsEndIsMaximal(text, p + 1, base);
      var e := DigitsEnd(text, p + 1, base);
      assert forall i | 0 < i < e - p :: text[p..e][i] == text[p + 1..e][i - 1];
    }
  }

  // A word that starts with a digit is a number, and one that starts with "arg" and a
  // digit is an argument.
  lemma WordKinds(w: string)
    requires IsWord(w)
    ensures IsDigit(w[0], 10) ==> IsNumber(w)
    ensures w[0] == 'a' ==> IsArg(w)
    ensures !IsDigit(w[0], 10) && w[0] != 'a' ==> IsOperator(w)
    ensures !IsSpace(w[0])
  {
    if IsArg(w) {
      assert w[0] == w[..3][0];
    }
  }

  lemma NumberIsWord(text: string, s: nat)
    requires s < |text| && IsDigit(text[s], 10)
    ensures var (base, start, e) := NumberSpan(text, s);
            && WordAt(text, s, s, e) && IsNumber(text[s..e]) && NumberValue(text[s..e]) == Positional(text[start..e], base)
  {
    var (base, start, e) := NumberSpan(text, s);
    DigitsEndIsMaximal(text, start, base);
    if base == 16 {
      assert text[s..e][2..] == text[start..e];
      assert IsHex(text[s..e]);
    } else {
      assert text[s..e][0] == text[s];
      assert !IsHex(text[s..e]) by {
        if e - s >= 3 {
          assert text[s..e][1] == text[s + 1] && IsDigit(text[s + 1], base);
        }
      }
    }
    forall e' | e < e' <= |text| ensures !IsWord(text[s..e']) {
      NoLongerNumber(text, s, e');
    }
  }

  lemma NoLongerNumber(text: string, s: nat, e': nat)
    requires s < |text| && IsDigit(text[s], 10) && NumberSpan(text, s).2 < e' <= |text|
    ensures !IsWord(text[s..e'])
  {
    var (base, start, e) := NumberSpan(text, s);
    var w := text[s..e'];
    DigitsEndIsMaximal(text, start, base);
    assert w[0] == text[s] && w[e - s] == text[e] && !IsDigit(w[e - s], base);
    assert |w| >= 3 ==> w[1] == text[s + 1] && w[2] == text[s + 2] == w[2..][0];
    assert |w| >= 2 ==> w[1] == text[s + 1];
    assert e - s >= 2 ==> w[2..][e - s - 2] == w[e - s];
    if IsWord(w) {
      WordKinds(w);
      assert false;
    }
  }

  lemma ArgIsWord(text: string, s: nat)
    requires s + 3 < |text| && StartsWith(text, s, "arg") && IsDigit(text[s + 3], 10)
    ensures var e := DigitsEnd(text, s + 3, 10);
            WordAt(text, s, s, e) && IsArg(text[s..e]) && text[s..e][3..] == text[s + 3..e]
  {
    var e := DigitsEnd(text, s + 3, 10);
    DigitsEndIsMaximal(text, s + 3, 10);
    assert text[s..e][..3] == text[s..s + 3] && text[s..e][3..] == text[s + 3..e];
    forall e' | e < e' <= |text| ensures !IsWord(text[s..e']) {
      var w := text[s..e'];
      assert w[0] == text[s..s + 3][0] == 'a' && w[3..][e - s - 3] == text[e];
      if IsWord(w) {
        WordKinds(w);
      }
    }
  }

  lemma OperatorIsWord(text: string, s: nat)
    requires s < |text| && !IsDigit(text[s], 10) && text[s] != 'a'
    ensures var r := NextOperator(text, s);
            if r.Lexeme? then SpelledAt(text, s, s, r.end, r.token)
            else forall e | s < e <= |text| :: !IsWord(text[s..e])
  {
    var r := NextOperator(text, s);
    forall e | s < e <= |text| && IsWord(text[s..e]) ensures r.Lexeme? && e <= r.end {
      hide IsWord;
      hide IsOperator;
      hide Spells;
      WordKinds(text[s..e]);
      OperatorLength(text[s..e]);
      assert text[s..e][0] == text[s] && (e == s + 2 ==> text[s..e][1] == text[s + 1]);
    }
    if r.Lexeme? {
      OperatorSpelled(text, s);
    }
  }

  lemma OperatorSpelled(text: string, s: nat)
    requires s < |text| && NextOperator(text, s).Lexeme?
    ensures var r := NextOperator(text, s); Spells(text[s..r.end], r.token) && IsWord(text[s..r.end])
  {
    var r := NextOperator(text, s);
    if r.end == s + 1 {
      assert text[s..r.end] == [text[s]];
    } else {
      assert text[s..r.end] == [text[s], text[s + 1]];
    }
  }

  lemma OperatorLength(w: string)
    requires IsOperator(w)
    ensures (|w| == 1 && !OneCharOp(w[0]).TEnd?) || (|w| == 2 && !TwoCharOp(w[0], w[1]).TEnd?)
  {
  }

  // A word can spell one token only.
  lemma OneSpelling(w: string, t: Token, t': Token)
    requires Spells(w, t) && Spells(w, t')
    ensures t == t'
  {
    assert |w| >= 3 ==> w[0] == w[..3][0];
  }

  lemma SpellsWord(w: string, t: Token)
    requires Spells(w, t)
    ensures IsWord(w)
  {
  }

  lemma {:induction false} SkipTo(text: string, p: nat, s: nat)
    requires p <= s < |text| && (forall i | p <= i < s :: IsSpace(text[i])) && !IsSpace(text[s])
    ensures SkipFrom(text, p) == s
    decreases s - p
  {
    if p < s {
      SkipTo(text, p + 1, s);
    }
  }

  // The token read from s on, where no blank is, against any word there.
  lemma TokenAtWord(text: string, s: nat)
    requires s < |text| && !IsSpace(text[s])
    ensures var r := NextToken(text, s);
            && (r.Lexeme? ==> SpelledAt(text, s, s, r.end, r.token))
            && (forall e: nat, t: Token | SpelledAt(text, s, s, e, t) :: r == Lexeme(t, e))
  {
    hide SpelledAt;
    hide NextNumber;
    hide NextArg;
    hide NextOperator;
    var r := NextToken(text, s);
    assert SkipFrom(text, s) == s;
    if StartsWith(text, s, "arg") && s + 3 < |text| && IsDigit(text[s + 3], 10) {
      ArgAtWord(text, s);
    } else if IsDigit(text[s], 10) {
      NumberAtWord(text, s);
    } else {
      OperatorAtWord(text, s);
    }
  }

  lemma SameEnd(text: string, s: nat, e: nat, e': nat)
    requires WordAt(text, s, s, e) && WordAt(text, s, s, e')
    ensures e == e'
  {
  }

  lemma NumberAtWord(text: string, s: nat)
    requires s < |text| && IsDigit(text[s], 10)
    ensures var r := NextNumber(text, s);
            && (r.Lexeme? ==> SpelledAt(text, s, s, r.end, r.token))
            && (forall e: nat, t: Token | SpelledAt(text, s, s, e, t) :: r == Lexeme(t, e))
  {
    var (base, start, end) := NumberSpan(text, s);
    NumberIsWord(text, s);
    assert text[s..end][0] == text[s];
    forall e: nat, t: Token | SpelledAt(text, s, s, e, t) ensures NextNumber(text, s) == Lexeme(t, e) {
      SameEnd(text, s, e, end);
      NumberSpelling(text[s..e], t);
    }
  }

  // What a number can spell.
  lemma NumberSpelling(w: string, t: Token)
    requires IsNumber(w) && Spells(w, t)
    ensures t == TNum(NumberValue(w)) && NumberValue(w) < TWO64
  {
    assert IsDigit(w[0], 10);
    assert |w| >= 3 ==> w[0] == w[..3][0];
  }

  lemma ArgAtWord(text: string, s: nat)
    requires s + 3 < |text| && StartsWith(text, s, "arg") && IsDigit(text[s + 3], 10)
    ensures var r := NextArg(text, s);
            && (r.Lexeme? ==> SpelledAt(text, s, s, r.end, r.token))
            && (forall e: nat, t: Token | SpelledAt(text, s, s, e, t) :: r == Lexeme(t, e))
  {
    var end := DigitsEnd(text, s + 3, 10);
    ArgIsWord(text, s);
    forall e: nat, t: Token | SpelledAt(text, s, s, e, t) ensures NextArg(text, s) == Lexeme(t, e) {
      SameEnd(text, s, e, end);
      ArgSpelling(text[s..e], t);
    }
  }

  lemma ArgSpelling(w: string, t: Token)
    requires IsArg(w) && Spells(w, t)
    ensures t == TArg(Positional(w[3..], 10))
  {
    assert w[0] == w[..3][0] == 'a';
  }

  lemma OperatorAtWord(text: string, s: nat)
    requires s < |text| && !IsDigit(text[s], 10) && !(StartsWith(text, s, "arg") && s + 3 < |text| && IsDigit(text[s + 3], 10))
    ensures var r := NextOperator(text, s);
            && (r.Lexeme? ==> SpelledAt(text, s, s, r.end, r.token))
            && (forall e: nat, t: Token | SpelledAt(text, s, s, e, t) :: r == Lexeme(t, e))
  {
    var r := NextOperator(text, s);
    if text[s] == 'a' {
      forall e | s < e <= |text| ensures !IsWord(text[s..e]) {
        var w := text[s..e];
        assert w[0] == text[s];
        assert |w| > 3 ==> w[..3] == text[s..s + 3] && w[3..][0] == text[s + 3];
        if IsWord(w) {
          WordKinds(w);
          assert false;
        }
      }
    } else {
      OperatorIsWord(text, s);
      forall e: nat, t: Token | SpelledAt(text, s, s, e, t) ensures r == Lexeme(t, e) {
        SameEnd(text, s, e, r.end);
        OneSpelling(text[s..e], t, r.token);
      }
    }
  }

  /** One step of the lexer: it reads a token exactly if the text has that token's word next. */
  lemma NextIsSpelled(text: string, p: nat, t: Token, e: nat)
    requires p <= |text|
    ensures NextToken(text, p) == Lexeme(t, e) <==> exists s: nat :: SpelledAt(text, p, s, e, t)
  {
    hide Spells;
    hide IsWord;
    var s := SkipFrom(text, p);
    SkipIsBlank(text, p);
    if s < |text| {
      TokenAtWord(text, s);
      assert SkipFrom(text, s) == s;
      assert NextToken(text, p) == NextToken(text, s);
    }
    hide NextToken;
    if NextToken(text, p) == Lexeme(t, e) {
      assert SpelledAt(text, p, s, e, t);
    }
    if exists s': nat :: SpelledAt(text, p, s', e, t) {
      var s': nat :| SpelledAt(text, p, s', e, t);
      WordKinds(text[s'..e]);
      assert text[s'..e][0] == text[s'];
      SkipTo(text, p, s');
      assert SpelledAt(text, s, s, e, t);
    }
  }

  /** The lexer reads a token list exactly if the text spells it. */
  lemma {:induction false} LexesWhatIsSpelled(text: string, p: nat, got: seq<Token>, ts: seq<Token>)
    requires p <= |text| && |got| <= TOKEN_CAP
    ensures LexFrom(text, p, got) == Tokens(got + ts) <==> Reads(text, p, ts) && |got| + |ts| <= TOKEN_CAP
    decreases |text| - p
  {
    hide NextToken;
    hide SpelledAt;
    if p < |text| {
      LexMore(text, p, got, ts);
    } else if ts != [] {
      assert |got + ts| > |got|;
      NothingLeft(text, ts);
    } else {
      assert got + ts == got;
    }
  }

  lemma NothingLeft(text: string, ts: seq<Token>)
    requires ts != []
    ensures !Reads(text, |text|, ts)
  {
  }

  lemma LexMore(text: string, p: nat, got: seq<Token>, ts: seq<Token>)
    requires p < |text| && |got| <= TOKEN_CAP
    ensures LexFrom(text, p, got) == Tokens(got + ts) <==> Reads(text, p, ts) && |got| + |ts| <= TOKEN_CAP
    decreases |text| - p, 0
  {
    hide NextToken;
    hide Reads;
    hide LexFrom;
    var r := NextToken(text, p);
    LexOne(text, p, got);
    if r.NoLexeme? || |got| == TOKEN_CAP {
      if ts == [] { NotDone(text, p); } else { ReadsStep(text, p, ts); }
    } else if ts == [] {
      LexKeeps(text, r.end, got + [r.token]);
      assert got + ts == got;
      NotDone(text, p);
    } else {
      ReadsStep(text, p, ts);
      LexKeeps(text, r.end, got + [r.token]);
      assert (got + ts)[|got|] == ts[0] && (got + [r.token])[|got|] == r.token;
      if r.token == ts[0] {
        assert got + ts == (got + [ts[0]]) + ts[1..];
        LexesWhatIsSpelled(text, r.end, got + [ts[0]], ts[1..]);
      }
    }
  }

  lemma NotDone(text: string, p: nat)
    requires p < |text|
    ensures !Reads(text, p, [])
  {
  }

  lemma LexOne(text: string, p: nat, got: seq<Token>)
    requires p < |text|
    ensures var r := NextToken(text, p);
            LexFrom(text, p, got) ==
              if r.NoLexeme? || |got| >= TOKEN_CAP then Rejected else LexFrom(text, r.end, got + [r.token])
  {
    hide NextToken;
  }

  lemma ReadsStep(text: string, p: nat, ts: seq<Token>)
    requires p <= |text| && ts != []
    ensures var r := NextToken(text, p);
            Reads(text, p, ts) <==> r.Lexeme? && r.token == ts[0] && Reads(text, r.end, ts[1..])
  {
    hide NextToken;
    hide SpelledAt;
    var r := NextToken(text, p);
    if r.Lexeme? {
      NextIsSpelled(text, p, r.token, r.end);
    }
    forall s: nat, e: nat | SpelledAt(text, p, s, e, ts[0]) ensures r == Lexeme(ts[0], e) {
      NextIsSpelled(text, p, ts[0], e);
    }
  }

  // What has been read stays.
  lemma {:induction false} LexKeeps(text: string, p: nat, got: seq<Token>)
    requires p <= |text|
    ensures LexFrom(text, p, got).Tokens? ==> got <= LexFrom(text, p, got).tokens
    decreases |text| - p
  {
    hide NextToken;
    if p < |text| && NextToken(text, p).Lexeme? && |got| < TOKEN_CAP {
      var r := NextToken(text, p);
      LexKeeps(text, r.end, got + [r.token]);
    }
  }
}
