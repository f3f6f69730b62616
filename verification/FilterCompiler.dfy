/** Compiling filter text: lexing up to the fixed limits, then validating. */
module FilterCompiler {
  import opened FilterSyntax
  import opened FilterParser
  import opened FilterEvaluator
  import opened FilterLexer
  import opened FilterSpelling

  // The text, leading blanks aside, fits its buffer and spells ts, which fits the token
  // array and is grammatical.
  ghost predicate Compiles(text: string, ts: seq<Token>) {
    var p := SkipFrom(text, 0);
    && 0 < |text| - p < 128 && Reads(text, p, ts) && |ts| <= 64
    && Grammatical(ts)
  }

  // Token after token, up to 64.
  method Lex(text: string, start: nat) returns (r: Lexed)
    requires start <= |text|
    ensures r == LexFrom(text, start, [])
  {
    hide NextToken;
    var p := start;
    var tokens: seq<Token> := [];
    while p < |text|
      invariant start <= p <= |text| && |tokens| <= TOKEN_CAP
      invariant LexFrom(text, p, tokens) == LexFrom(text, start, [])
      decreases |text| - p
    {
      match NextToken(text, p)
      case NoLexeme => return Rejected;
      case Lexeme(t, q) =>
        if |tokens| >= TOKEN_CAP {
          return Rejected;
        }
        tokens := tokens + [t];
        p := q;
    }
    return Tokens(tokens);
  }

  lemma LexedIsRead(text: string, start: nat, ts: seq<Token>)
    requires start <= |text|
    ensures LexFrom(text, start, []) == Tokens(ts) <==> Reads(text, start, ts) && |ts| <= TOKEN_CAP
  {
    LexesWhatIsSpelled(text, start, [], ts);
    assert [] + ts == ts;
  }

  /** Compiles filter text. It yields a token list exactly if the text spells it, both fit
      and the list is the token form of an expression; everything else is rejected. */
  method Compile(text: string) returns (r: Lexed)
    ensures forall ts: seq<Token> :: r == Tokens(ts) <==> Compiles(text, ts)
  {
    hide Reads;
    hide LexFrom;
    hide SkipFrom;
    var p := SkipSpaces(text, 0);
    if p == |text| || |text| - p >= EXPR_MAX {
      return Rejected;
    }
    r := Lex(text, p);
    ghost var lexed := r;
    if r.Tokens? {
      var accepted := Validate(true, r.tokens);
      assert accepted <==> Grammatical(r.tokens);
      if !accepted {
        r := Rejected;
      }
    }
    forall ts: seq<Token> ensures r == Tokens(ts) <==> Compiles(text, ts) {
      LexedIsRead(text, p, ts);
      assert Compiles(text, ts) <==> lexed == Tokens(ts) && Grammatical(ts);
    }
  }

  /** Printing any grammatical token list and compiling the text gives the same list back,
      as long as text and tokens fit the fixed buffers. */
  method CompilePrinted(ts: seq<Token>) returns (r: Lexed)
    requires Accepts(ts) && Fits(ts)
    ensures r == Tokens(ts)
  {
    PrintedTextLexes(ts);
    AcceptsExactlyTheGrammar(ts);
    LexesWhatIsSpelled(Print(ts), 0, [], ts);
    assert [] + ts == ts;
    assert Compiles(Print(ts), ts);
    r := Compile(Print(ts));
  }
}
