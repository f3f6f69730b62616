/** The evaluator as it runs: one cursor, one `ok` flag and one `eval_enabled` switch,
    updated in place by loops and mutual recursion. */
module FilterEvaluator {
  import opened Words
  import opened FilterSyntax
  import opened FilterParser

  class Evaluator {
    const tokens: seq<Token>
    const event: Event
    var pos: nat
    var ok: bool
    var evalEnabled: bool

    constructor (tokens: seq<Token>, event: Event)
      ensures this.tokens == tokens && this.event == event
      ensures pos == 0 && ok && evalEnabled == event.Args?
    {
      this.tokens := tokens;
      this.event := event;
      pos, ok, evalEnabled := 0, true, event.Args?;
    }

    ghost predicate Ready()
      reads this
    {
      ok && pos <= |tokens|
    }

    // The state after level `level` has run from position `from`, returning v.
    twostate predicate Did(level: nat, v: Word)
      requires level <= 6 && old(pos) <= |tokens|
      reads this
    {
      && evalEnabled == old(evalEnabled)
      && Out(v, pos, ok) == Parse(level, tokens, event, old(evalEnabled), old(pos))
    }

    method Take(t: Token) returns (taken: bool)
      requires pos <= |tokens|
      modifies this`pos
      ensures taken == At(tokens, old(pos), t)
      ensures pos == if taken then old(pos) + 1 else old(pos)
    {
      taken := At(tokens, pos, t);
      if taken {
        pos := pos + 1;
      }
    }

    method TakeCmp() returns (taken: bool, op: BinOp)
      requires pos <= |tokens|
      modifies this`pos
      ensures taken == OpAt(tokens, old(pos), 2)
      ensures taken ==> op == tokens[old(pos)].op
      ensures pos == if taken then old(pos) + 1 else old(pos)
    {
      taken, op := false, Eq;
      if pos < |tokens| && tokens[pos].TBin? {
        op := tokens[pos].op;
        taken := op in {Eq, Ne, Gt, Ge, Lt, Le};
        if taken {
          pos := pos + 1;
        }
      }
    }

    method ParsePrimary() returns (v: Word)
      requires Ready()
      modifies this
      ensures Did(6, v)
      decreases |tokens| - pos, 1
    {
      if pos == |tokens| {
        ok := false;
        return 0;
      }
      var token := tokens[pos];
      if token.TNum? {
        pos := pos + 1;
        return token.value;
      }
      if token.TArg? {
        pos := pos + 1;
        if !evalEnabled || event.NoEvent? {
          return 0;
        }
        return ArgValue(event.args, token.index);
      }
      var open := Take(TLParen);
      if open {
        v := ParseOr();
        var close := Take(TRParen);
        if !close {
          ok := false;
        }
        return;
      }
      ok := false;
      return 0;
    }

    method ParseUnary() returns (v: Word)
      requires Ready()
      modifies this
      ensures Did(5, v)
      decreases |tokens| - pos, 2
    {
      var negated := Take(TNot);
      if negated {
        v := ParseUnary();
        return FromBool(v == 0);
      }
      v := ParsePrimary();
    }

    // What the loop of `level` still has to do is what Rest says.
    twostate predicate InLoop(level: nat, lhs: Word)
      requires level <= 4 && old(pos) <= |tokens|
      reads this
    {
      && pos <= |tokens| && old(pos) <= pos
      && evalEnabled == old(evalEnabled)
      && Parse(level, tokens, event, old(evalEnabled), old(pos)) ==
         if ok then Rest(level, tokens, event, evalEnabled, lhs, pos) else Out(lhs, pos, false)
    }

    method ParseMul() returns (lhs: Word)
      requires Ready()
      modifies this
      ensures Did(4, lhs)
      decreases |tokens| - pos, 3
    {
      hide Parse;
      hide Rest;
      ghost var from := pos;
      lhs := ParseUnary();
      LowStep(4, tokens, event, evalEnabled, from, Out(lhs, pos, ok));
      while ok
        invariant InLoop(4, lhs) && (ok ==> old(pos) < pos)
        decreases |tokens| - pos, ok
      {
        var times := Take(TBin(Mul));
        if !times {
          var over := Take(TBin(Div));
          if !over {
            RestStop(4, tokens, event, evalEnabled, lhs, pos);
            break;
          }
        }
        ghost var at := pos - 1;
        var rhs := ParseUnary();
        RestTurn(4, tokens, event, evalEnabled, lhs, at, Out(rhs, pos, ok));
        if times {
          lhs := Wrap(lhs * rhs);
        } else if !evalEnabled {
          lhs := 0;
        } else if rhs == 0 {
          ok := false;
          return 0;
        } else {
          lhs := lhs / rhs;
        }
      }
    }

    method ParseAdd() returns (lhs: Word)
      requires Ready()
      modifies this
      ensures Did(3, lhs)
      decreases |tokens| - pos, 4
    {
      hide Parse;
      hide Rest;
      ghost var from := pos;
      lhs := ParseMul();
      LowStep(3, tokens, event, evalEnabled, from, Out(lhs, pos, ok));
      while ok
        invariant InLoop(3, lhs) && (ok ==> old(pos) < pos)
        decreases |tokens| - pos, ok
      {
        var plus := Take(TBin(Add));
        if !plus {
          var minus := Take(TBin(Sub));
          if !minus {
            RestStop(3, tokens, event, evalEnabled, lhs, pos);
            break;
          }
        }
        ghost var at := pos - 1;
        var rhs := ParseMul();
        RestTurn(3, tokens, event, evalEnabled, lhs, at, Out(rhs, pos, ok));
        lhs := if plus then Wrap(lhs + rhs) else Wrap(lhs - rhs);
      }
    }

    method ParseCmp() returns (lhs: Word)
      requires Ready()
      modifies this
      ensures Did(2, lhs)
      decreases |tokens| - pos, 5
    {
      hide Parse;
      hide Rest;
      ghost var from := pos;
      lhs := ParseAdd();
      LowStep(2, tokens, event, evalEnabled, from, Out(lhs, pos, ok));
      while ok
        invariant InLoop(2, lhs) && (ok ==> old(pos) < pos)
        decreases |tokens| - pos, ok
      {
        var taken, op := TakeCmp();
        if !taken {
          RestStop(2, tokens, event, evalEnabled, lhs, pos);
          break;
        }
        ghost var at := pos - 1;
        var rhs := ParseAdd();
        RestTurn(2, tokens, event, evalEnabled, lhs, at, Out(rhs, pos, ok));
        lhs := FromBool(Compare(op, lhs, rhs));
      }
    }

    method ParseAnd() returns (lhs: Word)
      requires Ready()
      modifies this
      ensures Did(1, lhs)
      decreases |tokens| - pos, 6
    {
      hide Parse;
      hide Rest;
      ghost var from := pos;
      lhs := ParseCmp();
      LowStep(1, tokens, event, evalEnabled, from, Out(lhs, pos, ok));
      while ok
        invariant InLoop(1, lhs) && (ok ==> old(pos) < pos)
        decreases |tokens| - pos, ok
      {
        var taken := Take(TBin(And));
        if !taken {
          RestStop(1, tokens, event, evalEnabled, lhs, pos);
          break;
        }
        ghost var at := pos - 1;
        var previous := evalEnabled;
        if evalEnabled && lhs == 0 {
          evalEnabled := false;
        }
        var rhs := ParseCmp();
        evalEnabled := previous;
        RestTurn(1, tokens, event, evalEnabled, lhs, at, Out(rhs, pos, ok));
        lhs := FromBool(lhs != 0 && rhs != 0);
      }
    }

    method ParseOr() returns (lhs: Word)
      requires Ready()
      modifies this
      ensures Did(0, lhs)
      decreases |tokens| - pos, 7
    {
      hide Parse;
      hide Rest;
      ghost var from := pos;
      lhs := ParseAnd();
      LowStep(0, tokens, event, evalEnabled, from, Out(lhs, pos, ok));
      while ok
        invariant InLoop(0, lhs) && (ok ==> old(pos) < pos)
        decreases |tokens| - pos, ok
      {
        var taken := Take(TBin(Or));
        if !taken {
          RestStop(0, tokens, event, evalEnabled, lhs, pos);
          break;
        }
        ghost var at := pos - 1;
        var previous := evalEnabled;
        if evalEnabled && lhs != 0 {
          evalEnabled := false;
        }
        var rhs := ParseAnd();
        evalEnabled := previous;
        RestTurn(0, tokens, event, evalEnabled, lhs, at, Out(rhs, pos, ok));
        lhs := FromBool(lhs != 0 || rhs != 0);
      }
    }
  }

  /** Install-time check: a filter is accepted iff it is the token form of an expression. */
  method Validate(enabled: bool, tokens: seq<Token>) returns (accepted: bool)
    ensures accepted <==> enabled && Grammatical(tokens)
  {
    AcceptsExactlyTheGrammar(tokens);
    if !enabled || tokens == [] {
      return false;
    }
    var ctx := new Evaluator(tokens, NoEvent);
    var value := ctx.ParseOr();
    return ctx.ok && ctx.pos == |tokens|;
  }

  /** A disabled filter keeps everything; an enabled one keeps an event exactly when the
      expression it spells is true of the event's arguments. */
  method Evaluate(enabled: bool, tokens: seq<Token>, args: seq<Word>) returns (keep: bool)
    ensures !enabled ==> keep
    ensures enabled ==> forall e: Expr | tokens == Show(e, 0) ::
              keep <==> Meaning(e, args).Val? && Meaning(e, args).v != 0
    ensures enabled && !Grammatical(tokens) ==> !keep
    ensures enabled ==> keep == Verdict(tokens, Args(args))
  {
    if !enabled {
      return true;
    }
    var ctx := new Evaluator(tokens, Args(args));
    var value := ctx.ParseOr();
    forall e: Expr | tokens == Show(e, 0)
      ensures Verdict(tokens, Args(args)) <==> Meaning(e, args).Val? && Meaning(e, args).v != 0
    {
      VerdictIsTruth(e, args);
    }
    if Verdict(tokens, Args(args)) {
      SameTokensEitherWay(0, tokens, Args(args), true, 0);
      AcceptsExactlyTheGrammar(tokens);
    }
    if !ctx.ok || ctx.pos != |tokens| {
      return false;
    }
    return value != 0;
  }
}
