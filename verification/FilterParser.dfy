/** The evaluate-while-parsing recursive descent as a function of the tokens, and what it
    means. The seven parse functions of the source are the levels 0 to 6. */
module FilterParser {
  import opened Words
  import opened FilterSyntax

  // Value returned, cursor and `ok` flag after a parse function.
  datatype Out = Out(value: Word, pos: nat, ok: bool)

  // No event means evaluation is switched off from the start.
  datatype Event = NoEvent | Args(args: seq<Word>)

  predicate At(ts: seq<Token>, pos: nat, t: Token) {
    pos < |ts| && ts[pos] == t
  }

  // The binary operator of the given level at pos, if any.
  predicate OpAt(ts: seq<Token>, pos: nat, level: nat) {
    pos < |ts| && ts[pos].TBin? && OpLevel(ts[pos].op) == level
  }

  // Short-circuiting: the right side is parsed with evaluation off.
  predicate Skips(op: BinOp, lhs: Word) {
    (op == And && lhs == 0) || (op == Or && lhs != 0)
  }

  // What the loop does with one right operand. Only an evaluated division can fail.
  function Combine(op: BinOp, lhs: Word, rhs: Word, on: bool): Value {
    match op
    case And => Val(FromBool(lhs != 0 && rhs != 0))
    case Or => Val(FromBool(lhs != 0 || rhs != 0))
    case Div => if !on then Val(0) else Arithmetic(Div, lhs, rhs)
    case _ => Arithmetic(op, lhs, rhs)
  }

  function Parse(level: nat, ts: seq<Token>, ev: Event, on: bool, pos: nat): (r: Out)
    requires level <= 6 && pos <= |ts|
    ensures pos <= r.pos <= |ts|
    ensures r.ok ==> pos < r.pos
    decreases |ts| - pos, 7 - level
  {
    if level <= 4 then
      var first := Parse(level + 1, ts, ev, on, pos);
      if first.ok then Rest(level, ts, ev, on, first.value, first.pos) else first
    else if level == 5 then
      if At(ts, pos, TNot) then
        var x := Parse(5, ts, ev, on, pos + 1);
        Out(FromBool(x.value == 0), x.pos, x.ok)
      else Parse(6, ts, ev, on, pos)
    else if pos == |ts| then Out(0, pos, false)
    else
      match ts[pos]
      case TNum(v) => Out(v, pos + 1, true)
      case TArg(i) => Out(if on && ev.Args? then ArgValue(ev.args, i) else 0, pos + 1, true)
      case TLParen =>
        var x := Parse(0, ts, ev, on, pos + 1);
        if At(ts, x.pos, TRParen) then Out(x.value, x.pos + 1, x.ok)
        else Out(x.value, x.pos, false)
      case _ => Out(0, pos, false)
  }

  // The loop of one level, entered with ok set and lhs in hand.
  function Rest(level: nat, ts: seq<Token>, ev: Event, on: bool, lhs: Word, pos: nat): (r: Out)
    requires level <= 4 && pos <= |ts|
    ensures pos <= r.pos <= |ts|
    decreases |ts| - pos, 7 - level
  {
    if !OpAt(ts, pos, level) then Out(lhs, pos, true)
    else
      var op := ts[pos].op;
      var rhs := Parse(level + 1, ts, ev, on && !Skips(op, lhs), pos + 1);
      match Combine(op, lhs, rhs.value, on)
      case DivZero => Out(0, rhs.pos, false)
      case Val(v) => if rhs.ok then Rest(level, ts, ev, on, v, rhs.pos) else Out(v, rhs.pos, false)
  }

  function Accepts(ts: seq<Token>): bool {
    var r := Parse(0, ts, NoEvent, false, 0);
    ts != [] && r.ok && r.pos == |ts|
  }

  // The verdict on an event: 1 keeps it, 0 suppresses it.
  function Verdict(ts: seq<Token>, ev: Event): bool {
    var r := Parse(0, ts, ev, ev.Args?, 0);
    r.ok && r.pos == |ts| && r.value != 0
  }

  // ---------------------------------------------------------------------------
  // Parsing the token form of an expression

  // The text of e is followed by nothing that a loop of level >= min would take.
  ghost predicate Ends(ts: seq<Token>, end: nat, min: nat) {
    forall l | min <= l <= 4 :: !OpAt(ts, end, l)
  }

  ghost predicate Occurs(ts: seq<Token>, pos: nat, piece: seq<Token>) {
    pos + |piece| <= |ts| && ts[pos..pos + |piece|] == piece
  }

  lemma OccursSplit(ts: seq<Token>, pos: nat, a: seq<Token>, b: seq<Token>)
    requires Occurs(ts, pos, a + b)
    ensures Occurs(ts, pos, a) && Occurs(ts, pos + |a|, b)
  {
    var piece := ts[pos..pos + |a + b|];
    assert ts[pos..pos + |a|] == piece[..|a|] == a;
    assert ts[pos + |a|..pos + |a| + |b|] == piece[|a|..] == b;
  }

  lemma OccursHead(ts: seq<Token>, pos: nat, t: Token, b: seq<Token>)
    requires Occurs(ts, pos, [t] + b)
    ensures At(ts, pos, t) && Occurs(ts, pos + 1, b)
  {
    OccursSplit(ts, pos, [t], b);
    assert ts[pos] == ts[pos..pos + 1][0];
  }

  // What level `min` returns once its first operand, ending at `end`, turned out to be e:
  // the rest of its loop applied to the meaning of e, or failure on an evaluated
  // division by zero. With evaluation off only the cursor is determined.
  ghost predicate Continues(r: Out, min: nat, e: Expr, ts: seq<Token>, ev: Event, on: bool, end: nat)
    requires min <= 6 && end <= |ts|
  {
    if on then
      ev.Args? && (match Meaning(e, ev.args)
                   case Val(v) => r == Loop(min, ts, ev, on, v, end)
                   case DivZero => !r.ok)
    else
      exists v: Word :: r == Loop(min, ts, ev, on, v, end)
  }

  // Levels 5 and 6 have no loop.
  ghost function Loop(level: nat, ts: seq<Token>, ev: Event, on: bool, v: Word, pos: nat): Out
    requires pos <= |ts|
  {
    if level <= 4 then Rest(level, ts, ev, on, v, pos) else Out(v, pos, true)
  }

  lemma LoopEnds(level: nat, ts: seq<Token>, ev: Event, on: bool, v: Word, pos: nat)
    requires pos <= |ts| && Ends(ts, pos, level)
    ensures Loop(level, ts, ev, on, v, pos) == Out(v, pos, true)
  {
  }

  // From level min + 1 to level min.
  lemma Descend(min: nat, e: Expr, ts: seq<Token>, ev: Event, on: bool, pos: nat, end: nat)
    requires min <= 4 && pos <= |ts| && end <= |ts| && Ends(ts, end, min + 1)
    requires Continues(Parse(min + 1, ts, ev, on, pos), min + 1, e, ts, ev, on, end)
    ensures Continues(Parse(min, ts, ev, on, pos), min, e, ts, ev, on, end)
  {
    var first := Parse(min + 1, ts, ev, on, pos);
    if on {
      match Meaning(e, ev.args)
      case Val(v) => LoopEnds(min + 1, ts, ev, on, v, end);
      case DivZero =>
    } else {
      var v: Word :| first == Loop(min + 1, ts, ev, on, v, end);
      LoopEnds(min + 1, ts, ev, on, v, end);
      assert Parse(min, ts, ev, on, pos) == Loop(min, ts, ev, on, v, end);
    }
  }

  // The token form, one constructor at a time.
  lemma ShowParen(e: Expr) returns (inner: Expr)
    requires Level(e) < 6 || e.Paren?
    ensures inner == if e.Paren? then e.inner else e
    ensures Show(e, 6) == [TLParen] + (Show(inner, 0) + [TRParen])
  {
    inner := if e.Paren? then e.inner else e;
  }

  lemma ShowBin(e: Expr)
    requires e.Bin?
    ensures Show(e, Level(e)) == Show(e.left, Level(e)) + ([TBin(e.op)] + Show(e.right, Level(e) + 1))
  {
  }

  lemma ShowHead(e: Expr)
    requires !e.Not?
    ensures Show(e, 6) == Show(e, 5) && Show(e, 5)[0] != TNot
  {
    if Level(e) < 6 || e.Paren? {
      var inner := ShowParen(e);
    }
  }

  // The other levels, one unfolding each.
  lemma LowStep(level: nat, ts: seq<Token>, ev: Event, on: bool, pos: nat, first: Out)
    requires level <= 4 && pos <= |ts| && first == Parse(level + 1, ts, ev, on, pos)
    ensures Parse(level, ts, ev, on, pos) ==
            if first.ok then Rest(level, ts, ev, on, first.value, first.pos) else first
  {
  }

  lemma UnaryStep(ts: seq<Token>, ev: Event, on: bool, pos: nat)
    requires pos <= |ts|
    ensures At(ts, pos, TNot) ==>
              var x := Parse(5, ts, ev, on, pos + 1);
              Parse(5, ts, ev, on, pos) == Out(FromBool(x.value == 0), x.pos, x.ok)
    ensures !At(ts, pos, TNot) ==> Parse(5, ts, ev, on, pos) == Parse(6, ts, ev, on, pos)
  {
  }

  lemma LeafStep(ts: seq<Token>, ev: Event, on: bool, pos: nat)
    requires pos <= |ts| && !At(ts, pos, TLParen)
    ensures var r := Parse(6, ts, ev, on, pos);
            && (r.ok <==> pos < |ts| && (ts[pos].TNum? || ts[pos].TArg?))
            && (r.ok ==> r.pos == pos + 1)
  {
  }

  // A parenthesised parse, given the parse of what is inside.
  lemma ParenStep(ts: seq<Token>, ev: Event, on: bool, pos: nat, x: Out)
    requires At(ts, pos, TLParen) && x == Parse(0, ts, ev, on, pos + 1)
    ensures Parse(6, ts, ev, on, pos) ==
            if At(ts, x.pos, TRParen) then Out(x.value, x.pos + 1, x.ok) else Out(x.value, x.pos, false)
  {
  }

  /** Level `min` parses the token form of e as e. */
  lemma {:induction false} ParseShown(e: Expr, min: nat, ts: seq<Token>, ev: Event, on: bool, pos: nat)
    requires min <= 6 && Occurs(ts, pos, Show(e, min)) && (on ==> ev.Args?)
    requires Ends(ts, pos + |Show(e, min)|, min + 1)
    ensures Continues(Parse(min, ts, ev, on, pos), min, e, ts, ev, on, pos + |Show(e, min)|)
    decreases e, if Level(e) < min then 1 else 0, 7 - min, 1
  {
    hide Parse;
    hide Continues;
    var end := pos + |Show(e, min)|;
    if min <= 4 && Level(e) != min {
      ShowNext(e, min);
      ParseShown(e, min + 1, ts, ev, on, pos);
      Descend(min, e, ts, ev, on, pos, end);
    } else if min <= 4 {
      ParseShownBin(e, ts, ev, on, pos);
    } else if min == 5 && e.Not? {
      OccursHead(ts, pos, TNot, Show(e.operand, 5));
      ParseShown(e.operand, 5, ts, ev, on, pos + 1);
      NotContinues(e, ts, ev, on, pos, end);
    } else if min == 5 {
      ShowHead(e);
      assert ts[pos] == Show(e, 5)[0] by { assert ts[pos..end][0] == ts[pos]; }
      ParseShown(e, 6, ts, ev, on, pos);
      UnaryIsPrimary(e, ts, ev, on, pos, end);
    } else if Level(e) < 6 || e.Paren? {
      ParseShownParen(e, ts, ev, on, pos);
    } else {
      assert ts[pos] == Show(e, 6)[0] by { assert ts[pos..end][0] == ts[pos]; }
      LeafContinues(e, ts, ev, on, pos);
    }
  }

  lemma ShowNext(e: Expr, min: nat)
    requires min <= 4 && Level(e) != min
    ensures Show(e, min + 1) == Show(e, min)
  {
  }

  lemma NotContinues(e: Expr, ts: seq<Token>, ev: Event, on: bool, pos: nat, end: nat)
    requires e.Not? && At(ts, pos, TNot) && end <= |ts|
    requires Continues(Parse(5, ts, ev, on, pos + 1), 5, e.operand, ts, ev, on, end)
    ensures Continues(Parse(5, ts, ev, on, pos), 5, e, ts, ev, on, end)
  {
    if !on {
      var x := Parse(5, ts, ev, on, pos + 1);
      assert Parse(5, ts, ev, on, pos) == Loop(5, ts, ev, on, FromBool(x.value == 0), end);
    }
  }

  lemma UnaryIsPrimary(e: Expr, ts: seq<Token>, ev: Event, on: bool, pos: nat, end: nat)
    requires pos <= |ts| && end <= |ts| && !At(ts, pos, TNot)
    requires Continues(Parse(6, ts, ev, on, pos), 6, e, ts, ev, on, end)
    ensures Continues(Parse(5, ts, ev, on, pos), 5, e, ts, ev, on, end)
  {
    assert Parse(5, ts, ev, on, pos) == Parse(6, ts, ev, on, pos);
    if !on {
      var v: Word :| Parse(6, ts, ev, on, pos) == Loop(6, ts, ev, on, v, end);
      assert Loop(5, ts, ev, on, v, end) == Loop(6, ts, ev, on, v, end);
    }
  }

  lemma LeafContinues(e: Expr, ts: seq<Token>, ev: Event, on: bool, pos: nat)
    requires (e.Num? || e.Arg?) && pos < |ts| && ts[pos] == Show(e, 6)[0] && (on ==> ev.Args?)
    ensures Continues(Parse(6, ts, ev, on, pos), 6, e, ts, ev, on, pos + 1)
  {
    var r := Parse(6, ts, ev, on, pos);
    assert r == Loop(6, ts, ev, on, r.value, pos + 1);
  }

  lemma {:induction false} ParseShownParen(e: Expr, ts: seq<Token>, ev: Event, on: bool, pos: nat)
    requires (Level(e) < 6 || e.Paren?) && Occurs(ts, pos, Show(e, 6)) && (on ==> ev.Args?)
    ensures Continues(Parse(6, ts, ev, on, pos), 6, e, ts, ev, on, pos + |Show(e, 6)|)
    decreases e, if Level(e) < 6 then 1 else 0, 1, 0
  {
    hide Parse;
    hide Continues;
    var inner := ShowParen(e);
    var end := pos + |Show(e, 6)|;
    OccursHead(ts, pos, TLParen, Show(inner, 0) + [TRParen]);
    OccursSplit(ts, pos + 1, Show(inner, 0), [TRParen]);
    OccursHead(ts, end - 1, TRParen, []);
    ParseShown(inner, 0, ts, ev, on, pos + 1);
    ParenContinues(e, inner, ts, ev, on, pos, end);
  }

  lemma ParenContinues(e: Expr, inner: Expr, ts: seq<Token>, ev: Event, on: bool, pos: nat, end: nat)
    requires inner == if e.Paren? then e.inner else e
    requires pos + 1 < end <= |ts| && At(ts, pos, TLParen) && At(ts, end - 1, TRParen)
    requires Continues(Parse(0, ts, ev, on, pos + 1), 0, inner, ts, ev, on, end - 1)
    ensures Continues(Parse(6, ts, ev, on, pos), 6, e, ts, ev, on, end)
  {
    var x := Parse(0, ts, ev, on, pos + 1);
    ParenStep(ts, ev, on, pos, x);
    if on {
      match Meaning(inner, ev.args)
      case Val(v) => LoopEnds(0, ts, ev, on, v, end - 1);
      case DivZero =>
    } else {
      var v: Word :| x == Loop(0, ts, ev, on, v, end - 1);
      LoopEnds(0, ts, ev, on, v, end - 1);
      assert Parse(6, ts, ev, on, pos) == Loop(6, ts, ev, on, v, end);
    }
  }

  // Left operand, operator, right operand.
  lemma BinLayout(e: Expr, ts: seq<Token>, pos: nat) returns (mid: nat)
    requires e.Bin? && Occurs(ts, pos, Show(e, Level(e)))
    ensures mid == pos + |Show(e.left, Level(e))| && Occurs(ts, pos, Show(e.left, Level(e)))
    ensures At(ts, mid, TBin(e.op))
    ensures Occurs(ts, mid + 1, Show(e.right, Level(e) + 1))
    ensures mid + 1 + |Show(e.right, Level(e) + 1)| == pos + |Show(e, Level(e))|
  {
    var left, right := Show(e.left, Level(e)), Show(e.right, Level(e) + 1);
    ShowBin(e);
    OccursSplit(ts, pos, left, [TBin(e.op)] + right);
    mid := pos + |left|;
    OccursHead(ts, mid, TBin(e.op), right);
  }

  lemma {:induction false} ParseShownBin(e: Expr, ts: seq<Token>, ev: Event, on: bool, pos: nat)
    requires e.Bin? && Occurs(ts, pos, Show(e, Level(e))) && (on ==> ev.Args?)
    requires Ends(ts, pos + |Show(e, Level(e))|, Level(e) + 1)
    ensures Continues(Parse(Level(e), ts, ev, on, pos), Level(e), e, ts, ev, on, pos + |Show(e, Level(e))|)
    decreases e, 0, 7 - Level(e), 0
  {
    hide Parse;
    hide Rest;
    hide Show;
    var min := Level(e);
    var end := pos + |Show(e, min)|;
    var mid := BinLayout(e, ts, pos);
    ParseShown(e.left, min, ts, ev, on, pos);
    if on && Meaning(e.left, ev.args).DivZero? {
      return;
    }
    var a := LeftOperand(min, e.left, ts, ev, on, pos, mid);
    ParseShown(e.right, min + 1, ts, ev, on && !Skips(e.op, a), mid + 1);
    OneTurn(e, ts, ev, on, a, mid, end);
  }

  lemma LeftOperand(min: nat, left: Expr, ts: seq<Token>, ev: Event, on: bool, pos: nat, mid: nat) returns (a: Word)
    requires min <= 4 && pos <= |ts| && mid <= |ts|
    requires Continues(Parse(min, ts, ev, on, pos), min, left, ts, ev, on, mid)
    requires on ==> Meaning(left, ev.args).Val?
    ensures Parse(min, ts, ev, on, pos) == Rest(min, ts, ev, on, a, mid)
    ensures on ==> Meaning(left, ev.args) == Val(a)
  {
    if on {
      a := Meaning(left, ev.args).v;
    } else {
      a :| Parse(min, ts, ev, on, pos) == Loop(min, ts, ev, on, a, mid);
    }
  }

  // One turn of the loop, with the right operand known to parse as e.right.
  lemma OneTurn(e: Expr, ts: seq<Token>, ev: Event, on: bool, a: Word, mid: nat, end: nat)
    requires e.Bin? && At(ts, mid, TBin(e.op)) && mid < end <= |ts| && (on ==> ev.Args?)
    requires Ends(ts, end, Level(e) + 1)
    requires on ==> Meaning(e.left, ev.args) == Val(a)
    requires var on' := on && !Skips(e.op, a);
             Continues(Parse(Level(e) + 1, ts, ev, on', mid + 1), Level(e) + 1, e.right, ts, ev, on', end)
    ensures Continues(Rest(Level(e), ts, ev, on, a, mid), Level(e), e, ts, ev, on, end)
  {
    var min := Level(e);
    var on' := on && !Skips(e.op, a);
    var rhs := Parse(min + 1, ts, ev, on', mid + 1);
    if on' {
      match Meaning(e.right, ev.args)
      case Val(b) => LoopEnds(min + 1, ts, ev, on', b, end);
      case DivZero => FailedOperand(e.op, a, rhs, ts, ev, on, mid);
    } else {
      var b: Word :| rhs == Loop(min + 1, ts, ev, on', b, end);
      LoopEnds(min + 1, ts, ev, on', b, end);
      if !on {
        var c := Combine(e.op, a, b, on);
        assert Rest(min, ts, ev, on, a, mid) == Loop(min, ts, ev, on, c.v, end);
      }
    }
  }

  lemma FailedOperand(op: BinOp, a: Word, rhs: Out, ts: seq<Token>, ev: Event, on: bool, mid: nat)
    requires At(ts, mid, TBin(op)) && !rhs.ok
    requires rhs == Parse(OpLevel(op) + 1, ts, ev, on && !Skips(op, a), mid + 1)
    ensures !Rest(OpLevel(op), ts, ev, on, a, mid).ok
  {
  }

  /** Evaluating the token form of an expression on an event stops early exactly when its
      meaning is an evaluated division by zero, and otherwise returns its value. */
  lemma EvaluationIsMeaning(e: Expr, args: seq<Word>)
    ensures var r := Parse(0, Show(e, 0), Args(args), true, 0);
            && (r.ok <==> Meaning(e, args).Val?)
            && (r.ok ==> r == Out(Meaning(e, args).v, |Show(e, 0)|, true))
  {
    var ts := Show(e, 0);
    assert ts[0..0 + |ts|] == ts;
    ParseShown(e, 0, ts, Args(args), true, 0);
    if Meaning(e, args).Val? {
      LoopEnds(0, ts, Args(args), true, Meaning(e, args).v, |ts|);
    }
  }

  /** The verdict on every expression and event is the truth value of its meaning; a
      division by zero in an evaluated position counts as false. */
  lemma VerdictIsTruth(e: Expr, args: seq<Word>)
    ensures Verdict(Show(e, 0), Args(args)) <==> Meaning(e, args).Val? && Meaning(e, args).v != 0
  {
    EvaluationIsMeaning(e, args);
  }

  /** Two expressions with the same token form mean the same on every event. */
  lemma TokensDetermineMeaning(e1: Expr, e2: Expr, args: seq<Word>)
    requires Show(e1, 0) == Show(e2, 0)
    ensures Meaning(e1, args) == Meaning(e2, args)
  {
    EvaluationIsMeaning(e1, args);
    EvaluationIsMeaning(e2, args);
  }

  // ---------------------------------------------------------------------------
  // The grammar

  // Rebuilds the expression that a successful parse, in any mode, has read.
  lemma {:induction false} ReadBack(level: nat, ts: seq<Token>, ev: Event, on: bool, pos: nat) returns (e: Expr)
    requires level <= 6 && pos <= |ts| && Parse(level, ts, ev, on, pos).ok
    ensures Level(e) >= level && Show(e, level) == ts[pos..Parse(level, ts, ev, on, pos).pos]
    decreases |ts| - pos, 7 - level
  {
    hide Parse;
    hide Rest;
    if level <= 4 {
      var first := Parse(level + 1, ts, ev, on, pos);
      LowStep(level, ts, ev, on, pos, first);
      e := ReadBack(level + 1, ts, ev, on, pos);
      ShowLower(e, level);
      e := ReadBackLoop(level, ts, ev, on, e, pos, first.value, first.pos);
    } else if level == 5 {
      UnaryStep(ts, ev, on, pos);
      if At(ts, pos, TNot) {
        var x := ReadBack(5, ts, ev, on, pos + 1);
        e := ShowNot(x, ts, pos, Parse(5, ts, ev, on, pos + 1).pos);
      } else {
        e := ReadBack(6, ts, ev, on, pos);
        ShowLower(e, 5);
      }
    } else {
      e := ReadBackPrimary(ts, ev, on, pos);
    }
  }

  lemma ShowLower(e: Expr, level: nat)
    requires level <= 5 && Level(e) >= level + 1
    ensures Show(e, level) == Show(e, level + 1)
  {
  }

  lemma ShowNot(x: Expr, ts: seq<Token>, pos: nat, end: nat) returns (e: Expr)
    requires At(ts, pos, TNot) && pos < end <= |ts| && Show(x, 5) == ts[pos + 1..end]
    ensures Level(e) == 5 && Show(e, 5) == ts[pos..end]
  {
    e := Not(x);
    assert ts[pos..end] == [TNot] + ts[pos + 1..end];
  }

  lemma {:induction false} ReadBackPrimary(ts: seq<Token>, ev: Event, on: bool, pos: nat) returns (e: Expr)
    requires pos <= |ts| && Parse(6, ts, ev, on, pos).ok
    ensures Level(e) == 6 && Show(e, 6) == ts[pos..Parse(6, ts, ev, on, pos).pos]
    decreases |ts| - pos, 0
  {
    hide Parse;
    if At(ts, pos, TLParen) {
      var x := Parse(0, ts, ev, on, pos + 1);
      ParenStep(ts, ev, on, pos, x);
      var inner := ReadBack(0, ts, ev, on, pos + 1);
      e := ShowWrapped(inner, ts, pos, x.pos);
    } else {
      LeafStep(ts, ev, on, pos);
      e := if ts[pos].TNum? then Num(ts[pos].value) else Arg(ts[pos].index);
    }
  }

  lemma ShowWrapped(x: Expr, ts: seq<Token>, pos: nat, end: nat) returns (e: Expr)
    requires At(ts, pos, TLParen) && pos < end && At(ts, end, TRParen) && Show(x, 0) == ts[pos + 1..end]
    ensures Level(e) == 6 && Show(e, 6) == ts[pos..end + 1]
  {
    e := Paren(x);
    assert ts[pos..end + 1] == [TLParen] + ts[pos + 1..end] + [TRParen];
  }

  lemma {:induction false} ReadBackLoop(level: nat, ts: seq<Token>, ev: Event, on: bool, left: Expr, start: nat, lhs: Word, pos: nat)
    returns (e: Expr)
    requires level <= 4 && start <= pos <= |ts| && Rest(level, ts, ev, on, lhs, pos).ok
    requires Level(left) >= level && Show(left, level) == ts[start..pos]
    ensures Level(e) >= level && Show(e, level) == ts[start..Rest(level, ts, ev, on, lhs, pos).pos]
    decreases |ts| - pos, 7 - level
  {
    hide Parse;
    hide Rest;
    hide Show;
    if !OpAt(ts, pos, level) {
      e := left;
      RestStop(level, ts, ev, on, lhs, pos);
    } else {
      var rhs, v := RestStep(level, ts, ev, on, lhs, pos);
      var right := ReadBack(level + 1, ts, ev, on && !Skips(ts[pos].op, lhs), pos + 1);
      var longer := Bin(ts[pos].op, left, right);
      ShowBin(longer);
      SliceJoin(ts, start, pos, rhs.pos);
      e := ReadBackLoop(level, ts, ev, on, longer, start, v, rhs.pos);
    }
  }

  lemma SliceJoin(ts: seq<Token>, start: nat, pos: nat, end: nat)
    requires start <= pos < end <= |ts|
    ensures ts[start..end] == ts[start..pos] + ([ts[pos]] + ts[pos + 1..end])
  {
  }

  lemma RestStop(level: nat, ts: seq<Token>, ev: Event, on: bool, lhs: Word, pos: nat)
    requires level <= 4 && pos <= |ts| && !OpAt(ts, pos, level)
    ensures Rest(level, ts, ev, on, lhs, pos) == Out(lhs, pos, true)
  {
  }

  // One turn of a loop, however it ends.
  lemma RestTurn(level: nat, ts: seq<Token>, ev: Event, on: bool, lhs: Word, pos: nat, rhs: Out)
    requires level <= 4 && OpAt(ts, pos, level)
    requires rhs == Parse(level + 1, ts, ev, on && !Skips(ts[pos].op, lhs), pos + 1)
    ensures Rest(level, ts, ev, on, lhs, pos) ==
            match Combine(ts[pos].op, lhs, rhs.value, on)
            case DivZero => Out(0, rhs.pos, false)
            case Val(v) => if rhs.ok then Rest(level, ts, ev, on, v, rhs.pos) else Out(v, rhs.pos, false)
  {
  }

  // One turn of a loop that ends well.
  lemma RestStep(level: nat, ts: seq<Token>, ev: Event, on: bool, lhs: Word, pos: nat) returns (rhs: Out, v: Word)
    requires level <= 4 && OpAt(ts, pos, level) && Rest(level, ts, ev, on, lhs, pos).ok
    ensures rhs == Parse(level + 1, ts, ev, on && !Skips(ts[pos].op, lhs), pos + 1) && rhs.ok
    ensures Combine(ts[pos].op, lhs, rhs.value, on) == Val(v)
    ensures Rest(level, ts, ev, on, lhs, pos) == Rest(level, ts, ev, on, v, rhs.pos)
  {
    rhs := Parse(level + 1, ts, ev, on && !Skips(ts[pos].op, lhs), pos + 1);
    RestTurn(level, ts, ev, on, lhs, pos, rhs);
    v := Combine(ts[pos].op, lhs, rhs.value, on).v;
  }

  // The token form of some expression.
  ghost predicate Grammatical(ts: seq<Token>) {
    exists e: Expr :: ts == Show(e, 0)
  }

  /** The validator accepts exactly the token forms of expressions. */
  lemma AcceptsExactlyTheGrammar(ts: seq<Token>)
    ensures Accepts(ts) <==> Grammatical(ts)
  {
    if Accepts(ts) {
      var e := ReadBack(0, ts, NoEvent, false, 0);
      assert ts[0..|ts|] == ts;
      assert ts == Show(e, 0);
    }
    if Grammatical(ts) {
      var e: Expr :| ts == Show(e, 0);
      assert ts[0..0 + |ts|] == ts;
      ParseShown(e, 0, ts, NoEvent, false, 0);
      var v: Word :| Parse(0, ts, NoEvent, false, 0) == Loop(0, ts, NoEvent, false, v, |ts|);
      LoopEnds(0, ts, NoEvent, false, v, |ts|);
    }
  }

  /** A run with evaluation on that does not hit a division by zero consumes exactly the
      tokens that the validating run consumes, from any position and at any level. */
  lemma {:induction false} SameTokensEitherWay(level: nat, ts: seq<Token>, ev: Event, on: bool, pos: nat)
    requires level <= 6 && pos <= |ts| && Parse(level, ts, ev, on, pos).ok
    ensures Parse(level, ts, NoEvent, false, pos).ok
    ensures Parse(level, ts, NoEvent, false, pos).pos == Parse(level, ts, ev, on, pos).pos
    decreases |ts| - pos, 7 - level
  {
    hide Parse;
    hide Rest;
    if level <= 4 {
      var first, first0 := Parse(level + 1, ts, ev, on, pos), Parse(level + 1, ts, NoEvent, false, pos);
      LowStep(level, ts, ev, on, pos, first);
      LowStep(level, ts, NoEvent, false, pos, first0);
      SameTokensEitherWay(level + 1, ts, ev, on, pos);
      SameTokensLoop(level, ts, ev, on, first.value, first0.value, first.pos);
    } else if level == 5 {
      UnaryStep(ts, ev, on, pos);
      UnaryStep(ts, NoEvent, false, pos);
      if At(ts, pos, TNot) {
        SameTokensEitherWay(5, ts, ev, on, pos + 1);
      } else {
        SameTokensEitherWay(6, ts, ev, on, pos);
      }
    } else if At(ts, pos, TLParen) {
      ParenStep(ts, ev, on, pos, Parse(0, ts, ev, on, pos + 1));
      ParenStep(ts, NoEvent, false, pos, Parse(0, ts, NoEvent, false, pos + 1));
      SameTokensEitherWay(0, ts, ev, on, pos + 1);
    } else {
      LeafStep(ts, ev, on, pos);
      LeafStep(ts, NoEvent, false, pos);
    }
  }

  lemma {:induction false} SameTokensLoop(level: nat, ts: seq<Token>, ev: Event, on: bool, a: Word, b: Word, pos: nat)
    requires level <= 4 && pos <= |ts| && Rest(level, ts, ev, on, a, pos).ok
    ensures Rest(level, ts, NoEvent, false, b, pos).ok
    ensures Rest(level, ts, NoEvent, false, b, pos).pos == Rest(level, ts, ev, on, a, pos).pos
    decreases |ts| - pos, 7 - level
  {
    hide Parse;
    hide Rest;
    if OpAt(ts, pos, level) {
      var op := ts[pos].op;
      var rhs, v := RestStep(level, ts, ev, on, a, pos);
      SameTokensEitherWay(level + 1, ts, ev, on && !Skips(op, a), pos + 1);
      var rhs0 := Parse(level + 1, ts, NoEvent, false, pos + 1);
      RestTurn(level, ts, NoEvent, false, b, pos, rhs0);
      SameTokensLoop(level, ts, ev, on, v, Combine(op, b, rhs0.value, false).v, rhs.pos);
    } else {
      RestStop(level, ts, ev, on, a, pos);
      RestStop(level, ts, NoEvent, false, b, pos);
    }
  }
}
