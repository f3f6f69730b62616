/** What filters mean, in plain integers: comparisons, arithmetic modulo 2^64, arguments,
    truth values, and which operator binds tighter. */
module FilterFacts {
  import opened Words
  import opened FilterSyntax
  import opened FilterParser

  // Evaluating the tokens reads them all and yields v.
  ghost predicate Yields(ts: seq<Token>, args: seq<Word>, v: Word) {
    Parse(0, ts, Args(args), true, 0) == Out(v, |ts|, true)
  }

  // A division by zero stops the evaluation.
  ghost predicate Stops(ts: seq<Token>, args: seq<Word>) {
    !Parse(0, ts, Args(args), true, 0).ok
  }

  lemma YieldsMeaning(e: Expr, ts: seq<Token>, args: seq<Word>, v: Word)
    requires Show(e, 0) == ts && Meaning(e, args) == Val(v)
    ensures Yields(ts, args, v)
    ensures Verdict(ts, Args(args)) <==> v != 0
  {
    EvaluationIsMeaning(e, args);
    VerdictIsTruth(e, args);
  }

  lemma StopsMeaning(e: Expr, ts: seq<Token>, args: seq<Word>)
    requires Show(e, 0) == ts && Meaning(e, args) == DivZero
    ensures Stops(ts, args) && !Verdict(ts, Args(args))
  {
    EvaluationIsMeaning(e, args);
    VerdictIsTruth(e, args);
  }

  function Two(a: Word, op: BinOp, b: Word): seq<Token> {
    [TNum(a), TBin(op), TNum(b)]
  }

  lemma YieldsTwo(a: Word, op: BinOp, b: Word, args: seq<Word>, v: Word)
    requires Meaning(Bin(op, Num(a), Num(b)), args) == Val(v)
    ensures Yields(Two(a, op, b), args, v)
    ensures Verdict(Two(a, op, b), Args(args)) <==> v != 0
  {
    YieldsMeaning(Bin(op, Num(a), Num(b)), Two(a, op, b), args, v);
  }

  /** Each comparison keeps an event exactly if it holds of the numbers. */
  lemma ComparisonsCompare(a: Word, b: Word, args: seq<Word>)
    ensures Verdict([TNum(a), TBin(Eq), TNum(b)], Args(args)) <==> a == b
    ensures Verdict([TNum(a), TBin(Ne), TNum(b)], Args(args)) <==> a != b
    ensures Verdict([TNum(a), TBin(Gt), TNum(b)], Args(args)) <==> a > b
    ensures Verdict([TNum(a), TBin(Ge), TNum(b)], Args(args)) <==> a >= b
    ensures Verdict([TNum(a), TBin(Lt), TNum(b)], Args(args)) <==> a < b
    ensures Verdict([TNum(a), TBin(Le), TNum(b)], Args(args)) <==> a <= b
  {
    hide Verdict;
    hide Yields;
    hide Show;
    YieldsTwo(a, Eq, b, args, if a == b then 1 else 0);
    YieldsTwo(a, Ne, b, args, if a != b then 1 else 0);
    YieldsTwo(a, Gt, b, args, if a > b then 1 else 0);
    YieldsTwo(a, Ge, b, args, if a >= b then 1 else 0);
    YieldsTwo(a, Lt, b, args, if a < b then 1 else 0);
    YieldsTwo(a, Le, b, args, if a <= b then 1 else 0);
  }

  /** Addition, subtraction and multiplication wrap at 2^64. */
  lemma ArithmeticWraps(a: Word, b: Word, args: seq<Word>)
    ensures Yields([TNum(a), TBin(Add), TNum(b)], args, (a + b) % 0x1_0000_0000_0000_0000)
    ensures Yields([TNum(a), TBin(Sub), TNum(b)], args, (a - b) % 0x1_0000_0000_0000_0000)
    ensures Yields([TNum(a), TBin(Mul), TNum(b)], args, (a * b) % 0x1_0000_0000_0000_0000)
  {
    hide Verdict;
    hide Yields;
    YieldsTwo(a, Add, b, args, (a + b) % TWO64);
    YieldsTwo(a, Sub, b, args, (a - b) % TWO64);
    YieldsTwo(a, Mul, b, args, (a * b) % TWO64);
  }

  /** Division truncates, and stops the evaluation if the divisor is zero. */
  lemma DivisionTruncates(a: Word, b: Word, q: Word, args: seq<Word>)
    requires b != 0 ==> q * b <= a < q * b + b
    ensures b != 0 ==> Yields([TNum(a), TBin(Div), TNum(b)], args, q)
    ensures b == 0 ==> Stops([TNum(a), TBin(Div), TNum(b)], args) && !Verdict([TNum(a), TBin(Div), TNum(b)], Args(args))
  {
    hide Verdict;
    hide Yields;
    hide Stops;
    if b != 0 {
      QuotientIs(a, b, q);
      YieldsTwo(a, Div, b, args, q);
    } else {
      StopsMeaning(Bin(Div, Num(a), Num(b)), Two(a, Div, b), args);
    }
  }

  lemma QuotientIs(a: int, b: int, q: int)
    requires b > 0 && q * b <= a < q * b + b
    ensures a / b == q
  {
    var k := a / b;
    assert k * b <= a < k * b + b;
    Scaled(k + 1, q, b);
    Scaled(q + 1, k, b);
  }

  lemma Scaled(m: int, n: int, b: int)
    requires b > 0
    ensures m <= n ==> m * b <= n * b
  {
  }

  /** argN is the event's argument N for N below six, and 0 otherwise. */
  lemma ArgumentsRead(i: nat, args: seq<Word>)
    requires |args| == 6
    ensures Yields([TArg(i)], args, if i < 6 then args[i] else 0)
  {
    YieldsMeaning(Arg(i), [TArg(i)], args, if i < 6 then args[i] else 0);
  }

  /** Any word but zero is true; `!`, `&&` and `||` yield 1 or 0. */
  lemma TruthValues(a: Word, b: Word, args: seq<Word>)
    ensures Verdict([TNum(a)], Args(args)) <==> a != 0
    ensures Yields([TNot, TNum(a)], args, if a == 0 then 1 else 0)
    ensures Yields([TNum(a), TBin(And), TNum(b)], args, if a != 0 && b != 0 then 1 else 0)
    ensures Yields([TNum(a), TBin(Or), TNum(b)], args, if a != 0 || b != 0 then 1 else 0)
    ensures Yields([TNum(a), TBin(Gt), TNum(b)], args, if a > b then 1 else 0)
  {
    hide Verdict;
    hide Yields;
    YieldsMeaning(Num(a), [TNum(a)], args, a);
    YieldsMeaning(Not(Num(a)), [TNot, TNum(a)], args, if a == 0 then 1 else 0);
    YieldsTwo(a, And, b, args, if a != 0 && b != 0 then 1 else 0);
    YieldsTwo(a, Or, b, args, if a != 0 || b != 0 then 1 else 0);
    YieldsTwo(a, Gt, b, args, if a > b then 1 else 0);
  }

  function Three(a: Word, op: BinOp, b: Word, op': BinOp, c: Word): seq<Token> {
    [TNum(a), TBin(op), TNum(b), TBin(op'), TNum(c)]
  }

  // The second operator binds tighter.
  lemma YieldsRight(a: Word, op: BinOp, b: Word, op': BinOp, c: Word, args: seq<Word>, v: Word)
    requires OpLevel(op) < OpLevel(op')
    requires Meaning(Bin(op, Num(a), Bin(op', Num(b), Num(c))), args) == Val(v)
    ensures Yields(Three(a, op, b, op', c), args, v)
  {
    hide Verdict;
    hide Yields;
    hide Meaning;
    var right := Bin(op', Num(b), Num(c));
    assert Show(right, OpLevel(op) + 1) == [TNum(b), TBin(op'), TNum(c)];
    assert Show(Num(a), OpLevel(op)) == [TNum(a)];
    YieldsMeaning(Bin(op, Num(a), right), Three(a, op, b, op', c), args, v);
  }

  // The first operator binds tighter, or both bind alike.
  lemma YieldsLeft(a: Word, op: BinOp, b: Word, op': BinOp, c: Word, args: seq<Word>, v: Word)
    requires OpLevel(op) >= OpLevel(op')
    requires Meaning(Bin(op', Bin(op, Num(a), Num(b)), Num(c)), args) == Val(v)
    ensures Yields(Three(a, op, b, op', c), args, v)
  {
    hide Verdict;
    hide Yields;
    hide Meaning;
    var left := Bin(op, Num(a), Num(b));
    assert Show(left, OpLevel(op')) == [TNum(a), TBin(op), TNum(b)];
    assert Show(Num(c), OpLevel(op') + 1) == [TNum(c)];
    YieldsMeaning(Bin(op', left, Num(c)), Three(a, op, b, op', c), args, v);
  }

  /** `||` binds looser than `&&`, that looser than comparisons, those looser than sums. */
  lemma Precedence(a: Word, b: Word, c: Word, args: seq<Word>)
    ensures Yields([TNum(a), TBin(Or), TNum(b), TBin(And), TNum(c)], args, if a != 0 || (b != 0 && c != 0) then 1 else 0)
    ensures Yields([TNum(a), TBin(And), TNum(b), TBin(Eq), TNum(c)], args, if a != 0 && b == c then 1 else 0)
    ensures Yields([TNum(a), TBin(Gt), TNum(b), TBin(Add), TNum(c)], args, if a > (b + c) % TWO64 then 1 else 0)
    ensures Yields([TNum(a), TBin(Lt), TNum(b), TBin(Eq), TNum(c)], args, if (if a < b then 1 else 0) == c then 1 else 0)
  {
    hide Verdict;
    hide Yields;
    hide Show;
    assert Meaning(Bin(And, Num(b), Num(c)), args) == Val(if b != 0 && c != 0 then 1 else 0);
    assert Meaning(Bin(Eq, Num(b), Num(c)), args) == Val(if b == c then 1 else 0);
    assert Meaning(Bin(Add, Num(b), Num(c)), args) == Val((b + c) % TWO64);
    assert Meaning(Bin(Lt, Num(a), Num(b)), args) == Val(if a < b then 1 else 0);
    YieldsRight(a, Or, b, And, c, args, if a != 0 || (b != 0 && c != 0) then 1 else 0);
    YieldsRight(a, And, b, Eq, c, args, if a != 0 && b == c then 1 else 0);
    YieldsRight(a, Gt, b, Add, c, args, if a > (b + c) % TWO64 then 1 else 0);
    YieldsLeft(a, Lt, b, Eq, c, args, if (if a < b then 1 else 0) == c then 1 else 0);
  }

  /** Products bind tighter than sums, and sums associate to the left. */
  lemma SumsOfProducts(a: Word, b: Word, c: Word, args: seq<Word>)
    ensures Yields([TNum(a), TBin(Add), TNum(b), TBin(Mul), TNum(c)], args, (a + (b * c) % TWO64) % TWO64)
    ensures Yields([TNum(a), TBin(Sub), TNum(b), TBin(Sub), TNum(c)], args, ((a - b) % TWO64 - c) % TWO64)
  {
    hide Verdict;
    hide Yields;
    hide Show;
    assert Meaning(Bin(Mul, Num(b), Num(c)), args) == Val((b * c) % TWO64);
    assert Meaning(Bin(Sub, Num(a), Num(b)), args) == Val((a - b) % TWO64);
    YieldsRight(a, Add, b, Mul, c, args, (a + (b * c) % TWO64) % TWO64);
    YieldsLeft(a, Sub, b, Sub, c, args, ((a - b) % TWO64 - c) % TWO64);
  }

  /** A side that is not needed is not evaluated: it may divide by zero. */
  lemma ShortCircuits(a: Word, args: seq<Word>)
    ensures Yields([TNum(0), TBin(And), TNum(a), TBin(Div), TNum(0)], args, 0)
    ensures Yields([TNum(1), TBin(Or), TNum(a), TBin(Div), TNum(0)], args, 1)
  {
    hide Verdict;
    hide Yields;
    hide Show;
    YieldsRight(0, And, a, Div, 0, args, 0);
    YieldsRight(1, Or, a, Div, 0, args, 1);
  }
}
