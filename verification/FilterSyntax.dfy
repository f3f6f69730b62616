/** Filter expressions: tokens, syntax trees, their token form and their meaning. */
module FilterSyntax {
  import opened Words

  const GP_ARG_COUNT: nat := 6
  const TOKEN_CAP: nat := 64

  datatype BinOp = Or | And | Eq | Ne | Gt | Ge | Lt | Le | Add | Sub | Mul | Div

  datatype Token =
    | TEnd
    | TArg(index: nat)
    | TNum(value: Word)
    | TBin(op: BinOp)
    | TNot
    | TLParen
    | TRParen

  // Binding strength, one number per parse function:
  // 0 or, 1 and, 2 cmp, 3 add, 4 mul, 5 unary, 6 primary.
  // All six comparisons share one level.
  function OpLevel(op: BinOp): (l: nat)
    ensures l <= 4
  {
    match op
    case Or => 0
    case And => 1
    case Eq | Ne | Gt | Ge | Lt | Le => 2
    case Add | Sub => 3
    case Mul | Div => 4
  }

  datatype Expr =
    | Num(value: Word)
    | Arg(index: nat)
    | Paren(inner: Expr)
    | Not(operand: Expr)
    | Bin(op: BinOp, left: Expr, right: Expr)

  function Level(e: Expr): (l: nat)
    ensures l <= 6
  {
    match e
    case Num(_) | Arg(_) | Paren(_) => 6
    case Not(_) => 5
    case Bin(op, _, _) => OpLevel(op)
  }

  // The token form of e where an expression of at least level `min` is expected.
  // Binary operators associate to the left; parentheses appear only where needed.
  function Show(e: Expr, min: nat): (ts: seq<Token>)
    ensures ts != []
    decreases e, if Level(e) < min then 1 else 0
  {
    if Level(e) < min && min <= 6 then [TLParen] + Show(e, 0) + [TRParen]
    else
      match e
      case Num(v) => [TNum(v)]
      case Arg(i) => [TArg(i)]
      case Paren(inner) => [TLParen] + Show(inner, 0) + [TRParen]
      case Not(x) => [TNot] + Show(x, 5)
      case Bin(op, l, r) => Show(l, OpLevel(op)) + [TBin(op)] + Show(r, OpLevel(op) + 1)
  }

  // The filter language's value of an event argument; out of range reads as 0.
  function ArgValue(args: seq<Word>, index: nat): Word {
    if index < GP_ARG_COUNT && index < |args| then args[index] else 0
  }

  // A value, or a division by zero that was actually evaluated.
  datatype Value = Val(v: Word) | DivZero

  function Compare(op: BinOp, a: Word, b: Word): bool {
    match op
    case Eq => a == b
    case Ne => a != b
    case Gt => a > b
    case Ge => a >= b
    case Lt => a < b
    case Le => a <= b
    case _ => false
  }

  function Arithmetic(op: BinOp, a: Word, b: Word): Value {
    match op
    case Add => Val(Wrap(a + b))
    case Sub => Val(Wrap(a - b))
    case Mul => Val(Wrap(a * b))
    case Div => if b == 0 then DivZero else Val(a / b)
    case _ => Val(FromBool(Compare(op, a, b)))
  }

  // The meaning of an expression: uint64 arithmetic, C truth values, short-circuit
  // `&&` and `||` whose unneeded side has no value at all.
  function Meaning(e: Expr, args: seq<Word>): Value {
    match e
    case Num(v) => Val(v)
    case Arg(i) => Val(ArgValue(args, i))
    case Paren(inner) => Meaning(inner, args)
    case Not(x) =>
      (match Meaning(x, args)
       case DivZero => DivZero
       case Val(v) => Val(FromBool(v == 0)))
    case Bin(op, l, r) =>
      match Meaning(l, args)
      case DivZero => DivZero
      case Val(a) =>
        if op == And && a == 0 then Val(0)
        else if op == Or && a != 0 then Val(1)
        else
          match Meaning(r, args)
          case DivZero => DivZero
          case Val(b) =>
            if op == And || op == Or then Val(FromBool(b != 0)) else Arithmetic(op, a, b)
  }
}
