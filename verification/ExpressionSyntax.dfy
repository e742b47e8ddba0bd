/** Operator expressions, the printer of Cython/CodeWriter.py as a function, and the recursive-descent
    parser of Cython/Compiler/Parsing.py for them.

    Precedence levels are the printer's: 1 or, 2 and, 3 not, 4 comparisons, 5 to 10 the other binary
    operators, 11 the unary ones, 12 power; 13 stands for names, literals and parenthesised expressions.
    The parser does not know them; it has a grammar of its own. */
module ExpressionSyntax {
  import opened Decimals
  import opened IntegerLiterals

  datatype Sym =
    | Or | And | Not | In | Is | Lt | Le | Gt | Ge | Ne | Equal
    | BitOr | BitXor | BitAnd | Shl | Shr | Plus | Minus | Times | MatMul | Slash | FloorDiv | Percent | Power | Tilde

  datatype Token = Name(name: string) | Integer(digits: Literal) | Open | Close | Op(sym: Sym)

  datatype CmpOp = InOp | NotInOp | IsOp | IsNotOp | LtOp | LeOp | GtOp | GeOp | NeOp | EqualOp

  function UnaryLevel(s: Sym): nat {
    match s
    case Not => 3
    case Plus => 11
    case Minus => 11
    case Tilde => 11
    case _ => 0
  }

  function BinaryLevel(s: Sym): nat {
    match s
    case Or => 1
    case And => 2
    case BitOr => 5
    case BitXor => 6
    case BitAnd => 7
    case Shl => 8
    case Shr => 8
    case Plus => 9
    case Minus => 9
    case Times => 10
    case MatMul => 10
    case Slash => 10
    case FloorDiv => 10
    case Percent => 10
    case Power => 12
    case _ => 0
  }

  type UnaryOp = s: Sym | UnaryLevel(s) > 0 witness Not
  type BinaryOp = s: Sym | BinaryLevel(s) > 0 witness Or

  /** An integer literal can have a sign, which is part of its value. A comparison has further ones chained to it when
      it was written as a chain. */
  datatype Expr =
    | Atom(name: string)
    | Int(negative: bool, digits: Literal, suffix: string)
    | Unary(op: UnaryOp, operand: Expr)
    | Binary(bop: BinaryOp, left: Expr, right: Expr)
    | Compare(cop: CmpOp, first: Expr, second: Expr, cascade: Cascade)

  datatype Cascade = End | More(op: CmpOp, operand: Expr, next: Cascade)

  /** What is written without operator and never gets parentheses. */
  predicate IsAtom(e: Expr) {
    e.Atom? || e.Int?
  }

  function Level(e: Expr): (n: nat)
    ensures 1 <= n <= 13
  {
    match e
    case Atom(_) => 13
    case Int(_, _, _) => 13
    case Unary(op, _) => UnaryLevel(op)
    case Binary(op, _, _) => BinaryLevel(op)
    case Compare(_, _, _, _) => 4
  }

  function CmpTokens(op: CmpOp): seq<Token> {
    match op
    case InOp => [Op(In)]
    case NotInOp => [Op(Not), Op(In)]
    case IsOp => [Op(Is)]
    case IsNotOp => [Op(Is), Op(Not)]
    case LtOp => [Op(Lt)]
    case LeOp => [Op(Le)]
    case GtOp => [Op(Gt)]
    case GeOp => [Op(Ge)]
    case NeOp => [Op(Ne)]
    case EqualOp => [Op(Equal)]
  }

  // ----- Printing -----

  function Parenthesised(toks: seq<Token>): seq<Token> {
    [Open] + toks + [Close]
  }

  /** The expression without parentheses around it. */
  function Inner(e: Expr): seq<Token>
    decreases e, 0
  {
    match e
    case Atom(name) => [Name(name)]
    case Int(negative, digits, _) => (if negative then [Op(Minus)] else []) + [Integer(digits)]
    case Unary(op, x) => [Op(op)] + Print(x, UnaryLevel(op))
    case Binary(op, l, r) => Print(l, BinaryLevel(op)) + [Op(op)] + Print(r, BinaryLevel(op))
    case Compare(op, l, r, _) => Print(l, 4) + CmpTokens(op) + Print(r, 4)
  }

  /** The expression inside one of level `context`. */
  function Print(e: Expr, context: nat): seq<Token>
    decreases e, 1
  {
    if context > Level(e) && !IsAtom(e) then Parenthesised(Inner(e)) else Inner(e)
  }

  /** The level at which the text parses: a sign, also that of a literal, belongs to level 11, and so does a power,
      which may begin with such a literal. */
  function ReadLevel(e: Expr): (n: nat)
    ensures 1 <= n <= 13
  {
    if (e.Int? && e.negative) || (e.Binary? && e.bop == Power) then 11 else Level(e)
  }

  /** The same inside an expression of level `context`: 13 when it is parenthesised. */
  function Shown(e: Expr, context: nat): (n: nat)
    ensures 1 <= n <= 13
  {
    if context > Level(e) && !IsAtom(e) then 13 else ReadLevel(e)
  }

  // ----- Parsing -----

  datatype Result = Parsed(e: Expr, rest: seq<Token>) | Fail

  /** The literal of the negated number, in decimal. */
  function Negated(e: Expr): Expr
    requires e.Int?
  {
    var n := NumberOf(e.digits);
    (DigitsAreLiteral(n); Int(!e.negative && n > 0, Digits(n), e.suffix))
  }

  /** `unop_node`: a minus sign before an integer literal becomes part of the literal. */
  function UnaryNode(op: UnaryOp, x: Expr): Expr {
    if op == Minus && x.Int? then Negated(x) else Unary(op, x)
  }

  // The nonterminals of the grammar, each defined in terms of the next, and `FACTOR` also of itself.

  const OR_TEST := 1
  const AND_TEST := 2
  const NOT_TEST := 3
  const COMPARISON := 4
  const BIT_EXPR := 5
  const XOR_EXPR := 6
  const AND_EXPR := 7
  const SHIFT_EXPR := 8
  const ARITH_EXPR := 9
  const TERM := 10
  const FACTOR := 11
  const POWER := 12
  const ATOM := 13

  /** The operators that continue a nonterminal. */
  function Operators(n: nat): set<Sym> {
    if n == OR_TEST then {Or}
    else if n == AND_TEST then {And}
    else if n == COMPARISON then {Lt, Gt, Equal, Ge, Le, Ne, In, Is, Not}
    else if n == BIT_EXPR then {BitOr}
    else if n == XOR_EXPR then {BitXor}
    else if n == AND_EXPR then {BitAnd}
    else if n == SHIFT_EXPR then {Shl, Shr}
    else if n == ARITH_EXPR then {Plus, Minus}
    else if n == TERM then {Times, MatMul, Slash, Percent, FloorDiv}
    else if n == POWER then {Power}
    else {}
  }

  const SIGNS: set<Sym> := {Plus, Minus, Tilde}

  /** The first token continues the nonterminal. */
  predicate Follows(n: nat, toks: seq<Token>) {
    toks != [] && toks[0].Op? && toks[0].sym in Operators(n)
  }

  datatype CmpResult = CmpParsed(op: CmpOp, rest: seq<Token>) | NoCmp

  function ParseCmpOp(toks: seq<Token>): (r: CmpResult)
    ensures r.CmpParsed? ==> |r.rest| < |toks|
  {
    if toks == [] || !toks[0].Op? then NoCmp
    else
      match toks[0].sym
      case Not => if |toks| > 1 && toks[1] == Op(In) then CmpParsed(NotInOp, toks[2..]) else NoCmp
      case Is => if |toks| > 1 && toks[1] == Op(Not) then CmpParsed(IsNotOp, toks[2..]) else CmpParsed(IsOp, toks[1..])
      case In => CmpParsed(InOp, toks[1..])
      case Lt => CmpParsed(LtOp, toks[1..])
      case Le => CmpParsed(LeOp, toks[1..])
      case Gt => CmpParsed(GtOp, toks[1..])
      case Ge => CmpParsed(GeOp, toks[1..])
      case Ne => CmpParsed(NeOp, toks[1..])
      case Equal => CmpParsed(EqualOp, toks[1..])
      case _ => NoCmp
  }

  /** A nonterminal at the start of the tokens. */
  function Parse(n: nat, toks: seq<Token>): (r: Result)
    requires OR_TEST <= n <= ATOM
    ensures r.Parsed? ==> |r.rest| < |toks|
    decreases |toks|, 14 - n, 1
  {
    if n == OR_TEST || n == AND_TEST then
      match Parse(n + 1, toks)
      case Fail => Fail
      case Parsed(l, rest) =>
        if Follows(n, rest) then
          (match Parse(n, rest[1..])
           case Fail => Fail
           case Parsed(r, rest') => Parsed(Binary(rest[0].sym, l, r), rest'))
        else Parsed(l, rest)
    else if n == NOT_TEST then
      if toks != [] && toks[0] == Op(Not) then
        match Parse(NOT_TEST, toks[1..])
        case Fail => Fail
        case Parsed(x, rest) => Parsed(Unary(Not, x), rest)
      else Parse(COMPARISON, toks)
    else if n == COMPARISON then
      match Parse(BIT_EXPR, toks)
      case Fail => Fail
      case Parsed(l, rest) =>
        if !Follows(COMPARISON, rest) then Parsed(l, rest) else
        match ParseCascade(rest)
        case CascadeFail => Fail
        case CascadeParsed(c, rest') =>
          if c.End? then Fail else Parsed(Compare(c.op, l, c.operand, c.next), rest')
    else if n <= TERM then
      match Parse(n + 1, toks)
      case Fail => Fail
      case Parsed(l, rest) => Loop(n, l, rest)
    else if n == FACTOR then
      if toks != [] && toks[0].Op? && toks[0].sym in SIGNS then
        match Parse(FACTOR, toks[1..])
        case Fail => Fail
        case Parsed(x, rest) => Parsed(UnaryNode(toks[0].sym, x), rest)
      else Parse(POWER, toks)
    else if n == POWER then
      match Parse(ATOM, toks)
      case Fail => Fail
      case Parsed(l, rest) =>
        if Follows(POWER, rest) then
          (match Parse(FACTOR, rest[1..])
           case Fail => Fail
           case Parsed(r, rest') => Parsed(Binary(rest[0].sym, l, r), rest'))
        else Parsed(l, rest)
    else
      if toks == [] then Fail
      else
        match toks[0]
        case Name(name) => Parsed(Atom(name), toks[1..])
        case Integer(digits) => Parsed(Int(false, digits, ""), toks[1..])
        case Open =>
          (match Parse(OR_TEST, toks[1..])
           case Fail => Fail
           case Parsed(e, rest) => if rest != [] && rest[0] == Close then Parsed(e, rest[1..]) else Fail)
        case _ => Fail
  }

  /** The loop of a nonterminal with left-associative operators. */
  function Loop(n: nat, acc: Expr, toks: seq<Token>): (r: Result)
    requires BIT_EXPR <= n <= TERM
    ensures r.Parsed? ==> |r.rest| <= |toks|
    decreases |toks|, 14 - n, 0
  {
    if Follows(n, toks) then
      match Parse(n + 1, toks[1..])
      case Fail => Fail
      case Parsed(r, rest) => Loop(n, Binary(toks[0].sym, acc, r), rest)
    else Parsed(acc, toks)
  }

  datatype CascadeResult = CascadeParsed(c: Cascade, rest: seq<Token>) | CascadeFail

  /** The comparisons that follow a first operand. */
  function ParseCascade(toks: seq<Token>): (r: CascadeResult)
    ensures r.CascadeParsed? ==> |r.rest| <= |toks|
    decreases |toks|, 14, 0
  {
    if !Follows(COMPARISON, toks) then CascadeParsed(End, toks)
    else
      match ParseCmpOp(toks)
      case NoCmp => CascadeFail
      case CmpParsed(op, rest) =>
        match Parse(BIT_EXPR, rest)
        case Fail => CascadeFail
        case Parsed(x, rest') =>
          match ParseCascade(rest')
          case CascadeFail => CascadeFail
          case CascadeParsed(c, rest'') => CascadeParsed(More(op, x, c), rest'')
  }

  /** The whole token sequence as one expression. */
  function ParseAll(toks: seq<Token>): Result {
    match Parse(OR_TEST, toks)
    case Fail => Fail
    case Parsed(e, rest) => if rest == [] then Parsed(e, []) else Fail
  }
}
