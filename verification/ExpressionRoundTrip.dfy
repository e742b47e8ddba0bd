/** Parsing what the expression writer prints.

    The writer puts parentheses around an operand only when it binds less tightly than its parent, so an
    operand of the same level loses its grouping; and it never puts them around an integer literal, so a negative
    one loses its sign to a power.  `Regroup` is the tree that the printed text really denotes; `ParsePrinted` says
    so for every tree, and `RoundTrip` that a tree survives exactly when it is `Faithful`. */
module ExpressionRoundTrip {
  import opened Decimals
  import opened IntegerLiterals
  import opened ExpressionSyntax

  // ----- The tree that the printed text denotes -----

  /** Left-associative levels: `acc op r` with `r` dissolved into its operands. */
  function Absorb(acc: Expr, op: BinaryOp, r: Expr): Expr
    decreases r, 1
  {
    if r.Binary? && BinaryLevel(r.bop) == BinaryLevel(op) then Absorb(Absorb(acc, op, r.left), r.bop, r.right)
    else Binary(op, acc, Regroup(r))
  }

  /** Right-associative levels: `l op tail` with `l` dissolved into its operands.  The sign of a literal applies to
      the whole power that begins with it. */
  function Graft(l: Expr, op: BinaryOp, tail: Expr): Expr
    decreases l, 1
  {
    if l.Binary? && BinaryLevel(l.bop) == BinaryLevel(op) then Graft(l.left, l.bop, Graft(l.right, op, tail))
    else if NegativeBase(l, op) then Unary(Minus, Binary(op, Int(false, l.digits, ""), tail))
    else Binary(op, Regroup(l), tail)
  }

  predicate NegativeBase(l: Expr, op: BinaryOp) {
    op == Power && l.Int? && l.negative
  }

  /** The first operand of a comparison whose left operands are dissolved. */
  function Leftmost(x: Expr): Expr
    decreases x, 1
  {
    if x.Compare? then Leftmost(x.first) else Regroup(x)
  }

  /** The comparisons after the first operand of `x`, followed by `tail`. */
  function Links(x: Expr, tail: Cascade): Cascade
    decreases x, 1
  {
    if x.Compare? then Links(x.first, Link(x.cop, x.second, tail)) else tail
  }

  function Link(op: CmpOp, x: Expr, tail: Cascade): Cascade
    decreases x, 2
  {
    if x.Compare? then Link(op, x.first, Link(x.cop, x.second, tail)) else More(op, Regroup(x), tail)
  }

  predicate LeftAssociative(op: BinaryOp) {
    5 <= BinaryLevel(op) <= 10
  }

  function Regroup(e: Expr): Expr
    decreases e, 0
  {
    match e
    case Atom(_) => e
    case Int(negative, digits, _) => if negative then Negated(Int(false, digits, "")) else Int(false, digits, "")
    case Unary(op, x) => UnaryNode(op, Regroup(x))
    case Binary(op, l, r) => if LeftAssociative(op) then Absorb(Regroup(l), op, r) else Graft(l, op, Regroup(r))
    case Compare(op, l, r, _) =>
      match Links(l, Link(op, r, End))
      case More(op', x, c) => Compare(op', Leftmost(l), x, c)
      case End => e
  }

  // ----- First tokens and stops -----

  /** The nonterminal that an operator continues; 0 if it continues none. */
  function Nonterminal(s: Sym): (n: nat)
    ensures n <= POWER && forall m :: m > 0 ==> (s in Operators(m) <==> m == n)
  {
    match s
    case Or => OR_TEST
    case And => AND_TEST
    case BitOr => BIT_EXPR
    case BitXor => XOR_EXPR
    case BitAnd => AND_EXPR
    case Shl | Shr => SHIFT_EXPR
    case Plus | Minus => ARITH_EXPR
    case Times | MatMul | Slash | FloorDiv | Percent => TERM
    case Power => POWER
    case Tilde => 0
    case _ => COMPARISON
  }

  /** The level at which the printer writes an operator is the number of the nonterminal that reads it. */
  function Continues(toks: seq<Token>): (n: nat)
    ensures forall m :: m > 0 ==> (Follows(m, toks) <==> m == n)
    ensures toks != [] && toks[0].Op? && BinaryLevel(toks[0].sym) > 0 ==> n == BinaryLevel(toks[0].sym)
    ensures forall s :: s in SIGNS <==> UnaryLevel(s) == 11
  {
    hide Operators;
    if toks == [] || !toks[0].Op? then 0 else Nonterminal(toks[0].sym)
  }

  /** The tokens cannot continue an expression of level `n` or tighter. */
  ghost predicate Stops(n: nat, toks: seq<Token>) {
    Continues(toks) < n
  }

  /** The first token is no prefix operator that level `n` or below would take. */
  ghost predicate StartsAt(n: nat, toks: seq<Token>) {
    && toks != []
    && (n > 3 ==> toks[0] != Op(Not))
    && (n > 11 ==> !(toks[0].Op? && UnaryLevel(toks[0].sym) == 11))
  }

  lemma {:induction false} PrintStarts(e: Expr, context: nat, rest: seq<Token>)
    ensures StartsAt(Shown(e, context), Print(e, context) + rest)
    decreases e
  {
    if Print(e, context) == Inner(e) {
      match e
      case Atom(_) =>
      case Int(_, _, _) =>
      case Unary(op, x) =>
      case Binary(op, l, r) =>
        var more := [Op(op)] + Print(r, BinaryLevel(op)) + rest;
        PrintStarts(l, BinaryLevel(op), more);
        assert Print(e, context) + rest == Print(l, BinaryLevel(op)) + more;
      case Compare(op, l, r, _) =>
        var more := CmpTokens(op) + Print(r, 4) + rest;
        PrintStarts(l, 4, more);
        assert Print(e, context) + rest == Print(l, 4) + more;
    }
  }

  /** A tighter parse that stops is also the parse at a looser level. */
  lemma {:induction false} Descend(n: nat, m: nat, toks: seq<Token>, e: Expr, rest: seq<Token>)
    requires 1 <= n <= m <= 13 && Parse(m, toks) == Parsed(e, rest)
    requires Stops(n, rest) && StartsAt(m, toks)
    ensures Parse(n, toks) == Parsed(e, rest)
    decreases m - n
  {
    if n < m {
      if 5 <= m - 1 <= 10 {
        assert Loop(m - 1, e, rest) == Parsed(e, rest);
      }
      assert Parse(m - 1, toks) == Parsed(e, rest);
      Descend(n, m - 1, toks, e, rest);
    }
  }

  lemma InnerStarts(e: Expr, rest: seq<Token>)
    ensures StartsAt(ReadLevel(e), Inner(e) + rest)
  {
    PrintStarts(e, 0, rest);
    assert Print(e, 0) == Inner(e);
  }

  // ----- Parsing what was printed -----

  lemma Assoc<T>(a: seq<T>, b: seq<T>, c: seq<T>, d: seq<T>)
    ensures a + b + c + d == a + (b + c + d)
    ensures [] + a == a
  {
  }

  /** Parsing a printed operand at a level it may appear at. */
  lemma {:induction false} ParseShown(e: Expr, context: nat, n: nat, rest: seq<Token>)
    requires 1 <= n <= Shown(e, context) && Stops(n, rest)
    ensures Parse(n, Print(e, context) + rest) == Parsed(Regroup(e), rest)
    decreases e, 5
  {
    hide Regroup, Inner, Parse;
    if context > Level(e) && !IsAtom(e) {
      var toks := Print(e, context) + rest;
      var tail := [Close] + rest;
      assert toks == [Open] + (Inner(e) + tail);
      ParseInner(e, 1, tail);
      ParenthesesParse(Inner(e) + tail, Regroup(e), rest);
      Descend(n, 13, toks, Regroup(e), rest);
    } else {
      ParseInner(e, n, rest);
    }
  }

  lemma ParenthesesParse(toks: seq<Token>, e: Expr, rest: seq<Token>)
    requires Parse(1, toks) == Parsed(e, [Close] + rest)
    ensures Parse(13, [Open] + toks) == Parsed(e, rest)
  {
    assert ([Open] + toks)[1..] == toks;
    assert ([Close] + rest)[1..] == rest;
  }

  lemma {:induction false} ParseInner(e: Expr, n: nat, rest: seq<Token>)
    requires 1 <= n <= ReadLevel(e) && Stops(n, rest)
    ensures Parse(n, Inner(e) + rest) == Parsed(Regroup(e), rest)
    decreases e, 4
  {
    hide Parse, Regroup;
    InnerStarts(e, rest);
    ParseAtLevel(e, rest);
    Descend(n, ReadLevel(e), Inner(e) + rest, Regroup(e), rest);
  }

  /** At the level of its own operator. */
  lemma {:induction false} ParseAtLevel(e: Expr, rest: seq<Token>)
    requires Stops(ReadLevel(e), rest)
    ensures Parse(ReadLevel(e), Inner(e) + rest) == Parsed(Regroup(e), rest)
    decreases e, 3
  {
    match e
    case Atom(name) =>
      assert (Inner(e) + rest)[1..] == rest;
    case Int(_, _, _) =>
      ParseLiteral(e, rest);
    case Unary(op, x) =>
      ParseShown(x, UnaryLevel(op), UnaryLevel(op), rest);
      assert (Inner(e) + rest)[1..] == Print(x, UnaryLevel(op)) + rest;
    case Binary(op, l, r) =>
      ParseBinary(e, rest);
    case Compare(op, l, r, c) =>
      ParseCompare(e, rest);
  }

  lemma LiteralParses(digits: Literal, rest: seq<Token>)
    ensures Parse(13, [Integer(digits)] + rest) == Parsed(Int(false, digits, ""), rest)
  {
    assert ([Integer(digits)] + rest)[1..] == rest;
  }

  lemma ParseLiteral(e: Expr, rest: seq<Token>)
    requires e.Int? && Stops(ReadLevel(e), rest)
    ensures Parse(ReadLevel(e), Inner(e) + rest) == Parsed(Regroup(e), rest)
  {
    hide Parse;
    var toks := [Integer(e.digits)] + rest;
    LiteralParses(e.digits, rest);
    if e.negative {
      Descend(11, 13, toks, Int(false, e.digits, ""), rest);
      NegativeInner(e);
      assert Inner(e) + rest == [Op(Minus)] + toks;
      SignParses(Minus, toks);
    } else {
      assert Inner(e) == [Integer(e.digits)];
    }
  }

  lemma SignParses(op: UnaryOp, toks: seq<Token>)
    requires op != Not && Parse(11, toks).Parsed?
    ensures Parse(11, [Op(op)] + toks) == Parsed(UnaryNode(op, Parse(11, toks).e), Parse(11, toks).rest)
  {
    hide UnaryNode;
    assert ([Op(op)] + toks)[1..] == toks;
  }

  lemma {:induction false} ParseBinary(e: Expr, rest: seq<Token>)
    requires e.Binary? && Stops(ReadLevel(e), rest)
    ensures Parse(ReadLevel(e), Inner(e) + rest) == Parsed(Regroup(e), rest)
    decreases e, 2
  {
    hide Parse, Inner, Print, Absorb, Graft;
    var op, l, r := e.bop, e.left, e.right;
    var n := BinaryLevel(op);
    InnerBinary(e, rest);
    if LeftAssociative(op) {
      var more := [Op(op)] + Print(r, n) + rest;
      LeftChain(l, n, more);
      LoopChain(Regroup(l), op, r, rest);
    } else {
      ParseShown(r, n, ChainLevel(op), rest);
      RightChain(l, op, Print(r, n) + rest);
    }
  }

  lemma InnerBinary(e: Expr, rest: seq<Token>)
    requires e.Binary?
    ensures var n := BinaryLevel(e.bop);
      && Inner(e) + rest == Print(e.left, n) + ([Op(e.bop)] + (Print(e.right, n) + rest))
      && [Op(e.bop)] + (Print(e.right, n) + rest) == [Op(e.bop)] + Print(e.right, n) + rest
  {
  }

  /** The left operand of a left-associative operator. */
  lemma {:induction false} LeftChain(x: Expr, n: nat, rest: seq<Token>)
    requires 5 <= n <= 10 && Stops(n + 1, rest)
    ensures Parse(n, Print(x, n) + rest) == Loop(n, Regroup(x), rest)
    decreases x, 6
  {
    hide Inner, Absorb, Graft;
    if Shown(x, n) > n {
      ParseShown(x, n, n + 1, rest);
    } else {
      var op := x.bop;
      assert Print(x, n) == Inner(x);
      InnerBinary(x, rest);
      var more := [Op(op)] + Print(x.right, n) + rest;
      LeftChain(x.left, n, more);
      LoopChain(Regroup(x.left), op, x.right, rest);
    }
  }

  /** The operands after the first one, taken up by the loop. */
  lemma {:induction false} LoopChain(acc: Expr, op: BinaryOp, r: Expr, rest: seq<Token>)
    requires LeftAssociative(op) && Stops(BinaryLevel(op) + 1, rest)
    ensures var n := BinaryLevel(op);
      Loop(n, acc, [Op(op)] + Print(r, n) + rest) == Loop(n, Absorb(acc, op, r), rest)
    decreases r, 6
  {
    hide Inner, Graft, Parse, Operators;
    var n := BinaryLevel(op);
    var toks := [Op(op)] + Print(r, n) + rest;
    assert toks[1..] == Print(r, n) + rest && Continues(toks) == n;
    if Shown(r, n) > n {
      ParseShown(r, n, n + 1, rest);
      assert !(r.Binary? && BinaryLevel(r.bop) == n);
    } else {
      var op2 := r.bop;
      assert Print(r, n) == Inner(r);
      InnerBinary(r, rest);
      var more := [Op(op2)] + Print(r.right, n) + rest;
      assert toks == [Op(op)] + Print(r.left, n) + more;
      LoopChain(acc, op, r.left, more);
      LoopChain(Absorb(acc, op, r.left), op2, r.right, rest);
    }
  }

  /** The level at which an operand and a chain of a right-associative operator are read. */
  function ChainLevel(op: BinaryOp): (n: nat)
    ensures 1 <= n <= 13
  {
    if op == Power then 11 else BinaryLevel(op)
  }

  /** The left operand of a right-associative operator. */
  lemma {:induction false} RightChain(l: Expr, op: BinaryOp, toks: seq<Token>)
    requires !LeftAssociative(op)
    requires Parse(ChainLevel(op), toks).Parsed?
    ensures var tail := Parse(ChainLevel(op), toks);
      Parse(ChainLevel(op), Print(l, BinaryLevel(op)) + ([Op(op)] + toks)) == Parsed(Graft(l, op, tail.e), tail.rest)
    decreases l, 6
  {
    hide Inner, Print, Absorb, Regroup, Parse, StartsAt;
    var n := BinaryLevel(op);
    var tail := [Op(op)] + toks;
    if NegativeBase(l, op) {
      NegativeChain(l, toks);
    } else if Shown(l, n) > n {
      ParseShown(l, n, n + 1, tail);
      PrintStarts(l, n, tail);
      OperatorParses(op, Print(l, n) + tail, Regroup(l), toks);
    } else {
      ChainIs(l, n);
      InnerBinary(l, tail);
      RightChain(l.right, op, toks);
      RightChain(l.left, op, Print(l.right, n) + tail);
    }
  }

  lemma ChainIs(l: Expr, n: nat)
    requires n == 1 || n == 2 || (n == 12 && !NegativeBase(l, Power))
    requires Shown(l, n) <= n
    ensures Print(l, n) == Inner(l) && l.Binary? && BinaryLevel(l.bop) == n
  {
  }

  lemma NegativeChain(l: Expr, toks: seq<Token>)
    requires NegativeBase(l, Power) && Parse(11, toks).Parsed?
    ensures Parse(11, Print(l, 12) + ([Op(Power)] + toks)) == Parsed(Graft(l, Power, Parse(11, toks).e), Parse(11, toks).rest)
  {
    hide Parse;
    var tail := [Op(Power)] + toks;
    var base := [Integer(l.digits)] + tail;
    LiteralParses(l.digits, tail);
    OperatorParses(Power, base, Int(false, l.digits, ""), toks);
    NegativeInner(l);
    assert Print(l, 12) + tail == [Op(Minus)] + base;
    SignParses(Minus, base);
  }

  lemma NegativeInner(e: Expr)
    requires e.Int? && e.negative
    ensures Inner(e) == [Op(Minus), Integer(e.digits)]
  {
  }

  /** A first operand, a right-associative operator and what follows it. */
  lemma OperatorParses(op: BinaryOp, base: seq<Token>, l: Expr, toks: seq<Token>)
    requires !LeftAssociative(op) && Parse(BinaryLevel(op) + 1, base) == Parsed(l, [Op(op)] + toks)
    requires op == Power ==> StartsAt(13, base)
    requires Parse(ChainLevel(op), toks).Parsed?
    ensures var tail := Parse(ChainLevel(op), toks);
      Parse(ChainLevel(op), base) == Parsed(Binary(op, l, tail.e), tail.rest)
  {
    hide UnaryNode;
    var tail := [Op(op)] + toks;
    assert tail[1..] == toks;
    if op == Power {
      assert Parse(11, base) == Parse(12, base);
    }
  }

  // ----- Comparisons -----

  lemma CmpTokensParse(op: CmpOp, toks: seq<Token>)
    requires StartsAt(4, toks)
    ensures Continues(CmpTokens(op) + toks) == 4
    ensures ParseCmpOp(CmpTokens(op) + toks) == CmpParsed(op, toks)
  {
    var all := CmpTokens(op) + toks;
    if |CmpTokens(op)| == 1 {
      assert all[1..] == toks;
    } else {
      assert all[2..] == toks;
    }
  }

  /** One comparison and what follows it. */
  lemma {:induction false} LinkChain(op: CmpOp, x: Expr, rest: seq<Token>)
    requires Stops(5, rest) && ParseCascade(rest).CascadeParsed?
    ensures ParseCascade(CmpTokens(op) + (Print(x, 4) + rest))
         == CascadeParsed(Link(op, x, ParseCascade(rest).c), ParseCascade(rest).rest)
    decreases x, 6
  {
    hide Inner, Parse, Regroup;
    var toks := Print(x, 4) + rest;
    PrintStarts(x, 4, rest);
    if Shown(x, 4) > 4 {
      CmpTokensParse(op, toks);
      ParseShown(x, 4, 5, rest);
    } else {
      InnerCompare(x, rest);
      assert Print(x, 4) == Inner(x);
      LinkChain(x.cop, x.second, rest);
      LinkChain(op, x.first, CmpTokens(x.cop) + (Print(x.second, 4) + rest));
    }
  }

  lemma InnerCompare(e: Expr, rest: seq<Token>)
    requires e.Compare?
    ensures Inner(e) + rest == Print(e.first, 4) + (CmpTokens(e.cop) + (Print(e.second, 4) + rest))
    ensures Stops(5, CmpTokens(e.cop) + (Print(e.second, 4) + rest))
  {
    hide Print;
    CmpTokensStop(e.cop, Print(e.second, 4) + rest);
  }

  lemma CmpTokensStop(op: CmpOp, toks: seq<Token>)
    ensures Stops(5, CmpTokens(op) + toks)
  {
    hide Nonterminal;
    assert (CmpTokens(op) + toks)[0] == CmpTokens(op)[0];
    assert CmpTokens(op)[0].sym in Operators(COMPARISON);
    assert Follows(COMPARISON, CmpTokens(op) + toks);
  }

  /** The first operand of a comparison, up to where its own comparisons begin. */
  lemma {:induction false} FirstChain(x: Expr, rest: seq<Token>) returns (more: seq<Token>)
    requires Stops(5, rest) && ParseCascade(rest).CascadeParsed?
    ensures Parse(5, Print(x, 4) + rest) == Parsed(Leftmost(x), more)
    ensures ParseCascade(more) == CascadeParsed(Links(x, ParseCascade(rest).c), ParseCascade(rest).rest)
    decreases x, 6
  {
    hide Inner, Parse, Regroup, ParseCascade, Link;
    if Shown(x, 4) > 4 {
      ParseShown(x, 4, 5, rest);
      more := rest;
    } else {
      InnerCompare(x, rest);
      assert Print(x, 4) == Inner(x);
      LinkChain(x.cop, x.second, rest);
      more := FirstChain(x.first, CmpTokens(x.cop) + (Print(x.second, 4) + rest));
    }
  }

  lemma {:induction false} LinksNonEmpty(x: Expr, tail: Cascade)
    requires tail.More?
    ensures Links(x, tail).More?
    decreases x
  {
    if x.Compare? {
      LinkNonEmpty(x.cop, x.second, tail);
      LinksNonEmpty(x.first, Link(x.cop, x.second, tail));
    }
  }

  lemma {:induction false} LinkNonEmpty(op: CmpOp, x: Expr, tail: Cascade)
    ensures Link(op, x, tail).More?
    decreases x
  {
    if x.Compare? {
      LinkNonEmpty(op, x.first, Link(x.cop, x.second, tail));
    }
  }

  lemma {:induction false} ParseCompare(e: Expr, rest: seq<Token>)
    requires e.Compare? && Stops(4, rest)
    ensures Parse(4, Inner(e) + rest) == Parsed(Regroup(e), rest)
    decreases e, 2
  {
    hide Inner, Print, Link, Links, Leftmost, CmpTokens;
    var op, l, r := e.cop, e.first, e.second;
    InnerCompare(e, rest);
    LinkChain(op, r, rest);
    var tail := CmpTokens(op) + (Print(r, 4) + rest);
    var more := FirstChain(l, tail);
    LinkNonEmpty(op, r, End);
    LinksNonEmpty(l, Link(op, r, End));
  }

  /** The text of every expression denotes its regrouped tree. */
  lemma ParsePrinted(e: Expr)
    ensures ParseAll(Print(e, 0)) == Parsed(Regroup(e), [])
  {
    ParseShown(e, 0, 1, []);
    assert Print(e, 0) + [] == Print(e, 0);
  }

  // ----- Faithful trees -----

  predicate SameLevel(x: Expr, op: BinaryOp) {
    x.Binary? && BinaryLevel(x.bop) == BinaryLevel(op)
  }

  /** Operands of the same level only on the side to which the operator associates, none for comparisons,
      and no chained comparison; literals without suffix, negative ones in plain decimal form and not to the left of a
      power, and no minus sign on a literal. */
  predicate Faithful(e: Expr) {
    match e
    case Atom(_) => true
    case Int(negative, digits, suffix) => suffix == "" && (negative ==> Plain(digits))
    case Unary(op, x) => Faithful(x) && !(op == Minus && x.Int?)
    case Binary(op, l, r) =>
      Faithful(l) && Faithful(r) && !SameLevel(if LeftAssociative(op) then r else l, op) && !NegativeBase(l, op)
    case Compare(_, l, r, c) => Faithful(l) && Faithful(r) && !l.Compare? && !r.Compare? && c.End?
  }

  /** Dissolving leaves no operand of the same level on the wrong side. */
  lemma {:induction false} AbsorbShape(acc: Expr, op: BinaryOp, r: Expr)
    ensures var b := Absorb(acc, op, r);
      b.Binary? && BinaryLevel(b.bop) == BinaryLevel(op) && !SameLevel(b.right, op)
    decreases r, 1
  {
    if SameLevel(r, op) {
      AbsorbShape(Absorb(acc, op, r.left), r.bop, r.right);
    } else {
      RegroupLevel(r);
    }
  }

  lemma {:induction false} GraftShape(l: Expr, op: BinaryOp, tail: Expr)
    ensures var b := Graft(l, op, tail);
      b.Unary? || (b.Binary? && BinaryLevel(b.bop) == BinaryLevel(op) && !SameLevel(b.left, op))
    decreases l, 1
  {
    if SameLevel(l, op) {
      GraftShape(l.left, l.bop, Graft(l.right, op, tail));
    } else {
      RegroupLevel(l);
    }
  }

  /** Regrouping keeps the kind and the level of a tree, except that a power may become a negated one. */
  lemma {:induction false} RegroupLevel(e: Expr)
    ensures Regroup(e).Binary? ==> e.Binary? && BinaryLevel(Regroup(e).bop) == BinaryLevel(e.bop)
    ensures Regroup(e).Compare? <==> e.Compare?
    decreases e, 0
  {
    if e.Binary? {
      if LeftAssociative(e.bop) {
        AbsorbShape(Regroup(e.left), e.bop, e.right);
      } else {
        GraftShape(e.left, e.bop, Regroup(e.right));
      }
    }
  }

  lemma {:induction false} LeftmostShape(x: Expr)
    ensures !Leftmost(x).Compare?
    decreases x
  {
    if x.Compare? {
      LeftmostShape(x.first);
    } else {
      RegroupLevel(x);
    }
  }

  /** A link is a single comparison exactly when its operand is no comparison. */
  lemma LinkShape(op: CmpOp, x: Expr)
    ensures var c := Link(op, x, End);
      c.More? && !c.operand.Compare? && (c.next.End? <==> !x.Compare?)
    ensures !x.Compare? ==> Link(op, x, End) == More(op, Regroup(x), End)
  {
    LinkOperand(op, x, End);
  }

  lemma {:induction false} LinkOperand(op: CmpOp, x: Expr, tail: Cascade)
    ensures var c := Link(op, x, tail);
      c.More? && !c.operand.Compare? && (x.Compare? ==> c.next.More?)
    decreases x
  {
    if x.Compare? {
      LinkOperand(x.cop, x.second, tail);
      LinkOperand(op, x.first, Link(x.cop, x.second, tail));
    } else {
      RegroupLevel(x);
    }
  }

  lemma {:induction false} LinksOperand(x: Expr, tail: Cascade)
    requires tail.More? && !tail.operand.Compare?
    ensures var c := Links(x, tail);
      c.More? && !c.operand.Compare? && (x.Compare? ==> c.next.More?)
    decreases x
  {
    if x.Compare? {
      LinkOperand(x.cop, x.second, tail);
      LinkLonger(x.cop, x.second, tail);
      LinksOperand(x.first, Link(x.cop, x.second, tail));
      LinksLonger(x.first, Link(x.cop, x.second, tail));
    }
  }

  lemma {:induction false} LinksLonger(x: Expr, tail: Cascade)
    requires tail.More? && tail.next.More?
    ensures Links(x, tail).More? && Links(x, tail).next.More?
    decreases x
  {
    if x.Compare? {
      LinkLonger(x.cop, x.second, tail);
      LinksLonger(x.first, Link(x.cop, x.second, tail));
    }
  }

  lemma {:induction false} LinkLonger(op: CmpOp, x: Expr, tail: Cascade)
    requires tail.More?
    ensures Link(op, x, tail).More? && Link(op, x, tail).next.More?
    decreases x
  {
    if x.Compare? {
      LinkLonger(x.cop, x.second, tail);
      LinkLonger(op, x.first, Link(x.cop, x.second, tail));
    }
  }

  /** A tree survives regrouping exactly when it is faithful. */
  lemma {:induction false} RegroupFixed(e: Expr)
    ensures Regroup(e) == e <==> Faithful(e)
    decreases e
  {
    match e
    case Atom(_) =>
    case Int(_, digits, _) =>
      PlainExactly(digits);
    case Unary(_, x) => RegroupFixed(x);
    case Binary(op, l, r) =>
      RegroupFixed(l);
      RegroupFixed(r);
      if LeftAssociative(op) {
        AbsorbShape(Regroup(l), op, r);
      } else {
        GraftShape(l, op, Regroup(r));
      }
    case Compare(op, l, r, c) =>
      RegroupFixed(l);
      RegroupFixed(r);
      LinkShape(op, r);
      LinksOperand(l, Link(op, r, End));
      LeftmostShape(l);
  }

  /** Printing and parsing gives back the same tree exactly for the faithful trees. */
  lemma RoundTrip(e: Expr)
    ensures ParseAll(Print(e, 0)) == Parsed(e, []) <==> Faithful(e)
  {
    ParsePrinted(e);
    RegroupFixed(e);
  }

  /** The number of a literal. */
  function IntValue(e: Expr): int
    requires e.Int?
  {
    var n: int := NumberOf(e.digits);
    if e.negative then -n else n
  }

  /** Taking a sign into a literal keeps the value. */
  lemma NegatedValue(e: Expr)
    requires e.Int?
    ensures IntValue(Negated(e)) == -IntValue(e)
  {
    DigitsAreLiteral(NumberOf(e.digits));
  }

  /** A negative literal as the base of a power comes back as a negated power, and a negated literal as a literal. */
  lemma SignsAreLost()
    ensures var one, two := Int(false, "1", ""), Int(false, "2", "");
      && ParseAll(Print(Binary(Power, Int(true, "1", ""), two), 0)) == Parsed(Unary(Minus, Binary(Power, one, two)), [])
      && ParseAll(Print(Unary(Minus, one), 0)) == Parsed(Int(true, "1", ""), [])
  {
    var one, two := Int(false, "1", ""), Int(false, "2", "");
    ParsePrinted(Binary(Power, Int(true, "1", ""), two));
    ParsePrinted(Unary(Minus, one));
    PlainExactly("1");
    assert Digits(1) == "1" && ValueIn("1"[..0], 10) == 0;
  }
}
