/** The expression writer of Cython/CodeWriter.py as an object with a result text and a stack of
    precedences, and the way from its text back to tokens. */
module ExpressionText {
  import opened IntegerLiterals
  import opened ExpressionSyntax
  import opened ExpressionRoundTrip

  function SymText(s: Sym): string {
    match s
    case Or => "or"
    case And => "and"
    case Not => "not"
    case In => "in"
    case Is => "is"
    case Lt => "<"
    case Le => "<="
    case Gt => ">"
    case Ge => ">="
    case Ne => "!="
    case Equal => "=="
    case BitOr => "|"
    case BitXor => "^"
    case BitAnd => "&"
    case Shl => "<<"
    case Shr => ">>"
    case Plus => "+"
    case Minus => "-"
    case Times => "*"
    case MatMul => "@"
    case Slash => "/"
    case FloorDiv => "//"
    case Percent => "%"
    case Power => "**"
    case Tilde => "~"
  }

  /** The operator names `not_in` and `is_not` with their underscore replaced. */
  function CmpText(op: CmpOp): string {
    match op
    case InOp => "in"
    case NotInOp => "not in"
    case IsOp => "is"
    case IsNotOp => "is not"
    case LtOp => "<"
    case LeOp => "<="
    case GtOp => ">"
    case GeOp => ">="
    case NeOp => "!="
    case EqualOp => "=="
  }

  function Spaced(s: string): string {
    " " + s + " "
  }

  function InnerText(e: Expr): string
    decreases e, 0
  {
    match e
    case Atom(name) => name
    case Int(negative, digits, _) => (if negative then "-" else "") + digits
    case Unary(op, x) => SymText(op) + (if op == Not then " " else "") + Text(x, UnaryLevel(op))
    case Binary(op, l, r) => Text(l, BinaryLevel(op)) + Spaced(SymText(op)) + Text(r, BinaryLevel(op))
    case Compare(op, l, r, _) => Text(l, 4) + Spaced(CmpText(op)) + Text(r, 4)
  }

  function Text(e: Expr, context: nat): string
    decreases e, 1
  {
    if context > Level(e) && !IsAtom(e) then "(" + InnerText(e) + ")" else InnerText(e)
  }

  /** What the visitors below have written when the operator is left again. */
  lemma Wrapped(e: Expr, context: nat, r: string)
    requires !IsAtom(e)
    ensures r + Text(e, context) ==
            r + (if context > Level(e) then "(" else "") + InnerText(e) + (if context > Level(e) then ")" else "")
  {
    Join4(r, if context > Level(e) then "(" else "", InnerText(e), "", if context > Level(e) then ")" else "");
    assert InnerText(e) + "" == InnerText(e);
  }

  lemma UnaryInner(op: UnaryOp, x: Expr, r: string)
    ensures r + InnerText(Unary(op, x)) == r + SymText(op) + (if op == Not then " " else "") + Text(x, UnaryLevel(op))
  {
  }

  lemma BinaryInner(op: BinaryOp, x: Expr, y: Expr, r: string)
    ensures r + InnerText(Binary(op, x, y)) ==
            r + Text(x, BinaryLevel(op)) + Spaced(SymText(op)) + Text(y, BinaryLevel(op))
  {
  }

  lemma CompareInner(op: CmpOp, x: Expr, y: Expr, more: Cascade, r: string)
    ensures r + InnerText(Compare(op, x, y, more)) == r + Text(x, 4) + Spaced(CmpText(op)) + Text(y, 4)
  {
  }

  lemma Join4(r: string, open: string, a: string, b: string, close: string)
    ensures r + open + a + b + close == r + (open + (a + b) + close)
    ensures open == close == "" ==> open + (a + b) + close == a + b
  {
  }

  // ----- The writer -----

  class ExpressionWriter {
    var result: string
    var precedence: seq<nat>

    constructor ()
      ensures result == "" && precedence == [0]
    {
      result, precedence := "", [0];
    }

    method Put(s: string)
      modifies this`result
      ensures result == old(result) + s
    {
      result := result + s;
    }

    method OperatorEnter(newPrec: nat)
      requires precedence != []
      modifies this
      ensures precedence == old(precedence) + [newPrec]
      ensures result == old(result) + (if old(precedence)[|old(precedence)| - 1] > newPrec then "(" else "")
    {
      var oldPrec := precedence[|precedence| - 1];
      if oldPrec > newPrec {
        Put("(");
      }
      precedence := precedence + [newPrec];
    }

    method OperatorExit()
      requires |precedence| >= 2
      modifies this
      ensures precedence == old(precedence)[..|old(precedence)| - 1]
      ensures result == old(result) + (if old(precedence)[|old(precedence)| - 2] > old(precedence)[|old(precedence)| - 1]
                                       then ")" else "")
    {
      var oldPrec, newPrec := precedence[|precedence| - 2], precedence[|precedence| - 1];
      if oldPrec > newPrec {
        Put(")");
      }
      precedence := precedence[..|precedence| - 1];
    }

    /** Appends the text of the expression in the current context; the precedence stack is restored. */
    method Visit(e: Expr)
      requires precedence != []
      modifies this
      ensures precedence == old(precedence)
      ensures result == old(result) + Text(e, precedence[|precedence| - 1])
      decreases e, 1
    {
      match e
      case Atom(name) => Put(name);
      case Int(_, _, _) => VisitIntNode(e);
      case Unary(op, x) => if op == Not { VisitNotNode(e); } else { VisitUnopNode(e); }
      case Binary(_, _, _) => VisitBinopNode(e);
      case Compare(_, _, _, _) => VisitPrimaryCmpNode(e);
    }

    /** The value of a literal, with its sign and without its suffix. */
    method VisitIntNode(e: Expr)
      requires precedence != [] && e.Int?
      modifies this`result
      ensures result == old(result) + Text(e, precedence[|precedence| - 1])
      decreases e, 0
    {
      var value := (if e.negative then "-" else "") + e.digits;
      Put(value);
    }

    method VisitNotNode(e: Expr)
      requires precedence != [] && e.Unary? && e.op == Not
      modifies this
      ensures precedence == old(precedence)
      ensures result == old(result) + Text(e, precedence[|precedence| - 1])
      decreases e, 0
    {
      hide Text, InnerText;
      ghost var before, context := precedence, precedence[|precedence| - 1];
      OperatorEnter(3);
      UnaryInner(Not, e.operand, result);
      assert result + "not" + " " == result + "not ";
      Put("not ");
      Visit(e.operand);
      OperatorExit();
      assert precedence == before;
      Wrapped(e, context, old(result));
    }

    method VisitUnopNode(e: Expr)
      requires precedence != [] && e.Unary? && e.op != Not
      modifies this
      ensures precedence == old(precedence)
      ensures result == old(result) + Text(e, precedence[|precedence| - 1])
      decreases e, 0
    {
      hide Text, InnerText;
      ghost var before, context := precedence, precedence[|precedence| - 1];
      var prec := UnaryLevel(e.op);
      OperatorEnter(prec);
      UnaryInner(e.op, e.operand, result);
      assert result + SymText(e.op) + "" == result + SymText(e.op);
      Put(SymText(e.op));
      Visit(e.operand);
      OperatorExit();
      assert precedence == before;
      Wrapped(e, context, old(result));
    }

    method VisitBinopNode(e: Expr)
      requires precedence != [] && e.Binary?
      modifies this
      ensures precedence == old(precedence)
      ensures result == old(result) + Text(e, precedence[|precedence| - 1])
      decreases e, 0
    {
      hide Text, InnerText;
      ghost var before, context := precedence, precedence[|precedence| - 1];
      var prec := BinaryLevel(e.bop);
      OperatorEnter(prec);
      BinaryInner(e.bop, e.left, e.right, result);
      Visit(e.left);
      Put(Spaced(SymText(e.bop)));
      Visit(e.right);
      OperatorExit();
      assert precedence == before;
      Wrapped(e, context, old(result));
    }

    /** Comparisons are written like any other binary operator; what is chained to them is not. */
    method VisitPrimaryCmpNode(e: Expr)
      requires precedence != [] && e.Compare?
      modifies this
      ensures precedence == old(precedence)
      ensures result == old(result) + Text(e, precedence[|precedence| - 1])
      decreases e, 0
    {
      hide Text, InnerText;
      ghost var before, context := precedence, precedence[|precedence| - 1];
      OperatorEnter(4);
      CompareInner(e.cop, e.first, e.second, e.cascade, result);
      Visit(e.first);
      Put(Spaced(CmpText(e.cop)));
      Visit(e.second);
      OperatorExit();
      assert precedence == before;
      Wrapped(e, context, old(result));
    }

    method Write(tree: Expr) returns (s: string)
      requires precedence == [0]
      modifies this
      ensures s == result == old(result) + Text(tree, 0) && precedence == [0]
    {
      Visit(tree);
      s := result;
    }
  }

  // ----- From text back to tokens -----

  predicate IsWordChar(c: char) {
    'a' <= c <= 'z' || 'A' <= c <= 'Z' || '0' <= c <= '9' || c == '_'
  }

  function WordLength(s: string): (n: nat)
    ensures n <= |s| && (s != "" && IsWordChar(s[0]) ==> n > 0)
  {
    if s == "" || !IsWordChar(s[0]) then 0 else 1 + WordLength(s[1..])
  }

  function WordToken(w: string): Token {
    if w == "or" then Op(Or)
    else if w == "and" then Op(And)
    else if w == "not" then Op(Not)
    else if w == "in" then Op(In)
    else if w == "is" then Op(Is)
    else if IsLiteral(w) then Integer(w)
    else Name(w)
  }

  datatype SymResult = SymFound(tok: Token, length: nat) | NoSym

  predicate Starts(s: string, a: char, b: char) {
    |s| >= 2 && s[0] == a && s[1] == b
  }

  /** The longest symbol at the start of the text. */
  function SymbolAt(s: string): (r: SymResult)
    requires s != ""
    ensures r.SymFound? ==> 0 < r.length <= |s|
  {
    if Starts(s, '<', '=') then SymFound(Op(Le), 2)
    else if Starts(s, '>', '=') then SymFound(Op(Ge), 2)
    else if Starts(s, '!', '=') then SymFound(Op(Ne), 2)
    else if Starts(s, '=', '=') then SymFound(Op(Equal), 2)
    else if Starts(s, '<', '<') then SymFound(Op(Shl), 2)
    else if Starts(s, '>', '>') then SymFound(Op(Shr), 2)
    else if Starts(s, '/', '/') then SymFound(Op(FloorDiv), 2)
    else if Starts(s, '*', '*') then SymFound(Op(Power), 2)
    else
      match s[0]
      case '(' => SymFound(Open, 1)
      case ')' => SymFound(Close, 1)
      case '<' => SymFound(Op(Lt), 1)
      case '>' => SymFound(Op(Gt), 1)
      case '|' => SymFound(Op(BitOr), 1)
      case '^' => SymFound(Op(BitXor), 1)
      case '&' => SymFound(Op(BitAnd), 1)
      case '+' => SymFound(Op(Plus), 1)
      case '-' => SymFound(Op(Minus), 1)
      case '*' => SymFound(Op(Times), 1)
      case '@' => SymFound(Op(MatMul), 1)
      case '/' => SymFound(Op(Slash), 1)
      case '%' => SymFound(Op(Percent), 1)
      case '~' => SymFound(Op(Tilde), 1)
      case _ => NoSym
  }

  datatype Lexed = Tokens(toks: seq<Token>) | LexError

  function Before(toks: seq<Token>, r: Lexed): Lexed {
    match r
    case LexError => LexError
    case Tokens(more) => Tokens(toks + more)
  }

  function Lex(s: string): Lexed
    decreases |s|
  {
    if s == "" then Tokens([])
    else if s[0] == ' ' then Lex(s[1..])
    else if IsWordChar(s[0]) then
      var w := s[..WordLength(s)];
      if '0' <= s[0] <= '9' && !IsLiteral(w) then LexError else Before([WordToken(w)], Lex(s[WordLength(s)..]))
    else
      match SymbolAt(s)
      case NoSym => LexError
      case SymFound(tok, n) => Before([tok], Lex(s[n..]))
  }

  /** What may follow a word or a whole expression. */
  predicate Boundary(rest: string) {
    rest == "" || rest[0] == ' ' || rest[0] == ')'
  }

  predicate IsWord(w: string) {
    w != "" && forall i :: 0 <= i < |w| ==> IsWordChar(w[i])
  }

  /** Names are words, do not begin with a digit and are no keywords. */
  predicate NamesOk(e: Expr) {
    match e
    case Atom(name) => IsWord(name) && !('0' <= name[0] <= '9') && WordToken(name) == Name(name)
    case Int(_, _, _) => true
    case Unary(_, x) => NamesOk(x)
    case Binary(_, l, r) => NamesOk(l) && NamesOk(r)
    case Compare(_, l, r, _) => NamesOk(l) && NamesOk(r)
  }

  lemma {:induction false} WordLengthIs(w: string, rest: string)
    requires (forall i :: 0 <= i < |w| ==> IsWordChar(w[i])) && Boundary(rest)
    ensures WordLength(w + rest) == |w|
  {
    if w == "" {
      assert w + rest == rest;
    } else {
      assert (w + rest)[1..] == w[1..] + rest;
      WordLengthIs(w[1..], rest);
    }
  }

  lemma LexWord(w: string, rest: string)
    requires IsWord(w) && Boundary(rest) && ('0' <= w[0] <= '9' ==> IsLiteral(w))
    ensures Lex(w + rest) == Before([WordToken(w)], Lex(rest))
  {
    var s := w + rest;
    WordLengthIs(w, rest);
    assert s[0] == w[0] && s[..|w|] == w && s[|w|..] == rest;
  }

  /** Integer literals are words. */
  lemma LiteralIsWord(w: Literal)
    ensures IsWord(w) && '0' <= w[0] <= '9' && WordToken(w) == Integer(w)
  {
    forall i | 0 <= i < |w|
      ensures IsWordChar(w[i])
    {
      if HasPrefix(w) && i >= 2 {
        assert w[2..][i - 2] == w[i];
        assert DigitValue(w[i]) < 16;
      }
    }
  }

  lemma LexLiteral(e: Expr, rest: string)
    requires e.Int? && Boundary(rest)
    ensures Lex(InnerText(e) + rest) == Before(Inner(e), Lex(rest))
  {
    hide Lex;
    LiteralIsWord(e.digits);
    LexWord(e.digits, rest);
    if e.negative {
      assert InnerText(e) + rest == SymText(Minus) + (e.digits + rest);
      LexSign(Minus, e.digits + rest);
      BeforeTwice([Op(Minus)], [Integer(e.digits)], Lex(rest));
    } else {
      assert InnerText(e) == e.digits && Inner(e) == [Integer(e.digits)];
    }
  }

  lemma LexSpace(rest: string)
    ensures Lex(" " + rest) == Lex(rest)
  {
    assert (" " + rest)[1..] == rest;
  }

  lemma LexSymbol(s: string, rest: string, tok: Token)
    requires s != "" && s[0] != ' ' && !IsWordChar(s[0]) && SymbolAt(s + rest) == SymFound(tok, |s|)
    ensures Lex(s + rest) == Before([tok], Lex(rest))
  {
    assert (s + rest)[|s|..] == rest;
  }

  /** An operator between spaces is its token. */
  lemma LexOperator(s: Sym, rest: string)
    ensures Lex(Spaced(SymText(s)) + rest) == Before([Op(s)], Lex(rest))
  {
    hide Lex;
    var w, more := SymText(s), " " + rest;
    assert Spaced(w) + rest == " " + (w + more);
    LexSpace(w + more);
    LexSpace(rest);
    if IsWordChar(w[0]) {
      LexWord(w, more);
    } else {
      SymbolSpaced(s, more);
      LexSymbol(w, more, Op(s));
    }
  }

  lemma SymbolSpaced(s: Sym, more: string)
    requires more != "" && more[0] == ' ' && !IsWordChar(SymText(s)[0])
    ensures SymbolAt(SymText(s) + more) == SymFound(Op(s), |SymText(s)|)
  {
    var w := SymText(s);
    var t := w + more;
    assert t[0] == w[0] && t[1] == (if |w| == 1 then ' ' else w[1]);
  }

  lemma LexComparison(op: CmpOp, rest: string)
    ensures Lex(Spaced(CmpText(op)) + rest) == Before(CmpTokens(op), Lex(rest))
  {
    hide Lex;
    match op
    case NotInOp =>
      assert CmpText(op) == SymText(Not) + " " + SymText(In);
      LexTwo(Not, In, rest);
    case IsNotOp =>
      assert CmpText(op) == SymText(Is) + " " + SymText(Not);
      LexTwo(Is, Not, rest);
    case InOp => LexOperator(In, rest);
    case IsOp => LexOperator(Is, rest);
    case LtOp => LexOperator(Lt, rest);
    case LeOp => LexOperator(Le, rest);
    case GtOp => LexOperator(Gt, rest);
    case GeOp => LexOperator(Ge, rest);
    case NeOp => LexOperator(Ne, rest);
    case EqualOp => LexOperator(Equal, rest);
  }

  lemma LexTwo(a: Sym, b: Sym, rest: string)
    requires IsWord(SymText(a)) && WordToken(SymText(a)) == Op(a)
    ensures Lex(Spaced(SymText(a) + " " + SymText(b)) + rest) == Before([Op(a), Op(b)], Lex(rest))
  {
    hide Lex;
    var more := Spaced(SymText(b)) + rest;
    assert Spaced(SymText(a) + " " + SymText(b)) + rest == " " + (SymText(a) + more);
    LexSpace(SymText(a) + more);
    LexWord(SymText(a), more);
    LexOperator(b, rest);
    assert [Op(a)] + [Op(b)] == [Op(a), Op(b)];
    BeforeTwice([Op(a)], [Op(b)], Lex(rest));
  }

  lemma BeforeTwice(a: seq<Token>, b: seq<Token>, r: Lexed)
    ensures Before(a, Before(b, r)) == Before(a + b, r)
  {
    if r.Tokens? {
      assert a + (b + r.toks) == a + b + r.toks;
    }
  }

  lemma LexSign(op: UnaryOp, rest: string)
    requires op != Not
    ensures Lex(SymText(op) + rest) == Before([Op(op)], Lex(rest))
  {
    LexSymbol(SymText(op), rest, Op(op));
  }

  /** The text of an expression is read as its tokens. */
  lemma {:induction false} LexText(e: Expr, context: nat, rest: string)
    requires NamesOk(e) && Boundary(rest)
    ensures Lex(Text(e, context) + rest) == Before(Print(e, context), Lex(rest))
    decreases e, 1
  {
    hide Lex, Inner, InnerText;
    if context > Level(e) && !IsAtom(e) {
      var more := ")" + rest;
      LexInner(e, more);
      LexSymbol(")", rest, Close);
      LexSymbol("(", InnerText(e) + more, Open);
      assert Text(e, context) + rest == "(" + (InnerText(e) + more);
      BeforeTwice(Inner(e), [Close], Lex(rest));
      BeforeTwice([Open], Inner(e) + [Close], Lex(rest));
      assert [Open] + (Inner(e) + [Close]) == Print(e, context);
    } else {
      LexInner(e, rest);
    }
  }

  lemma {:induction false} LexInner(e: Expr, rest: string)
    requires NamesOk(e) && Boundary(rest)
    ensures Lex(InnerText(e) + rest) == Before(Inner(e), Lex(rest))
    decreases e, 0
  {
    hide Lex, Print, Text;
    match e
    case Atom(name) =>
      LexWord(name, rest);
    case Int(_, _, _) =>
      LexLiteral(e, rest);
    case Unary(op, x) =>
      LexText(x, UnaryLevel(op), rest);
      LexPrefix(op, x, rest);
    case Binary(op, l, r) =>
      var n := BinaryLevel(op);
      LexText(r, n, rest);
      LexText(l, n, Spaced(SymText(op)) + (Text(r, n) + rest));
      LexOperator(op, Text(r, n) + rest);
      LexBetween(Text(l, n), Spaced(SymText(op)), Text(r, n), rest, Print(l, n), [Op(op)], Print(r, n));
    case Compare(op, l, r, _) =>
      LexText(r, 4, rest);
      LexText(l, 4, Spaced(CmpText(op)) + (Text(r, 4) + rest));
      LexComparison(op, Text(r, 4) + rest);
      LexBetween(Text(l, 4), Spaced(CmpText(op)), Text(r, 4), rest, Print(l, 4), CmpTokens(op), Print(r, 4));
  }

  lemma LexPrefix(op: UnaryOp, x: Expr, rest: string)
    requires Lex(Text(x, UnaryLevel(op)) + rest) == Before(Print(x, UnaryLevel(op)), Lex(rest))
    ensures Lex(InnerText(Unary(op, x)) + rest) == Before(Inner(Unary(op, x)), Lex(rest))
  {
    hide Lex, Print, Text;
    var more := Text(x, UnaryLevel(op)) + rest;
    if op == Not {
      assert InnerText(Unary(op, x)) + rest == "not" + (" " + more);
      LexWord("not", " " + more);
      LexSpace(more);
    } else {
      assert InnerText(Unary(op, x)) + rest == SymText(op) + more;
      LexSign(op, more);
    }
    BeforeTwice([Op(op)], Print(x, UnaryLevel(op)), Lex(rest));
  }

  lemma LexBetween(l: string, op: string, r: string, rest: string, a: seq<Token>, b: seq<Token>, c: seq<Token>)
    requires Lex(l + (op + (r + rest))) == Before(a, Lex(op + (r + rest)))
    requires Lex(op + (r + rest)) == Before(b, Lex(r + rest))
    requires Lex(r + rest) == Before(c, Lex(rest))
    ensures Lex(l + op + r + rest) == Before(a + b + c, Lex(rest))
  {
    hide Lex, Before;
    assert l + op + r + rest == l + (op + (r + rest));
    BeforeTwice(b, c, Lex(rest));
    BeforeTwice(a, b + c, Lex(rest));
    assert a + (b + c) == a + b + c;
  }

  /** Reading the written text: the lexer and the parser give back the tree exactly when it is faithful,
      and its regrouped form always. */
  lemma WrittenText(e: Expr)
    requires NamesOk(e)
    ensures Lex(Text(e, 0)) == Tokens(Print(e, 0))
    ensures ParseAll(Print(e, 0)) == Parsed(Regroup(e), [])
    ensures Regroup(e) == e <==> Faithful(e)
  {
    LexText(e, 0, "");
    assert Text(e, 0) + "" == Text(e, 0) && Print(e, 0) + [] == Print(e, 0);
    ParsePrinted(e);
    RegroupFixed(e);
  }

  datatype Depth = AtDepth(d: nat) | Unbalanced

  /** The depth after some tokens; a closing parenthesis needs an open one. */
  function Scan(toks: seq<Token>, d: nat): Depth {
    if toks == [] then AtDepth(d)
    else if toks[0] == Open then Scan(toks[1..], d + 1)
    else if toks[0] == Close then (if d == 0 then Unbalanced else Scan(toks[1..], d - 1))
    else Scan(toks[1..], d)
  }

  lemma ScanNeutral(t: Token, rest: seq<Token>, d: nat)
    ensures t != Open && t != Close ==> Scan([t] + rest, d) == Scan(rest, d)
    ensures Scan([Open] + rest, d) == Scan(rest, d + 1)
    ensures d > 0 ==> Scan([Close] + rest, d) == Scan(rest, d - 1)
  {
    assert ([t] + rest)[1..] == rest && ([Open] + rest)[1..] == rest && ([Close] + rest)[1..] == rest;
  }

  /** The printed parentheses are balanced, at every depth and before everything that may follow. */
  lemma {:induction false} Balanced(e: Expr, context: nat, rest: seq<Token>, d: nat)
    ensures Scan(Print(e, context) + rest, d) == Scan(rest, d)
    decreases e, 1
  {
    hide Scan, Inner;
    if context > Level(e) && !IsAtom(e) {
      assert Print(e, context) + rest == [Open] + (Inner(e) + ([Close] + rest));
      ScanNeutral(Open, Inner(e) + ([Close] + rest), d);
      InnerBalanced(e, [Close] + rest, d + 1);
      ScanNeutral(Close, rest, d + 1);
    } else {
      InnerBalanced(e, rest, d);
    }
  }

  lemma LiteralBalanced(e: Expr, rest: seq<Token>, d: nat)
    requires e.Int?
    ensures Scan(Inner(e) + rest, d) == Scan(rest, d)
  {
    hide Scan;
    ScanNeutral(Integer(e.digits), rest, d);
    if e.negative {
      assert Inner(e) + rest == [Op(Minus)] + ([Integer(e.digits)] + rest);
      ScanNeutral(Op(Minus), [Integer(e.digits)] + rest, d);
    } else {
      assert Inner(e) == [Integer(e.digits)];
    }
  }

  lemma {:induction false} InnerBalanced(e: Expr, rest: seq<Token>, d: nat)
    ensures Scan(Inner(e) + rest, d) == Scan(rest, d)
    decreases e, 0
  {
    hide Scan, Print;
    match e
    case Atom(name) => ScanNeutral(Name(name), rest, d);
    case Int(_, _, _) => LiteralBalanced(e, rest, d);
    case Unary(op, x) =>
      var n := UnaryLevel(op);
      assert Inner(e) + rest == [Op(op)] + (Print(x, n) + rest);
      ScanNeutral(Op(op), Print(x, n) + rest, d);
      Balanced(x, n, rest, d);
    case Binary(op, l, r) =>
      var n := BinaryLevel(op);
      assert Inner(e) + rest == Print(l, n) + ([Op(op)] + (Print(r, n) + rest));
      Balanced(l, n, [Op(op)] + (Print(r, n) + rest), d);
      ScanNeutral(Op(op), Print(r, n) + rest, d);
      Balanced(r, n, rest, d);
    case Compare(op, l, r, _) =>
      var tail := Print(r, 4) + rest;
      assert Inner(e) + rest == Print(l, 4) + (CmpTokens(op) + tail);
      Balanced(l, 4, CmpTokens(op) + tail, d);
      ComparisonNeutral(op, tail, d);
      Balanced(r, 4, rest, d);
  }

  lemma ComparisonNeutral(op: CmpOp, rest: seq<Token>, d: nat)
    ensures Scan(CmpTokens(op) + rest, d) == Scan(rest, d)
  {
    hide Scan;
    var toks := CmpTokens(op);
    if |toks| == 2 {
      assert toks + rest == [toks[0]] + ([toks[1]] + rest);
      ScanNeutral(toks[1], rest, d);
    }
    ScanNeutral(toks[0], if |toks| == 2 then [toks[1]] + rest else rest, d);
  }
}
