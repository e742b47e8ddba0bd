/** An independent account of what string literals and comments are: a lexer that reads the source one token
    character at a time with a stack of contexts.  `StripsWhatIsLexed` says when the literal stripper stores away
    exactly the characters that this lexer finds inside literals and comments; `StripsLoosely`, that it always does
    what the lexer would do if it read prefixes as the stripper does. */
module StripLexer {
  import opened StripTokens
  import opened StripLiterals

  /** In code, which in a replacement field ends at a closing brace; in a string literal. */
  datatype Frame = Code(inFString: bool) | Str(quote: char, triple: bool, isFString: bool)

  predicate Among(i: int, a: int, b: int) {
    a <= i < b
  }

  function Interval(a: int, b: int): (s: set<int>)
    ensures forall i :: i in s <==> a <= i < b
  {
    set i | a <= i < b && Among(i, a, b)
  }

  predicate SameThree(code: string, p: nat, c: char) {
    p + 3 <= |code| && code[p] == c && code[p + 1] == c && code[p + 2] == c
  }

  predicate Closes(code: string, p: nat, quote: char, triple: bool) {
    p < |code| && if triple then SameThree(code, p, quote) else code[p] == quote
  }

  /** One step of the lexer: it goes on at `pos`, and what it leaves behind from `from` on is inside a literal or
      a comment. */
  datatype Step = Skip(pos: nat, stack: seq<Frame>) | Keep(from: nat, pos: nat, stack: seq<Frame>)

  predicate Prefixed(code: string, p: nat)
    requires p < |code|
  {
    p > 0 && code[p - 1] == 'f'
  }

  /** The stripper takes the `f` before a run of more than six quotes for the prefix of the literal behind the
      empty ones. */
  predicate Misreads(code: string, p: nat)
    requires p < |code|
  {
    IsQuote(code[p]) && Prefixed(code, p) && var run := RunEnd(code, p, code[p]) - p; run > 6 && Opening(run) > 0
  }

  function MisreadStep(code: string, p: nat, stack: seq<Frame>, isFString: bool): (s: Step)
    requires p < |code| && Misreads(code, p)
    ensures p < s.pos <= |code|
  {
    var end := RunEnd(code, p, code[p]);
    Skip(end - Surplus(end - p), stack + [Str(code[p], Opening(end - p) == 3, isFString)])
  }

  /** In code; with `loose`, prefixes are read as the stripper reads them. */
  function CodeStep(code: string, p: nat, below: seq<Frame>, inFString: bool, loose: bool): (s: Step)
    requires p < |code|
    ensures p < s.pos <= |code|
  {
    var stack := below + [Code(inFString)];
    if code[p] == '#' then Keep(p + 1, LineEnd(code, p + 1), stack)
    else if inFString && code[p] == '{' then Skip(p + 1, stack + [Code(true)])
    else if inFString && code[p] == '}' then Skip(p + 1, below)
    else if !IsQuote(code[p]) then Skip(p + 1, stack)
    else if loose && Misreads(code, p) then MisreadStep(code, p, stack, true)
    else
      var triple := SameThree(code, p, code[p]);
      Skip(if triple then p + 3 else p + 1, stack + [Str(code[p], triple, Prefixed(code, p))])
  }

  /** A backslash hides a quote or a backslash behind it; in an f-string `{{` is a character and `{` starts code. */
  function StringStep(code: string, p: nat, below: seq<Frame>, quote: char, triple: bool, isFString: bool): (s: Step)
    requires p < |code|
    ensures p < s.pos <= |code| && (s.Keep? ==> s.from == p)
  {
    var stack := below + [Str(quote, triple, isFString)];
    if Closes(code, p, quote, triple) then Skip(if triple then p + 3 else p + 1, below)
    else if code[p] == '\\' && p + 1 < |code| && (code[p + 1] == '\\' || IsQuote(code[p + 1])) then Keep(p, p + 2, stack)
    else if isFString && code[p] == '{' then
      if p + 1 < |code| && code[p + 1] == '{' then Keep(p, p + 2, stack) else Skip(p + 1, stack + [Code(true)])
    else Keep(p, p + 1, stack)
  }

  function StepAt(code: string, p: nat, stack: seq<Frame>, loose: bool): (s: Step)
    requires p < |code| && stack != []
    ensures p < s.pos <= |code| && (s.Keep? ==> p <= s.from)
  {
    var below, top := stack[..|stack| - 1], stack[|stack| - 1];
    match top
    case Code(inFString) => CodeStep(code, p, below, inFString, loose)
    case Str(quote, triple, isFString) => StringStep(code, p, below, quote, triple, isFString)
  }

  /** The positions from `p` on that are inside a literal or a comment; their delimiters are not. */
  function Lex(code: string, p: nat, stack: seq<Frame>, loose: bool): set<int>
    requires p <= |code|
    decreases |code| - p, 0
  {
    if p == |code| || stack == [] then {} else LexFrom(code, StepAt(code, p, stack, loose), loose)
  }

  function LexFrom(code: string, s: Step, loose: bool): set<int>
    requires s.pos <= |code|
    decreases |code| - s.pos, 1
  {
    match s
    case Skip(pos, stack) => Lex(code, pos, stack, loose)
    case Keep(from, pos, stack) => Interval(from, pos) + Lex(code, pos, stack, loose)
  }

  lemma LexStr(code: string, p: nat, below: seq<Frame>, quote: char, triple: bool, isFString: bool, loose: bool)
    requires p < |code|
    ensures Lex(code, p, below + [Str(quote, triple, isFString)], loose) ==
            LexFrom(code, StringStep(code, p, below, quote, triple, isFString), loose)
  {
    assert (below + [Str(quote, triple, isFString)])[..|below|] == below;
  }

  lemma LexIn(code: string, p: nat, below: seq<Frame>, inFString: bool, loose: bool)
    requires p < |code|
    ensures Lex(code, p, below + [Code(inFString)], loose) == LexFrom(code, CodeStep(code, p, below, inFString, loose), loose)
  {
    assert (below + [Code(inFString)])[..|below|] == below;
  }

  // ----- What the stripper stores -----

  /** The positions covered by stored pieces, when the first piece starts at `at`. */
  function Content(pieces: seq<Piece>, at: int): set<int> {
    if pieces == [] then {}
    else
      var p := pieces[0];
      (if p.Lit? then Interval(at, at + |p.text|) else {}) + Content(pieces[1..], at + |p.text|)
  }

  lemma {:induction false} ContentConcat(a: seq<Piece>, b: seq<Piece>, at: int)
    ensures Content(a + b, at) == Content(a, at) + Content(b, at + |Source(a)|)
  {
    if a == [] {
      assert a + b == b;
    } else {
      assert (a + b)[1..] == a[1..] + b && (a + b)[0] == a[0];
      ContentConcat(a[1..], b, at + |a[0].text|);
    }
  }

  // ----- Tokens in strings -----

  function TokenStart(code: string, t: Token): int {
    match t
    case NoToken => |code|
    case Comment(end) => end - 1
    case Brace(_, end) => end - 1
    case Quote(_, from, _) => from
    case Escape(count, _, end) => end - count - 1
    case Braces(count, _, end) => end - count
  }

  /** What a token in a string is made of. */
  ghost predicate StringTokenIs(code: string, t: Token) {
    match t
    case Escape(count, q, end) =>
      && 0 < count && count < end <= |code| && IsQuote(q) && code[end - 1] == q
      && forall i :: end - count - 1 <= i < end - 1 ==> code[i] == '\\'
    case Braces(count, c, end) =>
      && 0 < count <= end <= |code| && IsBrace(c) && (forall i :: end - count <= i < end ==> code[i] == c)
      && (end < |code| ==> code[end] != c)
    case Quote(_, from, end) => QuoteRun(code, from, end)
    case _ => true
  }

  /** All quotes of a kind from `from` to `end`, and no more. */
  ghost predicate QuoteRun(code: string, from: nat, end: nat) {
    && from < end <= |code| && IsQuote(code[from]) && (forall i :: from <= i < end ==> code[i] == code[from])
    && (end < |code| ==> code[end] != code[from])
  }

  lemma {:induction false} StringTokenFacts(code: string, pos: nat, isFString: bool)
    requires pos <= |code|
    ensures StringTokenIs(code, FindStringToken(code, pos, isFString))
    decreases |code| - pos
  {
    if pos < |code| && StringTokenAt(code, pos, isFString).NoToken? {
      StringTokenFacts(code, pos + 1, isFString);
    }
  }

  /** A character that starts no token, or is the prefix of a quote, is content by itself; or two backslashes are. */
  lemma PlainStep(code: string, pos: nat, below: seq<Frame>, quote: char, triple: bool, isFString: bool)
    requires pos < |code| && IsQuote(quote)
    ensures var t, stack := StringTokenAt(code, pos, isFString), below + [Str(quote, triple, isFString)];
            t.NoToken? || TokenStart(code, t) == pos + 1 ==>
              if code[pos] == '\\' && pos + 1 < |code| && code[pos + 1] == '\\' then
                StringTokenAt(code, pos + 1, isFString).NoToken? &&
                Lex(code, pos, stack, true) == Interval(pos, pos + 2) + Lex(code, pos + 2, stack, true)
              else Lex(code, pos, stack, true) == Interval(pos, pos + 1) + Lex(code, pos + 1, stack, true)
    ensures var t := StringTokenAt(code, pos, isFString);
            t.NoToken? || TokenStart(code, t) == pos || (t.Quote? && TokenStart(code, t) == pos + 1 && code[pos] == 'f')
  {
    hide Lex;
    LexStr(code, pos, below, quote, triple, isFString, true);
  }

  /** Up to the next token every character is content. */
  lemma {:induction false} StringSkips(code: string, pos: nat, below: seq<Frame>, quote: char, triple: bool, isFString: bool)
    requires pos <= |code| && IsQuote(quote)
    ensures var s := TokenStart(code, FindStringToken(code, pos, isFString));
            pos <= s <= |code| &&
            Lex(code, pos, below + [Str(quote, triple, isFString)], true) ==
            Interval(pos, s) + Lex(code, s, below + [Str(quote, triple, isFString)], true)
    decreases |code| - pos
  {
    hide Lex, LexFrom, StringStep, StringTokenAt;
    if pos == |code| {
      assert Interval(pos, pos) == {};
    } else {
      PlainStep(code, pos, below, quote, triple, isFString);
      var t := StringTokenAt(code, pos, isFString);
      if t.NoToken? {
        var skipped := code[pos] == '\\' && pos + 1 < |code| && code[pos + 1] == '\\';
        var next := if skipped then pos + 2 else pos + 1;
        StringSkips(code, next, below, quote, triple, isFString);
        assert FindStringToken(code, pos, isFString) == FindStringToken(code, next, isFString) by {
          assert skipped ==> FindStringToken(code, pos + 1, isFString) == FindStringToken(code, next, isFString);
        }
        var e := TokenStart(code, FindStringToken(code, next, isFString));
        Added(pos, next, e, Lex(code, e, below + [Str(quote, triple, isFString)], true));
      }
    }
  }

  /** A run of backslashes before a quote: every second one is itself hidden. */
  lemma {:induction false} EscapeRun(code: string, p: nat, n: nat, below: seq<Frame>, quote: char, triple: bool, isFString: bool)
    requires p + n < |code| && IsQuote(code[p + n]) && IsQuote(quote) && forall i :: p <= i < p + n ==> code[i] == '\\'
    ensures var e, stack := p + n, below + [Str(quote, triple, isFString)];
            Lex(code, p, stack, true) == if n % 2 == 0 then Interval(p, e) + Lex(code, e, stack, true)
                                   else Interval(p, e + 1) + Lex(code, e + 1, stack, true)
    decreases n
  {
    hide Lex;
    if n >= 1 {
      LexStr(code, p, below, quote, triple, isFString, true);
    }
    if n >= 2 {
      assert code[p + 1] == '\\';
      EscapeRun(code, p + 2, n - 2, below, quote, triple, isFString);
    }
  }

  lemma {:induction false} BraceRun(code: string, p: nat, n: nat, c: char, below: seq<Frame>, quote: char, triple: bool)
    requires p + n <= |code| && IsBrace(c) && IsQuote(quote) && forall i :: p <= i < p + n ==> code[i] == c
    requires p + n < |code| ==> code[p + n] != c
    ensures var e, stack := p + n, below + [Str(quote, triple, true)];
            Lex(code, p, stack, true) == if c == '}' || n % 2 == 0 then Interval(p, e) + Lex(code, e, stack, true)
                                   else Interval(p, e - 1) + Lex(code, e, stack + [Code(true)], true)
    decreases n
  {
    hide Lex;
    if n >= 1 {
      LexStr(code, p, below, quote, triple, true, true);
      if c == '}' {
        BraceRun(code, p + 1, n - 1, c, below, quote, triple);
      } else if n >= 2 {
        assert code[p + 1] == c;
        BraceRun(code, p + 2, n - 2, c, below, quote, triple);
      }
    }
  }

  /** A run of quotes that does not close the literal is content. */
  lemma {:induction false} QuotesSkip(code: string, p: nat, end: nat, below: seq<Frame>, quote: char, triple: bool, isFString: bool)
    requires p <= end <= |code| && IsQuote(quote)
    requires forall i :: p <= i < end ==> IsQuote(code[i]) && !Closes(code, i, quote, triple)
    ensures var stack := below + [Str(quote, triple, isFString)];
            Lex(code, p, stack, true) == Interval(p, end) + Lex(code, end, stack, true)
    decreases end - p
  {
    hide Lex;
    if p < end {
      LexStr(code, p, below, quote, triple, isFString, true);
      QuotesSkip(code, p + 1, end, below, quote, triple, isFString);
    }
  }

  // ----- Tokens in code -----

  /** An `f` right before `pos` is not about to be read as the prefix of a literal. */
  predicate Settled(code: string, pos: nat) {
    0 < pos < |code| && IsQuote(code[pos]) ==> code[pos - 1] != 'f'
  }

  ghost predicate CodeTokenIs(code: string, t: Token) {
    match t
    case Comment(end) => 0 < end <= |code| && code[end - 1] == '#'
    case Brace(c, end) => 0 < end <= |code| && IsBrace(c) && code[end - 1] == c
    case Quote(fstring, from, end) => QuoteRun(code, from, end) && (fstring <==> from > 0 && code[from - 1] == 'f')
    case _ => true
  }

  /** Up to the next token nothing is content. */
  lemma {:induction false} CodeSkips(code: string, pos: nat, below: seq<Frame>, inFString: bool)
    requires pos <= |code| && Settled(code, pos)
    ensures var t := FindCodeToken(code, pos);
            var s := TokenStart(code, t);
            && CodeTokenIs(code, t) && pos <= s <= |code|
            && Lex(code, pos, below + [Code(inFString)], true) == Lex(code, s, below + [Code(inFString)], true)
    decreases |code| - pos
  {
    hide Lex;
    if pos < |code| {
      LexIn(code, pos, below, inFString, true);
      if CodeTokenAt(code, pos).NoToken? {
        CodeSkips(code, pos + 1, below, inFString);
      }
    }
  }

  /** Six quotes are an empty literal in triple quotes. */
  lemma SixQuotes(code: string, p: nat, below: seq<Frame>, inFString: bool, loose: bool)
    requires p + 6 <= |code| && IsQuote(code[p]) && forall i :: p <= i < p + 6 ==> code[i] == code[p]
    requires loose ==> !Misreads(code, p)
    ensures Lex(code, p, below + [Code(inFString)], loose) == Lex(code, p + 6, below + [Code(inFString)], loose)
  {
    hide Lex, Misreads;
    LexIn(code, p, below, inFString, loose);
    LexStr(code, p + 3, below + [Code(inFString)], code[p], true, Prefixed(code, p), loose);
    assert SameThree(code, p, code[p]) && SameThree(code, p + 3, code[p]);
  }

  /** Fewer than six: nothing, or the opening of a literal. */
  lemma FewQuotes(code: string, p: nat, end: nat, below: seq<Frame>, inFString: bool, loose: bool)
    requires QuoteRun(code, p, end) && end - p < 6
    ensures var c, stack := code[p], below + [Code(inFString)];
            Lex(code, p, stack, loose) ==
            if end - p == 2 then Lex(code, end, stack, loose)
            else if end - p == 1 then Lex(code, end, stack + [Str(c, false, Prefixed(code, p))], loose)
            else Lex(code, p + 3, stack + [Str(c, true, Prefixed(code, p))], loose)
  {
    hide Lex;
    LexIn(code, p, below, inFString, loose);
    var c := code[p];
    if end - p == 2 {
      assert code[p + 1] == c;
      LexStr(code, p + 1, below + [Code(inFString)], c, false, Prefixed(code, p), loose);
    } else if end - p >= 3 {
      assert code[p + 1] == c && code[p + 2] == c;
    }
  }

  /** A run of quotes in code, as the stripper counts it.  The `f` before it belongs to the literal that it opens
      only if no empty literals come first. */
  lemma {:induction false} QuotesOpen(code: string, p: nat, end: nat, below: seq<Frame>, inFString: bool, loose: bool)
    requires QuoteRun(code, p, end)
    ensures var n, open, stack := Opening(end - p), end - Surplus(end - p), below + [Code(inFString)];
            var isFString := Prefixed(code, p) && (loose || end - p <= 6);
            Lex(code, p, stack, loose) ==
            if n == 0 then Lex(code, end, stack, loose)
            else Lex(code, open, stack + [Str(code[p], n == 3, isFString)], loose)
    decreases end - p
  {
    hide Lex;
    if loose && Misreads(code, p) {
      LexIn(code, p, below, inFString, loose);
    } else if end - p >= 6 {
      SixQuotes(code, p, below, inFString, loose);
      if end - p > 6 {
        assert code[p + 6] == code[p] && code[p + 5] == code[p];
        QuotesOpen(code, p + 6, end, below, inFString, loose);
        assert (end - p) % 6 == (end - p - 6) % 6;
      }
    } else {
      FewQuotes(code, p, end, below, inFString, loose);
    }
  }

  // ----- The two parsers agree with the lexer -----

  /** The stored pieces, together with what the lexer finds from where the parser stops, are `found`. */
  ghost predicate Agrees(code: string, start: nat, found: set<int>, r: Parsed, below: seq<Frame>) {
    && (r.pos.Some? ==> r.pos.value <= |code| && Settled(code, r.pos.value))
    && found == Content(r.pieces, start) + (if r.pos.None? then {} else Lex(code, r.pos.value, below, true))
  }

  lemma PrependAgrees(code: string, start: nat, mid: nat, pieces: seq<Piece>, found: set<int>, rest: Parsed, below: seq<Frame>)
    requires |Source(pieces)| == mid - start && Agrees(code, mid, found, rest, below)
    ensures Agrees(code, start, Content(pieces, start) + found, Prepend(pieces, rest), below)
  {
    hide Lex, LexFrom, Settled, Source, Content;
    ContentConcat(pieces, rest.pieces, start);
  }

  /** A parser that is followed by another from where it stops. */
  lemma ThenAgrees(code: string, start: nat, found: set<int>, first: Parsed, rest: Parsed, below: seq<Frame>, outer: seq<Frame>)
    requires first.pos.Some? && start <= first.pos.value <= |code| && Reproduces(code, start, first)
    requires Agrees(code, start, found, first, below)
    requires Agrees(code, first.pos.value, Lex(code, first.pos.value, below, true), rest, outer)
    ensures Agrees(code, start, found, Prepend(first.pieces, rest), outer)
  {
    PrependAgrees(code, start, first.pos.value, first.pieces, Lex(code, first.pos.value, below, true), rest, outer);
  }

  lemma EndAgrees(code: string, start: nat, found: set<int>, first: Parsed, below: seq<Frame>, outer: seq<Frame>)
    requires first.pos.None? && Agrees(code, start, found, first, below)
    ensures Agrees(code, start, found, first, outer)
  {
  }

  lemma ContentOfOne(p: Piece, at: int)
    ensures Content([p], at) == if p.Lit? then Interval(at, at + |p.text|) else {}
  {
    var one := [p];
    assert one[1..] == [] && Content(one[1..], at + |p.text|) == {};
  }

  lemma ContentOf(text: string, last: string, at: int)
    ensures Content([Lit(text)], at) == Interval(at, at + |text|) && Content([Raw(last)], at) == {}
    ensures Content((if text != "" then [Lit(text)] else []) + [Raw(last)], at) == Interval(at, at + |text|)
    ensures Content([Raw(last), Lit(text)], at) == Interval(at + |last|, at + |last| + |text|)
    ensures |Source((if text != "" then [Lit(text)] else []) + [Raw(last)])| == |text| + |last|
  {
    SourceOptional(text, Raw(last));
    ContentOfOne(Lit(text), at);
    ContentOfOne(Raw(last), at);
    ContentOfOne(Raw(last), at + |text|);
    ContentOfOne(Lit(text), at + |last|);
    ContentConcat([Lit(text)], [Raw(last)], at);
    ContentConcat([Raw(last)], [Lit(text)], at);
    SourceOne(Lit(text));
    SourceOne(Raw(last));
    assert [Raw(last), Lit(text)] == [Raw(last)] + [Lit(text)] && [] + [Raw(last)] == [Raw(last)];
  }

  function QuoteText(quote: char, triple: bool): string {
    if triple then [quote, quote, quote] else [quote]
  }

  lemma StringIs(code: string, quote: string, isFString: bool, start: nat, pos: nat)
    requires start <= pos <= |code| && quote != ""
    ensures var r := StringFrom(code, quote, isFString, start, pos);
            match FindStringToken(code, pos, isFString)
            case NoToken => r == Parsed([Lit(code[start..])], None)
            case Escape(count, q, end) =>
              r == StringFrom(code, quote, isFString, start, if count % 2 == 0 && q == quote[0] then end - 1 else end)
            case Braces(count, c, end) =>
              count % 2 == 0 || c == '}' ==> r == StringFrom(code, quote, isFString, start, end)
            case Quote(_, from, end) =>
              if quote <= code[from..end] then
                r == Parsed((if from > start then [Lit(code[start..from])] else []) + [Raw(quote)], Some(from + |quote|))
              else r == StringFrom(code, quote, isFString, start, end)
            case _ => true
  {
    hide FindStringToken, CodeFrom, Prepend;
  }

  lemma {:induction false} StringAgrees(code: string, quote: char, triple: bool, isFString: bool, start: nat, pos: nat,
                                        below: seq<Frame>)
    requires start <= pos <= |code| && IsQuote(quote)
    ensures Agrees(code, start, Interval(start, pos) + Lex(code, pos, below + [Str(quote, triple, isFString)], true),
                   StringFrom(code, QuoteText(quote, triple), isFString, start, pos), below)
    decreases |code| - pos, 0, 1
  {
    hide Lex, LexFrom, Agrees, Content, FindStringToken, CodeFrom, StringFrom, Prepend;
    var stack, text := below + [Str(quote, triple, isFString)], QuoteText(quote, triple);
    StringIs(code, text, isFString, start, pos);
    StringTokenFacts(code, pos, isFString);
    StringSkips(code, pos, below, quote, triple, isFString);
    var t := FindStringToken(code, pos, isFString);
    var s: nat := TokenStart(code, t);
    match t
    case NoToken =>
      OpenEndAgrees(code, start, below, stack);
    case Escape(count, q, end) =>
      EscapeRun(code, s, count, below, quote, triple, isFString);
      EscapeAgrees(code, quote, triple, isFString, start, pos, below);
    case Braces(count, c, end) =>
      BraceRun(code, s, count, c, below, quote, triple);
      if count % 2 == 0 || c == '}' {
        StringAgrees(code, quote, triple, isFString, start, end, below);
        var r := StringFrom(code, text, isFString, start, end);
        JoinedAgrees(code, start, pos, s, end, Lex(code, end, stack, true), r, below);
      } else {
        FieldAgrees(code, quote, triple, start, pos, below);
        var r := StringFrom(code, text, true, start, pos);
        JoinedAgrees(code, start, pos, s, end - 1, Lex(code, end, stack + [Code(true)], true), r, below);
      }
    case Quote(_, from, end) =>
      QuotesClose(code, from, end, quote, triple);
      if text <= code[from..end] {
        ClosingAgrees(code, quote, triple, isFString, start, from, end, below);
        Added(start, pos, from, Lex(code, from, stack, true));
      } else {
        QuotesSkip(code, from, end, below, quote, triple, isFString);
        StringAgrees(code, quote, triple, isFString, start, end, below);
        var r := StringFrom(code, text, isFString, start, end);
        JoinedAgrees(code, start, pos, from, end, Lex(code, end, stack, true), r, below);
      }
  }

  lemma {:induction false} EscapeAgrees(code: string, quote: char, triple: bool, isFString: bool, start: nat, pos: nat,
                                        below: seq<Frame>)
    requires start <= pos <= |code| && IsQuote(quote)
    requires FindStringToken(code, pos, isFString).Escape?
    ensures Agrees(code, start, Interval(start, pos) + Lex(code, pos, below + [Str(quote, triple, isFString)], true),
                   StringFrom(code, QuoteText(quote, triple), isFString, start, pos), below)
    decreases |code| - pos, 0, 0
  {
    hide Lex, LexFrom, Agrees, Content, FindStringToken, CodeFrom, StringFrom, Prepend;
    var stack, text := below + [Str(quote, triple, isFString)], QuoteText(quote, triple);
    StringIs(code, text, isFString, start, pos);
    StringTokenFacts(code, pos, isFString);
    StringSkips(code, pos, below, quote, triple, isFString);
    var t := FindStringToken(code, pos, isFString);
    var s: nat := TokenStart(code, t);
    var count, end := t.count, t.end;
    EscapeRun(code, s, count, below, quote, triple, isFString);
    if count % 2 == 0 && t.quote == text[0] {
      StringAgrees(code, quote, triple, isFString, start, end - 1, below);
      var r := StringFrom(code, text, isFString, start, end - 1);
      JoinedAgrees(code, start, pos, s, end - 1, Lex(code, end - 1, stack, true), r, below);
    } else {
      StringAgrees(code, quote, triple, isFString, start, end, below);
      var r := StringFrom(code, text, isFString, start, end);
      if count % 2 == 0 {
        QuotesSkip(code, end - 1, end, below, quote, triple, isFString);
        Added(start, end - 1, end, Lex(code, end, stack, true));
        JoinedAgrees(code, start, pos, s, end - 1, Lex(code, end - 1, stack, true), r, below);
      } else {
        JoinedAgrees(code, start, pos, s, end, Lex(code, end, stack, true), r, below);
      }
    }
  }

  lemma JoinedAgrees(code: string, start: nat, b: int, c: int, d: int, more: set<int>, r: Parsed, below: seq<Frame>)
    requires start <= b <= c <= d && Agrees(code, start, Interval(start, d) + more, r, below)
    ensures Agrees(code, start, Interval(start, b) + (Interval(b, c) + (Interval(c, d) + more)), r, below)
  {
    hide Agrees;
    Joined(start, b, c, d, more);
  }

  lemma Joined(a: int, b: int, c: int, d: int, more: set<int>)
    requires a <= b <= c <= d
    ensures Interval(a, b) + (Interval(b, c) + (Interval(c, d) + more)) == Interval(a, d) + more
    ensures Interval(c, c) == {}
  {
  }

  lemma Added(a: int, b: int, c: int, more: set<int>)
    requires a <= b <= c
    ensures Interval(a, b) + (Interval(b, c) + more) == Interval(a, c) + more
  {
  }

  /** An unterminated literal is stored to the end of the source. */
  lemma OpenEndAgrees(code: string, start: nat, below: seq<Frame>, stack: seq<Frame>)
    requires start <= |code|
    ensures Lex(code, |code|, stack, true) == {}
    ensures forall pos :: start <= pos <= |code| ==>
              Agrees(code, start, Interval(start, pos) + (Interval(pos, |code|) + {}), Parsed([Lit(code[start..])], None), below)
  {
    ContentOf(code[start..], "", start);
    forall pos | start <= pos <= |code|
      ensures Interval(start, pos) + (Interval(pos, |code|) + {}) == Interval(start, |code|)
    {
    }
  }

  /** A run of quotes closes the literal at its first position or nowhere. */
  lemma QuotesClose(code: string, from: nat, end: nat, quote: char, triple: bool)
    requires QuoteRun(code, from, end) && IsQuote(quote)
    ensures QuoteText(quote, triple) <= code[from..end] <==> Closes(code, from, quote, triple)
    ensures !Closes(code, from, quote, triple) ==> forall i :: from <= i < end ==> IsQuote(code[i]) && !Closes(code, i, quote, triple)
  {
    var text, run := QuoteText(quote, triple), code[from..end];
    assert forall i :: 0 <= i < |run| ==> run[i] == code[from + i];
    if |text| <= |run| {
      assert text <= run <==> forall i :: 0 <= i < |text| ==> text[i] == run[i];
      assert text <= run <==> quote == code[from];
    }
  }

  lemma ClosingAgrees(code: string, quote: char, triple: bool, isFString: bool, start: nat, from: nat, end: nat,
                      below: seq<Frame>)
    requires start <= from && QuoteRun(code, from, end) && QuoteText(quote, triple) <= code[from..end] && IsQuote(quote)
    requires Closes(code, from, quote, triple)
    ensures var text := QuoteText(quote, triple);
            Agrees(code, start, Interval(start, from) + Lex(code, from, below + [Str(quote, triple, isFString)], true),
                   Parsed((if from > start then [Lit(code[start..from])] else []) + [Raw(text)], Some(from + |text|)), below)
  {
    hide Lex, Content;
    var text := QuoteText(quote, triple);
    LexStr(code, from, below, quote, triple, isFString, true);
    ContentOf(code[start..from], text, start);
    assert code[from + |text| - 1] == quote;
  }

  /** A replacement field: the code in braces, then the rest of the literal. */
  lemma {:induction false} FieldAgrees(code: string, quote: char, triple: bool, start: nat, pos: nat, below: seq<Frame>)
    requires start <= pos <= |code| && IsQuote(quote)
    requires var t := FindStringToken(code, pos, true);
             t.Braces? && t.count % 2 == 1 && t.c == '{'
    ensures var t, stack := FindStringToken(code, pos, true), below + [Str(quote, triple, true)];
            t.end - 1 >= pos &&
            Agrees(code, start, Interval(start, t.end - 1) + Lex(code, t.end, stack + [Code(true)], true),
                   StringFrom(code, QuoteText(quote, triple), true, start, pos), below)
    decreases |code| - pos, 0, 0
  {
    hide Lex, Agrees, Content, FindStringToken, CodeFrom, Source, Reproduces;
    var end, stack := FindStringToken(code, pos, true).end, below + [Str(quote, triple, true)];
    var text := QuoteText(quote, triple);
    StringTokenFacts(code, pos, true);
    CodeAgrees(code, true, end, end, stack);
    CodeLossless(code, true, end, end);
    var nested := CodeFrom(code, true, end, end);
    var head := (if code[start..end - 1] != "" then [Lit(code[start..end - 1])] else []) + [Raw("{")];
    ContentOf(code[start..end - 1], "{", start);
    var found := Lex(code, end, stack + [Code(true)], true);
    if nested.pos.Some? {
      var after := nested.pos.value;
      StringAgrees(code, quote, triple, true, after, after, below);
      NothingPending(after, Lex(code, after, stack, true));
      var rest := StringFrom(code, text, true, after, after);
      ThenAgrees(code, end, found, nested, rest, stack, below);
      PrependAgrees(code, start, end, head, found, Prepend(nested.pieces, rest), below);
    } else {
      EndAgrees(code, end, found, nested, stack, below);
      PrependAgrees(code, start, end, head, found, nested, below);
    }
  }

  lemma NothingPending(at: int, more: set<int>)
    ensures Interval(at, at) + more == more
  {
  }

  lemma {:induction false} CodeAgrees(code: string, inFString: bool, start: nat, pos: nat, below: seq<Frame>)
    requires start <= pos <= |code| && Settled(code, pos)
    ensures Agrees(code, start, Lex(code, pos, below + [Code(inFString)], true), CodeFrom(code, inFString, start, pos), below)
    decreases |code| - pos, 1, 1
  {
    hide Lex, LexFrom, Agrees, Content, FindCodeToken, StringFrom, Prepend, Opening, Surplus, LineEnd;
    CodeSkips(code, pos, below, inFString);
    match FindCodeToken(code, pos)
    case NoToken =>
      RawEndAgrees(code, start, below, below + [Code(inFString)]);
    case Quote(fstring, from, end) =>
      LiteralAgrees(code, inFString, start, pos, below);
    case Comment(end) =>
      CommentAgrees(code, inFString, start, pos, below);
    case Brace(c, end) =>
      LexBrace(code, end - 1, below, inFString);
      if !inFString {
        CodeAgrees(code, inFString, start, end, below);
      } else if c == '}' {
        BraceEndAgrees(code, start, end, below);
      } else {
        NestedAgrees(code, start, pos, below);
      }
  }

  lemma LexBrace(code: string, p: nat, below: seq<Frame>, inFString: bool)
    requires p < |code| && IsBrace(code[p])
    ensures var stack := below + [Code(inFString)];
            Lex(code, p, stack, true) == Lex(code, p + 1, if !inFString then stack
                                                    else if code[p] == '}' then below else stack + [Code(true)], true)
  {
    hide Lex;
    LexIn(code, p, below, inFString, true);
  }

  lemma RawEndAgrees(code: string, start: nat, below: seq<Frame>, stack: seq<Frame>)
    requires start <= |code|
    ensures Agrees(code, start, Lex(code, |code|, stack, true), Parsed([Raw(code[start..])], None), below)
  {
    ContentOf("", code[start..], start);
  }

  lemma BraceEndAgrees(code: string, start: nat, end: nat, below: seq<Frame>)
    requires start < end <= |code| && code[end - 1] == '}'
    ensures Agrees(code, start, Lex(code, end, below, true), Parsed([Raw(code[start..end])], Some(end)), below)
  {
    ContentOf("", code[start..end], start);
  }

  lemma LiteralIs(code: string, inFString: bool, start: nat, pos: nat)
    requires start <= pos <= |code| && FindCodeToken(code, pos).Quote?
    ensures var t := FindCodeToken(code, pos);
            var n, open := Opening(t.end - t.from), t.end - Surplus(t.end - t.from);
            CodeFrom(code, inFString, start, pos) ==
            if n == 0 then CodeFrom(code, inFString, start, t.end)
            else
              var inner := StringFrom(code, code[t.from..t.from + n], t.fstring, open, open);
              Prepend([Raw(code[start..open])],
                      if inner.pos.None? then inner
                      else Prepend(inner.pieces, CodeFrom(code, inFString, inner.pos.value, inner.pos.value)))
  {
    hide StringFrom, FindCodeToken, Opening, Surplus, Prepend;
  }

  lemma {:induction false} LiteralAgrees(code: string, inFString: bool, start: nat, pos: nat, below: seq<Frame>)
    requires start <= pos <= |code| && Settled(code, pos)
    requires FindCodeToken(code, pos).Quote?
    ensures Agrees(code, start, Lex(code, pos, below + [Code(inFString)], true), CodeFrom(code, inFString, start, pos), below)
    decreases |code| - pos, 1, 0
  {
    hide Lex, LexFrom, Agrees, Content, FindCodeToken, StringFrom, CodeFrom, Opening, Surplus, Source, Reproduces,
         Prepend;
    LiteralIs(code, inFString, start, pos);
    CodeSkips(code, pos, below, inFString);
    var t, stack := FindCodeToken(code, pos), below + [Code(inFString)];
    var from, end := t.from, t.end;
    var n, open := Opening(end - from), end - Surplus(end - from);
    QuotesOpen(code, from, end, below, inFString, true);
    if n == 0 {
      CodeAgrees(code, inFString, start, end, below);
    } else {
      var c, text := code[from], code[from..from + n];
      assert text == QuoteText(c, n == 3);
      StringAgrees(code, c, n == 3, t.fstring, open, open, stack);
      var found := Lex(code, open, stack + [Str(c, n == 3, t.fstring)], true);
      NothingPending(open, found);
      StringLossless(code, text, t.fstring, open, open);
      var inner := StringFrom(code, text, t.fstring, open, open);
      if inner.pos.Some? {
        var after := inner.pos.value;
        AgreesSettled(code, open, found, inner, stack);
        CodeAgrees(code, inFString, after, after, below);
        RawThenAgrees(code, start, open, found, inner, CodeFrom(code, inFString, after, after), stack, below);
      } else {
        RawThenAgrees(code, start, open, found, inner, inner, stack, below);
      }
    }
  }

  /** Source text, then what one parser finds, then what another finds from where that one stopped. */
  lemma RawThenAgrees(code: string, start: nat, mid: nat, found: set<int>, first: Parsed, rest: Parsed, below: seq<Frame>,
                      outer: seq<Frame>)
    requires start <= mid <= |code| && Agrees(code, mid, found, first, below) && Reproduces(code, mid, first)
    requires first.pos.Some? ==> mid <= first.pos.value <= |code|
    requires first.pos.Some? ==> Agrees(code, first.pos.value, Lex(code, first.pos.value, below, true), rest, outer)
    ensures Agrees(code, start, found,
                   Prepend([Raw(code[start..mid])], if first.pos.None? then first else Prepend(first.pieces, rest)), outer)
  {
    hide Lex, Agrees, Content, Source, Reproduces, Prepend;
    ContentOf("", code[start..mid], start);
    SourceOne(Raw(code[start..mid]));
    assert Content([Raw(code[start..mid])], start) + found == found;
    if first.pos.Some? {
      ThenAgrees(code, mid, found, first, rest, below, outer);
      PrependAgrees(code, start, mid, [Raw(code[start..mid])], found, Prepend(first.pieces, rest), outer);
    } else {
      EndAgrees(code, mid, found, first, below, outer);
      PrependAgrees(code, start, mid, [Raw(code[start..mid])], found, first, outer);
    }
  }

  lemma AgreesSettled(code: string, start: nat, found: set<int>, r: Parsed, below: seq<Frame>)
    requires Agrees(code, start, found, r, below) && r.pos.Some?
    ensures Settled(code, r.pos.value)
  {
  }

  lemma {:induction false} CommentAgrees(code: string, inFString: bool, start: nat, pos: nat, below: seq<Frame>)
    requires start <= pos <= |code| && Settled(code, pos)
    requires FindCodeToken(code, pos).Comment?
    ensures Agrees(code, start, Lex(code, pos, below + [Code(inFString)], true), CodeFrom(code, inFString, start, pos), below)
    decreases |code| - pos, 1, 0
  {
    hide Lex, Agrees, Content, FindCodeToken, Source;
    CodeSkips(code, pos, below, inFString);
    var end, stack := FindCodeToken(code, pos).end, below + [Code(inFString)];
    var eol := LineEnd(code, end);
    LexIn(code, end - 1, below, inFString, true);
    var pieces := [Raw(code[start..end]), Lit(code[end..eol])];
    ContentOf(code[end..eol], code[start..end], start);
    CommentLossless(code, start, end, eol);
    if eol == |code| {
      NoneAgrees(code, stack, below);
      PrependAgrees(code, start, eol, pieces, Lex(code, eol, stack, true), Parsed([], None), below);
    } else {
      CodeAgrees(code, inFString, eol, eol, below);
      PrependAgrees(code, start, eol, pieces, Lex(code, eol, stack, true), CodeFrom(code, inFString, eol, eol), below);
    }
  }

  lemma NoneAgrees(code: string, stack: seq<Frame>, below: seq<Frame>)
    ensures Agrees(code, |code|, Lex(code, |code|, stack, true), Parsed([], None), below)
  {
  }

  lemma {:induction false} NestedAgrees(code: string, start: nat, pos: nat, below: seq<Frame>)
    requires start <= pos <= |code| && Settled(code, pos)
    requires var t := FindCodeToken(code, pos);
             t.Brace? && t.c == '{'
    ensures Agrees(code, start, Lex(code, pos, below + [Code(true)], true), CodeFrom(code, true, start, pos), below)
    decreases |code| - pos, 1, 0
  {
    hide Lex, LexFrom, Agrees, Content, FindCodeToken, StringFrom, Opening, Surplus, Source, Reproduces, Prepend,
         LineEnd;
    CodeSkips(code, pos, below, true);
    var end, stack := FindCodeToken(code, pos).end, below + [Code(true)];
    LexBrace(code, end - 1, below, true);
    CodeAgrees(code, true, end, end, stack);
    CodeLossless(code, true, end, end);
    var nested, found := CodeFrom(code, true, end, end), Lex(code, end, stack + [Code(true)], true);
    if nested.pos.Some? {
      var after := nested.pos.value;
      AgreesSettled(code, end, found, nested, stack);
      CodeAgrees(code, true, after, after, below);
      RawThenAgrees(code, start, end, found, nested, CodeFrom(code, true, after, after), stack, below);
    } else {
      RawThenAgrees(code, start, end, found, nested, nested, stack, below);
    }
  }

  /** What is stored away is what the lexer finds that reads prefixes as the stripper does. */
  lemma StripsLoosely(code: string)
    ensures Content(Strip(code), 0) == Lex(code, 0, [Code(false)], true)
  {
    hide Lex, Content, CodeFrom;
    CodeAgrees(code, false, 0, 0, []);
    TopLevelReachesEnd(code, 0, 0);
    assert [] + [Code(false)] == [Code(false)];
  }

  // ----- When misreading a prefix makes a difference -----

  /** The literal whose inside starts at `p` would have a replacement field if it were an f-string. */
  predicate HasField(code: string, p: nat, quote: char, triple: bool)
    requires p <= |code|
    decreases |code| - p
  {
    p < |code| &&
    match StringStep(code, p, [], quote, triple, true)
    case Skip(_, stack) => stack != []
    case Keep(_, pos, _) => HasField(code, pos, quote, triple)
  }

  /** On its way the lexer meets, in code, an `f` before a run of more than six quotes that opens a literal with an
      odd run of opening braces. */
  predicate Misled(code: string, p: nat, stack: seq<Frame>)
    requires p <= |code|
    decreases |code| - p
  {
    p < |code| && stack != [] &&
    var s := StepAt(code, p, stack, false);
    || (stack[|stack| - 1].Code? && Misreads(code, p) && MisreadField(code, p))
    || Misled(code, s.pos, s.stack)
  }

  predicate MisreadField(code: string, p: nat)
    requires p < |code| && Misreads(code, p)
  {
    var end := RunEnd(code, p, code[p]);
    HasField(code, end - Surplus(end - p), code[p], Opening(end - p) == 3)
  }

  /** The lexer finds nothing behind its position. */
  lemma {:induction false} LexFloor(code: string, p: nat, stack: seq<Frame>, loose: bool)
    requires p <= |code|
    ensures forall x :: x in Lex(code, p, stack, loose) ==> p <= x
    decreases |code| - p
  {
    hide StepAt, LexFrom;
    if p < |code| && stack != [] {
      var s := StepAt(code, p, stack, loose);
      LexFloor(code, s.pos, s.stack, loose);
      FromFloor(code, p, s, loose);
    }
  }

  lemma FromFloor(code: string, p: nat, s: Step, loose: bool)
    requires p < s.pos <= |code| && (s.Keep? ==> p <= s.from)
    requires forall x :: x in Lex(code, s.pos, s.stack, loose) ==> s.pos <= x
    ensures forall x :: x in LexFrom(code, s, loose) ==> p <= x
  {
    hide Lex;
  }

  /** Without a field it makes no difference whether a literal is an f-string. */
  lemma {:induction false} WithoutField(code: string, p: nat, below: seq<Frame>, quote: char, triple: bool, loose: bool)
    requires p <= |code| && IsQuote(quote) && !HasField(code, p, quote, triple)
    ensures Lex(code, p, below + [Str(quote, triple, true)], loose) == Lex(code, p, below + [Str(quote, triple, false)], loose)
    decreases |code| - p
  {
    hide Lex;
    if p == |code| {
      LexEnd(code, below + [Str(quote, triple, true)], loose);
      LexEnd(code, below + [Str(quote, triple, false)], loose);
    } else {
      LexStr(code, p, below, quote, triple, true, loose);
      LexStr(code, p, below, quote, triple, false, loose);
      if StringStep(code, p, below, quote, triple, true).Keep? {
        WithoutField(code, StringStep(code, p, below, quote, triple, true).pos, below, quote, triple, loose);
        if code[p] == '{' && !Closes(code, p, quote, triple) {
          LexStr(code, p + 1, below, quote, triple, false, loose);
        }
      }
    }
  }

  lemma LexEnd(code: string, stack: seq<Frame>, loose: bool)
    ensures Lex(code, |code|, stack, loose) == {}
  {
  }

  /** With one, its opening brace is content of the literal and not of the f-string. */
  lemma {:induction false} WithField(code: string, p: nat, below: seq<Frame>, quote: char, triple: bool) returns (x: int)
    requires p <= |code| && IsQuote(quote) && HasField(code, p, quote, triple)
    ensures p <= x && x in Lex(code, p, below + [Str(quote, triple, false)], false)
    ensures x !in Lex(code, p, below + [Str(quote, triple, true)], true)
    decreases |code| - p
  {
    hide Lex;
    LexStr(code, p, below, quote, triple, true, true);
    LexStr(code, p, below, quote, triple, false, false);
    var s := StringStep(code, p, below, quote, triple, true);
    if s.Keep? {
      x := WithField(code, s.pos, below, quote, triple);
      if code[p] == '{' {
        LexStr(code, p + 1, below, quote, triple, false, false);
      }
    } else {
      x := p;
      LexFloor(code, s.pos, s.stack, true);
    }
  }

  lemma MisledStr(code: string, p: nat, below: seq<Frame>, quote: char, triple: bool, isFString: bool)
    requires p < |code|
    ensures var s := StringStep(code, p, below, quote, triple, isFString);
            Misled(code, p, below + [Str(quote, triple, isFString)]) == Misled(code, s.pos, s.stack)
  {
    assert (below + [Str(quote, triple, isFString)])[..|below|] == below;
  }

  lemma MisledIn(code: string, p: nat, below: seq<Frame>, inFString: bool)
    requires p < |code|
    ensures var s := CodeStep(code, p, below, inFString, false);
            Misled(code, p, below + [Code(inFString)]) <==>
            (Misreads(code, p) && MisreadField(code, p)) || Misled(code, s.pos, s.stack)
  {
    assert (below + [Code(inFString)])[..|below|] == below;
  }

  /** Behind an unprefixed run of quotes the lexer is misled if and only if it is so inside the literal it opens. */
  lemma {:induction false} MisledOpen(code: string, p: nat, end: nat, below: seq<Frame>, inFString: bool)
    requires QuoteRun(code, p, end)
    ensures var n, open, stack := Opening(end - p), end - Surplus(end - p), below + [Code(inFString)];
            n > 0 ==> (Misled(code, p, stack) <==>
                       || (Misreads(code, p) && MisreadField(code, p))
                       || Misled(code, open, stack + [Str(code[p], n == 3, Prefixed(code, p) && end - p <= 6)]))
    decreases end - p
  {
    hide Misled, MisreadField;
    var c, stack := code[p], below + [Code(inFString)];
    MisledIn(code, p, below, inFString);
    assert forall i :: p <= i < end ==> code[i] == c;
    if end - p >= 6 {
      assert SameThree(code, p, c) && SameThree(code, p + 3, c);
      MisledStr(code, p + 3, stack, c, true, Prefixed(code, p));
      if end - p > 6 {
        assert code[p + 6] == c && code[p + 5] == c;
        MisledOpen(code, p + 6, end, below, inFString);
        assert (end - p) % 6 == (end - p - 6) % 6;
      }
    }
  }

  predicate Proper(stack: seq<Frame>) {
    forall f <- stack :: f.Str? ==> IsQuote(f.quote)
  }

  lemma StepFacts(code: string, p: nat, stack: seq<Frame>)
    requires p < |code| && stack != [] && Proper(stack)
    ensures Proper(StepAt(code, p, stack, false).stack)
    ensures (stack[|stack| - 1].Code? && Misreads(code, p)) ||
            StepAt(code, p, stack, true) == StepAt(code, p, stack, false)
  {
    hide Closes, SameThree, LineEnd;
    assert stack == stack[..|stack| - 1] + [stack[|stack| - 1]];
  }

  lemma {:induction false} SameUnlessMisled(code: string, p: nat, stack: seq<Frame>)
    requires p <= |code| && Proper(stack)
    ensures Lex(code, p, stack, true) == Lex(code, p, stack, false) <==> !Misled(code, p, stack)
    decreases |code| - p, 1
  {
    hide StepAt, MisreadField, Misreads, Proper;
    if p < |code| && stack != [] {
      StepFacts(code, p, stack);
      var top := stack[|stack| - 1];
      if top.Code? && Misreads(code, p) {
        assert stack == stack[..|stack| - 1] + [Code(top.inFString)];
        SameUnlessMisread(code, p, stack[..|stack| - 1], top.inFString);
      } else {
        var s := StepAt(code, p, stack, false);
        SameUnlessMisled(code, s.pos, s.stack);
        LexFloor(code, s.pos, s.stack, true);
        LexFloor(code, s.pos, s.stack, false);
      }
    }
  }

  lemma ProperMore(below: seq<Frame>, a: Frame, b: Frame)
    requires Proper(below + [a]) && (b.Str? ==> IsQuote(b.quote))
    ensures Proper(below + [a] + [b])
  {
  }

  lemma {:induction false} SameUnlessMisread(code: string, p: nat, below: seq<Frame>, inFString: bool)
    requires p < |code| && Proper(below + [Code(inFString)]) && Misreads(code, p)
    ensures var stack := below + [Code(inFString)];
            Lex(code, p, stack, true) == Lex(code, p, stack, false) <==> !Misled(code, p, stack)
    decreases |code| - p, 0
  {
    hide Lex, Misled, Proper, HasField;
    var c, end, stack := code[p], RunEnd(code, p, code[p]), below + [Code(inFString)];
    var open, triple := end - Surplus(end - p), Opening(end - p) == 3;
    QuotesOpen(code, p, end, below, inFString, true);
    QuotesOpen(code, p, end, below, inFString, false);
    MisledOpen(code, p, end, below, inFString);
    if HasField(code, open, c, triple) {
      var x := WithField(code, open, stack, c, triple);
    } else {
      WithoutField(code, open, stack, c, triple, true);
      ProperMore(below, Code(inFString), Str(c, triple, false));
      SameUnlessMisled(code, open, stack + [Str(c, triple, false)]);
    }
  }

  /** What is stored away is exactly what is inside string literals and comments, if and only if the lexer is not
      misled. */
  lemma StripsWhatIsLexed(code: string)
    ensures Content(Strip(code), 0) == Lex(code, 0, [Code(false)], false) <==> !Misled(code, 0, [Code(false)])
  {
    hide Lex, Content, Misled;
    StripsLoosely(code);
    SameUnlessMisled(code, 0, [Code(false)]);
  }

  /** An `f`, seven quotes and a field: the stripper takes the seventh quote for the start of an f-string, although
      the `f` belongs to the empty literal before it, and leaves the `x` in the code. */
  lemma LongPrefixedRun()
    ensures var code := "f'''''''{x}'";
            9 in Lex(code, 0, [Code(false)], false) && 9 !in Content(Strip(code), 0)
  {
    hide Lex, Content;
    var code := "f'''''''{x}'";
    SeenByLexer(code);
    SeenByStripper(code);
  }

  lemma SeenByLexer(code: string)
    requires code == "f'''''''{x}'"
    ensures 9 in Lex(code, 0, [Code(false)], false)
  {
    hide Lex;
    var stack := [Code(false)];
    var inner := stack + [Str('\'', false, false)];
    assert [] + [Code(false)] == stack;
    LexIn(code, 0, [], false, false);
    SixQuotes(code, 1, [], false, false);
    FewQuotes(code, 7, 8, [], false, false);
    LexStr(code, 8, stack, '\'', false, false, false);
    LexStr(code, 9, stack, '\'', false, false, false);
  }

  lemma SeenByStripper(code: string)
    requires code == "f'''''''{x}'"
    ensures 9 !in Content(Strip(code), 0)
  {
    hide RunEnd, StringFrom, FindStringToken;
    SevenQuotes(code);
    FieldPieces(code);
    var inner, rest := StringFrom(code, "'", true, 8, 8), CodeFrom(code, false, 12, 12);
    assert code[1..2] == "'";
    assert FindCodeToken(code, 12) == NoToken;
    assert Strip(code) == [Raw(code[0..8])] + (inner.pieces + rest.pieces);
    RawOnly(Strip(code), 0);
  }

  lemma SevenQuotes(code: string)
    requires code == "f'''''''{x}'"
    ensures FindCodeToken(code, 0) == Quote(true, 1, 8)
  {
    assert RunEnd(code, 8, '\'') == RunEnd(code, 7, '\'') == RunEnd(code, 6, '\'') == 8;
    assert RunEnd(code, 5, '\'') == RunEnd(code, 4, '\'') == RunEnd(code, 3, '\'') == 8;
    assert RunEnd(code, 2, '\'') == RunEnd(code, 1, '\'') == 8;
    assert FindCodeToken(code, 0) == Quote(true, 1, 8);
  }

  lemma FieldPieces(code: string)
    requires code == "f'''''''{x}'"
    ensures var inner := StringFrom(code, "'", true, 8, 8);
            inner.pos == Some(12) && forall p <- inner.pieces :: p.Raw?
  {
    assert RunEnd(code, 9, '{') == 9 && RunEnd(code, 8, '{') == 9;
    assert FindStringToken(code, 8, true) == Braces(1, '{', 9);
    assert FindCodeToken(code, 10) == Brace('}', 11) == FindCodeToken(code, 9);
    assert CodeFrom(code, true, 9, 9) == Parsed([Raw(code[9..11])], Some(11));
    assert RunEnd(code, 12, '\'') == 12 && RunEnd(code, 11, '\'') == 12;
    assert FindStringToken(code, 11, true) == Quote(false, 11, 12);
    assert code[11..12] == "'";
    assert StringFrom(code, "'", true, 11, 11) == Parsed([] + [Raw("'")], Some(12));
  }

  lemma {:induction false} RawOnly(pieces: seq<Piece>, at: int)
    requires forall p <- pieces :: p.Raw?
    ensures Content(pieces, at) == {}
  {
    if pieces != [] {
      assert pieces[0] in pieces;
      RawOnly(pieces[1..], at + |pieces[0].text|);
    }
  }
}
