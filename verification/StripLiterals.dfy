/** The literal stripper of Cython/Build/Dependencies.py.

    `CodeFrom` and `StringFrom` are the two mutually recursive parsers as functions from a position to
    the pieces they emit; `Stripper` holds them as methods that append to shared lists.  `Lossless` says
    that nothing is lost, through nested f-strings, escapes, quote runs, comments and unterminated
    strings. */
module StripLiterals {
  import opened StripTokens

  /** A stretch of the source that is kept, or one that is stored away under a label. */
  datatype Piece = Raw(text: string) | Lit(text: string)

  /** What a parser emits and where it stops; `None` stands for -1, the end of the source. */
  datatype Option<+T> = None | Some(value: T)
  datatype Parsed = Parsed(pieces: seq<Piece>, pos: Option<nat>)

  function Prepend(pieces: seq<Piece>, p: Parsed): Parsed {
    Parsed(pieces + p.pieces, p.pos)
  }

  ghost predicate Within(p: Parsed, lo: nat, code: string) {
    p.pos.Some? ==> lo <= p.pos.value <= |code|
  }

  /** How many quotes of a run in code open a string literal: none for an empty literal, one, or three. */
  function Opening(run: nat): (n: nat)
    ensures n == 0 || n == 1 || n == 3
    ensures n <= run
  {
    var m := if run >= 6 then run % 6 else run;
    if m == 0 || m == 2 then 0 else if m > 3 then 3 else m
  }

  /** How many quotes of the run belong to the literal already. */
  function Surplus(run: nat): (n: nat)
    ensures n <= 2 && (Opening(run) > 0 ==> n < run)
  {
    var m := if run >= 6 then run % 6 else run;
    if m > 3 then m - 3 else 0
  }

  /** Inside a string literal that was opened with `quote`: `start` is where the pending text starts,
      `pos` where the search for the next token goes on. */
  function StringFrom(code: string, quote: string, isFString: bool, start: nat, pos: nat): (r: Parsed)
    requires start <= pos <= |code| && quote != ""
    ensures Within(r, pos, code)
    decreases |code| - pos, 0
  {
    match FindStringToken(code, pos, isFString)
    case NoToken => Parsed([Lit(code[start..])], None)
    case Escape(count, q, end) =>
      if count % 2 == 0 && q == quote[0] then StringFrom(code, quote, isFString, start, end - 1)
      else StringFrom(code, quote, isFString, start, end)
    case Braces(count, c, end) =>
      if count % 2 == 0 || c == '}' then StringFrom(code, quote, isFString, start, end)
      else
        var nested := CodeFrom(code, true, end, end);
        Prepend((if start < end - 1 then [Lit(code[start..end - 1])] else []) + [Raw("{")],
                if nested.pos.None? then nested
                else Prepend(nested.pieces, StringFrom(code, quote, isFString, nested.pos.value, nested.pos.value)))
    case Quote(_, from, end) =>
      if quote <= code[from..end] then
        Parsed((if from > start then [Lit(code[start..from])] else []) + [Raw(quote)], Some(from + |quote|))
      else StringFrom(code, quote, isFString, start, end)
    case _ => Parsed([], None)
  }

  /** In code, which ends at a closing brace when it is the inside of an f-string. */
  function CodeFrom(code: string, inFString: bool, start: nat, pos: nat): (r: Parsed)
    requires start <= pos <= |code|
    ensures Within(r, pos, code)
    decreases |code| - pos, 1
  {
    match FindCodeToken(code, pos)
    case NoToken => Parsed([Raw(code[start..])], None)
    case Quote(fstring, from, end) =>
      var run := end - from;
      if Opening(run) == 0 then CodeFrom(code, inFString, start, end)
      else
        var open := end - Surplus(run);
        var inner := StringFrom(code, code[from..from + Opening(run)], fstring, open, open);
        Prepend([Raw(code[start..open])],
                if inner.pos.None? then inner
                else Prepend(inner.pieces, CodeFrom(code, inFString, inner.pos.value, inner.pos.value)))
    case Comment(end) =>
      var eol := LineEnd(code, end);
      Prepend([Raw(code[start..end]), Lit(code[end..eol])],
              if eol == |code| then Parsed([], None) else CodeFrom(code, inFString, eol, eol))
    case Brace(c, end) =>
      if !inFString then CodeFrom(code, inFString, start, end)
      else if c == '}' then Parsed([Raw(code[start..end])], Some(end))
      else
        var nested := CodeFrom(code, true, end, end);
        Prepend([Raw(code[start..end])],
                if nested.pos.None? then nested
                else Prepend(nested.pieces, CodeFrom(code, inFString, nested.pos.value, nested.pos.value)))
    case _ => Parsed([], None)
  }

  function Strip(code: string): seq<Piece> {
    CodeFrom(code, false, 0, 0).pieces
  }

  function Source(pieces: seq<Piece>): string {
    if pieces == [] then "" else pieces[0].text + Source(pieces[1..])
  }

  lemma {:induction false} SourceConcat(a: seq<Piece>, b: seq<Piece>)
    ensures Source(a + b) == Source(a) + Source(b)
  {
    if a == [] {
      assert a + b == b;
    } else {
      assert (a + b)[1..] == a[1..] + b;
      SourceConcat(a[1..], b);
    }
  }

  lemma SourceOne(p: Piece)
    ensures Source([p]) == p.text
  {
    var one := [p];
    assert one[1..] == [] && Source(one) == p.text + Source(one[1..]);
  }

  /** The pieces reproduce the source from `start` to where the parser stops. */
  ghost predicate Reproduces(code: string, start: nat, r: Parsed) {
    if r.pos.None? then start <= |code| && Source(r.pieces) == code[start..]
    else start <= r.pos.value <= |code| && Source(r.pieces) == code[start..r.pos.value]
  }

  lemma PrependReproduces(code: string, start: nat, mid: nat, pieces: seq<Piece>, rest: Parsed)
    requires start <= mid <= |code| && Source(pieces) == code[start..mid] && Reproduces(code, mid, rest)
    ensures Reproduces(code, start, Prepend(pieces, rest))
  {
    SourceConcat(pieces, rest.pieces);
    if rest.pos.None? {
      assert code[start..mid] + code[mid..] == code[start..];
    } else {
      assert code[start..mid] + code[mid..rest.pos.value] == code[start..rest.pos.value];
    }
  }

  lemma SourceOptional(text: string, last: Piece)
    ensures Source((if text != "" then [Lit(text)] else []) + [last]) == text + last.text
    ensures Source([Lit(text), last]) == text + last.text
  {
    SourceOne(last);
    SourceOne(Lit(text));
    SourceConcat([Lit(text)], [last]);
    assert [Lit(text), last] == [Lit(text)] + [last];
    assert [] + [last] == [last];
  }

  lemma {:induction false} StringLossless(code: string, quote: string, isFString: bool, start: nat, pos: nat)
    requires start <= pos <= |code| && quote != ""
    ensures Reproduces(code, start, StringFrom(code, quote, isFString, start, pos))
    decreases |code| - pos, 0
  {
    hide Source, Reproduces, FindStringToken, FindCodeToken, Opening, Surplus, CodeFrom, Prepend;
    match FindStringToken(code, pos, isFString)
    case NoToken =>
      SourceOne(Lit(code[start..]));
      ReachesEnd(code, start, [Lit(code[start..])]);
    case Escape(count, q, end) =>
      if count % 2 == 0 && q == quote[0] {
        StringLossless(code, quote, isFString, start, end - 1);
      } else {
        StringLossless(code, quote, isFString, start, end);
      }
    case Braces(count, c, end) =>
      if count % 2 == 0 || c == '}' {
        StringLossless(code, quote, isFString, start, end);
      } else {
        BraceLossless(code, quote, isFString, start, pos);
      }
    case Quote(_, from, end) =>
      if quote <= code[from..end] {
        ClosingLossless(code, quote, start, from, end);
      } else {
        StringLossless(code, quote, isFString, start, end);
      }
  }

  lemma ClosingLossless(code: string, quote: string, start: nat, from: nat, end: nat)
    requires start <= from <= end <= |code| && quote <= code[from..end]
    ensures Reproduces(code, start, Parsed((if from > start then [Lit(code[start..from])] else []) + [Raw(quote)],
                                           Some(from + |quote|)))
  {
    var text := code[start..from];
    assert quote == code[from..end][..|quote|] == code[from..from + |quote|];
    assert text + quote == code[start..from + |quote|];
    SourceOptional(text, Raw(quote));
  }

  lemma ReachesEnd(code: string, start: nat, pieces: seq<Piece>)
    requires start <= |code| && Source(pieces) == code[start..]
    ensures Reproduces(code, start, Parsed(pieces, None))
  {
  }

  lemma ReachesPos(code: string, start: nat, pos: nat, pieces: seq<Piece>)
    requires start <= pos <= |code| && Source(pieces) == code[start..pos]
    ensures Reproduces(code, start, Parsed(pieces, Some(pos)))
  {
  }

  /** The opening brace of a replacement field in an f-string. */
  lemma BraceLossless(code: string, quote: string, isFString: bool, start: nat, pos: nat)
    requires start <= pos <= |code| && quote != ""
    requires var t := FindStringToken(code, pos, isFString);
      t.Braces? && t.count % 2 == 1 && t.c == '{'
    ensures Reproduces(code, start, StringFrom(code, quote, isFString, start, pos))
    decreases |code| - pos, 0, 0
  {
    hide Source, Reproduces, FindStringToken, FindCodeToken, Opening, Surplus, CodeFrom, Prepend;
    var end := FindStringToken(code, pos, isFString).end;
    BraceChar(code, pos, isFString);
    var text := code[start..end - 1];
    assert text + "{" == code[start..end];
    SourceOptional(text, Raw("{"));
    var head := (if text != "" then [Lit(text)] else []) + [Raw("{")];
    CodeLossless(code, true, end, end);
    var nested := CodeFrom(code, true, end, end);
    if nested.pos.Some? {
      var after := nested.pos.value;
      StringLossless(code, quote, isFString, after, after);
      Chain(code, end, nested, StringFrom(code, quote, isFString, after, after));
      PrependReproduces(code, start, end, head, Prepend(nested.pieces, StringFrom(code, quote, isFString, after, after)));
    } else {
      PrependReproduces(code, start, end, head, nested);
    }
  }

  lemma {:induction false} BraceChar(code: string, pos: nat, isFString: bool)
    requires pos <= |code|
    ensures var t := FindStringToken(code, pos, isFString);
      t.Braces? ==> code[t.end - 1] == t.c
    decreases |code| - pos
  {
    if pos < |code| && StringTokenAt(code, pos, isFString).NoToken? {
      BraceChar(code, pos + 1, isFString);
    }
  }

  lemma Chain(code: string, start: nat, first: Parsed, second: Parsed)
    requires Reproduces(code, start, first) && first.pos.Some? && Reproduces(code, first.pos.value, second)
    ensures Reproduces(code, start, Prepend(first.pieces, second))
  {
    PrependReproduces(code, start, first.pos.value, first.pieces, second);
  }

  lemma {:induction false} CodeLossless(code: string, inFString: bool, start: nat, pos: nat)
    requires start <= pos <= |code|
    ensures Reproduces(code, start, CodeFrom(code, inFString, start, pos))
    decreases |code| - pos, 1
  {
    hide Source, Reproduces, FindStringToken, FindCodeToken, Opening, Surplus, StringFrom, Prepend, LineEnd;
    match FindCodeToken(code, pos)
    case NoToken =>
      SourceOne(Raw(code[start..]));
      ReachesEnd(code, start, [Raw(code[start..])]);
    case Quote(fstring, from, end) =>
      var run := end - from;
      if Opening(run) == 0 {
        CodeLossless(code, inFString, start, end);
      } else {
        var open := end - Surplus(run);
        var quote := code[from..from + Opening(run)];
        StringLossless(code, quote, fstring, open, open);
        var inner := StringFrom(code, quote, fstring, open, open);
        SourceOne(Raw(code[start..open]));
        if inner.pos.Some? {
          CodeLossless(code, inFString, inner.pos.value, inner.pos.value);
          var rest := CodeFrom(code, inFString, inner.pos.value, inner.pos.value);
          Chain(code, open, inner, rest);
          PrependReproduces(code, start, open, [Raw(code[start..open])], Prepend(inner.pieces, rest));
        } else {
          PrependReproduces(code, start, open, [Raw(code[start..open])], inner);
        }
      }
    case Comment(end) =>
      var eol := LineEnd(code, end);
      CommentLossless(code, start, end, eol);
      var pieces := [Raw(code[start..end]), Lit(code[end..eol])];
      if eol == |code| {
        ReachesEnd(code, |code|, []);
        PrependReproduces(code, start, eol, pieces, Parsed([], None));
      } else {
        CodeLossless(code, inFString, eol, eol);
        PrependReproduces(code, start, eol, pieces, CodeFrom(code, inFString, eol, eol));
      }
    case Brace(c, end) =>
      if !inFString {
        CodeLossless(code, inFString, start, end);
      } else {
        SourceOne(Raw(code[start..end]));
        if c == '}' {
          ReachesPos(code, start, end, [Raw(code[start..end])]);
        } else {
          CodeLossless(code, true, end, end);
          var nested := CodeFrom(code, true, end, end);
          if nested.pos.Some? {
            CodeLossless(code, inFString, nested.pos.value, nested.pos.value);
            var rest := CodeFrom(code, inFString, nested.pos.value, nested.pos.value);
            Chain(code, end, nested, rest);
            PrependReproduces(code, start, end, [Raw(code[start..end])], Prepend(nested.pieces, rest));
          } else {
            PrependReproduces(code, start, end, [Raw(code[start..end])], nested);
          }
        }
      }
  }

  lemma CommentLossless(code: string, start: nat, end: nat, eol: nat)
    requires start <= end <= eol <= |code|
    ensures Source([Raw(code[start..end]), Lit(code[end..eol])]) == code[start..eol]
    ensures Source([]) == ""
  {
    SourceOne(Raw(code[start..end]));
    SourceOne(Lit(code[end..eol]));
    SourceConcat([Raw(code[start..end])], [Lit(code[end..eol])]);
    assert [Raw(code[start..end]), Lit(code[end..eol])] == [Raw(code[start..end])] + [Lit(code[end..eol])];
    assert code[start..end] + code[end..eol] == code[start..eol];
  }

  /** Nothing is lost: putting every stored literal back in its place gives the source. */
  lemma Lossless(code: string)
    ensures Source(Strip(code)) == code
  {
    CodeLossless(code, false, 0, 0);
    TopLevelReachesEnd(code, 0, 0);
    assert code[0..] == code;
  }

  /** Outside f-strings only the end of the source ends the code. */
  lemma {:induction false} TopLevelReachesEnd(code: string, start: nat, pos: nat)
    requires start <= pos <= |code|
    ensures CodeFrom(code, false, start, pos).pos.None?
    decreases |code| - pos
  {
    hide FindStringToken, FindCodeToken, Opening, Surplus, StringFrom, LineEnd;
    match FindCodeToken(code, pos)
    case NoToken =>
    case Quote(fstring, from, end) =>
      var run := end - from;
      if Opening(run) == 0 {
        TopLevelReachesEnd(code, start, end);
      } else {
        var open := end - Surplus(run);
        var inner := StringFrom(code, code[from..from + Opening(run)], fstring, open, open);
        if inner.pos.Some? {
          TopLevelReachesEnd(code, inner.pos.value, inner.pos.value);
        }
      }
    case Comment(end) =>
      if LineEnd(code, end) < |code| {
        TopLevelReachesEnd(code, LineEnd(code, end), LineEnd(code, end));
      }
    case Brace(c, end) =>
      TopLevelReachesEnd(code, start, end);
  }

  // ----- The stripper -----

  /** An element of the stripped code: source text, or the n-th label. */
  datatype Chunk = Text(text: string) | Label(n: nat)

  /** The literals of some pieces, in order. */
  function Lits(pieces: seq<Piece>): seq<string> {
    if pieces == [] then [] else (if pieces[0].Lit? then [pieces[0].text] else []) + Lits(pieces[1..])
  }

  /** The pieces as stripped code: the literals become consecutive labels. */
  function Number(pieces: seq<Piece>, first: nat): seq<Chunk> {
    if pieces == [] then []
    else if pieces[0].Lit? then [Label(first)] + Number(pieces[1..], first + 1)
    else [Text(pieces[0].text)] + Number(pieces[1..], first)
  }

  lemma {:induction false} LitsSnoc(pieces: seq<Piece>, p: Piece)
    ensures Lits(pieces + [p]) == Lits(pieces) + (if p.Lit? then [p.text] else [])
  {
    if pieces == [] {
      assert pieces + [p] == [p];
      assert [p][1..] == [];
    } else {
      var rest := pieces[1..];
      assert (pieces + [p])[1..] == rest + [p];
      LitsSnoc(rest, p);
      Regroup(if pieces[0].Lit? then [pieces[0].text] else [], Lits(rest), if p.Lit? then [p.text] else [], []);
    }
  }

  lemma {:induction false} NumberSnoc(pieces: seq<Piece>, first: nat, p: Piece)
    ensures Number(pieces + [p], first)
         == Number(pieces, first) + [if p.Lit? then Label(first + |Lits(pieces)|) else Text(p.text)]
    decreases |pieces|
  {
    if pieces == [] {
      assert pieces + [p] == [p];
    } else {
      assert (pieces + [p])[1..] == pieces[1..] + [p];
      NumberSnoc(pieces[1..], if pieces[0].Lit? then first + 1 else first, p);
    }
  }

  lemma Regroup<T>(a: seq<T>, b: seq<T>, c: seq<T>, d: seq<T>)
    ensures a + b + c == a + (b + c)
    ensures a + b + c + d == a + (b + (c + d))
  {
  }

  /** Of the pieces `whole` that are to follow `before`, those up to `now` are there and `rest` is missing. */
  ghost predicate Progress(before: seq<Piece>, now: seq<Piece>, whole: Parsed, done: bool, end: Option<nat>, rest: Parsed) {
    if done then now == before + whole.pieces && end == whole.pos
    else now + rest.pieces == before + whole.pieces && rest.pos == whole.pos
  }

  class Stripper {
    var newCode: seq<Chunk>
    var literals: seq<string>
    ghost var pieces: seq<Piece>

    constructor ()
      ensures newCode == [] && literals == [] && Valid() && Pieces() == []
    {
      newCode, literals, pieces := [], [], [];
    }

    /** The labels are numbered in order, and each has its literal. */
    ghost predicate Valid()
      reads this
    {
      newCode == Number(pieces, 1) && literals == Lits(pieces)
    }

    ghost function Pieces(): seq<Piece>
      reads this
    {
      pieces
    }

    method AppendText(text: string)
      requires Valid()
      modifies this`newCode, this`pieces
      ensures Valid() && Pieces() == old(Pieces()) + [Raw(text)]
      ensures newCode == old(newCode) + [Text(text)]
    {
      LitsSnoc(pieces, Raw(text));
      NumberSnoc(pieces, 1, Raw(text));
      newCode := newCode + [Text(text)];
      pieces := pieces + [Raw(text)];
    }

    method AppendNewLabel(literal: string)
      requires Valid()
      modifies this
      ensures Valid() && Pieces() == old(Pieces()) + [Lit(literal)]
      ensures literals == old(literals) + [literal]
      ensures newCode == old(newCode) + [Label(|literals|)]
    {
      LitsSnoc(pieces, Lit(literal));
      NumberSnoc(pieces, 1, Lit(literal));
      literals := literals + [literal];
      newCode := newCode + [Label(|literals|)];
      pieces := pieces + [Lit(literal)];
    }

    /** The replacement field that an odd run of opening braces starts in an f-string. */
    method OpenField(code: string, quote: string, start: nat, charpos: nat, stop: nat) returns (after: Option<nat>)
      requires Valid() && quote != "" && start <= charpos < stop <= |code|
      requires var t := FindStringToken(code, charpos, true); t.Braces? && t.count % 2 == 1 && t.c == '{' && t.end == stop
      modifies this
      ensures Valid() && (after.Some? ==> stop <= after.value <= |code|)
      ensures Progress(old(Pieces()), Pieces(), StringFrom(code, quote, true, start, charpos), after.None?, None,
                       if after.None? then Parsed([], None) else StringFrom(code, quote, true, after.value, after.value))
      decreases |code| - charpos, 0
    {
      hide CodeFrom, FindStringToken, Stripper.Pieces, Stripper.Valid;
      ghost var pieces := Pieces();
      ghost var head := (if start < stop - 1 then [Lit(code[start..stop - 1])] else []) + [Raw("{")];
      if start < stop - 1 {
        AppendNewLabel(code[start..stop - 1]);
      }
      AppendText("{");
      assert Pieces() == pieces + head;
      ghost var nested := CodeFrom(code, true, stop, stop);
      after := ParseCode(code, stop, true);
      Regroup(pieces, head, nested.pieces,
              if after.None? then [] else StringFrom(code, quote, true, after.value, after.value).pieces);
    }

    /** The text up to the closing quote, and the quote. */
    method CloseString(code: string, quote: string, start: nat, from: nat)
      requires Valid() && start <= from <= |code|
      modifies this
      ensures Valid()
      ensures Pieces() == old(Pieces()) + ((if from > start then [Lit(code[start..from])] else []) + [Raw(quote)])
    {
      hide Stripper.Pieces, Stripper.Valid;
      if from > start {
        AppendNewLabel(code[start..from]);
      }
      AppendText(quote);
    }

    method ParseString(code: string, quote: string, begin: nat, isFString: bool) returns (end: Option<nat>)
      requires Valid() && begin <= |code| && quote != ""
      modifies this
      ensures Valid()
      ensures var r := StringFrom(code, quote, isFString, begin, begin);
        Pieces() == old(Pieces()) + r.pieces && end == r.pos
      decreases |code| - begin, 1
    {
      hide CodeFrom, FindStringToken, Stripper.Pieces, Stripper.Valid;
      ghost var before, whole := Pieces(), StringFrom(code, quote, isFString, begin, begin);
      var start, charpos := begin, begin;
      while true
        invariant Valid() && begin <= start <= charpos <= |code|
        invariant Progress(before, Pieces(), whole, false, None, StringFrom(code, quote, isFString, start, charpos))
        decreases |code| - charpos
      {
        match FindStringToken(code, charpos, isFString)
        case NoToken =>
          AppendNewLabel(code[start..]);
          return None;
        case Escape(count, q, stop) =>
          charpos := stop;
          if count % 2 == 0 && q == quote[0] {
            charpos := charpos - 1;
          }
        case Braces(count, c, stop) =>
          if count % 2 != 0 && c == '{' {
            var after := OpenField(code, quote, start, charpos, stop);
            if after.None? {
              return None;
            }
            start, charpos := after.value, after.value;
          } else {
            charpos := stop;
          }
        case Quote(_, from, stop) =>
          if quote <= code[from..stop] {
            CloseString(code, quote, start, from);
            return Some(from + |quote|);
          }
          charpos := stop;
      }
    }

    /** A run of quotes in code that opens a string literal, and the literal. */
    method OpenString(code: string, inFString: bool, start: nat, charpos: nat, from: nat, stop: nat, isFString: bool)
      returns (after: Option<nat>)
      requires Valid() && start <= charpos <= from < stop <= |code|
      requires FindCodeToken(code, charpos) == Quote(isFString, from, stop) && Opening(stop - from) > 0
      modifies this
      ensures Valid() && (after.Some? ==> charpos < after.value <= |code|)
      ensures Progress(old(Pieces()), Pieces(), CodeFrom(code, inFString, start, charpos), after.None?, None,
                       if after.None? then Parsed([], None) else CodeFrom(code, inFString, after.value, after.value))
      decreases |code| - charpos, 0
    {
      hide StringFrom, FindCodeToken, Stripper.Pieces, Stripper.Valid;
      ghost var pieces := Pieces();
      OpeningQuote(code, from, stop);
      var quote := code[from..stop];
      if |quote| >= 6 {
        quote := quote[..|quote| % 6];
      }
      var open := stop;
      if |quote| > 3 {
        open := open - (|quote| - 3);
        quote := quote[..3];
      }
      ghost var inner := StringFrom(code, quote, isFString, open, open);
      AppendText(code[start..open]);
      after := ParseString(code, quote, open, isFString);
      Regroup(pieces, [Raw(code[start..open])], inner.pieces,
              if after.None? then [] else CodeFrom(code, inFString, after.value, after.value).pieces);
    }

    /** A comment, up to the end of its line. */
    method SkipComment(code: string, inFString: bool, start: nat, charpos: nat, stop: nat) returns (after: Option<nat>)
      requires Valid() && start <= charpos < stop <= |code| && FindCodeToken(code, charpos) == Comment(stop)
      modifies this
      ensures Valid() && (after.Some? ==> charpos < after.value <= |code|)
      ensures Progress(old(Pieces()), Pieces(), CodeFrom(code, inFString, start, charpos), after.None?, None,
                       if after.None? then Parsed([], None) else CodeFrom(code, inFString, after.value, after.value))
    {
      hide StringFrom, FindCodeToken, Stripper.Pieces, Stripper.Valid, LineEnd;
      ghost var pieces := Pieces();
      var eol := LineEnd(code, stop);
      ghost var head, literal := [Raw(code[start..stop])], [Lit(code[stop..eol])];
      AppendText(code[start..stop]);
      AppendNewLabel(code[stop..eol]);
      assert [Raw(code[start..stop]), Lit(code[stop..eol])] == head + literal;
      after := if eol == |code| then None else Some(eol);
      Regroup(pieces, head, literal, if after.None? then [] else CodeFrom(code, inFString, eol, eol).pieces);
    }

    /** An opening brace inside an f-string: the code up to its closing brace. */
    method OpenBrace(code: string, start: nat, charpos: nat, stop: nat) returns (after: Option<nat>)
      requires Valid() && start <= charpos < stop <= |code| && FindCodeToken(code, charpos) == Brace('{', stop)
      modifies this
      ensures Valid() && (after.Some? ==> charpos < after.value <= |code|)
      ensures Progress(old(Pieces()), Pieces(), CodeFrom(code, true, start, charpos), after.None?, None,
                       if after.None? then Parsed([], None) else CodeFrom(code, true, after.value, after.value))
      decreases |code| - charpos, 0
    {
      hide StringFrom, FindCodeToken, Stripper.Pieces, Stripper.Valid, LineEnd;
      ghost var pieces := Pieces();
      AppendText(code[start..stop]);
      ghost var nested := CodeFrom(code, true, stop, stop);
      after := ParseCode(code, stop, true);
      Regroup(pieces, [Raw(code[start..stop])], nested.pieces,
              if after.None? then [] else CodeFrom(code, true, after.value, after.value).pieces);
    }

    method ParseCode(code: string, begin: nat, inFString: bool) returns (end: Option<nat>)
      requires Valid() && begin <= |code|
      modifies this
      ensures Valid()
      ensures var r := CodeFrom(code, inFString, begin, begin);
        Pieces() == old(Pieces()) + r.pieces && end == r.pos
      decreases |code| - begin, 1
    {
      hide StringFrom, FindCodeToken, Stripper.Pieces, Stripper.Valid, LineEnd;
      ghost var before, whole := Pieces(), CodeFrom(code, inFString, begin, begin);
      var start, charpos := begin, begin;
      while true
        invariant Valid() && begin <= start <= charpos <= |code|
        invariant Progress(before, Pieces(), whole, false, None, CodeFrom(code, inFString, start, charpos))
        decreases |code| - charpos
      {
        var after: Option<nat>;
        match FindCodeToken(code, charpos) {
          case NoToken =>
            AppendText(code[start..]);
            return None;
          case Quote(fstring, from, stop) =>
            if Opening(stop - from) == 0 {
              charpos := stop;
              continue;
            }
            after := OpenString(code, inFString, start, charpos, from, stop, fstring);
          case Comment(stop) =>
            after := SkipComment(code, inFString, start, charpos, stop);
          case Brace(c, stop) =>
            if !inFString {
              charpos := stop;
              continue;
            }
            if c == '}' {
              AppendText(code[start..stop]);
              return Some(stop);
            }
            BraceKind(code, charpos);
            after := OpenBrace(code, start, charpos, stop);
        }
        if after.None? {
          return None;
        }
        start, charpos := after.value, after.value;
      }
    }
  }

  lemma {:induction false} BraceKind(code: string, pos: nat)
    requires pos <= |code|
    ensures var t := FindCodeToken(code, pos); t.Brace? ==> IsBrace(t.c)
    decreases |code| - pos
  {
    if pos < |code| && CodeTokenAt(code, pos).NoToken? {
      BraceKind(code, pos + 1);
    }
  }

  /** The slices the parser takes of a quote run are the opening quote and the surplus. */
  lemma OpeningQuote(code: string, from: nat, stop: nat)
    requires from < stop <= |code|
    ensures var q := if stop - from >= 6 then code[from..stop][..(stop - from) % 6] else code[from..stop];
      && (Opening(stop - from) == 0 <==> q == "" || |q| == 2)
      && (Opening(stop - from) != 0 && |q| > 3 ==>
            Surplus(stop - from) == |q| - 3 && q[..3] == code[from..from + Opening(stop - from)])
      && (Opening(stop - from) != 0 && |q| <= 3 ==>
            Surplus(stop - from) == 0 && q == code[from..from + Opening(stop - from)])
  {
    assert code[from..stop][..(stop - from) % 6] == code[from..from + (stop - from) % 6];
  }

  /** The stripped code, with its labels numbered from 1, and the literals in the order of the labels. */
  method StripStringLiterals(code: string) returns (newCode: seq<Chunk>, literals: seq<string>)
    ensures newCode == Number(Strip(code), 1) && literals == Lits(Strip(code))
  {
    var stripper := new Stripper();
    var end := stripper.ParseCode(code, 0, false);
    assert [] + Strip(code) == Strip(code);
    newCode, literals := stripper.newCode, stripper.literals;
  }
}
