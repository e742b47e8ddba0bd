/** Putting the stored literals back by textual replacement, as Cython/Build/Inline.py does: one
    `str.replace` per label over the whole text. */
module StripRestore {
  import opened Decimals
  import opened StripTokens
  import opened StripLiterals

  const PREFIX := "__Pyx_L"

  function LabelText(n: nat): string {
    PREFIX + Digits(n) + "_"
  }

  /** `str.replace`: all occurrences, left to right, without overlap. */
  function Replace(s: string, key: string, value: string): string
    requires key != ""
    decreases |s|
  {
    if s == "" then ""
    else if key <= s then value + Replace(s[|key|..], key, value)
    else [s[0]] + Replace(s[1..], key, value)
  }

  ghost predicate OccursAt(s: string, p: nat, key: string) {
    p + |key| <= |s| && forall i :: 0 <= i < |key| ==> s[p + i] == key[i]
  }

  ghost predicate NoneBefore(s: string, n: nat, key: string) {
    forall p: nat :: p < n ==> !OccursAt(s, p, key)
  }

  lemma OccursLater(a: string, b: string, p: nat, key: string)
    ensures OccursAt(b, p, key) <==> OccursAt(a + b, |a| + p, key)
  {
    var s := a + b;
    if p + |key| <= |b| {
      assert forall i {:trigger key[i]} :: 0 <= i < |key| ==> s[|a| + p + i] == b[p + i];
    }
  }

  lemma OccursEarlier(a: string, b: string, p: nat, key: string)
    ensures OccursAt(a, p, key) ==> OccursAt(a + b, p, key)
    ensures OccursAt(a + b, p, key) && p + |key| <= |a| ==> OccursAt(a, p, key)
  {
    var s := a + b;
    if p + |key| <= |a| {
      assert forall i {:trigger key[i]} :: 0 <= i < |key| ==> s[p + i] == a[p + i];
    }
  }

  lemma OccursFirst(s: string, key: string)
    ensures key <= s <==> OccursAt(s, 0, key)
  {
  }

  /** Replacing leaves a stretch alone in which no occurrence starts. */
  lemma {:induction false} ReplaceSkips(a: string, b: string, key: string, value: string)
    requires key != "" && NoneBefore(a + b, |a|, key)
    ensures Replace(a + b, key, value) == a + Replace(b, key, value)
  {
    if a == "" {
      assert a + b == b;
    } else {
      var s, t := a + b, a[1..] + b;
      OccursFirst(s, key);
      assert !OccursAt(s, 0, key);
      assert s == [a[0]] + t && s[1..] == t;
      forall p: nat | p < |a| - 1
        ensures !OccursAt(t, p, key)
      {
        OccursLater([a[0]], t, p, key);
      }
      ReplaceSkips(a[1..], b, key, value);
      assert [s[0]] + (a[1..] + Replace(b, key, value)) == a + Replace(b, key, value);
    }
  }

  lemma ReplaceHit(key: string, b: string, value: string)
    requires key != ""
    ensures Replace(key + b, key, value) == value + Replace(b, key, value)
  {
    assert (key + b)[|key|..] == b;
  }

  // ----- The stripped text as gaps and labels -----

  /** The text from the j-th label on: labels `first`, `first + 1`, ... each followed by a gap. */
  function Labelled(first: nat, gaps: seq<string>): string
    decreases |gaps|
  {
    if gaps == [] then "" else LabelText(first) + gaps[0] + Labelled(first + 1, gaps[1..])
  }

  /** The source from there on: each literal followed by its gap. */
  function Restored(literals: seq<string>, gaps: seq<string>): string
    requires |literals| == |gaps|
  {
    if gaps == [] then "" else literals[0] + gaps[0] + Restored(literals[1..], gaps[1..])
  }

  /** The replacement loop over the labels. */
  function ReplaceLoop(text: string, first: nat, literals: seq<string>): string
    decreases |literals|
  {
    if literals == [] then text
    else ReplaceLoop(Replace(text, LabelText(first), literals[0]), first + 1, literals[1..])
  }

  /** After every label but the last there is text that cannot continue the label. */
  ghost predicate GapsOk(gaps: seq<string>) {
    forall i :: 0 <= i < |gaps| ==> if gaps[i] == "" then i == |gaps| - 1 else gaps[i][0] != '_'
  }

  ghost predicate Absent(s: string, key: string) {
    forall p: nat :: !OccursAt(s, p, key)
  }

  lemma AbsentInPart(a: string, b: string, c: string, key: string)
    requires Absent(a + b + c, key)
    ensures Absent(b, key) && Absent(a + b, key)
  {
    forall p: nat
      ensures !OccursAt(a + b, p, key)
    {
      OccursEarlier(a + b, c, p, key);
    }
    forall p: nat
      ensures !OccursAt(b, p, key)
    {
      OccursLater(a, b, p, key);
    }
  }

  /** A label is the prefix, digits and an underscore. */
  lemma LabelChars(n: nat)
    ensures var l := LabelText(n);
      && |l| == |PREFIX| + |Digits(n)| + 1 && l[..|PREFIX|] == PREFIX && l[|l| - 1] == '_'
      && forall i :: |PREFIX| <= i < |l| - 1 ==> '0' <= l[i] <= '9' && l[i] == Digits(n)[i - |PREFIX|]
  {
    var l, d := LabelText(n), Digits(n);
    forall i | |PREFIX| <= i < |l| - 1
      ensures '0' <= l[i] <= '9' && l[i] == d[i - |PREFIX|]
    {
      assert l[i] == d[i - |PREFIX|] && d[i - |PREFIX|] in d;
    }
  }

  lemma PrefixOccurs(s: string, p: nat, m: nat)
    ensures OccursAt(s, p, LabelText(m)) ==> OccursAt(s, p, PREFIX)
  {
    var l := LabelText(m);
    LabelChars(m);
    assert forall i :: 0 <= i < |PREFIX| ==> l[i] == PREFIX[i];
  }

  lemma PrefixLetters()
    ensures |PREFIX| == 7 && PREFIX[6] == 'L' && PREFIX[0] == '_' && PREFIX[1] == '_'
    ensures forall i :: 0 <= i < 6 ==> PREFIX[i] != 'L'
  {
  }

  lemma LabelledStarts(first: nat, gaps: seq<string>)
    ensures gaps != [] ==> PREFIX <= Labelled(first, gaps)
    ensures gaps == [] ==> Labelled(first, gaps) == ""
  {
    if gaps != [] {
      assert Labelled(first, gaps) == PREFIX + (Digits(first) + "_" + gaps[0] + Labelled(first + 1, gaps[1..]));
    }
  }

  /** The prefix cannot reach from a text into a label: its last letter, an `L`, recurs nowhere in it. */
  lemma NoReachInto(s: string, t: string, p: nat)
    requires t == "" || PREFIX <= t
    requires p < |s|
    ensures OccursAt(s + t, p, PREFIX) ==> OccursAt(s, p, PREFIX)
  {
    hide PREFIX;
    PrefixLetters();
    var whole := s + t;
    OccursEarlier(s, t, p, PREFIX);
    if |s| < p + 7 <= |whole| {
      assert whole[p + 6] == t[p + 6 - |s|] == PREFIX[p + 6 - |s|];
    }
  }

  /** No label starts inside source text, even at its end where a label follows. */
  lemma NoneInText(s: string, first: nat, gaps: seq<string>, m: nat)
    requires Absent(s, PREFIX)
    ensures NoneBefore(s + Labelled(first, gaps), |s|, LabelText(m))
  {
    var t := Labelled(first, gaps);
    LabelledStarts(first, gaps);
    forall p: nat | p < |s|
      ensures !OccursAt(s + t, p, LabelText(m))
    {
      PrefixOccurs(s + t, p, m);
      NoReachInto(s, t, p);
    }
  }

  /** No label starts inside another label behind its first character. */
  lemma NoneInLabel(first: nat, rest: string, m: nat, p: nat)
    requires rest == "" || rest[0] != '_'
    requires 0 < p < |LabelText(first)|
    ensures !OccursAt(LabelText(first) + rest, p, LabelText(m))
  {
    hide PREFIX, LabelText;
    PrefixLetters();
    var l := LabelText(first);
    var whole := l + rest;
    LabelChars(first);
    PrefixOccurs(whole, p, m);
    if p < 7 {
      if p + 7 <= |whole| {
        InsidePrefix(l, rest, p);
      }
    } else if p < |l| - 1 {
      assert whole[p] == l[p];
    } else if rest != "" {
      assert whole[p + 1] == rest[0];
    }
  }

  /** Overlapping the prefix by a part of it would put an `L` where the prefix has none, or a first
      letter where it ends. */
  lemma InsidePrefix(l: string, rest: string, p: nat)
    requires |l| >= 7 && l[..7] == PREFIX && 0 < p < 7 && p + 7 <= |l + rest|
    ensures !OccursAt(l + rest, p, PREFIX)
  {
    hide PREFIX;
    PrefixLetters();
    assert (l + rest)[6] == l[..7][6] == 'L';
    assert PREFIX[6 - p] != 'L';
  }

  /** One label is no prefix of another. */
  lemma LabelsDiffer(first: nat, rest: string, m: nat)
    requires first != m
    ensures !OccursAt(LabelText(first) + rest, 0, LabelText(m))
  {
    hide PREFIX, LabelText, Digits;
    PrefixLetters();
    DigitsInjective(first, m);
    LabelChars(first);
    LabelChars(m);
    SameLabel(LabelText(first), rest, LabelText(m), Digits(first), Digits(m));
  }

  lemma SameLabel(a: string, rest: string, b: string, da: string, db: string)
    requires |a| == 7 + |da| + 1 && a[|a| - 1] == '_' && forall i :: 7 <= i < |a| - 1 ==> '0' <= a[i] <= '9' && a[i] == da[i - 7]
    requires |b| == 7 + |db| + 1 && b[|b| - 1] == '_' && forall i :: 7 <= i < |b| - 1 ==> '0' <= b[i] <= '9' && b[i] == db[i - 7]
    ensures OccursAt(a + rest, 0, b) ==> da == db
  {
    var s := a + rest;
    OccursFirst(s, b);
    assert s[..|a|] == a && da == a[7..|a| - 1] && db == b[7..|b| - 1];
    if |b| <= |s| {
      assert |a| < |b| ==> s[|a| - 1] == '_';
      assert |b| < |a| ==> s[|b| - 1] == a[|b| - 1];
    }
  }

  /** Replacing an earlier label changes nothing. */
  lemma {:induction false} ReplaceNone(first: nat, gaps: seq<string>, m: nat, value: string)
    requires m < first && GapsOk(gaps) && forall i :: 0 <= i < |gaps| ==> Absent(gaps[i], PREFIX)
    ensures Replace(Labelled(first, gaps), LabelText(m), value) == Labelled(first, gaps)
    decreases |gaps|
  {
    hide LabelText, PREFIX, Absent;
    if gaps != [] {
      var l, g, t := LabelText(first), gaps[0], Labelled(first + 1, gaps[1..]);
      LabelChars(m);
      TailGaps(gaps);
      ReplaceNone(first + 1, gaps[1..], m, value);
      NoneInText(g, first + 1, gaps[1..], m);
      ReplaceSkips(g, t, LabelText(m), value);
      NoneAtLabel(first, gaps, m);
      ReplaceSkips(l, g + t, LabelText(m), value);
      assert l + (g + t) == Labelled(first, gaps);
    }
  }

  lemma TailGaps(gaps: seq<string>)
    requires gaps != [] && GapsOk(gaps)
    ensures GapsOk(gaps[1..])
    ensures forall f: nat :: var rest := gaps[0] + Labelled(f, gaps[1..]); rest == "" || rest[0] != '_'
  {
    forall i | 0 <= i < |gaps| - 1
      ensures if gaps[1..][i] == "" then i == |gaps[1..]| - 1 else gaps[1..][i][0] != '_'
    {
      assert gaps[1..][i] == gaps[i + 1];
    }
  }

  lemma NoneAtLabel(first: nat, gaps: seq<string>, m: nat)
    requires gaps != [] && GapsOk(gaps) && m != first
    ensures NoneBefore(LabelText(first) + (gaps[0] + Labelled(first + 1, gaps[1..])), |LabelText(first)|, LabelText(m))
  {
    hide LabelText, PREFIX;
    var rest := gaps[0] + Labelled(first + 1, gaps[1..]);
    TailGaps(gaps);
    forall p: nat | p < |LabelText(first)|
      ensures !OccursAt(LabelText(first) + rest, p, LabelText(m))
    {
      if p == 0 {
        LabelsDiffer(first, rest, m);
      } else {
        NoneInLabel(first, rest, m, p);
      }
    }
  }

  /** Replacing the next label puts its literal in its place and changes nothing else. */
  lemma ReplaceOne(f: string, first: nat, gaps: seq<string>, value: string)
    requires gaps != [] && GapsOk(gaps) && Absent(f, PREFIX) && forall i :: 0 <= i < |gaps| ==> Absent(gaps[i], PREFIX)
    ensures Replace(f + Labelled(first, gaps), LabelText(first), value)
         == f + value + gaps[0] + Labelled(first + 1, gaps[1..])
  {
    hide LabelText, PREFIX, Absent;
    var l, g, t := LabelText(first), gaps[0], Labelled(first + 1, gaps[1..]);
    LabelChars(first);
    TailGaps(gaps);
    NoneInText(f, first, gaps, first);
    ReplaceSkips(f, Labelled(first, gaps), l, value);
    assert Labelled(first, gaps) == l + (g + t);
    ReplaceHit(l, g + t, value);
    NoneInText(g, first + 1, gaps[1..], first);
    ReplaceSkips(g, t, l, value);
    ReplaceNone(first + 1, gaps[1..], first, value);
    Assoc4(f, value, g, t);
  }

  lemma Assoc4<T>(a: seq<T>, b: seq<T>, c: seq<T>, d: seq<T>)
    ensures a + (b + (c + d)) == a + b + c + d
  {
  }

  /** The whole loop restores the text. */
  lemma {:induction false} LoopRestores(f: string, first: nat, literals: seq<string>, gaps: seq<string>)
    requires |literals| == |gaps| && GapsOk(gaps) && Absent(f + Restored(literals, gaps), PREFIX)
    ensures ReplaceLoop(f + Labelled(first, gaps), first, literals) == f + Restored(literals, gaps)
    decreases |gaps|
  {
    hide PREFIX, Absent, LabelText;
    if gaps == [] {
      assert f + "" == f;
    } else {
      GapsAbsent(f, literals, gaps);
      ReplaceOne(f, first, gaps, literals[0]);
      TailGaps(gaps);
      var f' := f + literals[0] + gaps[0];
      var rest := Restored(literals[1..], gaps[1..]);
      Assoc4(f, literals[0], gaps[0], rest);
      assert f + (literals[0] + gaps[0] + rest) == f' + rest;
      LoopRestores(f', first + 1, literals[1..], gaps[1..]);
    }
  }

  lemma {:induction false} GapsAbsent(f: string, literals: seq<string>, gaps: seq<string>)
    requires |literals| == |gaps| && Absent(f + Restored(literals, gaps), PREFIX)
    ensures Absent(f, PREFIX) && forall i :: 0 <= i < |gaps| ==> Absent(gaps[i], PREFIX)
    decreases |gaps|
  {
    hide PREFIX, Absent;
    assert "" + f == f;
    AbsentInPart("", f, Restored(literals, gaps), PREFIX);
    if gaps != [] {
      var rest := Restored(literals[1..], gaps[1..]);
      assert f + Restored(literals, gaps) == f + literals[0] + gaps[0] + rest;
      AbsentInPart(f + literals[0], gaps[0], rest, PREFIX);
      GapsAbsent(f + literals[0] + gaps[0], literals[1..], gaps[1..]);
      forall i | 0 <= i < |gaps|
        ensures Absent(gaps[i], PREFIX)
      {
        if i > 0 {
          assert gaps[i] == gaps[1..][i - 1];
        }
      }
    }
  }

  // ----- From pieces to gaps -----

  /** The text before the first literal. */
  function Head(pieces: seq<Piece>): string {
    if pieces == [] || pieces[0].Lit? then "" else pieces[0].text + Head(pieces[1..])
  }

  function Gaps(pieces: seq<Piece>): (gaps: seq<string>)
    ensures |gaps| == |Lits(pieces)|
  {
    if pieces == [] then []
    else if pieces[0].Lit? then [Head(pieces[1..])] + Gaps(pieces[1..])
    else Gaps(pieces[1..])
  }

  /** The stripped code as text, with its labels written out. */
  function Rendered(chunks: seq<Chunk>): string {
    if chunks == [] then "" else (if chunks[0].Text? then chunks[0].text else LabelText(chunks[0].n)) + Rendered(chunks[1..])
  }

  lemma {:induction false} SourceByGaps(pieces: seq<Piece>)
    ensures Source(pieces) == Head(pieces) + Restored(Lits(pieces), Gaps(pieces))
  {
    if pieces != [] {
      var rest := pieces[1..];
      SourceByGaps(rest);
      if pieces[0].Raw? {
        assert Lits(pieces) == Lits(rest) && Gaps(pieces) == Gaps(rest);
      } else {
        assert Gaps(pieces)[1..] == Gaps(rest) && Lits(pieces)[1..] == Lits(rest);
      }
    }
  }

  lemma {:induction false} RenderedByGaps(pieces: seq<Piece>, first: nat)
    ensures Rendered(Number(pieces, first)) == Head(pieces) + Labelled(first, Gaps(pieces))
    decreases |pieces|
  {
    hide LabelText;
    if pieces != [] {
      var rest := pieces[1..];
      var chunks := Number(pieces, first);
      if pieces[0].Raw? {
        RenderedByGaps(rest, first);
        assert chunks[1..] == Number(rest, first);
        assert Gaps(pieces) == Gaps(rest);
      } else {
        RenderedByGaps(rest, first + 1);
        assert chunks[1..] == Number(rest, first + 1);
        assert Gaps(pieces)[1..] == Gaps(rest);
      }
    }
  }

  // ----- What follows a literal -----

  ghost predicate Good(p: Piece) {
    p.Raw? && p.text != "" && p.text[0] != '_'
  }

  /** Every literal is the last piece or followed by text that does not start with an underscore. */
  ghost predicate Separated(pieces: seq<Piece>) {
    forall i :: 0 <= i < |pieces| - 1 && pieces[i].Lit? ==> Good(pieces[i + 1])
  }

  ghost predicate EndsRaw(pieces: seq<Piece>) {
    pieces != [] && pieces[|pieces| - 1].Raw?
  }

  lemma SeparatedConcat(a: seq<Piece>, b: seq<Piece>)
    requires Separated(a) && Separated(b)
    requires EndsRaw(a) || (b != [] && Good(b[0]))
    ensures Separated(a + b) && (EndsRaw(b) ==> EndsRaw(a + b))
  {
    var s := a + b;
    forall i | 0 <= i < |s| - 1 && s[i].Lit?
      ensures Good(s[i + 1])
    {
      if i < |a| - 1 {
        assert a[i].Lit? && s[i + 1] == a[i + 1];
      } else if i >= |a| {
        assert b[i - |a|].Lit? && s[i + 1] == b[i - |a| + 1];
      }
    }
  }

  /** A parse is well separated, and it ends in source text when it stops before the end. */
  ghost predicate WellFormed(r: Parsed) {
    Separated(r.pieces) && (r.pos.Some? ==> EndsRaw(r.pieces))
  }

  lemma PrependFormed(pieces: seq<Piece>, r: Parsed)
    requires Separated(pieces) && EndsRaw(pieces) && WellFormed(r)
    ensures WellFormed(Prepend(pieces, r))
  {
    SeparatedConcat(pieces, r.pieces);
  }

  lemma {:induction false} QuoteToken(code: string, pos: nat, isFString: bool)
    requires pos <= |code|
    ensures var t := FindCodeToken(code, pos); t.Quote? ==> IsQuote(code[t.from])
    ensures var t := FindCodeToken(code, pos); !t.NoToken? ==> pos < t.end
    decreases |code| - pos
  {
    if pos < |code| && CodeTokenAt(code, pos).NoToken? {
      QuoteToken(code, pos + 1, isFString);
    }
  }

  lemma LitAndRaw(text: string, last: string, some: bool)
    requires last != "" && last[0] != '_'
    ensures var p := (if some then [Lit(text)] else []) + [Raw(last)]; Separated(p) && EndsRaw(p)
  {
  }

  lemma {:induction false} StringFormed(code: string, quote: string, isFString: bool, start: nat, pos: nat)
    requires start <= pos <= |code| && quote != "" && IsQuote(quote[0])
    ensures WellFormed(StringFrom(code, quote, isFString, start, pos))
    decreases |code| - pos, 0
  {
    hide WellFormed, FindStringToken, FindCodeToken, CodeFrom, Separated, EndsRaw, Prepend;
    match FindStringToken(code, pos, isFString)
    case NoToken =>
      EndFormed(Lit(code[start..]));
    case Escape(count, q, end) =>
      if count % 2 == 0 && q == quote[0] {
        StringFormed(code, quote, isFString, start, end - 1);
      } else {
        StringFormed(code, quote, isFString, start, end);
      }
    case Braces(count, c, end) =>
      if count % 2 == 0 || c == '}' {
        StringFormed(code, quote, isFString, start, end);
      } else {
        CodeFormed(code, true, end, end);
        var nested := CodeFrom(code, true, end, end);
        LitAndRaw(code[start..end - 1], "{", start < end - 1);
        var head := (if start < end - 1 then [Lit(code[start..end - 1])] else []) + [Raw("{")];
        if nested.pos.None? {
          PrependFormed(head, nested);
        } else {
          var after := nested.pos.value;
          StringFormed(code, quote, isFString, after, after);
          StoppedFormed(nested);
          PrependFormed(nested.pieces, StringFrom(code, quote, isFString, after, after));
          PrependFormed(head, Prepend(nested.pieces, StringFrom(code, quote, isFString, after, after)));
        }
      }
    case Quote(_, from, end) =>
      if quote <= code[from..end] {
        LitAndRaw(code[start..from], quote, from > start);
        StopFormed((if from > start then [Lit(code[start..from])] else []) + [Raw(quote)], from + |quote|);
      } else {
        StringFormed(code, quote, isFString, start, end);
      }
  }

  lemma EndFormed(p: Piece)
    ensures WellFormed(Parsed([p], None)) && WellFormed(Parsed([], None))
  {
  }

  lemma StopFormed(pieces: seq<Piece>, pos: nat)
    requires Separated(pieces) && EndsRaw(pieces)
    ensures WellFormed(Parsed(pieces, Some(pos)))
  {
  }

  lemma StoppedFormed(r: Parsed)
    requires WellFormed(r) && r.pos.Some?
    ensures Separated(r.pieces) && EndsRaw(r.pieces)
  {
  }

  lemma RawFormed(text: string)
    ensures Separated([Raw(text)]) && EndsRaw([Raw(text)])
  {
  }

  lemma {:induction false} CodeFormed(code: string, inFString: bool, start: nat, pos: nat)
    requires start <= pos <= |code|
    ensures WellFormed(CodeFrom(code, inFString, start, pos))
    decreases |code| - pos, 1
  {
    hide WellFormed, FindStringToken, FindCodeToken, StringFrom, Separated, EndsRaw, Opening, Surplus, Prepend, LineEnd;
    match FindCodeToken(code, pos)
    case NoToken =>
      EndFormed(Raw(code[start..]));
    case Quote(fstring, from, end) =>
      var run := end - from;
      if Opening(run) == 0 {
        CodeFormed(code, inFString, start, end);
      } else {
        var open := end - Surplus(run);
        var quote := code[from..from + Opening(run)];
        QuoteToken(code, pos, false);
        StringFormed(code, quote, fstring, open, open);
        var inner := StringFrom(code, quote, fstring, open, open);
        RawFormed(code[start..open]);
        if inner.pos.None? {
          PrependFormed([Raw(code[start..open])], inner);
        } else {
          var after := inner.pos.value;
          CodeFormed(code, inFString, after, after);
          StoppedFormed(inner);
          PrependFormed(inner.pieces, CodeFrom(code, inFString, after, after));
          PrependFormed([Raw(code[start..open])], Prepend(inner.pieces, CodeFrom(code, inFString, after, after)));
        }
      }
    case Comment(end) =>
      var eol := LineEnd(code, end);
      if eol == |code| {
        CommentFormed(code[start..end], code[end..eol], Parsed([], None));
      } else {
        CodeFormed(code, inFString, eol, eol);
        FirstPiece(code, inFString, eol, eol);
        CommentFormed(code[start..end], code[end..eol], CodeFrom(code, inFString, eol, eol));
      }
    case Brace(c, end) =>
      if !inFString {
        CodeFormed(code, inFString, start, end);
      } else {
        RawFormed(code[start..end]);
        if c == '}' {
          StopFormed([Raw(code[start..end])], end);
        } else {
          CodeFormed(code, true, end, end);
          var nested := CodeFrom(code, true, end, end);
          if nested.pos.None? {
            PrependFormed([Raw(code[start..end])], nested);
          } else {
            var after := nested.pos.value;
            CodeFormed(code, inFString, after, after);
            StoppedFormed(nested);
            PrependFormed(nested.pieces, CodeFrom(code, inFString, after, after));
            PrependFormed([Raw(code[start..end])], Prepend(nested.pieces, CodeFrom(code, inFString, after, after)));
          }
        }
      }
  }

  lemma CommentFormed(text: string, comment: string, r: Parsed)
    requires r == Parsed([], None) || (WellFormed(r) && r.pieces != [] && Good(r.pieces[0]))
    ensures WellFormed(Prepend([Raw(text), Lit(comment)], r))
  {
    var p := [Raw(text), Lit(comment)];
    if r.pieces == [] {
      assert p + r.pieces == p;
    } else {
      SeparatedConcat(p, r.pieces);
    }
  }

  /** Code that follows a comment starts with the newline. */
  lemma {:induction false} FirstPiece(code: string, inFString: bool, start: nat, pos: nat)
    requires start <= pos <= |code| && start < |code| && code[start] != '_'
    ensures var p := CodeFrom(code, inFString, start, pos).pieces; p != [] && Good(p[0])
    decreases |code| - pos
  {
    hide FindStringToken, FindCodeToken, StringFrom, Opening, Surplus;
    match FindCodeToken(code, pos)
    case NoToken =>
      assert code[start..][0] == code[start];
    case Quote(fstring, from, end) =>
      if Opening(end - from) == 0 {
        FirstPiece(code, inFString, start, end);
      } else {
        OpenFits(end - from);
        assert code[start..end - Surplus(end - from)][0] == code[start];
      }
    case Comment(end) =>
      assert code[start..end][0] == code[start];
    case Brace(c, end) =>
      if !inFString {
        FirstPiece(code, inFString, start, end);
      } else {
        assert code[start..end][0] == code[start];
      }
  }

  lemma OpenFits(run: nat)
    ensures Opening(run) > 0 ==> Surplus(run) < run
  {
  }

  lemma {:induction false} SeparatedGaps(pieces: seq<Piece>)
    requires Separated(pieces)
    ensures GapsOk(Gaps(pieces))
  {
    if pieces != [] {
      var rest := pieces[1..];
      forall i | 0 <= i < |rest| - 1 && rest[i].Lit?
        ensures Good(rest[i + 1])
      {
        assert pieces[i + 1].Lit? && pieces[i + 2] == rest[i + 1];
      }
      SeparatedGaps(rest);
      if pieces[0].Lit? {
        var g, gaps := Gaps(rest), Gaps(pieces);
        assert rest != [] ==> Good(pieces[0 + 1]);
        forall i | 0 <= i < |gaps|
          ensures if gaps[i] == "" then i == |gaps| - 1 else gaps[i][0] != '_'
        {
          if i > 0 {
            assert gaps[i] == g[i - 1];
          }
        }
      }
    }
  }

  /** When the label prefix does not occur in the source, replacing the labels one after another in the
      stripped text by their literals restores the source. */
  lemma ReplacementRestores(code: string)
    requires Absent(code, PREFIX)
    ensures ReplaceLoop(Rendered(Number(Strip(code), 1)), 1, Lits(Strip(code))) == code
  {
    hide Absent, Separated, GapsOk, CodeFrom;
    var pieces := Strip(code);
    Lossless(code);
    SourceByGaps(pieces);
    RenderedByGaps(pieces, 1);
    CodeFormed(code, false, 0, 0);
    SeparatedGaps(pieces);
    LoopRestores(Head(pieces), 1, Lits(pieces), Gaps(pieces));
  }
}
