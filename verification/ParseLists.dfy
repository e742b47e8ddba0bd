/** `parse_list` of Cython/Build/Dependencies.py: lists of possibly quoted items, in brackets and separated by commas
    or without brackets and separated by spaces.  Quoted items are first replaced by labels, so that separators inside
    them do not split.  `ParsesFields` says what any such list is parsed to. */
module ParseLists {
  import opened Decimals
  import opened StripTokens
  import opened StripLiterals
  import opened StripRestore

  predicate IsSpace(c: char) {
    c in " \t\n\r" || c == 0x0B as char || c == 0x0C as char
  }

  function TrimLeft(s: string): string {
    if s != "" && IsSpace(s[0]) then TrimLeft(s[1..]) else s
  }

  function TrimRight(s: string): string {
    if s != "" && IsSpace(s[|s| - 1]) then TrimRight(s[..|s| - 1]) else s
  }

  /** `str.strip` for the ASCII white space. */
  function Trim(s: string): string {
    TrimRight(TrimLeft(s))
  }

  function Index(s: string, d: char): (i: nat)
    requires d in s
    ensures i < |s| && s[i] == d && d !in s[..i]
  {
    if s[0] == d then 0 else
    var i := 1 + Index(s[1..], d);
    assert s[..i] == [s[0]] + s[1..][..i - 1];
    i
  }

  /** `str.split` with a separator. */
  function Split(s: string, d: char): seq<string> {
    if d !in s then [s] else [s[..Index(s, d)]] + Split(s[Index(s, d) + 1..], d)
  }

  /** The literal stored under a label; nothing for a text that is no label. */
  function Lookup(name: string, first: nat, literals: seq<string>): Option<string>
    decreases |literals|
  {
    if literals == [] then None
    else if name == LabelText(first) then Some(literals[0])
    else Lookup(name, first + 1, literals[1..])
  }

  function Unquote(item: string, literals: seq<string>): Option<string>
    requires Trim(item) != ""
  {
    var t := Trim(item);
    if IsQuote(t[0]) then Lookup(if |t| >= 2 then t[1..|t| - 1] else "", 1, literals) else Some(t)
  }

  function UnquoteAll(items: seq<string>, literals: seq<string>): Option<seq<string>> {
    if items == [] then Some([])
    else if Trim(items[0]) == "" then UnquoteAll(items[1..], literals)
    else
      match (Unquote(items[0], literals), UnquoteAll(items[1..], literals))
      case (Some(x), Some(rest)) => Some([x] + rest)
      case _ => None
  }

  /** `None` stands for the key error on a quoted text that is no label. */
  function ParseList(s: string): Option<seq<string>> {
    var bracketed := |s| >= 2 && s[0] == '[' && s[|s| - 1] == ']';
    var body := if bracketed then s[1..|s| - 1] else s;
    var pieces := Strip(body);
    UnquoteAll(Split(Rendered(Number(pieces, 1)), if bracketed then ',' else ' '), Lits(pieces))
  }

  // ----- Lists as they are written -----

  datatype Item = Word(text: string) | InQuotes(quote: char, text: string)

  /** What stands between two separators: an item or none, and white space around it. */
  datatype Field = Field(before: string, item: Option<Item>, after: string)

  function ItemText(item: Item): string {
    match item
    case Word(text) => text
    case InQuotes(quote, text) => [quote] + text + [quote]
  }

  function Middle(f: Field): string {
    match f.item
    case None => ""
    case Some(item) => ItemText(item)
  }

  function FieldText(f: Field): string {
    f.before + Middle(f) + f.after
  }

  function Joined(fields: seq<Field>, d: char): string {
    if fields == [] then ""
    else if |fields| == 1 then FieldText(fields[0])
    else FieldText(fields[0]) + [d] + Joined(fields[1..], d)
  }

  /** The texts of the items; fields without one are dropped. */
  function Values(fields: seq<Field>): seq<string> {
    if fields == [] then []
    else (if fields[0].item.Some? then [fields[0].item.value.text] else []) + Values(fields[1..])
  }

  predicate Blank(s: string) {
    forall i :: 0 <= i < |s| ==> IsSpace(s[i])
  }

  /** Does not begin or end with white space. */
  predicate Trimmed(s: string) {
    s != "" && !IsSpace(s[0]) && !IsSpace(s[|s| - 1])
  }

  /** Neither quotes, comments nor separators. */
  predicate WordOk(w: string, d: char) {
    Trimmed(w) && forall i :: 0 <= i < |w| ==> !IsQuote(w[i]) && w[i] != '#' && w[i] != d
  }

  /** Not empty, and its own quote does not end it: a backslash hides the character behind it. */
  predicate QuotedOk(q: char, x: string) {
    IsQuote(q) && x != "" && Open(q, x)
  }

  predicate Open(q: char, x: string) {
    x == "" || (if x[0] == '\\' then |x| >= 2 && Open(q, x[2..]) else x[0] != q && Open(q, x[1..]))
  }

  predicate ItemOk(item: Item, d: char) {
    match item
    case Word(text) => WordOk(text, d)
    case InQuotes(quote, text) => QuotedOk(quote, text)
  }

  predicate FieldOk(f: Field, d: char) {
    Blank(f.before) && Blank(f.after) && d !in f.before && d !in f.after && (f.item.Some? ==> ItemOk(f.item.value, d))
  }

  predicate FieldsOk(fields: seq<Field>, d: char) {
    fields != [] && forall i :: 0 <= i < |fields| ==> FieldOk(fields[i], d)
  }

  predicate Wrapped(s: string) {
    |s| >= 2 && s[0] == '[' && s[|s| - 1] == ']'
  }

  // ----- Stripping them -----

  /** Without quotes and comments nothing is stripped. */
  lemma {:induction false} SkipPlain(code: string, start: nat, pos: nat, next: nat)
    requires start <= pos <= next <= |code| && forall i :: pos <= i < next ==> !IsQuote(code[i]) && code[i] != '#'
    requires pos < next < |code| && IsQuote(code[next]) ==> code[next - 1] != 'f'
    ensures CodeFrom(code, false, start, pos) == CodeFrom(code, false, start, next)
    decreases next - pos
  {
    hide StringFrom, CodeFrom, FindCodeToken;
    if pos < next {
      SkipOne(code, start, pos);
      SkipPlain(code, start, pos + 1, next);
    }
  }

  lemma SkipOne(code: string, start: nat, pos: nat)
    requires start <= pos < |code| && !IsQuote(code[pos]) && code[pos] != '#'
    requires code[pos] == 'f' && pos + 1 < |code| ==> !IsQuote(code[pos + 1])
    ensures CodeFrom(code, false, start, pos) == CodeFrom(code, false, start, pos + 1)
  {
    hide StringFrom, FindCodeToken, Prepend, Opening, Surplus, LineEnd;
    TokenSkipped(code, pos);
  }

  lemma TokenSkipped(code: string, pos: nat)
    requires pos < |code| && !IsQuote(code[pos]) && code[pos] != '#'
    requires code[pos] == 'f' && pos + 1 < |code| ==> !IsQuote(code[pos + 1])
    ensures FindCodeToken(code, pos) ==
            if IsBrace(code[pos]) then Brace(code[pos], pos + 1) else FindCodeToken(code, pos + 1)
  {
  }

  lemma AtEnd(code: string, start: nat)
    requires start <= |code|
    ensures CodeFrom(code, false, start, |code|).pieces == [Raw(code[start..])]
  {
  }

  /** The text from `pos` to the closing quote at `close` stays inside the item. */
  ghost predicate Inside(code: string, pos: nat, close: nat, q: char) {
    pos <= close < |code| && code[close] == q && IsQuote(q) && Open(q, code[pos..close])
  }

  lemma InsideNext(code: string, pos: nat, close: nat, q: char)
    requires pos < close && Inside(code, pos, close, q)
    ensures code[pos] != '\\' ==> code[pos] != q && Inside(code, pos + 1, close, q)
    ensures code[pos] == '\\' ==> pos + 2 <= close && Inside(code, pos + 2, close, q)
  {
    var x := code[pos..close];
    assert x[0] == code[pos] && x[1..] == code[pos + 1..close];
    assert |x| >= 2 ==> x[2..] == code[pos + 2..close];
  }

  lemma InsidePlain(code: string, pos: nat, close: nat, q: char)
    requires pos < close < |code| && code[pos] != '\\' && code[pos] != q && Inside(code, pos + 1, close, q)
    ensures Inside(code, pos, close, q)
  {
    var x := code[pos..close];
    assert x[0] == code[pos] && x[1..] == code[pos + 1..close];
  }

  /** A run of backslashes hides the character behind it if its length is odd. */
  lemma {:induction false} InsideRun(code: string, pos: nat, close: nat, q: char)
    requires Inside(code, pos, close, q)
    ensures var e := RunEnd(code, pos, '\\');
      e <= close && if (e - pos) % 2 == 0 then Inside(code, e, close, q) else e < close && Inside(code, e + 1, close, q)
    decreases close - pos
  {
    hide Inside;
    OnlyInside(code, pos, close, q);
    if code[pos] == '\\' {
      InsideNext(code, pos, close, q);
      assert RunEnd(code, pos, '\\') == RunEnd(code, pos + 1, '\\');
      if code[pos + 1] == '\\' {
        assert RunEnd(code, pos + 1, '\\') == RunEnd(code, pos + 2, '\\');
        InsideRun(code, pos + 2, close, q);
      }
    }
  }

  lemma OnlyInside(code: string, pos: nat, close: nat, q: char)
    requires Inside(code, pos, close, q)
    ensures pos <= close < |code| && code[close] == q && IsQuote(q)
    ensures code[pos] == '\\' ==> pos < close
  {
  }

  /** Behind a backslash in a run that hides no quote the text is inside the item as well. */
  lemma InsideAny(code: string, pos: nat, close: nat, q: char)
    requires pos < close && Inside(code, pos, close, q) && code[pos] == '\\'
    requires RunEnd(code, pos, '\\') < |code| && !IsQuote(code[RunEnd(code, pos, '\\')])
    ensures Inside(code, pos + 1, close, q)
  {
    hide Inside;
    var e := RunEnd(code, pos, '\\');
    OnlyInside(code, pos, close, q);
    InsideRun(code, pos, close, q);
    if (e - pos) % 2 == 0 {
      InsideNext(code, e, close, q);
    }
    InsidePlain(code, e, close, q);
    InsideBack(code, pos + 1, e, close, q);
  }

  lemma {:induction false} InsideBack(code: string, k: nat, e: nat, close: nat, q: char)
    requires k <= e < close < |code| && forall i :: k <= i < e ==> code[i] == '\\'
    requires Inside(code, e, close, q) && Inside(code, e + 1, close, q)
    ensures Inside(code, k, close, q)
    decreases e - k
  {
    if k < e {
      if k + 1 < e {
        InsideBack(code, k + 2, e, close, q);
      }
      assert code[k..close][0] == '\\' && code[k..close][2..] == code[k + 2..close];
    }
  }

  /** A run of the other quote is text. */
  lemma {:induction false} InsideOther(code: string, pos: nat, close: nat, q: char, c: char)
    requires Inside(code, pos, close, q) && c != q && c != '\\'
    ensures RunEnd(code, pos, c) <= close && Inside(code, RunEnd(code, pos, c), close, q)
    decreases close - pos
  {
    hide Inside;
    OnlyInside(code, pos, close, q);
    if pos < close && code[pos] == c {
      InsideNext(code, pos, close, q);
      InsideOther(code, pos + 1, close, q, c);
    }
  }

  /** The search for a token may as well start behind a character that no token starts with, or an `f`. */
  lemma SearchOn(code: string, q: char, start: nat, pos: nat)
    requires start <= pos < |code| && !IsQuote(code[pos])
    requires code[pos] == '\\' ==>
               RunEnd(code, pos, '\\') < |code| && !IsQuote(code[RunEnd(code, pos, '\\')])
    ensures StringFrom(code, [q], false, start, pos) == StringFrom(code, [q], false, start, pos + 1)
  {
    hide FindStringToken, StringTokenAt, CodeFrom;
    SameToken(code, pos);
  }

  lemma SameToken(code: string, pos: nat)
    requires pos < |code| && !IsQuote(code[pos])
    requires code[pos] == '\\' ==> RunEnd(code, pos, '\\') < |code| && !IsQuote(code[RunEnd(code, pos, '\\')])
    ensures var t, u := FindStringToken(code, pos, false), FindStringToken(code, pos + 1, false);
      t == u || (t.Quote? && u == Quote(false, t.from, t.end))
  {
  }

  /** Backslashes in front of a quote are passed over, with the quote if it is hidden or another one. */
  lemma SearchEscape(code: string, q: char, start: nat, pos: nat)
    requires start <= pos < |code| && code[pos] == '\\'
    requires RunEnd(code, pos, '\\') < |code| && IsQuote(code[RunEnd(code, pos, '\\')])
    ensures var e := RunEnd(code, pos, '\\');
      StringFrom(code, [q], false, start, pos) ==
      StringFrom(code, [q], false, start, if (e - pos) % 2 == 0 && code[e] == q then e else e + 1)
  {
    hide RunEnd, FindStringToken, CodeFrom, Prepend;
    EscapeToken(code, pos);
  }

  lemma EscapeToken(code: string, pos: nat)
    requires pos < |code| && code[pos] == '\\'
    requires RunEnd(code, pos, '\\') < |code| && IsQuote(code[RunEnd(code, pos, '\\')])
    ensures var e := RunEnd(code, pos, '\\');
      pos < e && FindStringToken(code, pos, false) == Escape(e - pos, code[e], e + 1)
  {
  }

  lemma SearchOther(code: string, q: char, start: nat, pos: nat)
    requires start <= pos < |code| && IsQuote(code[pos]) && code[pos] != q
    ensures var e := RunEnd(code, pos, code[pos]);
      pos < e && StringFrom(code, [q], false, start, pos) == StringFrom(code, [q], false, start, e)
  {
    var e := RunEnd(code, pos, code[pos]);
    assert code[pos..e][0] == code[pos];
  }

  lemma SearchEnds(code: string, q: char, start: nat, close: nat)
    requires start < close < |code| && code[close] == q && IsQuote(q)
    ensures StringFrom(code, [q], false, start, close) == Parsed([Lit(code[start..close]), Raw([q])], Some(close + 1))
  {
    var e := RunEnd(code, close, q);
    assert code[close..e][0] == q;
    assert [Lit(code[start..close])] + [Raw([q])] == [Lit(code[start..close]), Raw([q])];
  }

  /** The whole item becomes one literal. */
  lemma {:induction false} ItemLiteral(code: string, start: nat, pos: nat, close: nat, q: char)
    requires start <= pos && start < close && Inside(code, pos, close, q)
    ensures StringFrom(code, [q], false, start, pos) == Parsed([Lit(code[start..close]), Raw([q])], Some(close + 1))
    decreases close - pos
  {
    hide StringFrom, Inside;
    OnlyInside(code, pos, close, q);
    if pos == close {
      SearchEnds(code, q, start, close);
    } else if code[pos] == '\\' {
      var e := RunEnd(code, pos, '\\');
      InsideRun(code, pos, close, q);
      if IsQuote(code[e]) {
        SearchEscape(code, q, start, pos);
        if (e - pos) % 2 == 0 && code[e] != q {
          InsideNext(code, e, close, q);
        }
        ItemLiteral(code, start, if (e - pos) % 2 == 0 && code[e] == q then e else e + 1, close, q);
      } else {
        InsideAny(code, pos, close, q);
        SearchOn(code, q, start, pos);
        ItemLiteral(code, start, pos + 1, close, q);
      }
    } else {
      InsideNext(code, pos, close, q);
      if IsQuote(code[pos]) {
        SearchOther(code, q, start, pos);
        InsideOther(code, pos, close, q, code[pos]);
        ItemLiteral(code, start, RunEnd(code, pos, code[pos]), close, q);
      } else {
        SearchOn(code, q, start, pos);
        ItemLiteral(code, start, pos + 1, close, q);
      }
    }
  }

  /** A quoted item in code: its opening quote, its text as a literal, its closing quote. */
  lemma QuotedStripped(code: string, start: nat, at: nat, q: char, x: string)
    requires start <= at && at + |x| + 2 <= |code| && QuotedOk(q, x)
    requires code[at] == q && code[at + 1..at + 1 + |x|] == x && code[at + 1 + |x|] == q
    ensures var next := at + |x| + 2;
      CodeFrom(code, false, start, at).pieces
      == [Raw(code[start..at + 1]), Lit(x), Raw([q])] + CodeFrom(code, false, next, next).pieces
  {
    hide FindStringToken, StringFrom, CodeFrom, FindCodeToken, QuotedOk, Prepend, Inside;
    var open, close := at + 1, at + 1 + |x|;
    ItemInside(code, open, q, x);
    OpensItem(code, at);
    assert code[at..at + 1] == [q];
    ItemLiteral(code, open, open, close, q);
    var inner, rest := Parsed([Lit(x), Raw([q])], Some(close + 1)), CodeFrom(code, false, close + 1, close + 1);
    QuoteStep(code, start, at);
    PrependTwice(code[start..open], inner.pieces, rest);
  }

  /** A single quote in code. */
  lemma QuoteStep(code: string, start: nat, at: nat)
    requires start <= at < |code| && FindCodeToken(code, at) == Quote(false, at, at + 1)
    ensures var inner := StringFrom(code, code[at..at + 1], false, at + 1, at + 1);
      CodeFrom(code, false, start, at) ==
      Prepend([Raw(code[start..at + 1])],
              if inner.pos.None? then inner
              else Prepend(inner.pieces, CodeFrom(code, false, inner.pos.value, inner.pos.value)))
  {
    hide StringFrom, FindCodeToken, Prepend;
    assert Opening(1) == 1 && Surplus(1) == 0;
  }

  lemma PrependTwice(text: string, pieces: seq<Piece>, rest: Parsed)
    ensures Prepend([Raw(text)], Prepend(pieces, rest)).pieces == [Raw(text)] + pieces + rest.pieces
    ensures |pieces| == 2 ==> [Raw(text)] + pieces == [Raw(text), pieces[0], pieces[1]]
  {
  }

  lemma ItemInside(code: string, open: nat, q: char, x: string)
    requires open + |x| < |code| && QuotedOk(q, x) && code[open..open + |x|] == x && code[open + |x|] == q
    ensures Inside(code, open, open + |x|, q) && x != "" && code[open] != q && IsQuote(q)
  {
    assert code[open] == x[0];
  }

  lemma OpensItem(code: string, at: nat)
    requires at + 1 < |code| && IsQuote(code[at]) && code[at + 1] != code[at]
    ensures FindCodeToken(code, at) == Quote(false, at, at + 1)
  {
    assert RunEnd(code, at, code[at]) == RunEnd(code, at + 1, code[at]) == at + 1;
  }

  /** The fields with labels in place of what is in quotes. */
  function Labelled(fields: seq<Field>, n: nat): seq<Field> {
    if fields == [] then []
    else
      var f := fields[0];
      if f.item.Some? && f.item.value.InQuotes? then
        [f.(item := Some(InQuotes(f.item.value.quote, LabelText(n))))] + Labelled(fields[1..], n + 1)
      else [f] + Labelled(fields[1..], n)
  }

  function Texts(fields: seq<Field>): seq<string> {
    if fields == [] then []
    else
      var f := fields[0];
      (if f.item.Some? && f.item.value.InQuotes? then [f.item.value.text] else []) + Texts(fields[1..])
  }

  lemma ThreePieces(a: string, x: string, b: string, rest: seq<Piece>, first: nat)
    ensures var p := [Raw(a), Lit(x), Raw(b)] + rest;
      && Rendered(Number(p, first)) == a + LabelText(first) + b + Rendered(Number(rest, first + 1))
      && Lits(p) == [x] + Lits(rest)
  {
    hide LabelText;
    var p := [Raw(a), Lit(x), Raw(b)] + rest;
    var p1, p2 := [Lit(x), Raw(b)] + rest, [Raw(b)] + rest;
    assert p[1..] == p1 && p1[1..] == p2 && p2[1..] == rest;
    var n2, n1, n := Number(p2, first + 1), Number(p1, first), Number(p, first);
    assert n2 == [Text(b)] + Number(rest, first + 1) && n2[1..] == Number(rest, first + 1);
    assert n1 == [Label(first)] + n2 && n1[1..] == n2;
    assert n == [Text(a)] + n1 && n[1..] == n1;
    assert Rendered(n2) == b + Rendered(Number(rest, first + 1));
    assert Rendered(n1) == LabelText(first) + Rendered(n2);
    assert Lits(p2) == Lits(rest) && Lits(p1) == [x] + Lits(p2) && Lits(p) == Lits(p1);
  }

  lemma OnePiece(text: string, n: nat)
    ensures Rendered(Number([Raw(text)], n)) == text && Lits([Raw(text)]) == []
  {
    var p: seq<Piece> := [Raw(text)];
    assert p[1..] == [];
    var chunks := Number(p, n);
    assert chunks == [Text(text)] + Number(p[1..], n) && chunks[1..] == [];
    assert Lits(p) == Lits(p[1..]);
  }

  /** Where the field at `at` ends, its separator included. */
  lemma FieldEnd(code: string, at: nat, fields: seq<Field>, d: char) returns (stop: nat)
    requires fields != [] && at <= |code| && code[at..] == Joined(fields, d)
    ensures at <= stop <= |code|
    ensures |fields| == 1 ==> stop == |code| && code[at..stop] == FieldText(fields[0])
    ensures |fields| > 1 ==> stop == at + |FieldText(fields[0])| + 1 && code[at..stop] == FieldText(fields[0]) + [d]
                             && code[stop..] == Joined(fields[1..], d) && code[stop - 1] == d
  {
    var tail := code[at..];
    if |fields| == 1 {
      stop := |code|;
    } else {
      var n := |FieldText(fields[0])|;
      stop := at + n + 1;
      assert tail[..n + 1] == FieldText(fields[0]) + [d] && tail[n + 1..] == Joined(fields[1..], d);
      assert tail[n] == d;
    }
  }

  lemma LabelledFirst(fields: seq<Field>, n: nat)
    requires fields != []
    ensures |Labelled(fields, n)| == |fields|
    ensures var f := fields[0];
      if f.item.Some? && f.item.value.InQuotes?
      then Labelled(fields, n)[0] == f.(item := Some(InQuotes(f.item.value.quote, LabelText(n))))
           && Labelled(fields, n)[1..] == Labelled(fields[1..], n + 1)
      else Labelled(fields, n)[0] == f && Labelled(fields, n)[1..] == Labelled(fields[1..], n)
  {
    hide LabelText;
    LabelledLength(fields, n);
  }

  lemma {:induction false} LabelledLength(fields: seq<Field>, n: nat)
    ensures |Labelled(fields, n)| == |fields|
  {
    hide LabelText;
    if fields != [] {
      LabelledLength(fields[1..], n);
      LabelledLength(fields[1..], n + 1);
    }
  }

  /** A field without quotes is passed over. */
  lemma PlainField(code: string, start: nat, at: nat, stop: nat, f: Field, d: char)
    requires start <= at <= stop <= |code| && FieldOk(f, d) && (d == ' ' || d == ',')
    requires f.item.Some? ==> f.item.value.Word?
    requires if stop == |code| then code[at..stop] <= FieldText(f) + [d] else code[at..stop] == FieldText(f) + [d]
    ensures CodeFrom(code, false, start, at) == CodeFrom(code, false, start, stop)
  {
    hide CodeFrom;
    var text := FieldText(f) + [d];
    forall i | at <= i < stop
      ensures !IsQuote(code[i]) && code[i] != '#'
    {
      assert code[i] == code[at..stop][i - at] == text[i - at];
    }
    assert stop < |code| ==> code[stop - 1] == code[at..stop][stop - 1 - at] == d;
    SkipPlain(code, start, at, stop);
  }

  /** White space and a separator behind a quoted item. */
  lemma BlankSkipped(code: string, start: nat, at: nat, stop: nat, blank: string, d: char)
    requires start <= at <= stop <= |code| && Blank(blank) && (d == ' ' || d == ',')
    requires code[at..stop] == blank || code[at..stop] == blank + [d]
    ensures CodeFrom(code, false, start, at) == CodeFrom(code, false, start, stop)
  {
    hide CodeFrom;
    var text := blank + [d];
    forall i | at <= i < stop
      ensures !IsQuote(code[i]) && code[i] != '#' && code[i] != 'f'
    {
      assert code[i] == code[at..stop][i - at] == text[i - at];
    }
    SkipPlain(code, start, at, stop);
  }

  lemma {:induction false} FieldsStripped(code: string, start: nat, at: nat, fields: seq<Field>, d: char, n: nat)
    requires FieldsOk(fields, d) && (d == ' ' || d == ',') && start <= at <= |code| && code[at..] == Joined(fields, d)
    ensures var p := CodeFrom(code, false, start, at).pieces;
      Rendered(Number(p, n)) == code[start..at] + Joined(Labelled(fields, n), d) && Lits(p) == Texts(fields)
    decreases |fields|, 2
  {
    hide CodeFrom, Rendered, Number, Lits, LabelText, FieldOk, FieldText, Labelled;
    var f, rest := fields[0], fields[1..];
    assert FieldOk(f, d);
    LabelledFirst(fields, n);
    if f.item.Some? && f.item.value.InQuotes? {
      QuotedFieldStripped(code, start, at, fields, d, n);
    } else {
      var stop := FieldEnd(code, at, fields, d);
      PlainField(code, start, at, stop, f, d);
      if rest == [] {
        AtEnd(code, start);
        OnePiece(code[start..], n);
        assert code[start..] == code[start..at] + code[at..];
        assert Texts(rest) == [];
      } else {
        FieldsStripped(code, start, stop, rest, d, n);
        assert code[start..stop] == code[start..at] + code[at..stop];
        LabelledFirst(rest, n);
      }
    }
  }

  lemma {:induction false} QuotedFieldStripped(code: string, start: nat, at: nat, fields: seq<Field>, d: char, n: nat)
    requires FieldsOk(fields, d) && (d == ' ' || d == ',') && start <= at <= |code| && code[at..] == Joined(fields, d)
    requires fields[0].item.Some? && fields[0].item.value.InQuotes?
    ensures var p := CodeFrom(code, false, start, at).pieces;
      Rendered(Number(p, n)) == code[start..at] + Joined(Labelled(fields, n), d) && Lits(p) == Texts(fields)
    decreases |fields|, 1
  {
    hide CodeFrom, Rendered, Number, Lits, LabelText, Labelled, FieldOk, Joined, FieldText;
    var f, rest := fields[0], fields[1..];
    var q, x := f.item.value.quote, f.item.value.text;
    LabelledFirst(fields, n);
    var stop := FieldEnd(code, at, fields, d);
    var next := QuotedFieldStart(code, start, at, stop, f, d);
    ThreePieces(code[start..at] + f.before + [q], x, [q], CodeFrom(code, false, next, next).pieces, n);
    RestStripped(code, next, stop, fields, d, n + 1);
    var l := if rest == [] then "" else [d] + Joined(Labelled(rest, n + 1), d);
    LastJoined(code[start..at], f, q, LabelText(n), l);
    JoinedFirst(Labelled(fields, n), d);
  }

  lemma QuotedFieldStart(code: string, start: nat, at: nat, stop: nat, f: Field, d: char) returns (next: nat)
    requires start <= at <= stop <= |code| && FieldOk(f, d) && (d == ' ' || d == ',')
    requires f.item.Some? && f.item.value.InQuotes?
    requires code[at..stop] == FieldText(f) || code[at..stop] == FieldText(f) + [d]
    ensures next <= stop
    ensures code[next..stop] == if code[at..stop] == FieldText(f) then f.after else f.after + [d]
    ensures CodeFrom(code, false, next, next) == CodeFrom(code, false, next, stop)
    ensures var q, x := f.item.value.quote, f.item.value.text;
      CodeFrom(code, false, start, at).pieces
      == [Raw(code[start..at] + f.before + [q]), Lit(x), Raw([q])] + CodeFrom(code, false, next, next).pieces
  {
    hide CodeFrom, Blank, QuotedOk, FieldText;
    var q, x, open := f.item.value.quote, f.item.value.text, at + |f.before|;
    next := open + |x| + 2;
    var more := if code[at..stop] == FieldText(f) then "" else [d];
    assert FieldText(f) + "" == FieldText(f) && f.after + "" == f.after;
    FieldLayout(code, at, stop, f, more);
    BlankSkipped(code, start, at, open, f.before, d);
    QuotedStripped(code, start, open, q, x);
    BlankSkipped(code, next, next, stop, f.after, d);
    UpToOpen(code, start, at, open);
  }

  lemma UpToOpen(code: string, start: nat, at: nat, open: nat)
    requires start <= at <= open < |code|
    ensures code[start..open + 1] == code[start..at] + code[at..open] + [code[open]]
  {
  }

  lemma JoinedFirst(fields: seq<Field>, d: char)
    requires fields != []
    ensures Joined(fields, d) == FieldText(fields[0]) + if fields[1..] == [] then "" else [d] + Joined(fields[1..], d)
  {
    hide FieldText;
    var rest := fields[1..];
    assert FieldText(fields[0]) + "" == FieldText(fields[0]);
    assert FieldText(fields[0]) + [d] + Joined(rest, d) == FieldText(fields[0]) + ([d] + Joined(rest, d));
  }

  /** What is behind a quoted item: white space, and the fields behind the separator. */
  lemma {:induction false} RestStripped(code: string, next: nat, stop: nat, fields: seq<Field>, d: char, n: nat)
    requires FieldsOk(fields, d) && (d == ' ' || d == ',') && next <= stop <= |code|
    requires CodeFrom(code, false, next, next) == CodeFrom(code, false, next, stop)
    requires if |fields| == 1 then stop == |code| && code[next..stop] == fields[0].after
             else code[next..stop] == fields[0].after + [d] && code[stop..] == Joined(fields[1..], d)
    ensures var p, rest := CodeFrom(code, false, next, next).pieces, fields[1..];
      && Rendered(Number(p, n)) == fields[0].after + (if rest == [] then "" else [d] + Joined(Labelled(rest, n), d))
      && Lits(p) == Texts(rest)
    decreases |fields|, 0
  {
    hide CodeFrom, Rendered, Number, Lits, LabelText, Labelled, FieldOk, FieldText;
    var rest := fields[1..];
    if rest == [] {
      AtEnd(code, next);
      OnePiece(code[next..], n);
      Regrouped(fields[0].after, [d], "");
      assert code[next..] == code[next..stop];
    } else {
      FieldsStripped(code, next, stop, rest, d, n);
      Regrouped(fields[0].after, [d], Joined(Labelled(rest, n), d));
    }
  }

  lemma Regrouped(a: string, b: string, c: string)
    ensures a + b + c == a + (b + c) && a + "" == a
  {
  }

  lemma LastJoined(lead: string, f: Field, q: char, x: string, more: string)
    ensures lead + f.before + [q] + x + [q] + (f.after + more)
         == lead + (FieldText(f.(item := Some(InQuotes(q, x)))) + more)
  {
  }

  /** The characters of a field with a quoted item. */
  lemma FieldLayout(code: string, at: nat, stop: nat, f: Field, more: string)
    requires at <= stop <= |code| && f.item.Some? && f.item.value.InQuotes? && code[at..stop] == FieldText(f) + more
    ensures var q, x, open := f.item.value.quote, f.item.value.text, at + |f.before|;
      && open + |x| + 2 <= stop
      && code[at..open] == f.before && code[open] == q && code[open + 1..open + 1 + |x|] == x && code[open + 1 + |x|] == q
      && code[open + |x| + 2..stop] == f.after + more
  {
    hide FieldText;
    var q, x, n := f.item.value.quote, f.item.value.text, |f.before|;
    var tail := code[at..stop];
    FieldParts(f, more);
    SliceOfSlice(code, at, stop, 0, n);
    SliceOfSlice(code, at, stop, n + 1, n + 1 + |x|);
    SliceOfSlice(code, at, stop, n + |x| + 2, stop - at);
    assert tail[..n] == tail[0..n] && tail[n + |x| + 2..] == tail[n + |x| + 2..stop - at];
    assert code[at + n] == tail[n] && code[at + n + 1 + |x|] == tail[n + 1 + |x|];
  }

  lemma FieldParts(f: Field, more: string)
    requires f.item.Some? && f.item.value.InQuotes?
    ensures var q, x, n, s := f.item.value.quote, f.item.value.text, |f.before|, FieldText(f) + more;
      && n + |x| + 2 <= |s| && s[..n] == f.before && s[n] == q && s[n + 1..n + 1 + |x|] == x && s[n + 1 + |x|] == q
      && s[n + |x| + 2..] == f.after + more
  {
    var q, x := f.item.value.quote, f.item.value.text;
    FieldRegrouped(f.before, q, x, f.after, more);
    Sliced(f.before, q, x, f.after + more);
  }

  lemma FieldRegrouped(before: string, q: char, x: string, after: string, more: string)
    ensures before + ([q] + x + [q]) + after + more == before + [q] + x + [q] + (after + more)
  {
  }

  lemma Sliced(before: string, q: char, x: string, more: string)
    ensures var n, s := |before|, before + [q] + x + [q] + more;
      && s[..n] == before && s[n] == q && s[n + 1..n + 1 + |x|] == x && s[n + 1 + |x|] == q && s[n + |x| + 2..] == more
  {
    var n := |before|;
    var a := before + [q] + x;
    assert a[..n] == before && a[n + 1..] == x;
    var s := a + [q] + more;
    assert s[..|a|] == a && s[..n] == a[..n] && s[n + 1..n + 1 + |x|] == a[n + 1..];
  }

  lemma SliceOfSlice(code: string, at: nat, stop: nat, a: nat, b: nat)
    requires at <= stop <= |code| && a <= b <= stop - at
    ensures code[at..stop][a..b] == code[at + a..at + b]
  {
    var s, t := code[at..stop][a..b], code[at + a..at + b];
    assert |s| == |t|;
    forall i | 0 <= i < |s|
      ensures s[i] == t[i]
    {
      assert s[i] == code[at..stop][a + i];
    }
  }

  // ----- Splitting and unquoting -----

  lemma {:induction false} IndexIs(s: string, d: char, k: nat)
    requires k < |s| && s[k] == d && d !in s[..k]
    ensures Index(s, d) == k
  {
    if k > 0 {
      assert s[0] in s[..k];
      assert s[1..][..k - 1] == s[..k][1..];
      IndexIs(s[1..], d, k - 1);
    }
  }

  lemma SplitFirst(a: string, b: string, d: char)
    requires d !in a
    ensures Split(a + [d] + b, d) == [a] + Split(b, d)
  {
    var s := a + [d] + b;
    assert s[|a|] == d && s[..|a|] == a && s[|a| + 1..] == b;
    IndexIs(s, d, |a|);
  }

  function FieldTexts(fields: seq<Field>): seq<string> {
    if fields == [] then [] else [FieldText(fields[0])] + FieldTexts(fields[1..])
  }

  lemma {:induction false} SplitFields(fields: seq<Field>, d: char)
    requires fields != [] && forall i :: 0 <= i < |fields| ==> d !in FieldText(fields[i])
    ensures Split(Joined(fields, d), d) == FieldTexts(fields)
    decreases |fields|
  {
    hide FieldText;
    if |fields| == 1 {
      assert FieldTexts(fields[1..]) == [];
    } else {
      SplitFirst(FieldText(fields[0]), Joined(fields[1..], d), d);
      SplitFields(fields[1..], d);
    }
  }

  /** Labels contain no separators, so labelled fields do not either. */
  lemma {:induction false} LabelledSeparate(fields: seq<Field>, d: char, n: nat)
    requires (forall i :: 0 <= i < |fields| ==> FieldOk(fields[i], d)) && (d == ' ' || d == ',')
    ensures |Labelled(fields, n)| == |fields|
    ensures forall i :: 0 <= i < |fields| ==> d !in FieldText(Labelled(fields, n)[i])
    decreases |fields|
  {
    hide LabelText, FieldText, FieldOk, Labelled;
    LabelledLength(fields, n);
    if fields != [] {
      var f := fields[0];
      LabelledFirst(fields, n);
      LabelledSeparate(fields[1..], d, if f.item.Some? && f.item.value.InQuotes? then n + 1 else n);
      FieldSeparate(f, d, n);
      assert forall i :: 0 < i < |fields| ==> Labelled(fields, n)[i] == Labelled(fields, n)[1..][i - 1];
    }
  }

  lemma FieldSeparate(f: Field, d: char, n: nat)
    requires FieldOk(f, d) && (d == ' ' || d == ',')
    ensures f.item.Some? && f.item.value.InQuotes? ==> d !in FieldText(f.(item := Some(InQuotes(f.item.value.quote, LabelText(n)))))
    ensures !(f.item.Some? && f.item.value.InQuotes?) ==> d !in FieldText(f)
  {
    hide LabelText;
    LabelSeparate(n, d);
  }

  lemma LabelSeparate(n: nat, d: char)
    requires d == ' ' || d == ','
    ensures d !in LabelText(n) && LabelText(n) != ""
  {
    var l := LabelText(n);
    LabelChars(n);
    forall i | 0 <= i < |l|
      ensures l[i] != d
    {
      if i < |PREFIX| {
        assert l[i] == l[..|PREFIX|][i] == PREFIX[i];
      }
    }
  }

  lemma {:induction false} TrimLeftIs(before: string, s: string)
    requires Blank(before) && (s == "" || !IsSpace(s[0]))
    ensures TrimLeft(before + s) == s
  {
    if before == "" {
      assert before + s == s;
    } else {
      assert (before + s)[1..] == before[1..] + s;
      TrimLeftIs(before[1..], s);
    }
  }

  lemma {:induction false} TrimRightIs(s: string, after: string)
    requires Blank(after) && (s == "" || !IsSpace(s[|s| - 1]))
    ensures TrimRight(s + after) == s
    decreases |after|
  {
    if after == "" {
      assert s + after == s;
    } else {
      var most := after[..|after| - 1];
      assert (s + after)[..|s + after| - 1] == s + most;
      TrimRightIs(s, most);
    }
  }

  lemma TrimIs(before: string, s: string, after: string)
    requires Blank(before) && Blank(after) && (s == "" || Trimmed(s))
    ensures Trim(before + s + after) == s
  {
    if s == "" {
      assert before + s + after == (before + after) + "";
      TrimLeftIs(before + after, "");
    } else {
      assert before + s + after == before + (s + after);
      TrimLeftIs(before, s + after);
      TrimRightIs(s, after);
    }
  }

  /** A label finds its own literal. */
  lemma {:induction false} LookupFinds(first: nat, literals: seq<string>, k: nat)
    requires k < |literals|
    ensures Lookup(LabelText(first + k), first, literals) == Some(literals[k])
    decreases k
  {
    if k > 0 {
      LabelsDistinct(first + k, first);
      LookupFinds(first + 1, literals[1..], k - 1);
    }
  }

  lemma LabelsDistinct(m: nat, n: nat)
    ensures LabelText(m) == LabelText(n) ==> m == n
  {
    DigitsInjective(m, n);
    LabelChars(m);
    LabelChars(n);
    var l, k := LabelText(m), LabelText(n);
    assert Digits(m) == l[|PREFIX|..|l| - 1] && Digits(n) == k[|PREFIX|..|k| - 1];
  }

  lemma UnquoteWord(items: seq<string>, literals: seq<string>, f: Field, d: char)
    requires items != [] && items[0] == FieldText(f) && FieldOk(f, d) && !(f.item.Some? && f.item.value.InQuotes?)
    requires UnquoteAll(items[1..], literals).Some?
    ensures UnquoteAll(items, literals) ==
            Some((if f.item.Some? then [f.item.value.text] else []) + UnquoteAll(items[1..], literals).value)
  {
    hide Trim, Lookup, Blank;
    TrimIs(f.before, Middle(f), f.after);
    var rest := UnquoteAll(items[1..], literals).value;
    assert [] + rest == rest;
    if f.item.Some? {
      var w := f.item.value.text;
      assert Trim(items[0]) == w && !IsQuote(w[0]);
      assert Unquote(items[0], literals) == Some(w);
    }
  }

  lemma UnquoteLabel(items: seq<string>, literals: seq<string>, f: Field, d: char, k: nat)
    requires k < |literals| && items != [] && FieldOk(f, d) && f.item.Some? && f.item.value.InQuotes?
    requires items[0] == FieldText(f.(item := Some(InQuotes(f.item.value.quote, LabelText(1 + k)))))
    requires UnquoteAll(items[1..], literals).Some?
    ensures UnquoteAll(items, literals) == Some([literals[k]] + UnquoteAll(items[1..], literals).value)
  {
    hide Trim, Lookup, Blank, LabelText;
    var q, l := f.item.value.quote, LabelText(1 + k);
    var item := [q] + l + [q];
    TrimIs(f.before, item, f.after);
    assert item[1..|item| - 1] == l;
    LookupFinds(1, literals, k);
  }

  lemma {:induction false} UnquoteFields(fields: seq<Field>, d: char, literals: seq<string>, k: nat)
    requires (forall i :: 0 <= i < |fields| ==> FieldOk(fields[i], d)) && k <= |literals| && literals[k..] == Texts(fields)
    ensures UnquoteAll(FieldTexts(Labelled(fields, 1 + k)), literals) == Some(Values(fields))
    decreases |fields|
  {
    hide LabelText, FieldText, FieldOk, Labelled, UnquoteAll;
    LabelledLength(fields, 1 + k);
    if fields == [] {
      NothingToUnquote(literals);
    } else {
      var f, all := fields[0], Labelled(fields, 1 + k);
      LabelledFirst(fields, 1 + k);
      assert FieldTexts(all)[0] == FieldText(all[0]) && FieldTexts(all)[1..] == FieldTexts(all[1..]);
      if f.item.Some? && f.item.value.InQuotes? {
        assert literals[k] == f.item.value.text && literals[k + 1..] == literals[k..][1..] == Texts(fields[1..]);
        UnquoteFields(fields[1..], d, literals, k + 1);
        UnquoteLabel(FieldTexts(all), literals, f, d, k);
      } else {
        UnquoteFields(fields[1..], d, literals, k);
        UnquoteWord(FieldTexts(all), literals, f, d);
      }
    }
  }

  lemma NothingToUnquote(literals: seq<string>)
    ensures UnquoteAll([], literals) == Some([])
  {
  }

  // ----- Main results -----

  lemma BodyParsed(body: string, fields: seq<Field>, d: char)
    requires FieldsOk(fields, d) && (d == ' ' || d == ',') && body == Joined(fields, d)
    ensures var pieces := Strip(body);
      UnquoteAll(Split(Rendered(Number(pieces, 1)), d), Lits(pieces)) == Some(Values(fields))
  {
    hide CodeFrom, Rendered, Number, Lits, Labelled, FieldOk, UnquoteAll, Split, Joined;
    assert body[0..] == body;
    FieldsStripped(body, 0, 0, fields, d, 1);
    assert body[0..0] + Joined(Labelled(fields, 1), d) == Joined(Labelled(fields, 1), d);
    LabelledSeparate(fields, d, 1);
    SplitFields(Labelled(fields, 1), d);
    assert Texts(fields)[0..] == Texts(fields);
    UnquoteFields(fields, d, Texts(fields), 0);
  }

  /** A list in either form, with words and quoted items in any mixture and white space around them, is parsed to its
      items. */
  lemma ParsesFields(fields: seq<Field>)
    ensures FieldsOk(fields, ',') ==> ParseList("[" + Joined(fields, ',') + "]") == Some(Values(fields))
    ensures FieldsOk(fields, ' ') && !Wrapped(Joined(fields, ' ')) ==> ParseList(Joined(fields, ' ')) == Some(Values(fields))
  {
    hide UnquoteAll, Split, Rendered, Number, Lits, Joined, FieldsOk;
    var body := Joined(fields, ',');
    assert ("[" + body + "]")[1..|body| + 1] == body;
    if FieldsOk(fields, ',') {
      BodyParsed(body, fields, ',');
    }
    if FieldsOk(fields, ' ') {
      BodyParsed(Joined(fields, ' '), fields, ' ');
    }
  }

  // ----- Words between spaces -----

  /** Words with any number of spaces, but at least one, between them. */
  function Spaced(words: seq<string>, gaps: seq<nat>): string
    requires |gaps| == |words|
  {
    if words == [] then "" else Spaces(gaps[0]) + words[0] + (if |words| > 1 then " " else "") + Spaced(words[1..], gaps[1..])
  }

  function Spaces(n: nat): string {
    if n == 0 then "" else " " + Spaces(n - 1)
  }

  predicate IsWord(w: string) {
    w != "" && forall i :: 0 <= i < |w| ==> !IsSpace(w[i]) && !IsQuote(w[i]) && w[i] != '#'
  }

  /** As many empty fields as there are additional spaces, and the field of a word. */
  function WordFields(words: seq<string>, gaps: seq<nat>): seq<Field>
    requires |gaps| == |words|
  {
    if words == [] then [] else EmptyFields(gaps[0]) + [Field("", Some(Word(words[0])), "")] + WordFields(words[1..], gaps[1..])
  }

  function EmptyFields(n: nat): seq<Field> {
    if n == 0 then [] else [Field("", None, "")] + EmptyFields(n - 1)
  }

  lemma {:induction false} EmptyJoined(n: nat, fields: seq<Field>)
    requires fields != []
    ensures Joined(EmptyFields(n) + fields, ' ') == Spaces(n) + Joined(fields, ' ')
    ensures Values(EmptyFields(n) + fields) == Values(fields)
    ensures FieldsOk(fields, ' ') ==> FieldsOk(EmptyFields(n) + fields, ' ')
  {
    hide FieldOk, Joined, FieldsOk, Values;
    if n == 0 {
      assert EmptyFields(n) + fields == fields && Spaces(n) + Joined(fields, ' ') == Joined(fields, ' ');
    } else {
      var rest := EmptyFields(n - 1) + fields;
      assert EmptyFields(n) + fields == [Field("", None, "")] + rest;
      EmptyJoined(n - 1, fields);
      OneEmpty(rest);
      assert " " + (Spaces(n - 1) + Joined(fields, ' ')) == Spaces(n) + Joined(fields, ' ');
    }
  }

  lemma OneEmpty(rest: seq<Field>)
    requires rest != []
    ensures var fields := [Field("", None, "")] + rest;
      && Joined(fields, ' ') == " " + Joined(rest, ' ') && Values(fields) == Values(rest)
      && (FieldsOk(rest, ' ') ==> FieldsOk(fields, ' '))
  {
    hide FieldOk;
    var f := Field("", None, "");
    var fields := [f] + rest;
    EmptyFieldOk();
    assert FieldText(f) == "" && fields[1..] == rest;
    assert "" + " " + Joined(rest, ' ') == " " + Joined(rest, ' ');
    assert forall i :: 0 < i < |fields| ==> fields[i] == rest[i - 1];
  }

  lemma EmptyFieldOk()
    ensures FieldOk(Field("", None, ""), ' ')
  {
  }

  lemma {:induction false} WordsJoined(words: seq<string>, gaps: seq<nat>)
    requires |gaps| == |words| && words != [] && forall w <- words :: IsWord(w)
    ensures Joined(WordFields(words, gaps), ' ') == Spaced(words, gaps) && Values(WordFields(words, gaps)) == words
    ensures FieldsOk(WordFields(words, gaps), ' ')
    decreases |words|
  {
    hide FieldOk, FieldsOk, FieldText, Joined, Values, Spaces, IsWord;
    var w, rest := words[0], WordFields(words[1..], gaps[1..]);
    var fields := [Field("", Some(Word(w)), "")] + rest;
    assert WordFields(words, gaps) == EmptyFields(gaps[0]) + fields;
    if |words| > 1 {
      WordsJoined(words[1..], gaps[1..]);
    } else {
      assert rest == [] && words[1..] == [];
    }
    WordFirst(w, rest);
    EmptyJoined(gaps[0], fields);
    assert [w] + words[1..] == words;
    var tail := Spaced(words[1..], gaps[1..]);
    assert Spaces(gaps[0]) + (w + " " + tail) == Spaces(gaps[0]) + w + " " + tail;
    assert Spaces(gaps[0]) + w + "" + "" == Spaces(gaps[0]) + w;
  }

  lemma WordFirst(w: string, rest: seq<Field>)
    requires IsWord(w) && (rest != [] ==> FieldsOk(rest, ' '))
    ensures var fields := [Field("", Some(Word(w)), "")] + rest;
      && Joined(fields, ' ') == (if rest == [] then w else w + " " + Joined(rest, ' '))
      && Values(fields) == [w] + (if rest == [] then [] else Values(rest)) && FieldsOk(fields, ' ')
  {
    hide FieldOk, IsWord;
    var first := Field("", Some(Word(w)), "");
    var fields := [first] + rest;
    WordFieldOk(w);
    assert FieldText(first) == w && fields[1..] == rest;
    assert forall i :: 0 < i < |fields| ==> fields[i] == rest[i - 1];
  }

  lemma WordFieldOk(w: string)
    requires IsWord(w)
    ensures FieldOk(Field("", Some(Word(w)), ""), ' ')
  {
  }

  /** Words separated by spaces are parsed to these words. */
  lemma ParsesWords(words: seq<string>, gaps: seq<nat>)
    requires |gaps| == |words| && words != [] && (forall w <- words :: IsWord(w)) && !Wrapped(Spaced(words, gaps))
    ensures ParseList(Spaced(words, gaps)) == Some(words)
  {
    hide ParseList, Joined, WordFields, Spaced, FieldsOk;
    WordsJoined(words, gaps);
    ParsesFields(WordFields(words, gaps));
  }

  // ----- Printing -----

  function Quoted(x: string): string {
    "\"" + x + "\""
  }

  function Printed(xs: seq<string>): string {
    if xs == [] then "" else if |xs| == 1 then Quoted(xs[0]) else Quoted(xs[0]) + ", " + Printed(xs[1..])
  }

  function Print(xs: seq<string>): string {
    "[" + Printed(xs) + "]"
  }

  function PrintedFields(lead: string, xs: seq<string>): seq<Field>
    decreases |xs|
  {
    if xs == [] then [] else [Field(lead, Some(InQuotes('"', xs[0])), "")] + PrintedFields(" ", xs[1..])
  }

  lemma {:induction false} PrintedJoined(lead: string, xs: seq<string>)
    requires xs != [] && (lead == "" || lead == " ") && forall x <- xs :: QuotedOk('"', x)
    ensures Joined(PrintedFields(lead, xs), ',') == lead + Printed(xs) && Values(PrintedFields(lead, xs)) == xs
    ensures FieldsOk(PrintedFields(lead, xs), ',')
    decreases |xs|
  {
    hide QuotedOk, Joined, Values, FieldsOk;
    if |xs| > 1 {
      PrintedJoined(" ", xs[1..]);
    }
    OnePrinted(lead, xs);
  }

  lemma OnePrinted(lead: string, xs: seq<string>)
    requires xs != [] && (lead == "" || lead == " ") && QuotedOk('"', xs[0])
    requires var rest := PrintedFields(" ", xs[1..]);
      |xs| > 1 ==> Joined(rest, ',') == " " + Printed(xs[1..]) && Values(rest) == xs[1..] && FieldsOk(rest, ',')
    ensures Joined(PrintedFields(lead, xs), ',') == lead + Printed(xs) && Values(PrintedFields(lead, xs)) == xs
    ensures FieldsOk(PrintedFields(lead, xs), ',')
  {
    hide QuotedOk;
    var f, rest := Field(lead, Some(InQuotes('"', xs[0])), ""), PrintedFields(" ", xs[1..]);
    var fields := PrintedFields(lead, xs);
    assert fields == [f] + rest && fields[1..] == rest;
    assert FieldText(f) == lead + Quoted(xs[0]);
    assert FieldOk(f, ',');
    if |xs| > 1 {
      assert rest != [];
      JoinPrinted(lead, Quoted(xs[0]), Printed(xs[1..]));
      assert forall i :: 0 < i < |fields| ==> fields[i] == rest[i - 1];
    } else {
      assert xs[1..] == [] && rest == [] && Values(rest) == [];
    }
    assert [xs[0]] + xs[1..] == xs;
  }

  lemma JoinPrinted(lead: string, a: string, b: string)
    ensures lead + a + [','] + (" " + b) == lead + (a + ", " + b)
  {
  }

  /** Parsing inverts printing: commas, spaces, `#`, single quotes, hidden quotes and a trailing `f` inside items are kept. */
  lemma ParseInvertsPrint(xs: seq<string>)
    requires forall x <- xs :: QuotedOk('"', x)
    ensures ParseList(Print(xs)) == Some(xs)
  {
    hide ParseList, QuotedOk, Joined, Printed, FieldsOk;
    if xs == [] {
      NothingPrinted();
    } else {
      PrintedJoined("", xs);
      assert "" + Printed(xs) == Printed(xs);
      ParsesFields(PrintedFields("", xs));
    }
  }

  lemma NothingPrinted()
    ensures ParseList(Print([])) == Some([])
  {
    hide ParseList;
    var fields := [Field("", None, "")];
    assert FieldText(fields[0]) == "" && Joined(fields, ',') == "" && Printed([]) == "";
    assert fields[1..] == [] && Values(fields) == [];
    ParsesFields(fields);
  }

  /** An item in quotes must not be empty: two quotes are no literal to the stripper, and looking them up fails. */
  lemma EmptyItemFails(q: char)
    requires IsQuote(q)
    ensures ParseList([q, q]) == None
  {
    hide CodeFrom, Trim, Rendered, Number, Lits;
    var s := [q, q];
    EmptyItemStripped(s, q);
    OnePiece(s, 1);
    TrimIs("", s, "");
    assert "" + s + "" == s && Split(s, ',') == [s] && Split(s, ' ') == [s];
  }

  lemma EmptyItemStripped(s: string, q: char)
    requires IsQuote(q) && s == [q, q]
    ensures Strip(s) == [Raw(s)]
  {
    hide StringFrom, Prepend;
    assert RunEnd(s, 2, q) == RunEnd(s, 1, q) == 2;
    assert FindCodeToken(s, 0) == Quote(false, 0, 2) && Opening(2) == 0;
    AtEnd(s, 0);
    assert s[0..] == s;
  }
}
