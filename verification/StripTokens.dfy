/** The regular expressions of the literal stripper in Cython/Build/Dependencies.py as scanning
    functions: the leftmost token at or after a position. */
module StripTokens {

  datatype Token =
    | NoToken
    | Comment(end: nat)
    | Brace(c: char, end: nat)
    | Quote(fstring: bool, from: nat, end: nat)
    | Escape(count: nat, quote: char, end: nat)
    | Braces(count: nat, c: char, end: nat)

  predicate IsQuote(c: char) {
    c == '\'' || c == '"'
  }

  predicate IsBrace(c: char) {
    c == '{' || c == '}'
  }

  /** The end of the run of `c` that starts at `p`. */
  function RunEnd(code: string, p: nat, c: char): (e: nat)
    requires p <= |code|
    ensures p <= e <= |code|
    ensures forall i :: p <= i < e ==> code[i] == c
    ensures e < |code| ==> code[e] != c
    decreases |code| - p
  {
    if p < |code| && code[p] == c then RunEnd(code, p + 1, c) else p
  }

  /** Two quotes after an optional `f`, or one: the quote token at `p`, if there is one. */
  function QuoteAt(code: string, p: nat): (t: Token)
    requires p < |code|
    ensures t.NoToken? || (t.Quote? && p <= t.from < t.end <= |code|)
  {
    if code[p] == 'f' && p + 1 < |code| && IsQuote(code[p + 1]) then Quote(true, p + 1, RunEnd(code, p + 1, code[p + 1]))
    else if IsQuote(code[p]) then Quote(false, p, RunEnd(code, p, code[p]))
    else NoToken
  }

  function CodeTokenAt(code: string, p: nat): (t: Token)
    requires p < |code|
    ensures t.NoToken? || (p < t.end <= |code| && (t.Comment? || t.Brace? || (t.Quote? && p <= t.from < t.end)))
  {
    if code[p] == '#' then Comment(p + 1)
    else if IsBrace(code[p]) then Brace(code[p], p + 1)
    else QuoteAt(code, p)
  }

  function StringTokenAt(code: string, p: nat, isFString: bool): (t: Token)
    requires p < |code|
    ensures t.NoToken? || p < t.end <= |code|
    ensures t.Quote? ==> p <= t.from < t.end
    ensures t.Escape? ==> t.count >= 1 && p + t.count + 1 == t.end
    ensures t.Braces? ==> t.count >= 1 && p + t.count == t.end && isFString && IsBrace(t.c)
    ensures !t.Comment? && !t.Brace?
  {
    if isFString && IsBrace(code[p]) then
      var e := RunEnd(code, p, code[p]);
      Braces(e - p, code[p], e)
    else if code[p] == '\\' then
      var e := RunEnd(code, p, '\\');
      if e < |code| && IsQuote(code[e]) then Escape(e - p, code[e], e + 1) else NoToken
    else QuoteAt(code, p)
  }

  /** The leftmost token in code. */
  function FindCodeToken(code: string, pos: nat): (t: Token)
    requires pos <= |code|
    ensures t.NoToken? || (pos < t.end <= |code| && (t.Comment? || t.Brace? || (t.Quote? && pos <= t.from < t.end)))
    decreases |code| - pos
  {
    if pos == |code| then NoToken
    else if CodeTokenAt(code, pos).NoToken? then FindCodeToken(code, pos + 1)
    else CodeTokenAt(code, pos)
  }

  /** The leftmost token in a string literal. */
  function FindStringToken(code: string, pos: nat, isFString: bool): (t: Token)
    requires pos <= |code|
    ensures t.NoToken? || pos < t.end <= |code|
    ensures t.Quote? ==> pos <= t.from < t.end
    ensures t.Escape? ==> t.count >= 1 && pos + t.count + 1 <= t.end
    ensures t.Braces? ==> t.count >= 1 && pos + t.count <= t.end && isFString && IsBrace(t.c)
    ensures !t.Comment? && !t.Brace?
    decreases |code| - pos
  {
    if pos == |code| then NoToken
    else if StringTokenAt(code, pos, isFString).NoToken? then FindStringToken(code, pos + 1, isFString)
    else StringTokenAt(code, pos, isFString)
  }

  /** `code.find('\n', pos)`, with the length for a missing newline. */
  function LineEnd(code: string, pos: nat): (e: nat)
    requires pos <= |code|
    ensures pos <= e <= |code|
    ensures forall i :: pos <= i < e ==> code[i] != '\n'
    ensures e < |code| ==> code[e] == '\n'
    decreases |code| - pos
  {
    if pos < |code| && code[pos] != '\n' then LineEnd(code, pos + 1) else pos
  }
}
