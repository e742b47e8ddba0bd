/** The C code writer of Cython/Compiler/Code.py on top of the output buffers: line markers, pending
    source positions and indentation.  Whatever it writes reaches its buffer through `WriteTo`, the write
    of the run model, with the position that is marked at that moment. */
module CodeWriters {
  import opened Decimals
  import opened Forests
  import opened StringIOTrees
  import opened WriterRuns

  /** The marker of an output line: a source line, or `Nowhere` for `(None, 0)`. */
  datatype Position = Nowhere | At(source: string, line: nat)

  /** A place in the source; `NoPlace` for `None`. Lines of output are marked without the column. */
  datatype Place = NoPlace | Place(source: string, line: nat, col: nat)
  {
    function Marker(): Position {
      if NoPlace? then Nowhere else At(source, line)
    }
  }

  type Buffer = StringIOTree<Position>

  function CountChar(s: string, c: char): nat {
    if s == "" then 0 else (if s[0] == c then 1 else 0) + CountChar(s[1..], c)
  }

  lemma {:induction false} NoNewlines(s: string)
    requires '\n' !in s
    ensures CountNewlines(s) == 0
  {
    if s != "" {
      NoNewlines(s[1..]);
    }
  }

  lemma {:induction false} CountNewlinesConcat(s: string, t: string)
    ensures CountNewlines(s + t) == CountNewlines(s) + CountNewlines(t)
  {
    if s == "" {
      assert s + t == t;
    } else {
      assert (s + t)[1..] == s[1..] + t;
      CountNewlinesConcat(s[1..], t);
    }
  }

  lemma {:induction false} RepeatConcat<M>(m: M, j: nat, k: nat)
    ensures Repeat(m, j + k) == Repeat(m, j) + Repeat(m, k)
  {
    if j > 0 {
      RepeatConcat(m, j - 1, k);
    }
  }

  function Spaces(level: int): (s: string)
    ensures |s| == (if level > 0 then 2 * level else 0) && forall c <- s :: c == ' '
  {
    if level <= 0 then "" else "  " + Spaces(level - 1)
  }

  /** How many more blocks a line opens than it closes. */
  function Surplus(code: string): int {
    CountChar(code, '{') - CountChar(code, '}')
  }

  /** How far the line itself is moved to the left: by all surplus closing braces, and by one level for a
      balanced line that starts with a closing brace. */
  function Dedent(code: string): (r: int)
    ensures r <= 0
  {
    var surplus := Surplus(code);
    if surplus < 0 then surplus
    else if surplus == 0 && code != "" && code[0] == '}' then -1
    else 0
  }

  // ----- Where a line stands -----

  /** How many blocks deeper the end of the text is than its start. */
  function Nesting(s: string): int {
    if s == "" then 0
    else Nesting(s[..|s| - 1]) + (match s[|s| - 1] case '{' => 1 case '}' => -1 case _ => 0)
  }

  /** How deep, from where it starts, the text is wherever it is least deep. */
  ghost predicate IsLowest(s: string, depth: int) {
    && (exists i :: 0 <= i <= |s| && Nesting(s[..i]) == depth)
    && (forall i :: 0 <= i <= |s| ==> Nesting(s[..i]) >= depth)
  }

  lemma {:induction false} SurplusIsNesting(s: string)
    ensures Surplus(s) == Nesting(s)
  {
    if s != "" {
      var front, c := s[..|s| - 1], s[|s| - 1];
      SurplusIsNesting(front);
      assert s == front + [c];
      CountCharMore(front, '{', c);
      CountCharMore(front, '}', c);
    }
  }

  lemma {:induction false} CountCharMore(s: string, c: char, last: char)
    ensures CountChar(s + [last], c) == CountChar(s, c) + (if last == c then 1 else 0)
  {
    if s != "" {
      assert (s + [last])[1..] == s[1..] + [last];
      CountCharMore(s[1..], c, last);
    }
  }

  /** A line stands where it is least deep exactly when it closes no block that is older than itself, opens none
      behind that place, or has the shape of "} else {". */
  lemma DedentIsLowest(code: string, lowest: int)
    requires IsLowest(code, lowest)
    ensures Dedent(code) == lowest
            <==> lowest == 0 || Nesting(code) == lowest || (lowest == -1 && Nesting(code) == 0 && code[0] == '}')
  {
    hide CountChar;
    SurplusIsNesting(code);
    assert code[..0] == "" && code[..|code|] == code;
    if code != "" {
      assert code[..1][..0] == "";
      assert Nesting(code[..1]) == (match code[0] case '{' => 1 case '}' => -1 case _ => 0);
    }
  }

  /** What a writer is configured to add to the code, and the texts that come from elsewhere: the source lines
      around a place as a comment, the name of a file, and the expression for it in generated code. */
  datatype Config = Config(emitCodeComments: bool, emitLinenums: bool, comment: (string, nat) -> string,
                           fileName: string -> string, fileExpression: string -> string)
  {
    /** In front of the first line of a place: a blank line, the comment if wanted, the trace line if there is one. */
    function MarkerText(level: int, pos: Place, traceLine: string): string
      requires pos.Place?
    {
      "\n" + (if emitCodeComments then Spaces(level) + comment(pos.source, pos.line) else "") +
      (if traceLine != "" then Spaces(level) + traceLine else "")
    }

    /** The line directive for a marked position. */
    function Directive(pos: Position): string {
      if emitLinenums && pos.At? then "\n#line " + Digits(pos.line) + " \"" + fileName(pos.source) + "\"\n" else ""
    }
  }

  /** What a line of code looks like: indented unless it is empty, put as it is, or continues another. */
  function LineText(code: string, safe: bool, bol: bool, level: int): string {
    if code == "" || safe || !bol then code else Spaces(level + Dedent(code)) + code
  }

  /** The first of the maps, from the inside out, that has the place. */
  function Offset(scopes: seq<map<Place, nat>>, pos: Place): nat {
    if scopes == [] then 0 else if pos in scopes[0] then scopes[0][pos] else Offset(scopes[1..], pos)
  }

  /** What a trace line depends on in the function that is being written, as it is at the moment. */
  class FunctionContext {
    var lineTrace: bool
    var canTrace: bool
    var gilOwned: bool
    var errorLabel: string
    var scopes: seq<map<Place, nat>>
    var usedLabels: set<string>
    var declaresErrorIndicator: bool
    var usesErrorIndicator: bool

    constructor (errorLabel: string, scopes: seq<map<Place, nat>>)
      ensures this.errorLabel == errorLabel && this.scopes == scopes && usedLabels == {}
      ensures !lineTrace && !canTrace && gilOwned && !declaresErrorIndicator && !usesErrorIndicator
    {
      this.errorLabel, this.scopes, usedLabels := errorLabel, scopes, {};
      lineTrace, canTrace, gilOwned, declaresErrorIndicator, usesErrorIndicator := false, false, true, false, false;
    }

    function GotoText(config: Config, pos: Place): string
      requires pos.Place?
      reads this`errorLabel
    {
      "__PYX_ERR(" + config.fileExpression(pos.source) + ", " + Digits(pos.line) + ", " + errorLabel + ")"
    }

    function TraceText(config: Config, pos: Place): string
      requires pos.Place?
      reads this`errorLabel, this`gilOwned, this`scopes
    {
      "__Pyx_TraceLine(" + Digits(pos.line) + "," + Digits(Offset(scopes, pos)) + "," +
      (if gilOwned then "0" else "1") + "," + GotoText(config, pos) + ")\n"
    }

    /** A jump to the error label, which is in use from now on. */
    method ErrorGoto(config: Config, pos: Place) returns (s: string)
      requires pos.Place?
      modifies this`usedLabels, this`declaresErrorIndicator, this`usesErrorIndicator
      ensures s == GotoText(config, pos)
      ensures usedLabels == old(usedLabels) + {errorLabel} && declaresErrorIndicator && usesErrorIndicator
    {
      usedLabels := usedLabels + {errorLabel};
      declaresErrorIndicator, usesErrorIndicator := true, true;
      s := GotoText(config, pos);
    }
  }

  class CCodeWriter {
    const config: Config
    var context: FunctionContext?
    var buffer: Buffer
    var lastPos: Place
    var lastTrace: bool
    var lastMarkedPos: Position
    var level: int
    var bol: bool

    /** A writer of its own, with no position and at the beginning of a line. */
    constructor (config: Config, buffer: Buffer)
      ensures this.config == config && this.buffer == buffer && context == null
      ensures lastPos == NoPlace && lastMarkedPos == Nowhere && level == 0 && bol
    {
      this.config, this.buffer, context := config, buffer, null;
      lastPos, lastTrace, lastMarkedPos := NoPlace, false, Nowhere;
      level, bol := 0, true;
    }

    /** A writer that continues the position of another one, and its formatting if wanted. */
    constructor From(other: CCodeWriter, buffer: Buffer, copyFormatting: bool)
      ensures config == other.config && this.buffer == buffer && context == other.context
      ensures lastPos == other.lastPos && lastTrace == other.lastTrace && lastMarkedPos == other.lastMarkedPos
      ensures if copyFormatting then level == other.level && bol == other.bol else level == 0 && bol
    {
      config, this.buffer, context := other.config, buffer, other.context;
      lastPos, lastTrace, lastMarkedPos := other.lastPos, other.lastTrace, other.lastMarkedPos;
      level, bol := if copyFormatting then other.level else 0, if copyFormatting then other.bol else true;
    }

    ghost function Context(): set<FunctionContext>
      reads this`context
    {
      if context == null then {} else {context}
    }

    /** Whether the pending place is to be traced, and the line that does so. */
    predicate Traces()
      reads this, context
    {
      lastPos.Place? && lastTrace && context != null && context.canTrace && context.lineTrace
    }

    function TraceLine(): string
      reads this, context
    {
      if Traces() then context.TraceText(config, lastPos) else ""
    }

    /** The position to which the next line belongs. */
    function NextMark(): Position
      reads this
    {
      if lastPos.Place? && bol then lastPos.Marker() else lastMarkedPos
    }

    /** Everything that the next line writes. */
    function NextLine(code: string, safe: bool): string
      reads this, context
    {
      (if lastPos.Place? && bol then config.MarkerText(level, lastPos, TraceLine()) else "") +
      config.Directive(NextMark()) + LineText(code, safe, bol, level) + "\n"
    }

    /** Records one marker per newline, then writes. */
    method WriteLines(s: string)
      modifies buffer`stream, buffer`markers
      ensures buffer.stream == old(buffer.stream) + s
      ensures buffer.markers == old(buffer.markers) + Repeat(lastMarkedPos, CountNewlines(s))
    {
      buffer.markers := buffer.markers + Repeat(lastMarkedPos, CountNewlines(s));
      buffer.Write(s);
    }

    method Write(s: string)
      modifies buffer`stream, buffer`markers
      ensures buffer.stream == old(buffer.stream) + s
      ensures buffer.markers == old(buffer.markers) + Repeat(lastMarkedPos, CountNewlines(s))
    {
      if '\n' in s {
        WriteLines(s);
      } else {
        NoNewlines(s);
        buffer.Write(s);
      }
    }

    /** A new place is only pending until the next line starts. */
    method MarkPos(pos: Place, trace: bool)
      modifies this`lastPos, this`lastTrace
      ensures (lastPos, lastTrace) ==
              if pos == NoPlace || pos.Marker() == lastMarkedPos then old((lastPos, lastTrace)) else (pos, trace)
    {
      if pos == NoPlace {
        return;
      }
      if lastMarkedPos != Nowhere && lastMarkedPos == pos.Marker() {
        return;
      }
      lastPos, lastTrace := pos, trace;
    }

    /** The pending place becomes the marked one; the blank line, the comment and the trace line belong to it. */
    method EmitMarker()
      requires lastPos.Place?
      modifies this`lastPos, this`lastMarkedPos, buffer`stream, buffer`markers
      modifies Context()`usedLabels, Context()`declaresErrorIndicator, Context()`usesErrorIndicator
      ensures lastMarkedPos == old(lastPos).Marker() && lastPos == NoPlace
      ensures var text := config.MarkerText(level, old(lastPos), old(TraceLine()));
        && buffer.stream == old(buffer.stream) + text
        && buffer.markers == old(buffer.markers) + Repeat(lastMarkedPos, CountNewlines(text))
      ensures old(Traces()) ==>
        context.usedLabels == old(context.usedLabels) + {context.errorLabel} && context.usesErrorIndicator
    {
      hide CountNewlines, Repeat;
      var pos, trace := lastPos, lastTrace;
      ghost var traced := TraceLine();
      lastMarkedPos := pos.Marker();
      lastPos := NoPlace;
      ghost var m, t := buffer.markers, buffer.stream;
      WriteLines("\n");
      ghost var text := "\n";
      Unmarked(m + Repeat(lastMarkedPos, CountNewlines(text)), t + text);
      if config.emitCodeComments {
        WriteIndented(config.comment(pos.source, pos.line));
      }
      ghost var more := if config.emitCodeComments then Spaces(level) + config.comment(pos.source, pos.line) else "";
      Written(m, t, text, more);
      text := text + more;
      Unmarked(m + Repeat(lastMarkedPos, CountNewlines(text)), t + text);
      if trace {
        WriteTraceLine(pos);
      }
      more := if traced != "" then Spaces(level) + traced else "";
      Written(m, t, text, more);
    }

    method WriteTraceLine(pos: Place)
      requires pos.Place?
      modifies buffer`stream, buffer`markers
      modifies Context()`usedLabels, Context()`declaresErrorIndicator, Context()`usesErrorIndicator
      ensures var traces := old(context != null && context.canTrace && context.lineTrace);
        var text := if traces then Spaces(level) + old(context.TraceText(config, pos)) else "";
        && buffer.stream == old(buffer.stream) + text
        && buffer.markers == old(buffer.markers) + Repeat(lastMarkedPos, CountNewlines(text))
        && (traces ==> context.usedLabels == old(context.usedLabels) + {context.errorLabel} && context.usesErrorIndicator)
    {
      Unmarked(buffer.markers, buffer.stream);
      if context != null && context.canTrace && context.lineTrace {
        var goto := context.ErrorGoto(config, pos);
        WriteIndented("__Pyx_TraceLine(" + Digits(pos.line) + "," + Digits(Offset(context.scopes, pos)) + "," +
                      (if context.gilOwned then "0" else "1") + "," + goto + ")\n");
      }
    }

    method WriteIndented(s: string)
      modifies buffer`stream, buffer`markers
      ensures buffer.stream == old(buffer.stream) + (Spaces(level) + s)
      ensures buffer.markers == old(buffer.markers) + Repeat(lastMarkedPos, CountNewlines(Spaces(level) + s))
    {
      Joined(buffer.stream, Spaces(level), s);
      PutNewlines(Spaces(level), s);
      Indent();
      WriteLines(s);
    }

    method Indent()
      modifies buffer`stream
      ensures buffer.stream == old(buffer.stream) + Spaces(level)
    {
      buffer.Write(Spaces(level));
    }

    /** Writes code, at the indentation that closing braces ask for; afterwards the level has changed by
        exactly the surplus of opening braces. */
    method Put(code: string)
      modifies this`level, this`bol, buffer`stream, buffer`markers
      ensures level == old(level) + Surplus(code) && !bol
      ensures buffer.stream
           == old(buffer.stream) + (if old(bol) then Spaces(old(level) + Dedent(code)) else "") + code
      ensures buffer.markers == old(buffer.markers) + Repeat(lastMarkedPos, CountNewlines(code))
    {
      var fixIndent := false;
      var dl: int := if '{' in code then CountChar(code, '{') else 0;
      CountAbsent(code, '{');
      CountAbsent(code, '}');
      if '}' in code {
        dl := dl - CountChar(code, '}');
        if dl < 0 {
          level := level + dl;
        } else if dl == 0 && code[0] == '}' {
          fixIndent := true;
          level := level - 1;
        }
      }
      assert level == old(level) + Dedent(code);
      if bol {
        Indent();
      }
      Write(code);
      bol := false;
      if dl > 0 {
        level := level + dl;
      } else if fixIndent {
        level := level + 1;
      }
    }

    /** One line.  Everything it writes, from the pending marker to the final newline, belongs to the position that
        is marked afterwards: the pending one if the line starts here, and otherwise the one before. */
    method Putln(code: string, safe: bool)
      modifies this`lastPos, this`lastMarkedPos, this`level, this`bol, buffer`stream, buffer`markers
      modifies Context()`usedLabels, Context()`declaresErrorIndicator, Context()`usesErrorIndicator
      ensures bol && lastMarkedPos == old(NextMark()) && lastPos == if old(bol) then NoPlace else old(lastPos)
      ensures level == if safe then old(level) else old(level) + Surplus(code)
      ensures var text := old(NextLine(code, safe));
              && buffer.stream == old(buffer.stream) + text
              && buffer.markers == old(buffer.markers) + Repeat(lastMarkedPos, CountNewlines(text))
    {
      hide Config.MarkerText, Config.Directive, LineText, CountNewlines, Repeat, CountChar, CCodeWriter.TraceLine;
      ghost var marker := if lastPos.Place? && bol then config.MarkerText(level, lastPos, TraceLine()) else "";
      ghost var line := LineText(code, safe, bol, level);
      ghost var m, t := buffer.markers, buffer.stream;
      StartLine();
      ghost var directive := config.Directive(lastMarkedPos);
      PutDirective();
      Written(m, t, marker, directive);
      PutText(code, safe);
      Written(m, t, marker + directive, line);
      WriteLines("\n");
      Written(m, t, marker + directive + line, "\n");
      bol := true;
    }

    method StartLine()
      modifies this`lastPos, this`lastMarkedPos, buffer`stream, buffer`markers
      modifies Context()`usedLabels, Context()`declaresErrorIndicator, Context()`usesErrorIndicator
      ensures lastMarkedPos == old(NextMark()) && lastPos == if bol then NoPlace else old(lastPos)
      ensures var text := if old(lastPos).Place? && bol then config.MarkerText(level, old(lastPos), old(TraceLine())) else "";
              && buffer.stream == old(buffer.stream) + text
              && buffer.markers == old(buffer.markers) + Repeat(lastMarkedPos, CountNewlines(text))
    {
      hide Config.MarkerText, CCodeWriter.TraceLine;
      Unmarked(buffer.markers, buffer.stream);
      if lastPos.Place? && bol {
        EmitMarker();
      }
    }

    method PutDirective()
      modifies buffer`stream, buffer`markers
      ensures buffer.stream == old(buffer.stream) + config.Directive(lastMarkedPos)
      ensures buffer.markers == old(buffer.markers) + Repeat(lastMarkedPos, CountNewlines(config.Directive(lastMarkedPos)))
    {
      Unmarked(buffer.markers, buffer.stream);
      if config.emitLinenums && lastMarkedPos != Nowhere {
        WriteLines("\n#line " + Digits(lastMarkedPos.line) + " \"" + config.fileName(lastMarkedPos.source) + "\"\n");
      }
    }

    method PutText(code: string, safe: bool)
      modifies this`level, this`bol, buffer`stream, buffer`markers
      ensures level == if safe then old(level) else old(level) + Surplus(code)
      ensures var text := LineText(code, safe, old(bol), old(level));
              && buffer.stream == old(buffer.stream) + text
              && buffer.markers == old(buffer.markers) + Repeat(lastMarkedPos, CountNewlines(text))
    {
      Unmarked(buffer.markers, buffer.stream);
      if code != "" {
        if safe {
          Write(code);
          bol := false;
        } else {
          ghost var indent := if bol then Spaces(level + Dedent(code)) else "";
          PutNewlines(indent, code);
          Put(code);
          Joined(old(buffer.stream), indent, code);
        }
      }
    }

    lemma Joined(t: string, indent: string, code: string)
      ensures t + indent + code == t + (indent + code)
      ensures "" + code == code
    {
    }

    /** Writing in two parts is writing at once. */
    lemma Written(m: seq<Position>, t: string, a: string, b: string)
      ensures t + a + b == t + (a + b)
      ensures m + Repeat(lastMarkedPos, CountNewlines(a)) + Repeat(lastMarkedPos, CountNewlines(b)) ==
              m + Repeat(lastMarkedPos, CountNewlines(a + b))
    {
      CountNewlinesConcat(a, b);
      RepeatConcat(lastMarkedPos, CountNewlines(a), CountNewlines(b));
    }

    lemma Unmarked(m: seq<Position>, t: string)
      ensures t + "" == t && m + Repeat(lastMarkedPos, CountNewlines("")) == m
    {
    }

    lemma PutNewlines(indent: string, code: string)
      requires '\n' !in indent
      ensures CountNewlines(indent + code) == CountNewlines(code)
    {
      NoNewlines(indent);
      CountNewlinesConcat(indent, code);
    }

    /** An insertion point has the position and the formatting of the writer it was taken from, and its buffer stands
        right before what is written to that writer next. */
    method InsertionPoint() returns (other: CCodeWriter)
      modifies buffer
      ensures fresh(other) && fresh(other.buffer) && other.config == config && other.context == context
      ensures other.buffer.stream == "" && other.buffer.markers == [] && other.buffer.prependedChildren == []
      ensures other.lastMarkedPos == lastMarkedPos && other.lastPos == lastPos && other.lastTrace == lastTrace
      ensures other.level == level && other.bol == bol
      ensures buffer.stream == ""
      ensures old(buffer.stream) == "" ==>
        buffer.prependedChildren == old(buffer.prependedChildren) + [other.buffer] && buffer.markers == old(buffer.markers)
      ensures old(buffer.stream) != "" ==>
        && buffer.markers == []
        && |buffer.prependedChildren| == |old(buffer.prependedChildren)| + 2
        && buffer.prependedChildren[..|buffer.prependedChildren| - 2] == old(buffer.prependedChildren)
        && buffer.prependedChildren[|buffer.prependedChildren| - 1] == other.buffer
        && var c := buffer.prependedChildren[|buffer.prependedChildren| - 2];
           && c != other.buffer && fresh(c) && c.prependedChildren == [] && c.stream == old(buffer.stream)
           && c.markers == old(buffer.markers)
    {
      var b := buffer.InsertionPoint();
      other := new CCodeWriter.From(this, b, true);
    }

    /** A writer with a tree of its own, to be inserted later. */
    method NewWriter() returns (other: CCodeWriter)
      ensures fresh(other) && fresh(other.buffer) && other.config == config && other.context == context
      ensures other.buffer.stream == "" && other.buffer.markers == [] && other.buffer.prependedChildren == []
      ensures other.lastMarkedPos == lastMarkedPos && other.lastPos == lastPos && other.lastTrace == lastTrace
      ensures other.level == 0 && other.bol
    {
      var b := new StringIOTree<Position>();
      other := new CCodeWriter.From(this, b, false);
    }
  }

  // ----- Writers and the run model -----

  /** The buffers that hold this forest have, segment by segment, the text of the tagged reference and its markers. */
  ghost predicate Tracks(f: Forest<Buffer, Position>, doc: seq<Piece<Buffer, Position>>)
    reads Ids(f)
  {
    Shows(f) && Unshared(f) && Aligned(Flat(f), doc)
  }

  /** A new buffer is a tree of its own, of which nothing has been written. */
  lemma Untouched(b: Buffer)
    requires b.prependedChildren == [] && b.stream == "" && b.markers == []
    ensures Tracks(Leaf(b, "", []), [Piece(b, [])]) && Roots(Leaf<Buffer, Position>(b, "", [])) == [b]
  {
    hide Aligned, Flat, Leaf, Shows, Unshared;
    LeafForest(b);
    LeafAligned<Buffer, Position>(b, []);
    EmptyTagged<Position>();
  }

  /** A first writer with a buffer of its own. */
  method Begin(config: Config)
    returns (w: CCodeWriter, ghost f: Forest<Buffer, Position>, ghost doc: seq<Piece<Buffer, Position>>)
    ensures fresh(w) && fresh(w.buffer) && w.config == config && w.lastMarkedPos == Nowhere
    ensures Tracks(f, doc) && f == Leaf(w.buffer, "", []) && Whole(doc) == []
  {
    var b := new StringIOTree<Position>();
    w := new CCodeWriter(config, b);
    f, doc := Leaf(b, "", []), [Piece(b, [])];
    Untouched(b);
  }

  /** A writer to be inserted later, which starts with the position of another one. */
  method BeginWithin(w: CCodeWriter)
    returns (other: CCodeWriter, ghost f: Forest<Buffer, Position>, ghost doc: seq<Piece<Buffer, Position>>)
    ensures fresh(other) && fresh(other.buffer) && other.lastMarkedPos == w.lastMarkedPos
    ensures Tracks(f, doc) && f == Leaf(other.buffer, "", []) && Roots(f) == [other.buffer] && Whole(doc) == []
  {
    other := w.NewWriter();
    f, doc := Leaf(other.buffer, "", []), [Piece(other.buffer, [])];
    Untouched(other.buffer);
  }

  /** Seen from any tree that contains the buffer, a write is the write of the run model: the text and one marker
      per newline, with the marked position. */
  method WriteWithin(w: CCodeWriter, s: string, ghost f: Forest<Buffer, Position>, ghost doc: seq<Piece<Buffer, Position>>)
    returns (ghost g: Forest<Buffer, Position>)
    requires Tracks(f, doc) && w.buffer in Ids(f)
    modifies w.buffer
    ensures g == WriteTo(f, w.buffer, s, w.lastMarkedPos)
    ensures Ids(g) == Ids(f) && Roots(g) == Roots(f)
    ensures Value(g) == UpTo(f, w.buffer) + s + Beyond(f, w.buffer)
    ensures Tracks(g, Splice(doc, w.buffer, [], PieceText(doc, w.buffer) + Tag(s, w.lastMarkedPos)))
  {
    hide Unshared, Ids, Roots, Grow, TextOf, MarkersOf, Value, UpTo, Beyond, ShowsIn, Shows, Repeat, CountNewlines, Aligned,
      Flat, Splice, PieceText;
    ghost var h := Capture(f);
    ghost var n := w.buffer;
    FieldsOf(h, f, n);
    Allocated(f);
    w.Write(s);
    EmptyForest<Position>();
    g := Grown(h, f, n, Nil);
    WriteInserts(f, n, s, Repeat(w.lastMarkedPos, CountNewlines(s)));
    WriteAligned(f, doc, n, s, w.lastMarkedPos);
  }

  /** So is a whole line with its marker, its trace call and its directive. */
  method PutlnWithin(w: CCodeWriter, code: string, safe: bool, ghost f: Forest<Buffer, Position>,
                     ghost doc: seq<Piece<Buffer, Position>>)
    returns (ghost g: Forest<Buffer, Position>)
    requires Tracks(f, doc) && w.buffer in Ids(f)
    modifies w`lastPos, w`lastMarkedPos, w`level, w`bol, w.buffer
    modifies w.Context()`usedLabels, w.Context()`declaresErrorIndicator, w.Context()`usesErrorIndicator
    ensures w.lastMarkedPos == old(w.NextMark())
    ensures var text := old(w.NextLine(code, safe));
      && g == WriteTo(f, w.buffer, text, w.lastMarkedPos)
      && Ids(g) == Ids(f) && Roots(g) == Roots(f)
      && Value(g) == UpTo(f, w.buffer) + text + Beyond(f, w.buffer)
      && Tracks(g, Splice(doc, w.buffer, [], PieceText(doc, w.buffer) + Tag(text, w.lastMarkedPos)))
  {
    hide Unshared, Ids, Roots, Grow, TextOf, MarkersOf, Value, UpTo, Beyond, ShowsIn, Shows, Repeat, CountNewlines, Aligned,
      Flat, Splice, PieceText, CCodeWriter.NextLine, CCodeWriter.NextMark, CountChar;
    ghost var h := Capture(f);
    ghost var n := w.buffer;
    ghost var text := w.NextLine(code, safe);
    FieldsOf(h, f, n);
    Allocated(f);
    w.Putln(code, safe);
    EmptyForest<Position>();
    g := Grown(h, f, n, Nil);
    WriteInserts(f, n, text, Repeat(w.lastMarkedPos, CountNewlines(text)));
    WriteAligned(f, doc, n, text, w.lastMarkedPos);
  }

  /** So is an insertion point: no value and no marker changes, and the new writer writes at the cursor. */
  method InsertionPointWithin(w: CCodeWriter, ghost f: Forest<Buffer, Position>, ghost doc: seq<Piece<Buffer, Position>>)
    returns (other: CCodeWriter, ghost g: Forest<Buffer, Position>, ghost moved: Buffer)
    requires Tracks(f, doc) && w.buffer in Ids(f)
    modifies w.buffer
    ensures fresh(other) && fresh(other.buffer) && other.buffer in Ids(g)
    ensures other.lastMarkedPos == w.lastMarkedPos
    ensures g == InsertAt(f, w.buffer, moved, Leaf(other.buffer, "", []))
    ensures TextOf(f, w.buffer) != "" ==> moved !in Ids(f) && moved != other.buffer
    ensures Roots(g) == Roots(f) && Ids(f) <= Ids(g) && fresh(Ids(g) - Ids(f))
    ensures Value(g) == Value(f) && forall k :: k in Ids(f) ==> ValueOf(g, k) == ValueOf(f, k)
    ensures UpTo(g, other.buffer) == UpTo(f, w.buffer) && Beyond(g, other.buffer) == Beyond(f, w.buffer)
    ensures Tracks(g, DocInsert(doc, w.buffer, moved, [Piece(other.buffer, [])]))
  {
    hide Unshared, Ids, Roots, Grow, TextOf, MarkersOf, Value, ValueOf, UpTo, Beyond, Leaf, ShowsIn, Shows, InsertAt,
      Aligned, Flat, DocInsert;
    ghost var h := Capture(f);
    ghost var n := w.buffer;
    FieldsOf(h, f, n);
    Allocated(f);
    ghost var committed := n.stream != "";
    other := w.InsertionPoint();
    moved := if committed then n.prependedChildren[|n.prependedChildren| - 2] else n;
    LeafForest(other.buffer);
    g := Inserted(h, f, n, moved, Leaf(other.buffer, "", []));
    PointFacts(f, n, moved, other.buffer);
    PointAligned(f, doc, n, moved, other.buffer);
  }

  lemma PointAligned(f: Forest<Buffer, Position>, doc: seq<Piece<Buffer, Position>>, n: Buffer, moved: Buffer, left: Buffer)
    requires n in Ids(f) && Unshared(f) && Aligned(Flat(f), doc) && left !in Ids(f)
    requires TextOf(f, n) != "" ==> moved !in Ids(f) && moved != left
    ensures Aligned(Flat(InsertAt(f, n, moved, Leaf(left, "", []))), DocInsert(doc, n, moved, [Piece(left, [])]))
  {
    hide InsertAt, DocInsert, Aligned, Flat, Leaf, Ids, Unshared;
    LeafFacts<Buffer, Position>(left, "", []);
    LeafAligned<Buffer, Position>(left, []);
    EmptyTagged<Position>();
    InsertAligned(f, doc, n, moved, Leaf(left, "", []), [Piece(left, [])]);
  }

  /** And so is inserting another writer, whose text and markers go to the cursor. */
  method InsertWithin(w: CCodeWriter, other: CCodeWriter, ghost f: Forest<Buffer, Position>,
                      ghost doc: seq<Piece<Buffer, Position>>, ghost c: Forest<Buffer, Position>,
                      ghost dc: seq<Piece<Buffer, Position>>)
    returns (ghost g: Forest<Buffer, Position>, ghost moved: Buffer)
    requires Tracks(f, doc) && w.buffer in Ids(f)
    requires Tracks(c, dc) && Roots(c) == [other.buffer] && Ids(f) !! Ids(c)
    modifies w.buffer
    ensures g == InsertAt(f, w.buffer, moved, c) && Roots(g) == Roots(f) && Ids(f) + Ids(c) <= Ids(g)
    ensures TextOf(f, w.buffer) != "" ==> moved !in Ids(f) && moved !in Ids(c)
    ensures Value(g) == UpTo(f, w.buffer) + Value(c) + Beyond(f, w.buffer)
    ensures Tracks(g, DocInsert(doc, w.buffer, moved, dc))
  {
    hide Unshared, Ids, Roots, TextOf, Value, UpTo, Beyond, Shows, InsertAt, Aligned, Flat, DocInsert;
    g, moved := StringIOTrees.InsertWithin(w.buffer, other.buffer, f, c);
    InsertAligned(f, doc, w.buffer, moved, c, dc);
  }

  /** What the buffers of a whole tree return is what the reference says: the text, and one marker per newline with
      the position that was marked when the newline was written. */
  method Outcome(w: CCodeWriter, ghost f: Forest<Buffer, Position>, ghost doc: seq<Piece<Buffer, Position>>)
    returns (value: string, markers: seq<Position>)
    requires Tracks(f, doc) && f.Cons? && f.id == w.buffer && f.rest == Nil
    ensures value == Chars(Whole(doc)) && markers == NewlinePositions(Whole(doc))
    ensures |markers| == CountNewlines(value)
  {
    hide Aligned, Flat, Chars, NewlinePositions, Whole, Shows, Unshared;
    Allocated(f);
    value := w.buffer.GetValue(f);
    markers := w.buffer.AllMarkersOf(f);
    AloneValue(f);
    FlatValue(f);
    AlignedWhole(Flat(f), doc);
    PositionsCount(Whole(doc));
  }

  lemma AloneValue(f: Forest<Buffer, Position>)
    requires f.Cons? && f.rest == Nil
    ensures Value(f) == Value(f.kids) + f.text && AllMarkers(f) == AllMarkers(f.kids) + f.markers
  {
    assert Value(f.rest) == "" && AllMarkers(f.rest) == [];
    assert Value(f.kids) + f.text + "" == Value(f.kids) + f.text;
    assert AllMarkers(f.kids) + f.markers + [] == AllMarkers(f.kids) + f.markers;
  }

  lemma {:induction false} CountAbsent(s: string, c: char)
    ensures CountChar(s, c) > 0 <==> c in s
  {
    if s != "" {
      CountAbsent(s[1..], c);
    }
  }
}
