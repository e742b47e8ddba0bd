/** Runs of code writers over their output buffers, against a reference in which every character
    carries the source position that was current when it was written.

    The code keeps, per buffer, the text and a separate list with one marker per newline; `DocApply`
    keeps one tagged text per segment instead.  `RunAligned` shows that no run of writes, commits,
    insertion points and inserts lets the two drift apart, and `MarkersFollowNewlines` what this means
    for the whole output. */
module WriterRuns {
  import opened Forests

  /** A run: `root` is the tree the buffer `n` currently belongs to; the other names are new buffers. */
  datatype Op<Id, M> =
    | New(root: Id)
    | Write(root: Id, n: Id, s: string, position: M)
    | Commit(root: Id, n: Id, moved: Id)
    | InsertionPoint(root: Id, n: Id, moved: Id, left: Id)
    | Insert(root: Id, n: Id, moved: Id, inserted: Id)

  /** All trees in existence, by the buffer at their root. */
  type Trees<Id, M> = map<Id, Forest<Id, M>>

  function CountNewlines(s: string): nat {
    if s == "" then 0 else (if s[0] == '\n' then 1 else 0) + CountNewlines(s[1..])
  }

  function Repeat<M>(m: M, k: nat): seq<M> {
    if k == 0 then [] else [m] + Repeat(m, k - 1)
  }

  // ----- The buffers -----

  ghost function WriteTo<Id, M>(f: Forest<Id, M>, n: Id, s: string, position: M): Forest<Id, M>
    requires n in Ids(f)
  {
    Grow(f, n, Nil, TextOf(f, n) + s, MarkersOf(f, n) + Repeat(position, CountNewlines(s)))
  }

  ghost predicate Unused<Id, M>(trees: Trees<Id, M>, id: Id) {
    forall r :: r in trees ==> id !in Ids(trees[r])
  }

  ghost predicate Valid<Id(!new), M(!new)>(trees: Trees<Id, M>) {
    && (forall r :: r in trees ==> Unshared(trees[r]) && r in Ids(trees[r]))
    && (forall r, q :: r in trees && q in trees && r != q ==> Ids(trees[r]) !! Ids(trees[q]))
  }

  ghost predicate Legal<Id(!new), M(!new)>(trees: Trees<Id, M>, op: Op<Id, M>) {
    match op
    case New(root) => Unused(trees, root)
    case Write(root, n, _, _) => root in trees && n in Ids(trees[root])
    case Commit(root, n, moved) => root in trees && n in Ids(trees[root]) && Unused(trees, moved)
    case InsertionPoint(root, n, moved, left) =>
      root in trees && n in Ids(trees[root]) && moved != left && Unused(trees, moved) && Unused(trees, left)
    case Insert(root, n, moved, inserted) =>
      && root in trees && n in Ids(trees[root]) && Unused(trees, moved)
      && inserted in trees && inserted != root
  }

  ghost function Apply<Id(!new), M(!new)>(trees: Trees<Id, M>, op: Op<Id, M>): Trees<Id, M>
    requires Legal(trees, op)
  {
    match op
    case New(root) => trees[root := Leaf(root, "", [])]
    case Write(root, n, s, position) => trees[root := WriteTo(trees[root], n, s, position)]
    case Commit(root, n, moved) => trees[root := CommitAt(trees[root], n, moved)]
    case InsertionPoint(root, n, moved, left) =>
      trees[root := InsertAt(trees[root], n, moved, Leaf(left, "", []))]
    case Insert(root, n, moved, inserted) =>
      (trees - {inserted})[root := InsertAt(trees[root], n, moved, trees[inserted])]
  }

  ghost predicate LegalRun<Id(!new), M(!new)>(trees: Trees<Id, M>, ops: seq<Op<Id, M>>)
    decreases |ops|
  {
    ops == [] || (Legal(trees, ops[0]) && LegalRun(Apply(trees, ops[0]), ops[1..]))
  }

  ghost function Run<Id(!new), M(!new)>(trees: Trees<Id, M>, ops: seq<Op<Id, M>>): Trees<Id, M>
    requires LegalRun(trees, ops)
    decreases |ops|
  {
    if ops == [] then trees else Run(Apply(trees, ops[0]), ops[1..])
  }

  // ----- The reference: tagged text -----

  type Tagged<M> = seq<(char, M)>

  datatype Piece<Id, M> = Piece(id: Id, text: Tagged<M>)

  type Docs<Id, M> = map<Id, seq<Piece<Id, M>>>

  function Tag<M>(s: string, position: M): Tagged<M> {
    if s == "" then [] else [(s[0], position)] + Tag(s[1..], position)
  }

  function Chars<M>(t: Tagged<M>): string {
    if t == [] then "" else [t[0].0] + Chars(t[1..])
  }

  /** The positions at the newlines, in order. */
  function NewlinePositions<M>(t: Tagged<M>): seq<M> {
    if t == [] then [] else NewlinePosition(t[0]) + NewlinePositions(t[1..])
  }

  function NewlinePosition<M>(c: (char, M)): seq<M> {
    if c.0 == '\n' then [c.1] else []
  }

  function Whole<Id, M>(doc: seq<Piece<Id, M>>): Tagged<M> {
    if doc == [] then [] else doc[0].text + Whole(doc[1..])
  }

  ghost function PieceText<Id, M>(doc: seq<Piece<Id, M>>, n: Id): Tagged<M> {
    if doc == [] then [] else if doc[0].id == n then doc[0].text else PieceText(doc[1..], n)
  }

  /** Puts `c` in front of the piece of `n` and gives the piece a new text. */
  ghost function Splice<Id, M>(doc: seq<Piece<Id, M>>, n: Id, c: seq<Piece<Id, M>>, text: Tagged<M>): seq<Piece<Id, M>> {
    if doc == [] then []
    else if doc[0].id == n then c + [Piece(n, text)] + doc[1..]
    else [doc[0]] + Splice(doc[1..], n, c, text)
  }

  ghost function DocCommit<Id, M>(doc: seq<Piece<Id, M>>, n: Id, moved: Id): seq<Piece<Id, M>> {
    if PieceText(doc, n) == [] then doc else Splice(doc, n, [Piece(moved, PieceText(doc, n))], [])
  }

  ghost function DocInsert<Id, M>(doc: seq<Piece<Id, M>>, n: Id, moved: Id, c: seq<Piece<Id, M>>): seq<Piece<Id, M>> {
    Splice(DocCommit(doc, n, moved), n, c, [])
  }

  ghost function DocApply<Id(!new), M(!new)>(docs: Docs<Id, M>, op: Op<Id, M>): Docs<Id, M>
    requires !op.New? ==> op.root in docs
    requires op.Insert? ==> op.inserted in docs
  {
    match op
    case New(root) => docs[root := [Piece(root, [])]]
    case Write(root, n, s, position) =>
      docs[root := Splice(docs[root], n, [], PieceText(docs[root], n) + Tag(s, position))]
    case Commit(root, n, moved) => docs[root := DocCommit(docs[root], n, moved)]
    case InsertionPoint(root, n, moved, left) =>
      docs[root := DocInsert(docs[root], n, moved, [Piece(left, [])])]
    case Insert(root, n, moved, inserted) =>
      (docs - {inserted})[root := DocInsert(docs[root], n, moved, docs[inserted])]
  }

  // ----- Alignment -----

  ghost predicate AlignedOne<Id, M>(seg: Segment<Id, M>, piece: Piece<Id, M>) {
    && seg.id == piece.id
    && seg.text == Chars(piece.text)
    && seg.markers == NewlinePositions(piece.text)
  }

  ghost predicate Aligned<Id, M>(segs: seq<Segment<Id, M>>, doc: seq<Piece<Id, M>>) {
    |segs| == |doc| && forall i :: 0 <= i < |segs| ==> AlignedOne(segs[i], doc[i])
  }

  ghost predicate AllAligned<Id, M>(trees: Trees<Id, M>, docs: Docs<Id, M>) {
    trees.Keys == docs.Keys && forall r :: r in trees ==> Aligned(Flat(trees[r]), docs[r])
  }

  lemma TaggedConcat<M>(a: Tagged<M>, b: Tagged<M>)
    ensures Chars(a + b) == Chars(a) + Chars(b)
    ensures NewlinePositions(a + b) == NewlinePositions(a) + NewlinePositions(b)
  {
    CharsConcat(a, b);
    PositionsConcat(a, b);
  }

  lemma {:induction false} CharsConcat<M>(a: Tagged<M>, b: Tagged<M>)
    ensures Chars(a + b) == Chars(a) + Chars(b)
  {
    if a == [] {
      assert a + b == b;
    } else {
      assert (a + b)[1..] == a[1..] + b;
      CharsConcat(a[1..], b);
    }
  }

  lemma {:induction false} PositionsConcat<M>(a: Tagged<M>, b: Tagged<M>)
    ensures NewlinePositions(a + b) == NewlinePositions(a) + NewlinePositions(b)
  {
    hide NewlinePosition;
    if a == [] {
      assert a + b == b;
    } else {
      var t := a[1..];
      assert (a + b)[1..] == t + b;
      PositionsConcat(t, b);
      Assoc([], NewlinePosition(a[0]), NewlinePositions(t), NewlinePositions(b));
    }
  }

  /** The markers the writer adds are the positions of the newlines it writes. */
  lemma {:induction false} TagMarks<M>(s: string, position: M)
    ensures Chars(Tag(s, position)) == s
    ensures NewlinePositions(Tag(s, position)) == Repeat(position, CountNewlines(s))
  {
    if s != "" {
      TagMarks(s[1..], position);
      var t := Tag(s, position);
      assert t[1..] == Tag(s[1..], position);
    }
  }

  lemma {:induction false} CharsEmpty<M>(t: Tagged<M>)
    ensures |Chars(t)| == |t|
  {
    if t != [] {
      CharsEmpty(t[1..]);
    }
  }

  /** Alignment of the whole output: the text, and one marker per newline with its position. */
  lemma {:induction false} AlignedWhole<Id, M>(segs: seq<Segment<Id, M>>, doc: seq<Piece<Id, M>>)
    requires Aligned(segs, doc)
    ensures Text(segs) == Chars(Whole(doc)) && Marks(segs) == NewlinePositions(Whole(doc))
  {
    if segs != [] {
      assert Aligned(segs[1..], doc[1..]);
      AlignedWhole(segs[1..], doc[1..]);
      assert AlignedOne(segs[0], doc[0]);
      TaggedConcat(doc[0].text, Whole(doc[1..]));
    }
  }

  lemma AlignedParts<Id, M>(pre: seq<Segment<Id, M>>, seg: Segment<Id, M>, post: seq<Segment<Id, M>>, doc: seq<Piece<Id, M>>)
    requires Aligned(pre + [seg] + post, doc)
    ensures |pre| < |doc| && AlignedOne(seg, doc[|pre|])
    ensures Aligned(pre, doc[..|pre|]) && Aligned(post, doc[|pre| + 1..])
  {
    var segs := pre + [seg] + post;
    assert AlignedOne(segs[|pre|], doc[|pre|]);
    forall i | 0 <= i < |pre|
      ensures AlignedOne(pre[i], doc[..|pre|][i])
    {
      assert AlignedOne(segs[i], doc[i]);
    }
    forall i | 0 <= i < |post|
      ensures AlignedOne(post[i], doc[|pre| + 1..][i])
    {
      assert AlignedOne(segs[|pre| + 1 + i], doc[|pre| + 1 + i]);
    }
  }

  ghost predicate NoPiece<Id, M>(doc: seq<Piece<Id, M>>, n: Id) {
    forall p :: p in doc ==> p.id != n
  }

  lemma {:induction false} NoPieceAligned<Id, M>(segs: seq<Segment<Id, M>>, doc: seq<Piece<Id, M>>, n: Id)
    requires Aligned(segs, doc) && n !in SegmentIds(segs)
    ensures NoPiece(doc, n)
  {
    if segs != [] {
      assert AlignedOne(segs[0], doc[0]);
      assert [segs[0]] == [] + [segs[0]] && segs == [] + [segs[0]] + segs[1..];
      AlignedParts([], segs[0], segs[1..], doc);
      NoPieceAligned(segs[1..], doc[1..], n);
      assert doc == [doc[0]] + doc[1..];
    }
  }

  /** Splicing at the first piece of `n`. */
  lemma {:induction false} SpliceFirst<Id, M>(a: seq<Piece<Id, M>>, p: Piece<Id, M>, b: seq<Piece<Id, M>>,
                                            c: seq<Piece<Id, M>>, text: Tagged<M>)
    requires NoPiece(a, p.id)
    ensures PieceText(a + [p] + b, p.id) == p.text
    ensures Splice(a + [p] + b, p.id, c, text) == a + (c + [Piece(p.id, text)]) + b
  {
    var doc := a + [p] + b;
    if a == [] {
      assert doc[0] == p && doc[1..] == b;
    } else {
      assert doc[0] == a[0] && a[0] in a && doc[1..] == a[1..] + [p] + b;
      SpliceFirst(a[1..], p, b, c, text);
      assert [a[0]] + (a[1..] + (c + [Piece(p.id, text)]) + b) == a + (c + [Piece(p.id, text)]) + b;
    }
  }

  /** The piece that is aligned with the segment of `n` is the piece of `n`. */
  lemma SpliceAt<Id, M>(pre: seq<Segment<Id, M>>, seg: Segment<Id, M>, post: seq<Segment<Id, M>>,
                        doc: seq<Piece<Id, M>>, c: seq<Piece<Id, M>>, text: Tagged<M>)
    requires Aligned(pre + [seg] + post, doc) && seg.id !in SegmentIds(pre)
    ensures |pre| < |doc| && AlignedOne(seg, doc[|pre|])
    ensures PieceText(doc, seg.id) == doc[|pre|].text
    ensures Splice(doc, seg.id, c, text) == doc[..|pre|] + (c + [Piece(seg.id, text)]) + doc[|pre| + 1..]
    ensures Aligned(pre, doc[..|pre|]) && Aligned(post, doc[|pre| + 1..])
  {
    hide Aligned, Splice, PieceText, SegmentIds, NoPiece, Whole, Chars, NewlinePositions;
    AlignedParts(pre, seg, post, doc);
    NoPieceAligned(pre, doc[..|pre|], seg.id);
    SpliceFirst(doc[..|pre|], doc[|pre|], doc[|pre| + 1..], c, text);
    Decompose(doc, |pre|);
  }

  lemma Decompose<T>(s: seq<T>, k: nat)
    requires k < |s|
    ensures s[..k] + [s[k]] + s[k + 1..] == s
  {
  }

  lemma AlignedConcat<Id, M>(a: seq<Segment<Id, M>>, da: seq<Piece<Id, M>>, b: seq<Segment<Id, M>>, db: seq<Piece<Id, M>>)
    requires Aligned(a, da) && Aligned(b, db)
    ensures Aligned(a + b, da + db)
  {
    forall i | 0 <= i < |a + b|
      ensures AlignedOne((a + b)[i], (da + db)[i])
    {
      if i < |a| {
        assert AlignedOne(a[i], da[i]);
      } else {
        assert AlignedOne(b[i - |a|], db[i - |a|]);
      }
    }
  }

  /** Growing a buffer and splicing its piece keeps the two aligned. */
  lemma GrowAligned<Id, M>(f: Forest<Id, M>, doc: seq<Piece<Id, M>>, n: Id, c: Forest<Id, M>, dc: seq<Piece<Id, M>>,
                           t: Tagged<M>)
    requires n in Ids(f) && Unshared(f) && Aligned(Flat(f), doc) && Aligned(Flat(c), dc)
    ensures TextOf(f, n) == Chars(PieceText(doc, n)) && MarkersOf(f, n) == NewlinePositions(PieceText(doc, n))
    ensures Aligned(Flat(Grow(f, n, c, Chars(t), NewlinePositions(t))), Splice(doc, n, dc, t))
  {
    hide Flat, Grow, Ids, Unshared, AlignedOne, Splice, PieceText, TextOf, MarkersOf, SegmentIds, Aligned;
    var pre, post := FlatGrow(f, n, c, Chars(t), NewlinePositions(t));
    var seg := Segment(n, TextOf(f, n), MarkersOf(f, n));
    SpliceAt(pre, seg, post, doc, dc, t);
    AlignedFields(seg, doc[|pre|]);
    var grown := Segment(n, Chars(t), NewlinePositions(t));
    AlignedSingle(n, t);
    AlignedConcat(Flat(c), dc, [grown], [Piece(n, t)]);
    AlignedConcat(pre, doc[..|pre|], Flat(c) + [grown], dc + [Piece(n, t)]);
    AlignedConcat(pre + (Flat(c) + [grown]), doc[..|pre|] + (dc + [Piece(n, t)]), post, doc[|pre| + 1..]);
  }

  lemma AlignedFields<Id, M>(seg: Segment<Id, M>, piece: Piece<Id, M>)
    requires AlignedOne(seg, piece)
    ensures seg.text == Chars(piece.text) && seg.markers == NewlinePositions(piece.text)
  {
  }

  lemma AlignedSingle<Id, M>(n: Id, t: Tagged<M>)
    ensures Aligned([Segment(n, Chars(t), NewlinePositions(t))], [Piece(n, t)])
  {
  }

  lemma LeafAligned<Id, M>(n: Id, t: Tagged<M>)
    ensures Aligned(Flat(Leaf(n, Chars(t), NewlinePositions(t))), [Piece(n, t)])
  {
    var segs := Flat(Leaf(n, Chars(t), NewlinePositions(t)));
    assert Flat<Id, M>(Nil) == [];
    assert segs == [] + [Segment(n, Chars(t), NewlinePositions(t))] + [];
    assert segs == [Segment(n, Chars(t), NewlinePositions(t))];
    AlignedSingle(n, t);
  }

  lemma WriteAligned<Id, M>(f: Forest<Id, M>, doc: seq<Piece<Id, M>>, n: Id, s: string, position: M)
    requires n in Ids(f) && Unshared(f) && Aligned(Flat(f), doc)
    ensures Aligned(Flat(WriteTo(f, n, s, position)), Splice(doc, n, [], PieceText(doc, n) + Tag(s, position)))
  {
    hide Grow, Ids, Unshared, AlignedOne, Splice, PieceText, TextOf, MarkersOf, Aligned;
    GrowAligned(f, doc, n, Nil, [], PieceText(doc, n) + Tag(s, position)) by {
      NilAligned<Id, M>();
    }
    TaggedConcat(PieceText(doc, n), Tag(s, position));
    TagMarks(s, position);
  }

  lemma NilAligned<Id, M>()
    ensures Aligned<Id, M>(Flat(Nil), [])
  {
  }

  lemma CommitAligned<Id, M>(f: Forest<Id, M>, doc: seq<Piece<Id, M>>, n: Id, moved: Id)
    requires n in Ids(f) && Unshared(f) && Aligned(Flat(f), doc) && (TextOf(f, n) != "" ==> moved !in Ids(f))
    ensures n in Ids(CommitAt(f, n, moved))
    ensures var g := CommitAt(f, n, moved);
      && Aligned(Flat(g), DocCommit(doc, n, moved))
      && Unshared(g) && Ids(g) <= Ids(f) + {moved} && Ids(f) <= Ids(g)
      && TextOf(g, n) == "" && MarkersOf(g, n) == [] && (TextOf(f, n) == "" ==> g == f)
  {
    hide Flat, Grow, Ids, Unshared, Splice, PieceText, TextOf, MarkersOf, Aligned, Leaf, Chars, NewlinePositions;
    var t := PieceText(doc, n);
    var leaf := Leaf(moved, Chars(t), NewlinePositions(t));
    LeafAligned(moved, t);
    LeafIds(moved, Chars(t), NewlinePositions(t));
    GrowAligned(f, doc, n, leaf, [Piece(moved, t)], []);
    CharsEmpty(t);
    EmptyTagged<M>();
    GrowIds(f, n, leaf, "", []);
    GrowText(f, n, leaf, "", []);
  }

  lemma LeafIds<Id, M>(id: Id, text: string, markers: seq<M>)
    ensures Ids(Leaf(id, text, markers)) == {id} && Unshared(Leaf(id, text, markers))
  {
  }

  lemma InsertAligned<Id, M>(f: Forest<Id, M>, doc: seq<Piece<Id, M>>, n: Id, moved: Id, c: Forest<Id, M>, dc: seq<Piece<Id, M>>)
    requires n in Ids(f) && Unshared(f) && Aligned(Flat(f), doc)
    requires TextOf(f, n) != "" ==> moved !in Ids(f) && moved !in Ids(c)
    requires Unshared(c) && Ids(f) !! Ids(c) && Aligned(Flat(c), dc)
    ensures var g := InsertAt(f, n, moved, c);
      && Aligned(Flat(g), DocInsert(doc, n, moved, dc))
      && Unshared(g) && Ids(g) <= Ids(f) + {moved} + Ids(c) && Ids(f) <= Ids(g)
  {
    hide Flat, Grow, Ids, Unshared, Splice, PieceText, TextOf, MarkersOf, Aligned, DocCommit, CommitAt, Leaf;
    CommitAligned(f, doc, n, moved);
    var g, doc' := CommitAt(f, n, moved), DocCommit(doc, n, moved);
    GrowAligned(g, doc', n, c, dc, []);
    GrowIds(g, n, c, "", []);
    EmptyTagged<M>();
  }

  lemma EmptyTagged<M>()
    ensures Chars<M>([]) == "" && NewlinePositions<M>([]) == []
  {
  }

  /** Replacing one tree by one that only has new buffers besides its own. */
  lemma UpdateTree<Id(!new), M(!new)>(trees: Trees<Id, M>, docs: Docs<Id, M>, root: Id, g: Forest<Id, M>,
                                     d: seq<Piece<Id, M>>, own: set<Id>)
    requires Valid(trees) && AllAligned(trees, docs)
    requires Unshared(g) && root in Ids(g) && Aligned(Flat(g), d) && Ids(g) <= own
    requires forall r :: r in trees && r != root ==> Ids(trees[r]) !! own
    ensures Valid(trees[root := g]) && AllAligned(trees[root := g], docs[root := d])
  {
    hide Ids, Unshared, Aligned, Flat;
  }

  lemma DropTree<Id(!new), M(!new)>(trees: Trees<Id, M>, docs: Docs<Id, M>, r: Id)
    requires Valid(trees) && AllAligned(trees, docs)
    ensures Valid(trees - {r}) && AllAligned(trees - {r}, docs - {r})
  {
    hide Ids, Unshared, Aligned, Flat;
  }

  /** Every legal operation keeps the trees separate and unshared, and the markers aligned. */
  lemma StepAligned<Id(!new), M(!new)>(trees: Trees<Id, M>, docs: Docs<Id, M>, op: Op<Id, M>)
    requires Valid(trees) && AllAligned(trees, docs) && Legal(trees, op)
    ensures Valid(Apply(trees, op)) && AllAligned(Apply(trees, op), DocApply(docs, op))
  {
    hide Ids, Unshared, Aligned, Flat, Grow, Leaf, CommitAt, InsertAt, DocCommit, DocInsert, Splice, PieceText,
      TextOf, MarkersOf, Chars, NewlinePositions, Tag;
    EmptyTagged<M>();
    match op
    case New(root) =>
      LeafAligned<Id, M>(root, []);
      LeafIds<Id, M>(root, "", []);
      UpdateTree(trees, docs, root, Leaf(root, "", []), [Piece(root, [])], {root});
    case Write(root, n, s, position) =>
      var f := trees[root];
      WriteAligned(f, docs[root], n, s, position);
      GrowIds(f, n, Nil, TextOf(f, n) + s, MarkersOf(f, n) + Repeat(position, CountNewlines(s)));
      NilIds<Id, M>();
      UpdateTree(trees, docs, root, WriteTo(f, n, s, position),
                 Splice(docs[root], n, [], PieceText(docs[root], n) + Tag(s, position)), Ids(f));
    case Commit(root, n, moved) =>
      var f := trees[root];
      CommitAligned(f, docs[root], n, moved);
      UpdateTree(trees, docs, root, CommitAt(f, n, moved), DocCommit(docs[root], n, moved), Ids(f) + {moved});
    case InsertionPoint(root, n, moved, left) =>
      var f := trees[root];
      LeafAligned<Id, M>(left, []);
      LeafIds<Id, M>(left, "", []);
      var leaf := Leaf(left, "", []);
      InsertAligned(f, docs[root], n, moved, leaf, [Piece(left, [])]);
      UpdateTree(trees, docs, root, InsertAt(f, n, moved, leaf),
                 DocInsert(docs[root], n, moved, [Piece(left, [])]), Ids(f) + {moved, left});
    case Insert(root, n, moved, inserted) =>
      var f, c := trees[root], trees[inserted];
      InsertAligned(f, docs[root], n, moved, c, docs[inserted]);
      DropTree(trees, docs, inserted);
      UpdateTree(trees - {inserted}, docs - {inserted}, root, InsertAt(f, n, moved, c),
                 DocInsert(docs[root], n, moved, docs[inserted]), Ids(f) + {moved} + Ids(c));
  }

  lemma NilIds<Id, M>()
    ensures Ids<Id, M>(Nil) == {} && Unshared<Id, M>(Nil)
  {
  }

  ghost function DocRun<Id(!new), M(!new)>(trees: Trees<Id, M>, docs: Docs<Id, M>, ops: seq<Op<Id, M>>): Docs<Id, M>
    requires LegalRun(trees, ops) && Valid(trees) && AllAligned(trees, docs)
    decreases |ops|
  {
    if ops == [] then docs else
    StepAligned(trees, docs, ops[0]);
    DocRun(Apply(trees, ops[0]), DocApply(docs, ops[0]), ops[1..])
  }

  /** Whole runs. */
  lemma {:induction false} RunAligned<Id(!new), M(!new)>(trees: Trees<Id, M>, docs: Docs<Id, M>, ops: seq<Op<Id, M>>)
    requires Valid(trees) && AllAligned(trees, docs) && LegalRun(trees, ops)
    ensures Valid(Run(trees, ops)) && AllAligned(Run(trees, ops), DocRun(trees, docs, ops))
    decreases |ops|
  {
    if ops != [] {
      StepAligned(trees, docs, ops[0]);
      RunAligned(Apply(trees, ops[0]), DocApply(docs, ops[0]), ops[1..]);
    }
  }

  /** After any run from nothing, the output of every tree is the text of the tagged reference, and its
      markers are, one per newline and in order, the positions at which the newlines were written. */
  lemma MarkersFollowNewlines<Id(!new), M(!new)>(ops: seq<Op<Id, M>>, root: Id)
    requires LegalRun<Id, M>(map[], ops) && root in Run(map[], ops)
    ensures var docs := DocRun(map[], map[], ops);
      && root in docs
      && Value(Run(map[], ops)[root]) == Chars(Whole(docs[root]))
      && AllMarkers(Run(map[], ops)[root]) == NewlinePositions(Whole(docs[root]))
      && |AllMarkers(Run(map[], ops)[root])| == CountNewlines(Value(Run(map[], ops)[root]))
  {
    RunAligned<Id, M>(map[], map[], ops);
    var f, doc := Run(map[], ops)[root], DocRun(map[], map[], ops)[root];
    FlatValue(f);
    AlignedWhole(Flat(f), doc);
    PositionsCount(Whole(doc));
  }

  lemma {:induction false} PositionsCount<M>(t: Tagged<M>)
    ensures |NewlinePositions(t)| == CountNewlines(Chars(t))
  {
    if t != [] {
      PositionsCount(t[1..]);
      assert Chars(t)[1..] == Chars(t[1..]);
    }
  }

  /** What splicing does to the whole text. */
  lemma {:induction false} SpliceWhole<Id, M>(doc: seq<Piece<Id, M>>, n: Id, c: seq<Piece<Id, M>>, text: Tagged<M>)
    returns (left: Tagged<M>, right: Tagged<M>)
    requires !NoPiece(doc, n)
    ensures Whole(doc) == left + PieceText(doc, n) + right
    ensures Whole(Splice(doc, n, c, text)) == left + (Whole(c) + text) + right
  {
    if doc[0].id == n {
      left, right := [], Whole(doc[1..]);
      WholeConcat(c + [Piece(n, text)], doc[1..]);
      WholeConcat(c, [Piece(n, text)]);
      PieceSingle(n, text);
    } else {
      assert !NoPiece(doc[1..], n) by {
        var p :| p in doc && p.id == n;
        assert doc == [doc[0]] + doc[1..];
      }
      var l;
      l, right := SpliceWhole(doc[1..], n, c, text);
      left := doc[0].text + l;
      var tail := Splice(doc[1..], n, c, text);
      assert ([doc[0]] + tail)[1..] == tail;
    }
  }

  lemma {:induction false} WholeConcat<Id, M>(a: seq<Piece<Id, M>>, b: seq<Piece<Id, M>>)
    ensures Whole(a + b) == Whole(a) + Whole(b)
  {
    if a == [] {
      assert a + b == b;
    } else {
      assert (a + b)[1..] == a[1..] + b;
      WholeConcat(a[1..], b);
    }
  }

  /** A write inserts its text, tagged with its position, right after what its buffer already has in
      front of the cursor, and changes nothing else of the tagged text. */
  lemma WriteInsertsTagged<Id, M>(doc: seq<Piece<Id, M>>, n: Id, s: string, position: M)
    returns (left: Tagged<M>, right: Tagged<M>)
    requires !NoPiece(doc, n)
    ensures Whole(doc) == left + PieceText(doc, n) + right
    ensures Whole(Splice(doc, n, [], PieceText(doc, n) + Tag(s, position)))
         == left + PieceText(doc, n) + Tag(s, position) + right
  {
    left, right := SpliceWhole(doc, n, [], PieceText(doc, n) + Tag(s, position));
    Assoc([], left, PieceText(doc, n), Tag(s, position));
  }

  /** Commits and insertion points leave the tagged text alone. */
  lemma CommitKeepsTagged<Id, M>(doc: seq<Piece<Id, M>>, n: Id, moved: Id, left: Id)
    requires !NoPiece(doc, n) && moved != n && left != n
    ensures Whole(DocCommit(doc, n, moved)) == Whole(doc)
    ensures Whole(DocInsert(doc, n, moved, [Piece(left, [])])) == Whole(doc)
  {
    var t := PieceText(doc, n);
    var doc' := DocCommit(doc, n, moved);
    PieceSingle(moved, t);
    PieceSingle<Id, M>(left, []);
    if t != [] {
      var l, r := SpliceWhole(doc, n, [Piece(moved, t)], []);
      SplicedText(doc, n, [Piece(moved, t)], []);
    }
    var l, r := SpliceWhole(doc', n, [Piece(left, [])], []);
  }

  lemma PieceSingle<Id, M>(id: Id, t: Tagged<M>)
    ensures Whole([Piece(id, t)]) == t
  {
    assert [Piece(id, t)][1..] == [];
  }

  lemma {:induction false} SplicedText<Id, M>(doc: seq<Piece<Id, M>>, n: Id, c: seq<Piece<Id, M>>, text: Tagged<M>)
    requires !NoPiece(doc, n) && NoPiece(c, n)
    ensures !NoPiece(Splice(doc, n, c, text), n) && PieceText(Splice(doc, n, c, text), n) == text
  {
    if doc[0].id == n {
      SpliceFirst(c, Piece(n, text), doc[1..], [], text);
      assert Piece(n, text) in Splice(doc, n, c, text);
    } else {
      assert doc == [doc[0]] + doc[1..];
      var tail := Splice(doc[1..], n, c, text);
      SplicedText(doc[1..], n, c, text);
      assert ([doc[0]] + tail)[1..] == tail;
      var p :| p in tail && p.id == n;
      assert p in [doc[0]] + tail;
    }
  }
}
