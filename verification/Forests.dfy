/** Trees of output buffers as values, and the flat list of text segments they stand for.

    A buffer has children, which come first, and a stream of its own, which comes last; so in the order
    of the output every buffer is one segment.  `Grow` is the one change all buffer operations make,
    `Splice` its counterpart on the list of segments, and `FlatGrow` says that they agree. */
module Forests {

  /** A list of trees: the first tree (identity, children, own text, own line markers) and the others. */
  datatype Forest<Id, M> =
    | Nil
    | Cons(id: Id, kids: Forest<Id, M>, text: string, markers: seq<M>, rest: Forest<Id, M>)

  datatype Segment<Id, M> = Segment(id: Id, text: string, markers: seq<M>)

  ghost function Ids<Id, M>(f: Forest<Id, M>): set<Id> {
    match f
    case Nil => {}
    case Cons(id, kids, _, _, rest) => {id} + Ids(kids) + Ids(rest)
  }

  /** No buffer occurs twice. */
  ghost predicate Unshared<Id, M>(f: Forest<Id, M>) {
    match f
    case Nil => true
    case Cons(id, kids, _, _, rest) =>
      && id !in Ids(kids) && id !in Ids(rest) && Ids(kids) !! Ids(rest)
      && Unshared(kids) && Unshared(rest)
  }

  ghost function Roots<Id, M>(f: Forest<Id, M>): seq<Id> {
    match f
    case Nil => []
    case Cons(id, _, _, _, rest) => [id] + Roots(rest)
  }

  ghost function Append<Id, M>(f: Forest<Id, M>, g: Forest<Id, M>): Forest<Id, M> {
    match f
    case Nil => g
    case Cons(id, kids, text, markers, rest) => Cons(id, kids, text, markers, Append(rest, g))
  }

  /** What `getvalue` returns. */
  ghost function Value<Id, M>(f: Forest<Id, M>): string {
    match f
    case Nil => ""
    case Cons(_, kids, text, _, rest) => Value(kids) + text + Value(rest)
  }

  /** What `allmarkers` returns. */
  ghost function AllMarkers<Id, M>(f: Forest<Id, M>): seq<M> {
    match f
    case Nil => []
    case Cons(_, kids, _, markers, rest) => AllMarkers(kids) + markers + AllMarkers(rest)
  }

  /** The value of one buffer of the forest. */
  ghost function ValueOf<Id, M>(f: Forest<Id, M>, n: Id): string
    requires n in Ids(f)
  {
    if f.id == n then Value(f.kids) + f.text
    else if n in Ids(f.kids) then ValueOf(f.kids, n)
    else ValueOf(f.rest, n)
  }

  ghost function TextOf<Id, M>(f: Forest<Id, M>, n: Id): string
    requires n in Ids(f)
  {
    if f.id == n then f.text else if n in Ids(f.kids) then TextOf(f.kids, n) else TextOf(f.rest, n)
  }

  ghost function MarkersOf<Id, M>(f: Forest<Id, M>, n: Id): seq<M>
    requires n in Ids(f)
  {
    if f.id == n then f.markers else if n in Ids(f.kids) then MarkersOf(f.kids, n) else MarkersOf(f.rest, n)
  }

  ghost function Leaf<Id, M>(id: Id, text: string, markers: seq<M>): Forest<Id, M> {
    Cons(id, Nil, text, markers, Nil)
  }

  /** The buffer `n` gets the trees `c` as further children, and a new text and markers of its own. */
  ghost function Grow<Id, M>(f: Forest<Id, M>, n: Id, c: Forest<Id, M>, text: string, markers: seq<M>): Forest<Id, M>
    requires n in Ids(f)
  {
    if f.id == n then Cons(n, Append(f.kids, c), text, markers, f.rest)
    else if n in Ids(f.kids) then Cons(f.id, Grow(f.kids, n, c, text, markers), f.text, f.markers, f.rest)
    else Cons(f.id, f.kids, f.text, f.markers, Grow(f.rest, n, c, text, markers))
  }

  /** The segments in output order. */
  ghost function Flat<Id, M>(f: Forest<Id, M>): seq<Segment<Id, M>> {
    match f
    case Nil => []
    case Cons(id, kids, text, markers, rest) => Flat(kids) + [Segment(id, text, markers)] + Flat(rest)
  }

  ghost function Text<Id, M>(segs: seq<Segment<Id, M>>): string {
    if segs == [] then "" else segs[0].text + Text(segs[1..])
  }

  ghost function Marks<Id, M>(segs: seq<Segment<Id, M>>): seq<M> {
    if segs == [] then [] else segs[0].markers + Marks(segs[1..])
  }

  lemma {:induction false} TextConcat<Id, M>(a: seq<Segment<Id, M>>, b: seq<Segment<Id, M>>)
    ensures Text(a + b) == Text(a) + Text(b) && Marks(a + b) == Marks(a) + Marks(b)
  {
    if a == [] {
      assert a + b == b;
    } else {
      assert (a + b)[1..] == a[1..] + b;
      TextConcat(a[1..], b);
    }
  }

  lemma Shift<T>(pre: seq<T>, mid: seq<T>, post: seq<T>, s: seq<T>, r: seq<T>)
    ensures pre + mid + post + s + r == pre + mid + (post + s + r)
    ensures r + s + (pre + mid + post) == r + s + pre + mid + post
  {
  }

  /** The value and the markers of a forest are those of its segments in order. */
  lemma {:induction false} FlatValue<Id, M>(f: Forest<Id, M>)
    ensures Value(f) == Text(Flat(f)) && AllMarkers(f) == Marks(Flat(f))
  {
    if f.Cons? {
      FlatValue(f.kids);
      FlatValue(f.rest);
      var s := [Segment(f.id, f.text, f.markers)];
      TextConcat(Flat(f.kids) + s, Flat(f.rest));
      TextConcat(Flat(f.kids), s);
      TextOfOne(Segment(f.id, f.text, f.markers));
      assert Text(Flat(f)) == Text(Flat(f.kids)) + f.text + Text(Flat(f.rest));
      assert Marks(Flat(f)) == Marks(Flat(f.kids)) + f.markers + Marks(Flat(f.rest));
    }
  }

  lemma TextOfOne<Id, M>(s: Segment<Id, M>)
    ensures Text([s]) == s.text && Marks([s]) == s.markers
  {
    var one := [s];
    assert one[1..] == [];
    assert Text(one) == s.text + Text(one[1..]) && Marks(one) == s.markers + Marks(one[1..]);
  }

  ghost function SegmentIds<Id, M>(segs: seq<Segment<Id, M>>): set<Id> {
    if segs == [] then {} else {segs[0].id} + SegmentIds(segs[1..])
  }

  lemma {:induction false} SegmentIdsConcat<Id, M>(a: seq<Segment<Id, M>>, b: seq<Segment<Id, M>>)
    ensures SegmentIds(a + b) == SegmentIds(a) + SegmentIds(b)
  {
    if a == [] {
      assert a + b == b;
    } else {
      assert (a + b)[1..] == a[1..] + b;
      SegmentIdsConcat(a[1..], b);
    }
  }

  lemma SegmentIdsOfOne<Id, M>(s: Segment<Id, M>)
    ensures SegmentIds([s]) == {s.id}
  {
    var one := [s];
    assert one[1..] == [] && SegmentIds(one) == {s.id} + SegmentIds(one[1..]);
  }

  /** Every buffer has its segment, and no other. */
  lemma {:induction false} FlatIds<Id, M>(f: Forest<Id, M>)
    ensures SegmentIds(Flat(f)) == Ids(f)
  {
    if f.Cons? {
      FlatIds(f.kids);
      FlatIds(f.rest);
      var s := [Segment(f.id, f.text, f.markers)];
      SegmentIdsConcat(Flat(f.kids) + s, Flat(f.rest));
      SegmentIdsConcat(Flat(f.kids), s);
      SegmentIdsOfOne(Segment(f.id, f.text, f.markers));
    }
  }

  /** Growing a buffer puts the segments of the new children right before its own segment, which is the
      only one it has. */
  lemma {:induction false} FlatGrow<Id, M>(f: Forest<Id, M>, n: Id, c: Forest<Id, M>, text: string, markers: seq<M>)
    returns (pre: seq<Segment<Id, M>>, post: seq<Segment<Id, M>>)
    requires n in Ids(f)
    ensures Flat(f) == pre + [Segment(n, TextOf(f, n), MarkersOf(f, n))] + post
    ensures Flat(Grow(f, n, c, text, markers)) == pre + (Flat(c) + [Segment(n, text, markers)]) + post
    ensures Unshared(f) ==> n !in SegmentIds(pre)
  {
    var k, s, r := Flat(f.kids), [Segment(f.id, f.text, f.markers)], Flat(f.rest);
    if f.id == n {
      pre, post := k, r;
      FlatIds(f.kids);
      FlatAppend(f.kids, c);
      Shift(k, Flat(c), [Segment(n, text, markers)], r, []);
    } else if n in Ids(f.kids) {
      var p;
      pre, p := FlatGrow(f.kids, n, c, text, markers);
      post := p + s + r;
      Shift(pre, [Segment(n, TextOf(f, n), MarkersOf(f, n))], p, s, r);
      Shift(pre, Flat(c) + [Segment(n, text, markers)], p, s, r);
    } else {
      var p;
      p, post := FlatGrow(f.rest, n, c, text, markers);
      pre := k + s + p;
      Shift(p, [Segment(n, TextOf(f, n), MarkersOf(f, n))], post, s, k);
      Shift(p, Flat(c) + [Segment(n, text, markers)], post, s, k);
      FlatIds(f.kids);
      SegmentIdsConcat(k + s, p);
      SegmentIdsConcat(k, s);
      SegmentIdsOfOne(Segment(f.id, f.text, f.markers));
    }
  }

  lemma {:induction false} FlatAppend<Id, M>(f: Forest<Id, M>, g: Forest<Id, M>)
    ensures Flat(Append(f, g)) == Flat(f) + Flat(g)
    ensures Ids(Append(f, g)) == Ids(f) + Ids(g)
    ensures Roots(Append(f, g)) == Roots(f) + Roots(g)
    ensures Value(Append(f, g)) == Value(f) + Value(g)
  {
    hide Value;
    AppendValue(f, g);
    if f.Cons? {
      FlatAppend(f.rest, g);
      Assoc(Flat(f.kids), [Segment(f.id, f.text, f.markers)], Flat(f.rest), Flat(g));
      Assoc([], [f.id], Roots(f.rest), Roots(g));
    }
  }

  lemma {:induction false} AppendValue<Id, M>(f: Forest<Id, M>, g: Forest<Id, M>)
    ensures Value(Append(f, g)) == Value(f) + Value(g)
  {
    if f.Cons? {
      AppendValue(f.rest, g);
      Assoc(Value(f.kids), f.text, Value(f.rest), Value(g));
    }
  }

  lemma Assoc<T>(a: seq<T>, b: seq<T>, c: seq<T>, d: seq<T>)
    ensures a + b + (c + d) == a + b + c + d
  {
  }

  lemma {:induction false} AppendUnshared<Id, M>(f: Forest<Id, M>, g: Forest<Id, M>)
    requires Unshared(f) && Unshared(g) && Ids(f) !! Ids(g)
    ensures Unshared(Append(f, g))
  {
    if f.Cons? {
      FlatAppend(f.rest, g);
      AppendUnshared(f.rest, g);
    }
  }

  /** The identities of a grown forest, and that it stays unshared. */
  lemma {:induction false} GrowIds<Id, M>(f: Forest<Id, M>, n: Id, c: Forest<Id, M>, text: string, markers: seq<M>)
    requires n in Ids(f)
    ensures Ids(Grow(f, n, c, text, markers)) == Ids(f) + Ids(c)
    ensures Roots(Grow(f, n, c, text, markers)) == Roots(f)
    ensures Unshared(f) && Unshared(c) && Ids(f) !! Ids(c) ==> Unshared(Grow(f, n, c, text, markers))
  {
    if f.id == n {
      FlatAppend(f.kids, c);
      if Unshared(f) && Unshared(c) && Ids(f) !! Ids(c) {
        AppendUnshared(f.kids, c);
      }
    } else if n in Ids(f.kids) {
      GrowIds(f.kids, n, c, text, markers);
    } else {
      GrowIds(f.rest, n, c, text, markers);
    }
  }

  /** The output up to the end of buffer `n`, and the output after it. */
  ghost function UpTo<Id, M>(f: Forest<Id, M>, n: Id): string
    requires n in Ids(f)
  {
    if f.id == n then Value(f.kids) + f.text
    else if n in Ids(f.kids) then UpTo(f.kids, n)
    else Value(f.kids) + f.text + UpTo(f.rest, n)
  }

  ghost function Beyond<Id, M>(f: Forest<Id, M>, n: Id): string
    requires n in Ids(f)
  {
    if f.id == n then Value(f.rest)
    else if n in Ids(f.kids) then Beyond(f.kids, n) + f.text + Value(f.rest)
    else Beyond(f.rest, n)
  }

  /** Every buffer is a stretch of the output that ends where the next write to it goes. */
  lemma {:induction false} OutputAround<Id, M>(f: Forest<Id, M>, n: Id) returns (prefix: string)
    requires n in Ids(f)
    ensures Value(f) == UpTo(f, n) + Beyond(f, n)
    ensures UpTo(f, n) == prefix + ValueOf(f, n)
  {
    if f.id == n {
      prefix := "";
    } else if n in Ids(f.kids) {
      prefix := OutputAround(f.kids, n);
    } else {
      var p := OutputAround(f.rest, n);
      prefix := Value(f.kids) + f.text + p;
    }
  }

  /** The change in the output when a buffer grows by children and its own text changes. */
  lemma {:induction false} GrowOutput<Id, M>(f: Forest<Id, M>, n: Id, c: Forest<Id, M>, text: string, markers: seq<M>)
    returns (prefix: string)
    requires n in Ids(f)
    ensures UpTo(f, n) == prefix + TextOf(f, n)
    ensures Value(Grow(f, n, c, text, markers)) == prefix + (Value(c) + text) + Beyond(f, n)
  {
    hide Append;
    if f.id == n {
      FlatAppend(f.kids, c);
      prefix := Value(f.kids);
      Shift(prefix, Value(c) + text, Value(f.rest), "", "");
    } else if n in Ids(f.kids) {
      prefix := GrowOutput(f.kids, n, c, text, markers);
      Shift(prefix, Value(c) + text, Beyond(f.kids, n), f.text, Value(f.rest));
    } else {
      var p := GrowOutput(f.rest, n, c, text, markers);
      prefix := Value(f.kids) + f.text + p;
      Shift(p, Value(c) + text, Beyond(f.rest, n), f.text, Value(f.kids));
    }
  }

  /** Writing `s` to a buffer changes the output only by inserting `s` right after what the buffer has. */
  lemma WriteInserts<Id, M>(f: Forest<Id, M>, n: Id, s: string, marks: seq<M>)
    requires n in Ids(f)
    ensures var g := Grow(f, n, Nil, TextOf(f, n) + s, MarkersOf(f, n) + marks);
      Value(g) == UpTo(f, n) + s + Beyond(f, n)
  {
    var prefix := GrowOutput(f, n, Nil, TextOf(f, n) + s, MarkersOf(f, n) + marks);
  }

  /** Moving the text of a buffer into a new child in front does not change the output. */
  lemma MoveKeepsOutput<Id, M>(f: Forest<Id, M>, n: Id, c: Forest<Id, M>, text: string, markers: seq<M>)
    requires n in Ids(f) && Value(c) + text == TextOf(f, n)
    ensures Value(Grow(f, n, c, text, markers)) == Value(f)
  {
    var prefix := GrowOutput(f, n, c, text, markers);
    var start := OutputAround(f, n);
  }

  /** Nor does it change the value of any single buffer. */
  lemma {:induction false} MoveKeepsValues<Id, M>(f: Forest<Id, M>, n: Id, c: Forest<Id, M>, text: string, markers: seq<M>, k: Id)
    requires n in Ids(f) && k in Ids(f) && Unshared(f) && Ids(c) !! Ids(f)
    requires Value(c) + text == TextOf(f, n)
    ensures k in Ids(Grow(f, n, c, text, markers))
    ensures ValueOf(Grow(f, n, c, text, markers), k) == ValueOf(f, k)
  {
    hide Value, Append;
    GrowIds(f, n, c, text, markers);
    if f.id == n {
      FlatAppend(f.kids, c);
      if k == n {
        Assoc("", Value(f.kids), Value(c), text);
      } else if k in Ids(f.kids) {
        AppendValueOf(f.kids, c, k);
      }
    } else if n in Ids(f.kids) {
      GrowIds(f.kids, n, c, text, markers);
      MoveKeepsOutput(f.kids, n, c, text, markers);
      if k in Ids(f.kids) {
        MoveKeepsValues(f.kids, n, c, text, markers, k);
      }
    } else if k in Ids(f.rest) {
      GrowIds(f.rest, n, c, text, markers);
      MoveKeepsValues(f.rest, n, c, text, markers, k);
    }
  }

  lemma {:induction false} AppendValueOf<Id, M>(f: Forest<Id, M>, g: Forest<Id, M>, k: Id)
    requires k in Ids(f)
    ensures k in Ids(Append(f, g)) && ValueOf(Append(f, g), k) == ValueOf(f, k)
  {
    FlatAppend(f, g);
    if k != f.id && k !in Ids(f.kids) {
      AppendValueOf(f.rest, g, k);
    }
  }

  // ----- Committing and inserting -----

  /** Text written so far moves to a new child, together with its markers; an empty buffer stays. */
  ghost function CommitAt<Id, M>(f: Forest<Id, M>, n: Id, moved: Id): Forest<Id, M>
    requires n in Ids(f)
  {
    if TextOf(f, n) == "" then f
    else Grow(f, n, Leaf(moved, TextOf(f, n), MarkersOf(f, n)), "", [])
  }

  ghost function InsertAt<Id, M>(f: Forest<Id, M>, n: Id, moved: Id, c: Forest<Id, M>): Forest<Id, M>
    requires n in Ids(f)
  {
    GrowIds(f, n, Leaf(moved, TextOf(f, n), MarkersOf(f, n)), "", []);
    var g := CommitAt(f, n, moved);
    Grow(g, n, c, TextOf(g, n), MarkersOf(g, n))
  }

  lemma {:induction false} AppendAssoc<Id, M>(a: Forest<Id, M>, b: Forest<Id, M>, c: Forest<Id, M>)
    ensures Append(Append(a, b), c) == Append(a, Append(b, c))
  {
    if a.Cons? {
      AppendAssoc(a.rest, b, c);
    }
  }

  /** Growing a buffer twice is growing it once by all the children. */
  lemma {:induction false} GrowTwice<Id, M>(f: Forest<Id, M>, n: Id, a: Forest<Id, M>, s: string, k: seq<M>,
                                            b: Forest<Id, M>, t: string, m: seq<M>)
    requires n in Ids(f)
    ensures n in Ids(Grow(f, n, a, s, k))
    ensures Grow(Grow(f, n, a, s, k), n, b, t, m) == Grow(f, n, Append(a, b), t, m)
  {
    GrowIds(f, n, a, s, k);
    if f.id == n {
      AppendAssoc(f.kids, a, b);
    } else if n in Ids(f.kids) {
      GrowIds(f.kids, n, a, s, k);
      GrowTwice(f.kids, n, a, s, k, b, t, m);
    } else {
      GrowTwice(f.rest, n, a, s, k, b, t, m);
    }
  }

  /** A grown buffer has its new text and markers. */
  lemma {:induction false} GrowText<Id, M>(f: Forest<Id, M>, n: Id, c: Forest<Id, M>, text: string, markers: seq<M>)
    requires n in Ids(f)
    ensures n in Ids(Grow(f, n, c, text, markers))
    ensures TextOf(Grow(f, n, c, text, markers), n) == text
    ensures MarkersOf(Grow(f, n, c, text, markers), n) == markers
  {
    GrowIds(f, n, c, text, markers);
    if f.id == n {
    } else if n in Ids(f.kids) {
      GrowText(f.kids, n, c, text, markers);
    } else {
      GrowText(f.rest, n, c, text, markers);
    }
  }

  lemma LeafFacts<Id, M>(id: Id, text: string, markers: seq<M>)
    ensures var leaf := Leaf(id, text, markers);
            Value(leaf) == text && Ids(leaf) == {id} && Unshared(leaf) && Roots(leaf) == [id]
  {
    var leaf := Leaf(id, text, markers);
    assert leaf.kids == Nil && leaf.rest == Nil;
    assert Roots(leaf) == [id] + Roots(leaf.rest);
    assert Value(leaf) == Value(leaf.kids) + text + Value(leaf.rest);
  }

  /** Inserting as one growth: the committed text, if there is any, and then the inserted trees. */
  lemma InsertGrows<Id, M>(f: Forest<Id, M>, n: Id, moved: Id, c: Forest<Id, M>)
    requires n in Ids(f)
    ensures InsertAt(f, n, moved, c) ==
            if TextOf(f, n) == "" then Grow(f, n, c, "", MarkersOf(f, n))
            else Grow(f, n, Append(Leaf(moved, TextOf(f, n), MarkersOf(f, n)), c), "", [])
  {
    hide Leaf, Append, Grow, TextOf, MarkersOf;
    if TextOf(f, n) != "" {
      var leaf := Leaf(moved, TextOf(f, n), MarkersOf(f, n));
      GrowText(f, n, leaf, "", []);
      GrowTwice(f, n, leaf, "", [], c, "", []);
    }
  }

  /** What is inserted appears right after the current content of the buffer. */
  lemma InsertValue<Id, M>(f: Forest<Id, M>, n: Id, moved: Id, c: Forest<Id, M>)
    requires n in Ids(f)
    ensures Value(InsertAt(f, n, moved, c)) == UpTo(f, n) + Value(c) + Beyond(f, n)
  {
    hide Leaf, Append, Grow, InsertAt, Value, UpTo, Beyond, TextOf, MarkersOf;
    InsertGrows(f, n, moved, c);
    if TextOf(f, n) == "" {
      var prefix := GrowOutput(f, n, c, "", MarkersOf(f, n));
      assert prefix + "" == prefix && Value(c) + "" == Value(c);
    } else {
      var leaf := Leaf(moved, TextOf(f, n), MarkersOf(f, n));
      LeafFacts(moved, TextOf(f, n), MarkersOf(f, n));
      FlatAppend(leaf, c);
      var prefix := GrowOutput(f, n, Append(leaf, c), "", []);
      assert Value(Append(leaf, c)) + "" == Value(Append(leaf, c));
      Assoc("", prefix, TextOf(f, n), Value(c));
    }
  }

  /** Commits change the value of no buffer and move no cursor. */
  lemma CommitKeeps<Id, M>(f: Forest<Id, M>, n: Id, moved: Id, k: Id)
    requires n in Ids(f) && k in Ids(f) && Unshared(f) && (TextOf(f, n) != "" ==> moved !in Ids(f))
    ensures n in Ids(CommitAt(f, n, moved)) && k in Ids(CommitAt(f, n, moved)) && Unshared(CommitAt(f, n, moved))
    ensures ValueOf(CommitAt(f, n, moved), k) == ValueOf(f, k) && Value(CommitAt(f, n, moved)) == Value(f)
    ensures UpTo(CommitAt(f, n, moved), n) == UpTo(f, n) && Beyond(CommitAt(f, n, moved), n) == Beyond(f, n)
    ensures TextOf(CommitAt(f, n, moved), n) == ""
  {
    hide Leaf, Append, Grow, Value, ValueOf, UpTo, Beyond, TextOf, MarkersOf, Ids, Unshared;
    var leaf := Leaf(moved, TextOf(f, n), MarkersOf(f, n));
    LeafFacts(moved, TextOf(f, n), MarkersOf(f, n));
    if TextOf(f, n) != "" {
      assert TextOf(f, n) + "" == TextOf(f, n);
      GrowIds(f, n, leaf, "", []);
      MoveKeepsValues(f, n, leaf, "", [], k);
      MoveKeepsOutput(f, n, leaf, "", []);
      GrowCursor(f, n, leaf, "", []);
    }
  }

  lemma {:induction false} GrowCursor<Id, M>(f: Forest<Id, M>, n: Id, c: Forest<Id, M>, text: string, markers: seq<M>)
    requires n in Ids(f) && Value(c) + text == TextOf(f, n)
    ensures n in Ids(Grow(f, n, c, text, markers))
    ensures UpTo(Grow(f, n, c, text, markers), n) == UpTo(f, n)
    ensures Beyond(Grow(f, n, c, text, markers), n) == Beyond(f, n)
    ensures TextOf(Grow(f, n, c, text, markers), n) == text
  {
    hide Value, Append;
    GrowIds(f, n, c, text, markers);
    if f.id == n {
      FlatAppend(f.kids, c);
      Assoc("", Value(f.kids), Value(c), text);
    } else if n in Ids(f.kids) {
      GrowCursor(f.kids, n, c, text, markers);
    } else {
      GrowCursor(f.rest, n, c, text, markers);
    }
  }

  /** An insertion point changes the value of no buffer. */
  lemma PointKeepsValues<Id, M>(f: Forest<Id, M>, n: Id, moved: Id, left: Id, k: Id)
    requires n in Ids(f) && k in Ids(f) && Unshared(f) && left !in Ids(f)
    requires TextOf(f, n) != "" ==> moved !in Ids(f) && moved != left
    ensures k in Ids(InsertAt(f, n, moved, Leaf(left, "", [])))
    ensures ValueOf(InsertAt(f, n, moved, Leaf(left, "", [])), k) == ValueOf(f, k)
  {
    hide Leaf, Append, Grow, Value, ValueOf, TextOf, MarkersOf, Ids, Unshared;
    CommitKeeps(f, n, moved, k);
    var mid, c := CommitAt(f, n, moved), Leaf<Id, M>(left, "", []);
    LeafFacts<Id, M>(left, "", []);
    GrowIds(f, n, Leaf(moved, TextOf(f, n), MarkersOf(f, n)), "", []);
    LeafFacts(moved, TextOf(f, n), MarkersOf(f, n));
    MoveKeepsValues(mid, n, c, TextOf(mid, n), MarkersOf(mid, n), k);
  }

  /** The buffer left behind is at the cursor of the one it was taken from. */
  lemma PointCursor<Id, M>(f: Forest<Id, M>, n: Id, moved: Id, left: Id)
    requires n in Ids(f) && Unshared(f) && left !in Ids(f) && (TextOf(f, n) != "" ==> moved !in Ids(f) && moved != left)
    ensures var g := InsertAt(f, n, moved, Leaf(left, "", []));
            left in Ids(g) && UpTo(g, left) == UpTo(f, n) && Beyond(g, left) == Beyond(f, n)
  {
    hide Leaf, Append, Grow, Value, UpTo, Beyond, TextOf, MarkersOf, Ids, Unshared;
    CommitKeeps(f, n, moved, n);
    var mid := CommitAt(f, n, moved);
    GrowIds(f, n, Leaf(moved, TextOf(f, n), MarkersOf(f, n)), "", []);
    LeafFacts(moved, TextOf(f, n), MarkersOf(f, n));
    LeafCursor(mid, n, left, MarkersOf(mid, n));
  }

  lemma {:induction false} LeafCursor<Id, M>(f: Forest<Id, M>, n: Id, left: Id, markers: seq<M>)
    requires n in Ids(f) && left !in Ids(f) && TextOf(f, n) == ""
    ensures var g := Grow(f, n, Leaf(left, "", []), "", markers);
            left in Ids(g) && UpTo(g, left) == UpTo(f, n) && Beyond(g, left) == Beyond(f, n)
  {
    hide Append, Leaf;
    var leaf := Leaf<Id, M>(left, "", []);
    LeafFacts<Id, M>(left, "", []);
    GrowIds(f, n, leaf, "", markers);
    if f.id == n {
      AppendCursor<Id, M>(f.kids, left);
      assert Value(f.kids) + "" == Value(f.kids);
    } else if n in Ids(f.kids) {
      GrowIds(f.kids, n, leaf, "", markers);
      LeafCursor(f.kids, n, left, markers);
    } else {
      LeafCursor(f.rest, n, left, markers);
    }
  }

  lemma {:induction false} AppendCursor<Id, M>(f: Forest<Id, M>, left: Id)
    requires left !in Ids(f)
    ensures var g := Append(f, Leaf(left, "", []));
            left in Ids(g) && UpTo(g, left) == Value(f) && Beyond(g, left) == ""
  {
    FlatAppend(f, Leaf<Id, M>(left, "", []));
    if f.Cons? {
      AppendCursor(f.rest, left);
    }
  }
}
