/** The buffers with insertion points of Cython/StringIOTree.py as objects that are updated in place.

    `Shows` says that a forest (a value) is what the heap looks like from some buffers down.  The
    methods change only their own object; `GrowShows` lifts each of them to every tree that contains
    the object, so that the lemmas about forests speak about the real buffers. */
module StringIOTrees {
  import opened Forests

  /** A sink to copy to. */
  class Target {
    var content: string

    method Write(s: string)
      modifies this
      ensures content == old(content) + s
    {
      content := content + s;
    }
  }

  class StringIOTree<!M(!new)> {
    var prependedChildren: seq<StringIOTree<M>>
    var stream: string
    var markers: seq<M>

    constructor ()
      ensures prependedChildren == [] && stream == "" && markers == []
    {
      prependedChildren := [];
      stream := "";
      markers := [];
    }

    /** A buffer around an existing stream. */
    constructor Around(stream: string)
      ensures prependedChildren == [] && this.stream == stream && markers == []
    {
      prependedChildren := [];
      this.stream := stream;
      markers := [];
    }

    method Write(s: string)
      modifies this`stream
      ensures stream == old(stream) + s
    {
      stream := stream + s;
    }

    method Empty(ghost f: Forest<StringIOTree<M>, M>) returns (r: bool)
      requires f.Cons? && f.id == this && Shows(f)
      ensures r <==> Value(f.kids) + f.text == ""
      decreases f
    {
      hide Value, AllMarkers, Roots, ShowsIn, Shows, Ids;
      ShowsParts(f);
      if stream != "" {
        return false;
      }
      ghost var todo := f.kids;
      for i := 0 to |prependedChildren|
        invariant Shows(todo) && Roots(todo) == prependedChildren[i..] && (todo == f.kids || todo < f.kids)
        invariant Value(todo) == Value(f.kids)
      {
        RootsParts(todo);
        ShowsParts(todo);
        var e := prependedChildren[i].Empty(todo);
        if !e {
          return false;
        }
        todo := todo.rest;
      }
      RootsParts(todo);
      return true;
    }

    method GetValue(ghost f: Forest<StringIOTree<M>, M>) returns (s: string)
      requires f.Cons? && f.id == this && Shows(f)
      ensures s == Value(f.kids) + f.text
    {
      var content := CollectIn(f, []);
      s := Join(content);
    }

    /** Collects the non-empty contents. */
    method CollectIn(ghost f: Forest<StringIOTree<M>, M>, target: seq<string>) returns (target': seq<string>)
      requires f.Cons? && f.id == this && Shows(f)
      ensures Join(target') == Join(target) + (Value(f.kids) + f.text)
      ensures forall s :: s in target' ==> s in target || s != ""
      decreases f
    {
      target' := target;
      hide Value, AllMarkers, Roots, ShowsIn, Shows, Ids, Join;
      ShowsParts(f);
      ghost var todo := f.kids;
      for i := 0 to |prependedChildren|
        invariant Shows(todo) && Roots(todo) == prependedChildren[i..] && (todo == f.kids || todo < f.kids)
        invariant Join(target') + Value(todo) == Join(target) + Value(f.kids)
        invariant forall s :: s in target' ==> s in target || s != ""
      {
        RootsParts(todo);
        ShowsParts(todo);
        ghost var before := Join(target');
        target' := prependedChildren[i].CollectIn(todo, target');
        Collected(before, Value(todo.kids) + todo.text, Value(todo.rest));
        todo := todo.rest;
      }
      RootsParts(todo);
      Collected(Join(target), Value(f.kids), f.text);
      Collected(Join(target'), "", "");
      if stream != "" {
        JoinSnoc(target', stream);
        target' := target' + [stream];
      }
    }

    method CopyTo(ghost f: Forest<StringIOTree<M>, M>, target: Target)
      requires f.Cons? && f.id == this && Shows(f)
      modifies target
      ensures target.content == old(target.content) + (Value(f.kids) + f.text)
      decreases f
    {
      hide Value, AllMarkers, Roots, ShowsIn, Shows, Ids;
      ShowsParts(f);
      ghost var todo := f.kids;
      for i := 0 to |prependedChildren|
        invariant Shows(todo) && Roots(todo) == prependedChildren[i..] && (todo == f.kids || todo < f.kids)
        invariant target.content + Value(todo) == old(target.content) + Value(f.kids)
      {
        RootsParts(todo);
        ShowsParts(todo);
        ghost var before := target.content;
        prependedChildren[i].CopyTo(todo, target);
        Assoc("", before, Value(todo.kids) + todo.text, Value(todo.rest));
        todo := todo.rest;
      }
      RootsParts(todo);
      assert target.content + Value(todo) == target.content;
      assert old(target.content) + Value(f.kids) + f.text == old(target.content) + (Value(f.kids) + f.text);
      if stream != "" {
        target.Write(stream);
      }
    }

    method AllMarkersOf(ghost f: Forest<StringIOTree<M>, M>) returns (ms: seq<M>)
      requires f.Cons? && f.id == this && Shows(f)
      ensures ms == AllMarkers(f.kids) + f.markers
      decreases f
    {
      ms := [];
      hide Value, AllMarkers, Roots, ShowsIn, Shows, Ids;
      ShowsParts(f);
      ghost var todo := f.kids;
      for i := 0 to |prependedChildren|
        invariant Shows(todo) && Roots(todo) == prependedChildren[i..] && (todo == f.kids || todo < f.kids)
        invariant ms + AllMarkers(todo) == AllMarkers(f.kids)
      {
        RootsParts(todo);
        ShowsParts(todo);
        ghost var before := ms;
        var more := prependedChildren[i].AllMarkersOf(todo);
        ms := ms + more;
        Assoc([], before, more, AllMarkers(todo.rest));
        todo := todo.rest;
      }
      RootsParts(todo);
      ms := ms + markers;
    }

    /** Moves what has been written so far into a child in front. */
    method Commit()
      modifies this
      ensures old(stream) == "" ==>
        stream == "" && prependedChildren == old(prependedChildren) && markers == old(markers)
      ensures old(stream) != "" ==>
        && stream == "" && markers == []
        && |prependedChildren| == |old(prependedChildren)| + 1
        && prependedChildren[..|prependedChildren| - 1] == old(prependedChildren)
        && var c := prependedChildren[|prependedChildren| - 1];
           fresh(c) && c.prependedChildren == [] && c.stream == old(stream) && c.markers == old(markers)
    {
      if stream != "" {
        var c := new StringIOTree<M>.Around(stream);
        prependedChildren := prependedChildren + [c];
        c.markers := markers;
        markers := [];
        stream := "";
      }
    }

    /** Puts another tree in front of whatever is written next. */
    method Insert(iotree: StringIOTree<M>)
      requires iotree != this
      modifies this
      ensures stream == ""
      ensures old(stream) == "" ==>
        prependedChildren == old(prependedChildren) + [iotree] && markers == old(markers)
      ensures old(stream) != "" ==>
        && markers == []
        && |prependedChildren| == |old(prependedChildren)| + 2
        && prependedChildren[..|prependedChildren| - 2] == old(prependedChildren)
        && prependedChildren[|prependedChildren| - 1] == iotree
        && var c := prependedChildren[|prependedChildren| - 2];
           fresh(c) && c.prependedChildren == [] && c.stream == old(stream) && c.markers == old(markers)
    {
      Commit();
      prependedChildren := prependedChildren + [iotree];
    }

    /** Leaves a new empty buffer behind at the current position. */
    method InsertionPoint() returns (other: StringIOTree<M>)
      modifies this
      ensures fresh(other) && other.prependedChildren == [] && other.stream == "" && other.markers == []
      ensures stream == ""
      ensures old(stream) == "" ==>
        prependedChildren == old(prependedChildren) + [other] && markers == old(markers)
      ensures old(stream) != "" ==>
        && markers == []
        && |prependedChildren| == |old(prependedChildren)| + 2
        && prependedChildren[..|prependedChildren| - 2] == old(prependedChildren)
        && prependedChildren[|prependedChildren| - 1] == other
        && var c := prependedChildren[|prependedChildren| - 2];
           c != other && fresh(c) && c.prependedChildren == [] && c.stream == old(stream) && c.markers == old(markers)
    {
      Commit();
      other := new StringIOTree<M>();
      prependedChildren := prependedChildren + [other];
    }
  }

  function Join(parts: seq<string>): string {
    if parts == [] then "" else Join(parts[..|parts| - 1]) + parts[|parts| - 1]
  }

  lemma Collected(before: string, own: string, rest: string)
    ensures before + own + rest == before + (own + rest)
    ensures before + "" == before
  {
  }

  lemma JoinSnoc(parts: seq<string>, s: string)
    ensures Join(parts + [s]) == Join(parts) + s
  {
    assert (parts + [s])[..|parts|] == parts;
  }

  // ----- Forests and the heap -----

  /** What a buffer holds. */
  datatype Fields<!M(!new)> = Fields(children: seq<StringIOTree<M>>, text: string, markers: seq<M>)

  type Snapshot<!M(!new)> = map<StringIOTree<M>, Fields<M>>

  /** The snapshot holds what these buffers hold now. */
  ghost predicate Matches<M(!new)>(h: Snapshot<M>, s: set<StringIOTree<M>>)
    reads s
  {
    forall b :: b in s ==> b in h && h[b] == Fields(b.prependedChildren, b.stream, b.markers)
  }

  /** Every buffer of the forest has the children, the text and the markers the forest says. */
  ghost predicate ShowsIn<M(!new)>(h: Snapshot<M>, f: Forest<StringIOTree<M>, M>) {
    match f
    case Nil => true
    case Cons(b, kids, text, markers, rest) =>
      b in h && h[b] == Fields(Roots(kids), text, markers) && ShowsIn(h, kids) && ShowsIn(h, rest)
  }

  /** The heap looks like the forest. */
  ghost predicate Shows<M(!new)>(f: Forest<StringIOTree<M>, M>)
    reads Ids(f)
  {
    match f
    case Nil => true
    case Cons(b, kids, text, markers, rest) =>
      b.prependedChildren == Roots(kids) && b.stream == text && b.markers == markers && Shows(kids) && Shows(rest)
  }

  lemma {:induction false} ToSnapshot<M(!new)>(h: Snapshot<M>, f: Forest<StringIOTree<M>, M>)
    requires Shows(f) && Matches(h, Ids(f))
    ensures ShowsIn(h, f)
  {
    if f.Cons? {
      ToSnapshot(h, f.kids);
      ToSnapshot(h, f.rest);
    }
  }

  lemma {:induction false} FromSnapshot<M(!new)>(h: Snapshot<M>, f: Forest<StringIOTree<M>, M>)
    requires ShowsIn(h, f) && Matches(h, Ids(f))
    ensures Shows(f)
  {
    if f.Cons? {
      FromSnapshot(h, f.kids);
      FromSnapshot(h, f.rest);
    }
  }

  /** What the buffers of a shown forest hold before they are changed. */
  lemma Capture<M(!new)>(f: Forest<StringIOTree<M>, M>) returns (h: Snapshot<M>)
    requires Shows(f)
    ensures h.Keys == Ids(f) && Matches(h, Ids(f)) && ShowsIn(h, f)
  {
    h := map b | b in Ids(f) :: Fields(b.prependedChildren, b.stream, b.markers);
    ToSnapshot(h, f);
  }

  lemma {:induction false} ShowsSame<M(!new)>(h: Snapshot<M>, h': Snapshot<M>, f: Forest<StringIOTree<M>, M>)
    requires ShowsIn(h, f) && forall b :: b in Ids(f) && b in h ==> b in h' && h'[b] == h[b]
    ensures ShowsIn(h', f)
  {
    if f.Cons? {
      ShowsSame(h, h', f.kids);
      ShowsSame(h, h', f.rest);
    }
  }

  /** What a shown forest says about its first buffer, and that the rest is shown, too. */
  lemma ShowsParts<M(!new)>(f: Forest<StringIOTree<M>, M>)
    requires f.Cons? && Shows(f)
    ensures f.id.prependedChildren == Roots(f.kids) && f.id.stream == f.text && f.id.markers == f.markers
    ensures Shows(f.kids) && Shows(f.rest)
    ensures Roots(f) == [f.id] + Roots(f.rest)
    ensures Value(f) == Value(f.kids) + f.text + Value(f.rest)
    ensures AllMarkers(f) == AllMarkers(f.kids) + f.markers + AllMarkers(f.rest)
    ensures forall b :: b in Ids(f) ==> allocated(b)
    ensures Ids(f.kids) <= Ids(f) && Ids(f.rest) <= Ids(f)
  {
    Allocated(f);
  }

  /** A forest with a root has a first tree; one without is empty. */
  lemma RootsParts<M(!new)>(f: Forest<StringIOTree<M>, M>)
    ensures f.Cons? <==> Roots(f) != []
    ensures f.Cons? ==> Roots(f)[0] == f.id
    ensures f.Nil? ==> Value(f) == "" && AllMarkers(f) == []
  {
  }

  /** Whatever a forest mentions exists. */
  lemma {:induction false} Allocated<M(!new)>(f: Forest<StringIOTree<M>, M>)
    ensures forall b :: b in Ids(f) ==> allocated(b)
  {
    if f.Cons? {
      Allocated(f.kids);
      Allocated(f.rest);
    }
  }

  lemma {:induction false} ShowsAppend<M(!new)>(h: Snapshot<M>, f: Forest<StringIOTree<M>, M>, g: Forest<StringIOTree<M>, M>)
    requires ShowsIn(h, f) && ShowsIn(h, g)
    ensures ShowsIn(h, Append(f, g))
  {
    if f.Cons? {
      ShowsAppend(h, f.rest, g);
    }
  }

  /** When one buffer of a tree gets more children and a new text and nothing else of the tree changes,
      the heap shows the grown forest. */
  lemma {:induction false} GrowShows<M(!new)>(h: Snapshot<M>, h': Snapshot<M>, f: Forest<StringIOTree<M>, M>,
                                              n: StringIOTree<M>, c: Forest<StringIOTree<M>, M>)
    requires ShowsIn(h, f) && n in Ids(f) && Unshared(f) && Ids(f) <= h.Keys && Ids(f) <= h'.Keys
    requires h'[n].children == h[n].children + Roots(c) && ShowsIn(h', c)
    requires forall b :: b in Ids(f) && b != n ==> h'[b] == h[b]
    ensures ShowsIn(h', Grow(f, n, c, h'[n].text, h'[n].markers))
  {
    if f.id == n {
      ShowsSame(h, h', f.kids);
      ShowsSame(h, h', f.rest);
      ShowsAppend(h', f.kids, c);
      FlatAppend(f.kids, c);
    } else if n in Ids(f.kids) {
      GrowShows(h, h', f.kids, n, c);
      ShowsSame(h, h', f.rest);
      GrowIds(f.kids, n, c, h'[n].text, h'[n].markers);
    } else {
      ShowsSame(h, h', f.kids);
      GrowShows(h, h', f.rest, n, c);
      GrowIds(f.rest, n, c, h'[n].text, h'[n].markers);
    }
  }

  /** The grown forest, as the heap shows it after one buffer changed. */
  lemma Grown<M(!new)>(h: Snapshot<M>, f: Forest<StringIOTree<M>, M>, n: StringIOTree<M>, c: Forest<StringIOTree<M>, M>)
    returns (g: Forest<StringIOTree<M>, M>)
    requires h.Keys == Ids(f) && ShowsIn(h, f) && n in Ids(f) && Unshared(f)
    requires Shows(c) && Unshared(c) && Ids(f) !! Ids(c)
    requires n.prependedChildren == h[n].children + Roots(c)
    requires Matches(h, Ids(f) - {n})
    ensures g == Grow(f, n, c, n.stream, n.markers)
    ensures Shows(g) && Unshared(g) && Ids(g) == Ids(f) + Ids(c) && Roots(g) == Roots(f)
  {
    hide Unshared, Grow, Roots, ShowsIn, Ids, Shows;
    g := Grow(f, n, c, n.stream, n.markers);
    GrowIds(f, n, c, n.stream, n.markers);
    var h' := map b | b in Ids(g) :: Fields(b.prependedChildren, b.stream, b.markers);
    ToSnapshot(h', c);
    GrowShows(h, h', f, n, c);
    FromSnapshot(h', g);
  }

  /** The fields of a buffer in a forest the heap shows. */
  lemma {:induction false} FieldsOf<M(!new)>(h: Snapshot<M>, f: Forest<StringIOTree<M>, M>, n: StringIOTree<M>)
    requires n in Ids(f) && ShowsIn(h, f)
    ensures n in h && h[n].text == TextOf(f, n) && h[n].markers == MarkersOf(f, n)
  {
    if f.id != n {
      if n in Ids(f.kids) {
        FieldsOf(h, f.kids, n);
      } else {
        FieldsOf(h, f.rest, n);
      }
    }
  }

  // ----- Operations on a buffer anywhere in a tree -----

  lemma EmptyForest<M(!new)>()
    ensures Shows<M>(Nil) && Roots<StringIOTree<M>, M>(Nil) == [] && Ids<StringIOTree<M>, M>(Nil) == {}
    ensures Unshared<StringIOTree<M>, M>(Nil)
  {
  }

  /** A new buffer alone. */
  lemma LeafForest<M(!new)>(b: StringIOTree<M>)
    requires b.prependedChildren == []
    ensures var leaf := Leaf(b, b.stream, b.markers);
      Shows(leaf) && Roots(leaf) == [b] && Ids(leaf) == {b} && Unshared(leaf) && Value(leaf) == b.stream
  {
    var leaf: Forest<StringIOTree<M>, M> := Leaf(b, b.stream, b.markers);
    assert leaf.kids == Nil && leaf.rest == Nil;
    assert Roots(leaf) == [b] + Roots(leaf.rest);
    assert Value(leaf) == Value(leaf.kids) + b.stream + Value(leaf.rest);
    assert Shows(leaf.kids) && Shows(leaf.rest);
  }

  /** A write to a buffer anywhere in a tree inserts the text into the value of the tree right after the
      buffer's current content. */
  method WriteWithin<M(!new)>(n: StringIOTree<M>, s: string, ghost f: Forest<StringIOTree<M>, M>)
    returns (ghost g: Forest<StringIOTree<M>, M>)
    requires Shows(f) && Unshared(f) && n in Ids(f)
    modifies n
    ensures Shows(g) && Unshared(g) && Ids(g) == Ids(f) && Roots(g) == Roots(f)
    ensures g == Grow(f, n, Nil, TextOf(f, n) + s, MarkersOf(f, n))
    ensures Value(g) == UpTo(f, n) + s + Beyond(f, n)
  {
    hide Unshared, Ids, Roots, Grow, TextOf, MarkersOf, Value, UpTo, Beyond, ShowsIn, Shows;
    ghost var h := Capture(f);
    FieldsOf(h, f, n);
    Allocated(f);
    n.Write(s);
    EmptyForest<M>();
    g := Grown(h, f, n, Nil);
    WriteInserts(f, n, s, []);
    assert MarkersOf(f, n) + [] == MarkersOf(f, n);
  }

  /** Committing a buffer anywhere in a tree changes no value, neither of the tree nor of any buffer. */
  method CommitWithin<M(!new)>(n: StringIOTree<M>, ghost f: Forest<StringIOTree<M>, M>)
    returns (ghost g: Forest<StringIOTree<M>, M>, ghost moved: StringIOTree<M>)
    requires Shows(f) && Unshared(f) && n in Ids(f)
    modifies n
    ensures Shows(g) && Unshared(g) && Roots(g) == Roots(f) && Ids(f) <= Ids(g) && fresh(Ids(g) - Ids(f))
    ensures g == CommitAt(f, n, moved) && (TextOf(f, n) != "" ==> moved !in Ids(f)) && n.stream == ""
    ensures Value(g) == Value(f)
    ensures forall k :: k in Ids(f) ==> ValueOf(g, k) == ValueOf(f, k)
  {
    hide Unshared, Ids, Roots, Grow, TextOf, MarkersOf, Value, ValueOf, Leaf, ShowsIn, Shows;
    ghost var h := Capture(f);
    FieldsOf(h, f, n);
    Allocated(f);
    ghost var committed := n.stream != "";
    n.Commit();
    if committed {
      moved := n.prependedChildren[|n.prependedChildren| - 1];
      assert n.prependedChildren == old(n.prependedChildren) + [moved];
      LeafForest(moved);
      g := Grown(h, f, n, Leaf(moved, moved.stream, moved.markers));
    } else {
      g, moved := f, n;
      FromSnapshot(h, f);
    }
    forall k | k in Ids(f)
      ensures ValueOf(g, k) == ValueOf(f, k)
    {
      CommitKeeps(f, n, moved, k);
    }
    CommitKeeps(f, n, moved, n);
  }

  /** What the heap shows after a buffer has been committed and has got further children. */
  lemma Inserted<M(!new)>(h: Snapshot<M>, f: Forest<StringIOTree<M>, M>, n: StringIOTree<M>, moved: StringIOTree<M>,
                          c: Forest<StringIOTree<M>, M>)
    returns (g: Forest<StringIOTree<M>, M>)
    requires h.Keys == Ids(f) && ShowsIn(h, f) && n in Ids(f) && Unshared(f)
    requires Shows(c) && Unshared(c) && Ids(f) !! Ids(c)
    requires n.stream == "" && Matches(h, Ids(f) - {n})
    requires if h[n].text == "" then n.prependedChildren == h[n].children + Roots(c) && n.markers == h[n].markers
             else
               && moved !in Ids(f) && moved !in Ids(c) && moved.prependedChildren == []
               && moved.stream == h[n].text && moved.markers == h[n].markers
               && n.prependedChildren == h[n].children + [moved] + Roots(c) && n.markers == []
    ensures g == InsertAt(f, n, moved, c)
    ensures Shows(g) && Unshared(g) && Roots(g) == Roots(f)
    ensures Ids(g) == Ids(f) + Ids(c) + (if h[n].text == "" then {} else {moved})
  {
    hide Unshared, Ids, Roots, Grow, TextOf, MarkersOf, Leaf, ShowsIn, Shows, Append, InsertAt;
    FieldsOf(h, f, n);
    InsertGrows(f, n, moved, c);
    if h[n].text == "" {
      g := Grown(h, f, n, c);
    } else {
      var leaf := Leaf(moved, moved.stream, moved.markers);
      LeafForest(moved);
      FlatAppend(leaf, c);
      AppendUnshared(leaf, c);
      ShownAppend(leaf, c);
      assert n.prependedChildren == h[n].children + ([moved] + Roots(c));
      g := Grown(h, f, n, Append(leaf, c));
    }
  }

  lemma {:induction false} ShownAppend<M(!new)>(f: Forest<StringIOTree<M>, M>, g: Forest<StringIOTree<M>, M>)
    requires Shows(f) && Shows(g)
    ensures Shows(Append(f, g))
  {
    hide Ids;
    if f.Cons? {
      ShownAppend(f.rest, g);
    }
  }

  lemma RootInside<M(!new)>(c: Forest<StringIOTree<M>, M>, root: StringIOTree<M>)
    requires Roots(c) == [root]
    ensures root in Ids(c)
  {
    RootsParts(c);
  }

  /** Inserting a separate tree anywhere is the insertion of the run model: its value appears right after the
      current content of the buffer. */
  method InsertWithin<M(!new)>(n: StringIOTree<M>, iotree: StringIOTree<M>,
                               ghost f: Forest<StringIOTree<M>, M>, ghost c: Forest<StringIOTree<M>, M>)
    returns (ghost g: Forest<StringIOTree<M>, M>, ghost moved: StringIOTree<M>)
    requires Shows(f) && Unshared(f) && n in Ids(f)
    requires Shows(c) && Unshared(c) && Roots(c) == [iotree] && Ids(f) !! Ids(c)
    modifies n
    ensures Shows(g) && Unshared(g) && Roots(g) == Roots(f) && Ids(f) + Ids(c) <= Ids(g)
    ensures fresh(Ids(g) - Ids(f) - Ids(c))
    ensures g == InsertAt(f, n, moved, c) && (TextOf(f, n) != "" ==> moved !in Ids(f) && moved !in Ids(c))
    ensures Value(g) == UpTo(f, n) + Value(c) + Beyond(f, n)
  {
    hide Unshared, Ids, Roots, Grow, TextOf, MarkersOf, Value, UpTo, Beyond, Leaf, ShowsIn, Shows, InsertAt;
    ghost var h := Capture(f);
    ghost var hc := Capture(c);
    FieldsOf(h, f, n);
    Allocated(f);
    Allocated(c);
    RootInside(c, iotree);
    ghost var committed := n.stream != "";
    n.Insert(iotree);
    FromSnapshot(hc, c);
    moved := if committed then n.prependedChildren[|n.prependedChildren| - 2] else n;
    g := Inserted(h, f, n, moved, c);
    InsertValue(f, n, moved, c);
  }

  /** An insertion point anywhere is that of the run model: it changes the value of no buffer, and what is written
      to the new buffer later appears at the cursor. */
  method InsertionPointWithin<M(!new)>(n: StringIOTree<M>, ghost f: Forest<StringIOTree<M>, M>)
    returns (other: StringIOTree<M>, ghost g: Forest<StringIOTree<M>, M>, ghost moved: StringIOTree<M>)
    requires Shows(f) && Unshared(f) && n in Ids(f)
    modifies n
    ensures Shows(g) && Unshared(g) && Roots(g) == Roots(f) && Ids(f) + {other} <= Ids(g)
    ensures fresh(Ids(g) - Ids(f)) && fresh(other)
    ensures g == InsertAt(f, n, moved, Leaf(other, "", []))
    ensures TextOf(f, n) != "" ==> moved !in Ids(f) && moved != other
    ensures Value(g) == Value(f)
    ensures forall k :: k in Ids(f) ==> ValueOf(g, k) == ValueOf(f, k)
    ensures UpTo(g, other) == UpTo(f, n) && Beyond(g, other) == Beyond(f, n)
  {
    hide Unshared, Ids, Roots, Grow, TextOf, MarkersOf, Value, ValueOf, UpTo, Beyond, Leaf, ShowsIn, Shows, InsertAt;
    ghost var h := Capture(f);
    FieldsOf(h, f, n);
    Allocated(f);
    ghost var committed := n.stream != "";
    other := n.InsertionPoint();
    moved := if committed then n.prependedChildren[|n.prependedChildren| - 2] else n;
    LeafForest(other);
    g := Inserted(h, f, n, moved, Leaf(other, "", []));
    PointFacts(f, n, moved, other);
  }

  /** What an insertion point does to the values and the cursor. */
  lemma PointFacts<M(!new)>(f: Forest<StringIOTree<M>, M>, n: StringIOTree<M>, moved: StringIOTree<M>, left: StringIOTree<M>)
    requires n in Ids(f) && Unshared(f) && left !in Ids(f) && (TextOf(f, n) != "" ==> moved !in Ids(f) && moved != left)
    ensures var g := InsertAt(f, n, moved, Leaf(left, "", []));
            && Value(g) == Value(f)
            && (forall k :: k in Ids(f) ==> k in Ids(g) && ValueOf(g, k) == ValueOf(f, k))
            && left in Ids(g) && UpTo(g, left) == UpTo(f, n) && Beyond(g, left) == Beyond(f, n)
  {
    hide Unshared, Ids, Grow, TextOf, Value, ValueOf, UpTo, Beyond, Leaf, InsertAt;
    forall k | k in Ids(f)
      ensures k in Ids(InsertAt(f, n, moved, Leaf(left, "", [])))
      ensures ValueOf(InsertAt(f, n, moved, Leaf(left, "", [])), k) == ValueOf(f, k)
    {
      PointKeepsValues(f, n, moved, left, k);
    }
    PointCursor(f, n, moved, left);
    InsertValue(f, n, moved, Leaf(left, "", []));
    LeafFacts<StringIOTree<M>, M>(left, "", []);
    var prefix := OutputAround(f, n);
    assert UpTo(f, n) + "" == UpTo(f, n);
  }
}
