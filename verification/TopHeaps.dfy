/** The bounded heap of runtests.py that keeps the longest times and the largest modules, and the merging of such
    heaps from test shards. */
module TopHeaps {

  /** A total order on the items. */
  ghost predicate TotalOrder<T(!new)>(le: (T, T) -> bool) {
    && (forall x, y :: le(x, y) || le(y, x))
    && (forall x, y :: le(x, y) && le(y, x) ==> x == y)
    && (forall x, y, z :: le(x, y) && le(y, z) ==> le(x, z))
  }

  /** `top` are the k largest of `all`, or all of them if there are no more than k. */
  ghost predicate IsTop<T(!new)>(le: (T, T) -> bool, k: nat, all: multiset<T>, top: multiset<T>) {
    && top <= all
    && |top| == (if |all| <= k then |all| else k)
    && forall x, y :: x in top && y in all - top ==> le(y, x)
  }

  // ----- The k largest are determined, and can be found in parts -----

  lemma SameSize<T>(a: multiset<T>, b: multiset<T>)
    requires a <= b && |a| == |b|
    ensures a == b
  {
    assert b == a + (b - a);
    assert |b - a| == 0;
  }

  /** What is not there often enough to be all of it is below everything that is. */
  lemma Outranked<T(!new)>(le: (T, T) -> bool, k: nat, all: multiset<T>, top: multiset<T>, n: nat, x: T, y: T)
    requires IsTop(le, k, all, top) && top[x] < n <= all[x] && y in top
    ensures le(x, y)
  {
    assert x in all - top;
  }

  lemma TopIsUnique<T(!new)>(le: (T, T) -> bool, k: nat, all: multiset<T>, a: multiset<T>, b: multiset<T>)
    requires TotalOrder(le) && IsTop(le, k, all, a) && IsTop(le, k, all, b)
    ensures a == b
  {
    if a <= b {
      SameSize(a, b);
    } else if b <= a {
      SameSize(b, a);
    } else {
      var x :| a[x] > b[x];
      var y :| b[y] > a[y];
      Outranked(le, k, all, b, a[x], x, y);
      Outranked(le, k, all, a, b[y], y, x);
      assert false;
    }
  }

  /** Items dropped early never matter: the k largest of `kept` and `more` are those of `all` and `more`, when
      `kept` are the n largest of `all` for some n that is at least k. */
  lemma TopOfTop<T(!new)>(le: (T, T) -> bool, k: nat, n: nat, all: multiset<T>, kept: multiset<T>, more: multiset<T>,
                          top: multiset<T>)
    requires TotalOrder(le) && k <= n && IsTop(le, n, all, kept) && IsTop(le, k, kept + more, top)
    ensures IsTop(le, k, all + more, top)
  {
    assert all == kept + (all - kept);
    if |all| <= n {
      SameSize(kept, all);
    } else {
      forall x, y | x in top && y in all + more - top
        ensures le(y, x)
      {
        if y !in kept + more - top {
          DroppedBelow(le, all, kept, more, top, x, y);
        }
      }
    }
  }

  /** An item of `all` that was dropped is below everything among the largest. */
  lemma DroppedBelow<T(!new)>(le: (T, T) -> bool, all: multiset<T>, kept: multiset<T>, more: multiset<T>, top: multiset<T>,
                              x: T, y: T)
    requires TotalOrder(le) && kept <= all && top <= kept + more && |top| <= |kept|
    requires forall u, v :: u in kept && v in all - kept ==> le(v, u)
    requires forall u, v :: u in top && v in kept + more - top ==> le(v, u)
    requires x in top && y in all + more - top && y !in kept + more - top
    ensures le(y, x)
  {
    assert (all + more - top)[y] <= (kept + more - top)[y] + (all - kept)[y];
    assert y in all - kept;
    if kept <= top {
      Larger(kept, top);
      SameSize(kept, top);
    } else {
      var u :| kept[u] > top[u];
      assert u in kept && u in kept + more - top;
      assert le(y, u) && le(u, x);
    }
  }

  function AtMost(): (int, int) -> bool {
    (x: int, y: int) => x <= y
  }

  /** A heap of length k that takes over what a heap of length n has kept holds the k largest of everything. */
  ghost predicate MergeWorks(k: nat, n: nat) {
    forall all: multiset<int>, mine: multiset<int>, others: multiset<int>, kept: multiset<int>, top: multiset<int> ::
      IsTop(AtMost(), k, all, mine) && IsTop(AtMost(), n, others, kept) && IsTop(AtMost(), k, mine + kept, top) ==>
        IsTop(AtMost(), k, all + others, top)
  }

  /** Merging loses nothing if and only if the other heap is at least as long. */
  lemma MergeExactly(k: nat, n: nat)
    requires n > 0
    ensures MergeWorks(k, n) <==> k <= n
  {
    if k <= n {
      forall all: multiset<int>, mine: multiset<int>, others: multiset<int>, kept: multiset<int>, top: multiset<int> |
        IsTop(AtMost(), k, all, mine) && IsTop(AtMost(), n, others, kept) && IsTop(AtMost(), k, mine + kept, top)
        ensures IsTop(AtMost(), k, all + others, top)
      {
        TopOfTop(AtMost(), k, k, all, mine, kept, top);
        assert all + kept == kept + all && all + others == others + all;
        TopOfTop(AtMost(), k, n, others, kept, all, top);
      }
    } else {
      var all, others, kept := multiset{0}, multiset{}[1 := n + 1], multiset{}[1 := n];
      assert others - kept == multiset{1};
      assert IsTop(AtMost(), k, all, all) && IsTop(AtMost(), n, others, kept);
      assert IsTop(AtMost(), k, all + kept, all + kept);
      assert 0 in all + kept && 1 in all + others - (all + kept);
      assert !IsTop(AtMost(), k, all + others, all + kept);
    }
  }

  lemma Larger<T>(a: multiset<T>, b: multiset<T>)
    requires a <= b
    ensures |a| <= |b|
  {
    assert b == a + (b - a);
  }

  lemma Grown<T(!new)>(le: (T, T) -> bool, k: nat, all: multiset<T>, top: multiset<T>, item: T)
    requires IsTop(le, k, all, top) && |top| < k
    ensures IsTop(le, k, all + multiset{item}, top + multiset{item})
  {
    SameSize(top, all);
  }

  /** With k items kept, a new one pushes the least one out, possibly itself. */
  lemma Replaced<T(!new)>(le: (T, T) -> bool, k: nat, all: multiset<T>, top: multiset<T>, item: T, least: T)
    requires TotalOrder(le) && IsTop(le, k, all, top) && |top| == k
    requires least in top + multiset{item} && forall x :: x in top + multiset{item} ==> le(least, x)
    ensures IsTop(le, k, all + multiset{item}, top + multiset{item} - multiset{least})
  {
    var top' := top + multiset{item} - multiset{least};
    assert |top'| == k;
    assert |all + multiset{item}| == |all| + 1;
    Larger(top, all);
    assert IsTop(le, k, top + multiset{item}, top') by {
      forall x, y | x in top' && y in top + multiset{item} - top'
        ensures le(y, x)
      {
        assert y == least;
      }
    }
    TopOfTop(le, k, k, all, top, multiset{item}, top');
  }

  // ----- Pushes and merges in any order -----

  /** How a heap came about: items pushed to it, heaps of other shards merged into it. */
  datatype History<T> = Created | Pushed(before: History<T>, item: T) | Merged(before: History<T>, shard: History<T>)

  function Items<T>(h: History<T>): multiset<T> {
    match h
    case Created => multiset{}
    case Pushed(before, item) => Items(before) + multiset{item}
    case Merged(before, shard) => Items(before) + Items(shard)
  }

  /** What heaps of length k may hold after `h`, each push and merge looking only at what the heaps held. */
  ghost predicate Leads<T(!new)>(le: (T, T) -> bool, k: nat, h: History<T>, top: multiset<T>) {
    match h
    case Created => top == multiset{}
    case Pushed(before, item) => exists a :: Leads(le, k, before, a) && IsTop(le, k, a + multiset{item}, top)
    case Merged(before, shard) => exists a, b :: Leads(le, k, before, a) && Leads(le, k, shard, b) && IsTop(le, k, a + b, top)
  }

  /** Nothing that was dropped on the way is missed. */
  lemma {:induction false} LeadsToTop<T(!new)>(le: (T, T) -> bool, k: nat, h: History<T>, top: multiset<T>)
    requires TotalOrder(le) && Leads(le, k, h, top)
    ensures IsTop(le, k, Items(h), top)
  {
    hide TotalOrder, IsTop;
    match h
    case Created =>
      NothingKept(le, k);
    case Pushed(before, item) =>
      var a :| Leads(le, k, before, a) && IsTop(le, k, a + multiset{item}, top);
      LeadsToTop(le, k, before, a);
      TopOfTop(le, k, k, Items(before), a, multiset{item}, top);
    case Merged(before, shard) =>
      var a, b :| Leads(le, k, before, a) && Leads(le, k, shard, b) && IsTop(le, k, a + b, top);
      LeadsToTop(le, k, before, a);
      LeadsToTop(le, k, shard, b);
      TopOfTop(le, k, k, Items(before), a, b, top);
      assert Items(before) + b == b + Items(before) && Items(shard) + Items(before) == Items(h);
      TopOfTop(le, k, k, Items(shard), b, Items(before), top);
  }

  lemma NothingKept<T(!new)>(le: (T, T) -> bool, k: nat)
    ensures IsTop(le, k, multiset{}, multiset{})
  {
  }

  lemma CreatedLeads<T(!new)>(le: (T, T) -> bool, k: nat, heap: seq<T>)
    requires IsTop(le, k, multiset{}, multiset(heap))
    ensures Leads(le, k, Created, multiset(heap))
  {
    SameSize(multiset(heap), multiset{});
  }

  lemma FewKept<T(!new)>(le: (T, T) -> bool, k: nat, heap: seq<T>)
    requires |heap| <= k
    ensures IsTop(le, k, multiset(heap), multiset(heap))
  {
  }

  lemma LeadsOn<T(!new)>(le: (T, T) -> bool, k: nat, h: History<T>, g: History<T>, a: multiset<T>, b: multiset<T>)
    requires Leads(le, k, h, a)
    ensures forall item, top :: IsTop(le, k, a + multiset{item}, top) ==> Leads(le, k, Pushed(h, item), top)
    ensures Leads(le, k, g, b) ==> forall top :: IsTop(le, k, a + b, top) ==> Leads(le, k, Merged(h, g), top)
  {
    hide IsTop;
  }

  /** The order of pushes and merges, and how the items are spread over the shards, make no difference. */
  lemma AnyOrder<T(!new)>(le: (T, T) -> bool, k: nat, h: History<T>, g: History<T>, a: multiset<T>, b: multiset<T>)
    requires TotalOrder(le) && Leads(le, k, h, a) && Leads(le, k, g, b) && Items(h) == Items(g)
    ensures a == b
  {
    hide TotalOrder, IsTop, Leads;
    LeadsToTop(le, k, h, a);
    LeadsToTop(le, k, g, b);
    TopIsUnique(le, k, Items(h), a, b);
  }

  // ----- The heap queue -----

  /** The least item is in front, as `heapq` keeps it. */
  ghost predicate LeastFirst<T(!new)>(le: (T, T) -> bool, heap: seq<T>) {
    forall i :: 0 <= i < |heap| ==> le(heap[0], heap[i])
  }

  lemma TakeMore<T>(s: seq<T>, i: nat)
    requires i < |s|
    ensures multiset(s[..i + 1]) == multiset(s[..i]) + multiset{s[i]}
  {
    assert s[..i + 1] == s[..i] + [s[i]];
  }

  lemma LeastOfAll<T(!new)>(le: (T, T) -> bool, heap: seq<T>, item: T)
    requires TotalOrder(le) && LeastFirst(le, heap)
    ensures var least := if heap == [] || le(item, heap[0]) then item else heap[0];
            forall x :: x in multiset(heap) + multiset{item} ==> le(least, x)
    ensures LeastFirst(le, [])
  {
  }

  /** `heapq.heappush`, by what it promises: the item is added and the least item stays in front. */
  method HeapPush<T(!new)>(le: (T, T) -> bool, heap: seq<T>, item: T) returns (r: seq<T>)
    requires TotalOrder(le) && LeastFirst(le, heap)
    ensures multiset(r) == multiset(heap) + multiset{item} && LeastFirst(le, r)
  {
    r := if heap == [] || le(heap[0], item) then heap + [item] else [item] + heap;
  }

  /** `heapq.heappushpop`: the least of the items and the new one is left out. */
  method HeapPushPop<T(!new)>(le: (T, T) -> bool, heap: seq<T>, item: T) returns (r: seq<T>, least: T)
    requires TotalOrder(le) && LeastFirst(le, heap)
    ensures multiset(r) + multiset{least} == multiset(heap) + multiset{item} && LeastFirst(le, r)
    ensures forall x :: x in multiset(heap) + multiset{item} ==> le(least, x)
  {
    hide LeastFirst, TotalOrder;
    if heap == [] || le(item, heap[0]) {
      LeastOfAll(le, heap, item);
      r, least := heap, item;
    } else {
      least := heap[0];
      var rest := heap[1..];
      r := HeapPush(le, [], item);
      for i := 0 to |rest|
        invariant multiset(r) == multiset(rest[..i]) + multiset{item} && LeastFirst(le, r)
      {
        TakeMore(rest, i);
        r := HeapPush(le, r, rest[i]);
      }
      assert rest[..|rest|] == rest;
      LeastOfAll(le, heap, item);
      assert heap == [heap[0]] + rest;
    }
  }

  /** `full` tells which of the two pushing functions is installed as `push`. */
  class Heap<T(!new)> {
    const le: (T, T) -> bool
    const maxLength: nat
    var heap: seq<T>
    var full: bool

    ghost predicate Valid()
      reads this
    {
      && TotalOrder(le) && maxLength > 0 && LeastFirst(le, heap)
      && |heap| <= maxLength && (full <==> |heap| == maxLength)
    }

    /** The heap holds the largest of `all`. */
    ghost predicate Holds(all: multiset<T>)
      reads this
    {
      IsTop(le, maxLength, all, multiset(heap))
    }

    constructor (le: (T, T) -> bool, maxLength: nat)
      requires TotalOrder(le) && maxLength > 0
      ensures Valid() && this.le == le && this.maxLength == maxLength && Holds(multiset{})
    {
      this.le, this.maxLength, heap, full := le, maxLength, [], false;
    }

    method Push(item: T)
      requires Valid()
      modifies this
      ensures Valid()
      ensures forall all :: old(Holds(all)) ==> Holds(all + multiset{item})
    {
      ghost var was := multiset(heap);
      if full {
        var least;
        heap, least := HeapPushPop(le, heap, item);
        assert |was + multiset{item}| == |was| + 1;
        assert multiset(heap) == was + multiset{item} - multiset{least};
        forall all | old(Holds(all))
          ensures Holds(all + multiset{item})
        {
          Replaced(le, maxLength, all, was, item, least);
        }
      } else {
        heap := HeapPush(le, heap, item);
        if |heap| >= maxLength {
          full := true;
        }
        assert |multiset(heap)| == |was| + 1;
        forall all | old(Holds(all))
          ensures Holds(all + multiset{item})
        {
          Grown(le, maxLength, all, was, item);
        }
      }
    }

    /** Pushes the items of a list. */
    method PushAll(items: seq<T>)
      requires Valid()
      modifies this
      ensures Valid()
      ensures forall all :: old(Holds(all)) ==> Holds(all + multiset(items))
    {
      hide Heap.Holds, LeastFirst, TotalOrder;
      assert items[..0] == [] && forall all: multiset<T> :: all + multiset{} == all;
      for i := 0 to |items|
        invariant Valid()
        invariant forall all :: old(Holds(all)) ==> Holds(all + multiset(items[..i]))
      {
        Push(items[i]);
        forall all | old(Holds(all))
          ensures Holds(all + multiset(items[..i + 1]))
        {
          TakeMore(items, i);
          assert all + multiset(items[..i + 1]) == all + multiset(items[..i]) + multiset{items[i]};
        }
      }
      assert items[..|items|] == items;
    }

    /** Merges another shard's heap: whatever was pushed there counts, although only its largest are left. */
    method PushHeap(shard: Heap<T>)
      requires Valid() && shard.Valid() && shard != this && shard.le == le
      modifies this
      ensures Valid()
      ensures forall all, others :: old(Holds(all)) && shard.Holds(others) && maxLength <= shard.maxLength ==>
                Holds(all + others)
    {
      PushAll(shard.heap);
      forall all, others | old(Holds(all)) && shard.Holds(others) && maxLength <= shard.maxLength
        ensures Holds(all + others)
      {
        assert Holds(all + multiset(shard.heap));
        assert all + multiset(shard.heap) == multiset(shard.heap) + all && all + others == others + all;
        TopOfTop(le, maxLength, shard.maxLength, others, multiset(shard.heap), all, multiset(heap));
      }
    }
  }

  /** Heaps that are created, pushed to and merged as the history says. */
  method Perform<T(!new)>(le: (T, T) -> bool, maxLength: nat, h: History<T>) returns (heap: Heap<T>)
    requires TotalOrder(le) && maxLength > 0
    ensures fresh(heap) && heap.Valid() && heap.le == le && heap.maxLength == maxLength
    ensures Leads(le, maxLength, h, multiset(heap.heap))
    ensures heap.Holds(Items(h))
  {
    hide TotalOrder, IsTop, Leads, LeastFirst;
    match h {
      case Created =>
        heap := new Heap(le, maxLength);
        CreatedLeads(le, maxLength, heap.heap);
      case Pushed(before, item) =>
        heap := Perform(le, maxLength, before);
        ghost var was := multiset(heap.heap);
        FewKept(le, maxLength, heap.heap);
        LeadsOn(le, maxLength, before, before, was, was);
        heap.Push(item);
      case Merged(before, shard) =>
        heap := Perform(le, maxLength, before);
        var other := Perform(le, maxLength, shard);
        ghost var was, taken := multiset(heap.heap), multiset(other.heap);
        FewKept(le, maxLength, heap.heap);
        FewKept(le, maxLength, other.heap);
        LeadsOn(le, maxLength, before, shard, was, taken);
        heap.PushHeap(other);
    }
    LeadsToTop(le, maxLength, h, multiset(heap.heap));
  }
}
