/** The binary min-heap over (score, scheduledAt, createdAt), and the sorted sequences it stands for. */
module PriorityQueues {
  import opened Domain

  /** Lower sorts first; times are unix milliseconds. */
  datatype Key = Key(score: int, scheduledAt: int, createdAt: int)

  datatype Item<T> = Item(key: Key, data: T)

  /** Negative, zero or positive, as `sort` expects it. */
  function Compare(a: Key, b: Key): int {
    if a.score != b.score then a.score - b.score
    else if a.scheduledAt != b.scheduledAt then a.scheduledAt - b.scheduledAt
    else a.createdAt - b.createdAt
  }

  predicate Leq(a: Key, b: Key) { Compare(a, b) <= 0 }

  /** Score first, then scheduledAt, then createdAt; equal only if all three are. */
  lemma CompareIsLexicographic(a: Key, b: Key)
    ensures Compare(a, b) < 0 <==>
              || a.score < b.score
              || (a.score == b.score && a.scheduledAt < b.scheduledAt)
              || (a.score == b.score && a.scheduledAt == b.scheduledAt && a.createdAt < b.createdAt)
    ensures Compare(a, b) == 0 <==> a == b
  {}

  lemma LeqTransitive(a: Key, b: Key, c: Key)
    requires Leq(a, b) && Leq(b, c)
    ensures Leq(a, c)
  {}

  ghost predicate Sorted<T>(s: seq<Item<T>>) {
    forall i, j :: 0 <= i < j < |s| ==> Leq(s[i].key, s[j].key)
  }

  function Parent(i: nat): nat
    requires i > 0
  {
    (i - 1) / 2
  }

  ghost predicate OrderedAt<T>(h: seq<Item<T>>, i: nat)
    requires 0 < i < |h|
  {
    Leq(h[Parent(i)].key, h[i].key)
  }

  ghost predicate HeapOrder<T>(h: seq<Item<T>>) {
    forall i :: 0 < i < |h| ==> OrderedAt(h, i)
  }

  function Swap<T>(h: seq<Item<T>>, i: nat, j: nat): (r: seq<Item<T>>)
    requires i < |h| && j < |h|
    ensures multiset(r) == multiset(h) && |r| == |h|
    ensures r[i] == h[j] && r[j] == h[i]
    ensures forall k :: 0 <= k < |h| && k != i && k != j ==> r[k] == h[k]
  {
    h[i := h[j]][j := h[i]]
  }

  /** Heap order everywhere except between `idx` and its parent, which `idx`'s children respect too. */
  ghost predicate RisingAt<T>(h: seq<Item<T>>, idx: nat) {
    && idx < |h|
    && (forall i :: 0 < i < |h| && i != idx ==> OrderedAt(h, i))
    && (forall i :: 0 < i < |h| && Parent(i) == idx && idx > 0 ==> Leq(h[Parent(idx)].key, h[i].key))
  }

  /** Heap order everywhere except between `idx` and its children, which respect `idx`'s parent too. */
  ghost predicate SinkingAt<T>(h: seq<Item<T>>, idx: nat) {
    && idx < |h|
    && (forall i :: 0 < i < |h| && Parent(i) != idx ==> OrderedAt(h, i))
    && (forall i :: 0 < i < |h| && Parent(i) == idx && idx > 0 ==> Leq(h[Parent(idx)].key, h[i].key))
  }

  lemma RiseStep<T>(h: seq<Item<T>>, idx: nat)
    requires RisingAt(h, idx) && idx > 0 && !Leq(h[Parent(idx)].key, h[idx].key)
    ensures RisingAt(Swap(h, idx, Parent(idx)), Parent(idx))
  {
    var p := Parent(idx);
    var r := Swap(h, idx, p);
    forall i | 0 < i < |r| && i != p ensures OrderedAt(r, i) {
      if i != idx { assert OrderedAt(h, i); }
    }
    forall i | 0 < i < |r| && Parent(i) == p && p > 0 ensures Leq(r[Parent(p)].key, r[i].key) {
      assert OrderedAt(h, p);
      if i != idx {
        assert OrderedAt(h, i);
        LeqTransitive(h[Parent(p)].key, h[p].key, h[i].key);
      }
    }
  }

  /** `c` is the child of `idx` that comes first, if any child comes before `idx`; otherwise `idx` itself. */
  function SmallestOf<T>(h: seq<Item<T>>, idx: nat): (c: nat)
    requires idx < |h|
    ensures c < |h| && (c == idx || (c > 0 && Parent(c) == idx))
    ensures forall i :: 0 < i < |h| && Parent(i) == idx ==> Leq(h[c].key, h[i].key)
    ensures Leq(h[c].key, h[idx].key) && (c != idx ==> !Leq(h[idx].key, h[c].key))
  {
    var left, right := 2 * idx + 1, 2 * idx + 2;
    var c := if left < |h| && Compare(h[left].key, h[idx].key) < 0 then left else idx;
    if right < |h| && Compare(h[right].key, h[c].key) < 0 then right else c
  }

  lemma SinkStep<T>(h: seq<Item<T>>, idx: nat)
    requires SinkingAt(h, idx) && SmallestOf(h, idx) != idx
    ensures SinkingAt(Swap(h, idx, SmallestOf(h, idx)), SmallestOf(h, idx))
  {}

  lemma SinkDone<T>(h: seq<Item<T>>, idx: nat)
    requires SinkingAt(h, idx) && SmallestOf(h, idx) == idx
    ensures HeapOrder(h)
  {}

  /** The root of a heap is a least item. */
  lemma {:induction false} RootIsLeast<T>(h: seq<Item<T>>, i: nat)
    requires HeapOrder(h) && i < |h|
    ensures Leq(h[0].key, h[i].key)
  {
    if i > 0 {
      RootIsLeast(h, Parent(i));
      assert OrderedAt(h, i);
      LeqTransitive(h[0].key, h[Parent(i)].key, h[i].key);
    }
  }

  ghost predicate LeastOf<T>(x: Item<T>, m: multiset<Item<T>>) {
    x in m && forall y :: y in m ==> Leq(x.key, y.key)
  }

  class PriorityQueue<T(==)> {
    var heap: seq<Item<T>>

    ghost predicate Valid()
      reads this
    {
      HeapOrder(heap)
    }

    constructor ()
      ensures Valid() && heap == []
    {
      heap := [];
    }

    method Push(item: Item<T>)
      requires Valid()
      modifies this
      ensures Valid()
      ensures multiset(heap) == old(multiset(heap)) + multiset{item}
    {
      heap := heap + [item];
      assert RisingAt(heap, |heap| - 1) by {
        forall i | 0 < i < |heap| && i != |heap| - 1 ensures OrderedAt(heap, i) {
          assert OrderedAt(old(heap), i);
        }
      }
      BubbleUp(|heap| - 1);
    }

    method BubbleUp(start: nat)
      requires RisingAt(heap, start)
      modifies this
      ensures Valid() && multiset(heap) == old(multiset(heap))
    {
      var idx: nat := start;
      while idx > 0
        invariant RisingAt(heap, idx)
        invariant multiset(heap) == old(multiset(heap))
      {
        var parent := Parent(idx);
        if Compare(heap[idx].key, heap[parent].key) < 0 {
          RiseStep(heap, idx);
          heap := Swap(heap, idx, parent);
          idx := parent;
        } else {
          break;
        }
      }
      forall i | 0 < i < |heap| ensures OrderedAt(heap, i) {}
    }

    /** Nothing from an empty queue; otherwise a least item, which leaves the queue. */
    method Pop() returns (top: Option<Item<T>>)
      requires Valid()
      modifies this
      ensures Valid()
      ensures top.None? <==> old(heap) == []
      ensures top.None? ==> heap == []
      ensures top.Some? ==> LeastOf(top.value, old(multiset(heap)))
      ensures top.Some? ==> multiset(heap) == old(multiset(heap)) - multiset{top.value}
      ensures |heap| == if old(heap) == [] then 0 else |old(heap)| - 1
    {
      if heap == [] {
        return None;
      }
      top := Some(heap[0]);
      RootLeastOf(heap);
      var last := heap[|heap| - 1];
      var rest := heap[..|heap| - 1];
      RemoveRoot(heap);
      heap := rest;
      if |heap| > 0 {
        heap := heap[0 := last];
        SinkDown(0);
      }
    }

    method SinkDown(start: nat)
      requires SinkingAt(heap, start)
      modifies this
      ensures Valid() && multiset(heap) == old(multiset(heap)) && |heap| == |old(heap)|
    {
      var idx: nat := start;
      while true
        invariant SinkingAt(heap, idx)
        invariant multiset(heap) == old(multiset(heap)) && |heap| == |old(heap)|
        decreases |heap| - idx
      {
        var smallest := SmallestOf(heap, idx);
        if smallest != idx {
          SinkStep(heap, idx);
          heap := Swap(heap, idx, smallest);
          idx := smallest;
        } else {
          SinkDone(heap, idx);
          break;
        }
      }
    }

    method Peek() returns (top: Option<Item<T>>)
      requires Valid()
      ensures top.None? <==> heap == []
      ensures top.Some? ==> LeastOf(top.value, multiset(heap))
    {
      if heap == [] {
        return None;
      }
      RootLeastOf(heap);
      return Some(heap[0]);
    }

    /** Up to `k` pops: the items in pop order, each not after anything that stays. */
    method PopMany(k: nat) returns (out: seq<Item<T>>)
      requires Valid()
      modifies this
      ensures Valid()
      ensures |out| == if k <= |old(heap)| then k else |old(heap)|
      ensures Sorted(out) && multiset(out) + multiset(heap) == old(multiset(heap))
      ensures forall x, y :: x in out && y in heap ==> Leq(x.key, y.key)
      ensures k >= |old(heap)| ==> heap == []
    {
      out := [];
      while |out| < k && heap != []
        invariant Valid() && |out| <= k && |out| + |heap| == |old(heap)|
        invariant Sorted(out) && multiset(out) + multiset(heap) == old(multiset(heap))
        invariant forall x, y :: x in out && y in multiset(heap) ==> Leq(x.key, y.key)
        decreases |heap|
      {
        ghost var before := heap;
        var top := Pop();
        assert top.value in multiset(before);
        assert forall y :: y in multiset(heap) ==> y in multiset(before);
        SortedSnoc(out, top.value);
        out := out + [top.value];
      }
    }

    /** Repeated pops return a sorted permutation of what was in the queue, with the keys in `toArray`'s order. */
    method Drain() returns (out: seq<Item<T>>)
      requires Valid()
      modifies this
      ensures heap == [] && Sorted(out) && multiset(out) == old(multiset(heap))
      ensures Keys(out) == Keys(old(ToArray()))
    {
      ghost var listed := ToArray();
      out := PopMany(|heap|);
      PopsMatchToArray(out, listed);
    }

    function ToArray(): (s: seq<Item<T>>)
      reads this
      ensures Sorted(s) && multiset(s) == multiset(heap)
    {
      SortByKey(heap)
    }
  }

  lemma SortedSnoc<T>(s: seq<Item<T>>, x: Item<T>)
    requires Sorted(s) && forall y :: y in s ==> Leq(y.key, x.key)
    ensures Sorted(s + [x])
  {}

  lemma RootLeastOf<T>(h: seq<Item<T>>)
    requires HeapOrder(h) && h != []
    ensures LeastOf(h[0], multiset(h))
  {
    forall y | y in multiset(h) ensures Leq(h[0].key, y.key) {
      assert y in h;
      var i :| 0 <= i < |h| && h[i] == y;
      RootIsLeast(h, i);
    }
  }

  /** Moving the last item over the root removes exactly the root and disturbs the order only there. */
  lemma RemoveRoot<T>(h: seq<Item<T>>)
    requires HeapOrder(h) && h != []
    ensures var rest, last := h[..|h| - 1], h[|h| - 1];
            if rest == [] then multiset(rest) == multiset(h) - multiset{h[0]}
            else SinkingAt(rest[0 := last], 0) && multiset(rest[0 := last]) == multiset(h) - multiset{h[0]}
  {
    var rest, last := h[..|h| - 1], h[|h| - 1];
    assert h == rest + [last];
    if rest != [] {
      var r := rest[0 := last];
      forall i | 0 < i < |r| && Parent(i) != 0 ensures OrderedAt(r, i) {
        assert OrderedAt(h, i);
      }
    }
  }

  // ---- sorting --------------------------------------------------------------------------------

  function Insert<T>(s: seq<Item<T>>, x: Item<T>): (r: seq<Item<T>>) {
    if s == [] || Compare(s[|s| - 1].key, x.key) <= 0 then s + [x]
    else Insert(s[..|s| - 1], x) + [s[|s| - 1]]
  }

  lemma {:induction false} InsertKeeps<T>(s: seq<Item<T>>, x: Item<T>)
    requires Sorted(s)
    ensures Sorted(Insert(s, x)) && multiset(Insert(s, x)) == multiset(s) + multiset{x}
  {
    if s == [] || Compare(s[|s| - 1].key, x.key) <= 0 {
      forall y | y in s ensures Leq(y.key, x.key) {
        var i :| 0 <= i < |s| && s[i] == y;
        LeqTransitive(y.key, s[|s| - 1].key, x.key);
      }
      SortedSnoc(s, x);
    } else {
      var init, y := s[..|s| - 1], s[|s| - 1];
      assert s == init + [y];
      InsertKeeps(init, x);
      var r := Insert(init, x);
      forall z | z in r ensures Leq(z.key, y.key) {
        assert z in multiset(r);
        assert z in init || z == x;
      }
      SortedSnoc(r, y);
    }
  }

  /** The array `sort` returns: stable, by insertion from the left. */
  function SortByKey<T>(s: seq<Item<T>>): (r: seq<Item<T>>)
    ensures Sorted(r) && multiset(r) == multiset(s)
  {
    if s == [] then []
    else
      var init := s[..|s| - 1];
      assert s == init + [s[|s| - 1]];
      InsertKeeps(SortByKey(init), s[|s| - 1]);
      Insert(SortByKey(init), s[|s| - 1])
  }

  // ---- sorted key sequences are unique --------------------------------------------------------

  function Keys<T>(s: seq<Item<T>>): (k: seq<Key>)
    ensures |k| == |s| && forall i :: 0 <= i < |s| ==> k[i] == s[i].key
  {
    seq(|s|, i requires 0 <= i < |s| => s[i].key)
  }

  ghost predicate KeysSorted(k: seq<Key>) {
    forall i, j :: 0 <= i < j < |k| ==> Leq(k[i], k[j])
  }

  lemma DropLastItems<T>(s: seq<T>)
    requires s != []
    ensures s == s[..|s| - 1] + [s[|s| - 1]]
    ensures multiset(s[..|s| - 1]) == multiset(s) - multiset{s[|s| - 1]}
  {}

  lemma PluckItems<T>(s: seq<T>, i: nat)
    requires i < |s|
    ensures s == s[..i] + [s[i]] + s[i + 1..]
    ensures multiset(s[..i] + s[i + 1..]) == multiset(s) - multiset{s[i]}
  {}

  lemma LastKeysEqual(a: seq<Key>, b: seq<Key>)
    requires KeysSorted(a) && KeysSorted(b) && multiset(a) == multiset(b) && a != [] && b != []
    ensures a[|a| - 1] == b[|b| - 1]
  {
    assert a[|a| - 1] in multiset(a) && b[|b| - 1] in multiset(b);
    LastIsGreatest(a, b[|b| - 1]);
    LastIsGreatest(b, a[|a| - 1]);
  }

  /** The order is total on keys, so a multiset of keys has one sorted arrangement. */
  lemma {:induction false} SortedKeysUnique(a: seq<Key>, b: seq<Key>)
    requires KeysSorted(a) && KeysSorted(b) && multiset(a) == multiset(b)
    ensures a == b
  {
    SameSize(a, b);
    if a != [] {
      LastKeysEqual(a, b);
      DropLastItems(a);
      DropLastItems(b);
      SortedKeysUnique(a[..|a| - 1], b[..|b| - 1]);
    }
  }

  lemma LastIsGreatest(k: seq<Key>, x: Key)
    requires KeysSorted(k) && x in multiset(k)
    ensures Leq(x, k[|k| - 1])
  {}

  lemma SameSize(a: seq<Key>, b: seq<Key>)
    requires multiset(a) == multiset(b)
    ensures |a| == |b|
  {
    assert |multiset(a)| == |a| && |multiset(b)| == |b|;
  }

  /** The multiset of keys depends only on the multiset of items. */
  lemma {:induction false} KeysOfSameItems<T>(s: seq<Item<T>>, t: seq<Item<T>>)
    requires multiset(s) == multiset(t)
    ensures multiset(Keys(s)) == multiset(Keys(t))
  {
    if s == [] {
      assert |multiset(t)| == 0;
      assert Keys(s) == Keys(t);
    } else {
      var x := s[|s| - 1];
      assert x in multiset(s);
      assert x in t;
      var i :| 0 <= i < |t| && t[i] == x;
      DropLastItems(s);
      PluckItems(t, i);
      KeysOfSameItems(s[..|s| - 1], t[..i] + t[i + 1..]);
      KeysBack(s, t, i);
    }
  }

  lemma KeysBack<T>(s: seq<Item<T>>, t: seq<Item<T>>, i: nat)
    requires s != [] && i < |t| && t[i] == s[|s| - 1]
    requires multiset(Keys(s[..|s| - 1])) == multiset(Keys(t[..i] + t[i + 1..]))
    ensures multiset(Keys(s)) == multiset(Keys(t))
  {
    assert Keys(s[..|s| - 1]) == Keys(s)[..|s| - 1];
    assert Keys(t[..i] + t[i + 1..]) == Keys(t)[..i] + Keys(t)[i + 1..];
    DropLastItems(Keys(s));
    PluckItems(Keys(t), i);
    KeyBack(multiset(Keys(s)), multiset(Keys(t)), t[i].key);
  }

  lemma KeyBack(m: multiset<Key>, n: multiset<Key>, k: Key)
    requires k in m && k in n && m - multiset{k} == n - multiset{k}
    ensures m == n
  {
    assert m == m - multiset{k} + multiset{k};
    assert n == n - multiset{k} + multiset{k};
  }

  /** Any two sorted arrangements of the same items, such as repeated pops and `toArray`, show the same keys. */
  lemma PopsMatchToArray<T>(pops: seq<Item<T>>, listed: seq<Item<T>>)
    requires Sorted(pops) && Sorted(listed) && multiset(pops) == multiset(listed)
    ensures Keys(pops) == Keys(listed)
  {
    KeysOfSameItems(pops, listed);
    SortedKeysUnique(Keys(pops), Keys(listed));
  }
}
