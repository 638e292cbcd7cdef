/**
 The LRU cache of cache/lru.go.

 The first functions describe a cache as a plain sequence of entries, oldest first.  The class
 `Lru` is the source's hash map plus doubly linked list with two sentinels; its operations are
 proved to keep the heap structure intact and to act on the sequence as those functions say.
 */
module LruCache {
  import opened Prelude

  datatype Entry<T> = Entry(key: string, value: T)

  // ----- a cache as a sequence, oldest entry first -----

  function FindFrom<T>(s: seq<Entry<T>>, key: string, i: nat): (k: nat)
    requires i <= |s|
    ensures i <= k <= |s|
    ensures k < |s| ==> s[k].key == key
    ensures forall j :: i <= j < k ==> s[j].key != key
    decreases |s| - i
  {
    if i == |s| || s[i].key == key then i else FindFrom(s, key, i + 1)
  }

  /** The position of `key`, or the length when it is absent. */
  function Find<T>(s: seq<Entry<T>>, key: string): nat { FindFrom(s, key, 0) }

  predicate Has<T>(s: seq<Entry<T>>, key: string) { Find(s, key) < |s| }

  function Cut<T>(s: seq<T>, k: nat): (r: seq<T>)
    requires k < |s|
    ensures |r| == |s| - 1
    ensures forall i :: 0 <= i < k ==> r[i] == s[i]
    ensures forall i {:trigger r[i]} :: k <= i < |r| ==> r[i] == s[i + 1]
  {
    s[..k] + s[k + 1..]
  }

  function Remove<T>(s: seq<Entry<T>>, key: string): seq<Entry<T>> {
    if Has(s, key) then Cut(s, Find(s, key)) else s
  }

  /** Appends an entry and drops the oldest one on overflow. */
  function Push<T>(s: seq<Entry<T>>, e: Entry<T>, capacity: int): (r: seq<Entry<T>>)
    ensures |r| == if |s| + 1 > capacity then |s| else |s| + 1
    ensures forall i {:trigger r[i]} :: 0 <= i < |r| ==>
              var j := i + |s| + 1 - |r|; r[i] == if j < |s| then s[j] else e
  {
    if |s| + 1 > capacity then (s + [e])[1..] else s + [e]
  }

  function Put<T>(s: seq<Entry<T>>, key: string, value: T, capacity: int): seq<Entry<T>> {
    Push(Remove(s, key), Entry(key, value), capacity)
  }

  function Touch<T>(s: seq<Entry<T>>, key: string, capacity: int): seq<Entry<T>> {
    if Has(s, key) then Put(s, key, s[Find(s, key)].value, capacity) else s
  }

  /** The newest `size` entries. */
  function Newest<T>(s: seq<Entry<T>>, size: nat): (r: seq<Entry<T>>)
    ensures |r| == if |s| <= size then |s| else size
    ensures forall i {:trigger r[i]} :: 0 <= i < |r| ==> r[i] == s[i + |s| - |r|]
  {
    if |s| <= size then s else s[|s| - size..]
  }

  /** No key twice. */
  predicate Unique<T>(s: seq<Entry<T>>) {
    forall i, j :: 0 <= i < j < |s| ==> s[i].key != s[j].key
  }

  lemma FindOnly<T>(s: seq<Entry<T>>, k: nat)
    requires Unique(s) && k < |s|
    ensures Find(s, s[k].key) == k
  {
  }

  lemma FindAbsent<T>(s: seq<Entry<T>>, key: string)
    requires forall i :: 0 <= i < |s| ==> s[i].key != key
    ensures !Has(s, key)
  {
  }

  /** Deleting one entry leaves the others findable, one place to the left if they came after it. */
  lemma FindInCut<T>(s: seq<Entry<T>>, k: nat, key: string)
    requires Unique(s) && k < |s|
    ensures Unique(Cut(s, k))
    ensures key == s[k].key ==> !Has(Cut(s, k), key)
    ensures key != s[k].key ==>
              && Has(Cut(s, k), key) == Has(s, key)
              && Find(Cut(s, k), key) == if Find(s, key) < k then Find(s, key) else Find(s, key) - 1
  {
    var r := Cut(s, k);
    if key == s[k].key {
      FindAbsent(r, key);
    } else if Has(s, key) {
      var j := Find(s, key);
      FindOnly(r, if j < k then j else j - 1);
    } else {
      FindAbsent(r, key);
    }
  }

  lemma FindInPush<T>(s: seq<Entry<T>>, e: Entry<T>, key: string)
    requires Unique(s) && !Has(s, e.key)
    ensures Unique(s + [e])
    ensures Find(s + [e], key) == if Has(s, key) then Find(s, key) else if key == e.key then |s| else |s| + 1
  {
    var r := s + [e];
    if Has(s, key) {
      FindOnly(r, Find(s, key));
    } else if key == e.key {
      FindOnly(r, |s|);
    } else {
      FindAbsent(r, key);
    }
  }

  // ----- the linked structure -----

  class Node<T> {
    const key: string
    const value: T
    var prev: Node?<T>
    var next: Node?<T>

    constructor (key: string, value: T)
      ensures this.key == key && this.value == value
      ensures prev == null && next == null
    {
      this.key, this.value := key, value;
      prev, next := null, null;
    }
  }

  /** The nodes from head to tail are linked in both directions, and no node occurs twice. */
  ghost predicate Chain<T>(spine: seq<Node<T>>)
    reads spine
  {
    && |spine| >= 2
    && (forall i {:trigger spine[i].next} :: 0 <= i < |spine| - 1 ==> spine[i].next == spine[i + 1])
    && (forall i {:trigger spine[i].prev} :: 1 <= i < |spine| ==> spine[i].prev == spine[i - 1])
    && Distinct(spine)
  }

  /** The nodes between the sentinels hold the entries in order. */
  ghost predicate Holds<T>(spine: seq<Node<T>>, entries: seq<Entry<T>>) {
    && |entries| + 2 == |spine| && Unique(entries)
    && forall i :: 0 <= i < |entries| ==> entries[i] == Entry(spine[i + 1].key, spine[i + 1].value)
  }

  /** The map finds the node of `key`, if there is one. */
  ghost predicate Finds<T>(cache: map<string, Node<T>>, spine: seq<Node<T>>, entries: seq<Entry<T>>, key: string)
    requires |entries| + 2 == |spine|
  {
    && (key in cache <==> Has(entries, key))
    && (key in cache ==> cache[key] == spine[Find(entries, key) + 1])
  }

  /** The map finds exactly the nodes between the sentinels. */
  ghost predicate Indexes<T>(cache: map<string, Node<T>>, spine: seq<Node<T>>, entries: seq<Entry<T>>) {
    && Holds(spine, entries) && |cache| == |entries|
    && forall key :: Finds(cache, spine, entries, key)
  }

  lemma FindsCut<T>(cache: map<string, Node<T>>, spine: seq<Node<T>>, entries: seq<Entry<T>>, k: nat, q: string)
    requires Holds(spine, entries) && k < |entries| && Finds(cache, spine, entries, q)
    ensures Finds(cache - {entries[k].key}, Cut(spine, k + 1), Cut(entries, k), q)
  {
    FindInCut(entries, k, q);
    FindOnly(entries, k);
  }

  lemma MapAddSize<K, V>(m: map<K, V>, k: K, v: V)
    requires k !in m
    ensures |m[k := v]| == |m| + 1
  {
    assert m[k := v].Keys == m.Keys + {k};
  }

  lemma MapRemoveSize<K, V>(m: map<K, V>, k: K)
    requires k in m
    ensures |m - {k}| == |m| - 1
  {
    assert (m - {k}).Keys == m.Keys - {k};
  }

  lemma HoldsCut<T>(spine: seq<Node<T>>, entries: seq<Entry<T>>, k: nat)
    requires Holds(spine, entries) && k < |entries|
    ensures Holds(Cut(spine, k + 1), Cut(entries, k))
  {
    FindInCut(entries, k, entries[k].key);
  }

  lemma IndexesCut<T>(cache: map<string, Node<T>>, spine: seq<Node<T>>, entries: seq<Entry<T>>, k: nat)
    requires Indexes(cache, spine, entries) && k < |entries|
    ensures spine[k + 1].key == entries[k].key && entries[k].key in cache
    ensures Indexes(cache - {entries[k].key}, Cut(spine, k + 1), Cut(entries, k))
  {
    var key := entries[k].key;
    assert spine[k + 1].key == key && key in cache by {
      assert Finds(cache, spine, entries, key);
      FindOnly(entries, k);
    }
    HoldsCut(spine, entries, k);
    hide Finds, Unique, Holds, Has, Find, FindFrom;
    var cache', spine', entries' := cache - {key}, Cut(spine, k + 1), Cut(entries, k);
    MapRemoveSize(cache, key);
    forall q ensures Finds(cache', spine', entries', q) {
      FindsCut(cache, spine, entries, k, q);
    }
  }

  lemma FindsPush<T>(cache: map<string, Node<T>>, spine: seq<Node<T>>, entries: seq<Entry<T>>, n: Node<T>, q: string)
    requires Holds(spine, entries) && n.key !in cache
    requires Finds(cache, spine, entries, q) && Finds(cache, spine, entries, n.key)
    ensures Finds(cache[n.key := n], Insert(spine, n), entries + [Entry(n.key, n.value)], q)
  {
    FindInPush(entries, Entry(n.key, n.value), q);
  }

  lemma HoldsPush<T>(spine: seq<Node<T>>, entries: seq<Entry<T>>, n: Node<T>)
    requires Holds(spine, entries) && !Has(entries, n.key)
    ensures Holds(Insert(spine, n), entries + [Entry(n.key, n.value)])
  {
    FindInPush(entries, Entry(n.key, n.value), n.key);
  }

  lemma IndexesPush<T>(cache: map<string, Node<T>>, spine: seq<Node<T>>, entries: seq<Entry<T>>, n: Node<T>)
    requires Indexes(cache, spine, entries) && n.key !in cache
    ensures Indexes(cache[n.key := n], Insert(spine, n), entries + [Entry(n.key, n.value)])
  {
    var e := Entry(n.key, n.value);
    assert !Has(entries, n.key) by { assert Finds(cache, spine, entries, n.key); }
    HoldsPush(spine, entries, n);
    hide Finds, Unique, Holds, Has, Find, FindFrom;
    var cache', spine', entries' := cache[n.key := n], Insert(spine, n), entries + [e];
    MapAddSize(cache, n.key, n);
    forall q ensures Finds(cache', spine', entries', q) {
      FindsPush(cache, spine, entries, n, q);
    }
  }

  /** The spine with `n` put before the tail. */
  function Insert<T>(spine: seq<Node<T>>, n: Node<T>): (r: seq<Node<T>>)
    requires |spine| >= 1
    ensures |r| == |spine| + 1
    ensures forall i :: 0 <= i < |spine| - 1 ==> r[i] == spine[i]
    ensures r[|spine| - 1] == n && r[|spine|] == spine[|spine| - 1]
  {
    spine[..|spine| - 1] + [n, spine[|spine| - 1]]
  }

  /** The pointer moves of delete: the node between the sentinels at `k` leaves the list. */
  method UnlinkNode<T>(node: Node<T>, ghost spine: seq<Node<T>>, ghost k: nat)
    requires Chain(spine) && 1 <= k < |spine| - 1 && node == spine[k]
    modifies spine
    ensures Chain(Cut(spine, k)) && node !in Cut(spine, k)
    ensures node.prev == null && node.next == null
  {
    node.prev.next, node.next.prev := node.next, node.prev;
    node.next, node.prev := null, null;
  }

  /** The pointer moves of add: the node enters the list before the tail. */
  method LinkNode<T>(node: Node<T>, tail: Node<T>, ghost spine: seq<Node<T>>)
    requires Chain(spine) && node !in spine && tail == spine[|spine| - 1]
    modifies spine, node
    ensures Chain(Insert(spine, node))
  {
    var prev := tail.prev;
    prev.next := node;
    tail.prev := node;
    node.prev := prev;
    node.next := tail;
  }

  datatype Err = Nil | ErrNotFound | ErrInvalidSize

  // ----- the cache -----

  class Lru<T(0)> {
    var cache: map<string, Node<T>>
    var capacity: int
    var head: Node<T>
    var tail: Node<T>
    ghost var spine: seq<Node<T>>
    ghost var entries: seq<Entry<T>>

    /** List and map agree with the entries. */
    ghost predicate Linked()
      reads this, spine
    {
      && Chain(spine) && head == spine[0] && tail == spine[|spine| - 1]
      && head.key == "" && tail.key == ""
      && Indexes(cache, spine, entries)
    }

    ghost predicate Valid()
      reads this, spine
    {
      Linked() && |entries| <= Max(capacity, 0)
    }

    constructor (size: int)
      ensures Valid() && fresh(spine)
      ensures entries == [] && capacity == size
    {
      var zero: T := *;
      var h := new Node<T>("", zero);
      var t := new Node<T>("", zero);
      h.next := t;
      t.prev := h;
      cache, capacity, head, tail := map[], size, h, t;
      spine, entries := [h, t], [];
      new;
      forall key ensures Finds(cache, spine, entries, key) { }
    }

    /** Unlinks the node of entry `k` and forgets its key. */
    method DeleteNode(node: Node<T>, ghost k: nat)
      requires Linked() && k < |entries| && node == spine[k + 1]
      modifies this`cache, this`spine, this`entries, spine
      ensures Linked()
      ensures spine == Cut(old(spine), k + 1) && entries == Cut(old(entries), k)
      ensures forall n :: n in spine ==> n in old(spine)
      ensures node !in spine && node.key !in cache
    {
      hide Chain, Finds, Unique, Find, FindFrom;
      IndexesCut(cache, spine, entries, k);
      UnlinkNode(node, spine, k + 1);
      cache := cache - {node.key};
      spine, entries := Cut(spine, k + 1), Cut(entries, k);
    }

    method DeleteOldest()
      requires Linked() && |entries| > 0
      modifies this`cache, this`spine, this`entries, spine
      ensures Linked() && entries == old(entries)[1..] && spine == Cut(old(spine), 1)
      ensures forall n :: n in spine ==> n in old(spine)
    {
      hide Chain, Finds, Unique, Find, FindFrom;
      assert head.next == spine[1] by { ChainHead(spine); }
      DeleteNode(head.next, 0);
    }

    /** Links a node as the newest; on overflow the oldest entry goes. */
    method Add(node: Node<T>) returns (evicted: bool)
      requires Linked() && node !in spine && node.key !in cache
      modifies this`cache, this`spine, this`entries, spine, node
      ensures Linked()
      ensures forall n :: n in spine ==> n in old(spine) || n == node
      ensures entries == Push(old(entries), Entry(node.key, node.value), capacity)
      ensures evicted <==> |old(entries)| + 1 > capacity
    {
      hide Chain, Finds, Unique, Find, FindFrom;
      IndexesPush(cache, spine, entries, node);
      LinkNode(node, tail, spine);
      cache := cache[node.key := node];
      spine, entries := Insert(spine, node), entries + [Entry(node.key, node.value)];
      if |cache| > capacity {
        DeleteOldest();
        return true;
      }
      return false;
    }

    /** The node of a key that is present, with its place in the list. */
    method Lookup(key: string) returns (node: Node<T>, ghost k: nat)
      requires Linked() && key in cache
      ensures k == Find(entries, key) && k < |entries| && node == spine[k + 1]
      ensures entries[k] == Entry(key, node.value) && node.key == key && node in spine
    {
      assert Finds(cache, spine, entries, key);
      return cache[key], Find(entries, key);
    }

    method Set(key: string, value: T)
      requires Valid()
      modifies this`cache, this`spine, this`entries, spine
      ensures Valid() && NoForeign(old(spine))
      ensures entries == Put(old(entries), key, value, capacity)
    {
      hide Chain, Indexes, Find, FindFrom;
      AbsentOrFound(key);
      if key in cache {
        var node, k := Lookup(key);
        DeleteNode(node, k);
      }
      var n := new Node<T>(key, value);
      var evicted := Add(n);
    }

    /** Every node of the list was in it before, or is new. */
    twostate predicate NoForeign(before: seq<Node<T>>)
      reads this
    {
      forall n :: n in spine ==> n in before || fresh(n)
    }

    lemma AbsentOrFound(key: string)
      requires Linked()
      ensures key in cache <==> Has(entries, key)
    {
      assert Finds(cache, spine, entries, key);
    }

    method Get(key: string) returns (res: T, err: Err)
      requires Valid()
      modifies this`cache, this`spine, this`entries, spine
      ensures Valid() && NoForeign(old(spine))
      ensures entries == Touch(old(entries), key, capacity)
      ensures err == if Has(old(entries), key) then Nil else ErrNotFound
      ensures err == Nil ==> Entry(key, res) == old(entries)[Find(old(entries), key)]
    {
      hide Chain, Indexes, Find, FindFrom;
      AbsentOrFound(key);
      if key !in cache {
        var zero: T := *;
        return zero, ErrNotFound;
      }
      var node, k := Lookup(key);
      DeleteNode(node, k);
      var evicted := Add(node);
      return node.value, Nil;
    }

    /**
     Returns the item if it is present and satisfies the condition, and otherwise stores the
     fetched one; `fetched` is what the fetch function returns, `None` standing for its error.
     */
    method GetIfOrSet(key: string, condition: T -> bool, fetched: Option<T>) returns (value: T, ok: bool, err: bool)
      requires Valid()
      modifies this`cache, this`spine, this`entries, spine
      ensures Valid() && NoForeign(old(spine))
      ensures ok <==> HitIf(old(entries), key, condition)
      ensures ok ==> !err && Entry(key, value) == old(entries)[Find(old(entries), key)]
                     && entries == Touch(old(entries), key, capacity)
      ensures !ok && fetched.Some? ==> !err && value == fetched.value
                                       && entries == Put(old(entries), key, fetched.value, capacity)
      ensures !ok && fetched.None? ==> err && entries == Remove(old(entries), key)
    {
      hide Chain, Indexes, Find, FindFrom;
      AbsentOrFound(key);
      if key in cache {
        var node, k := Lookup(key);
        DeleteNode(node, k);
        if condition(node.value) {
          var evicted := Add(node);
          return node.value, true, false;
        }
      }
      if fetched.None? {
        var zero: T := *;
        return zero, false, true;
      }
      var n := new Node<T>(key, fetched.value);
      var evicted := Add(n);
      return fetched.value, false, false;
    }

    /** The sentinels have the empty key, so deleting it does nothing, whether it is stored or not. */
    method Delete(key: string)
      requires Valid()
      modifies this`cache, this`spine, this`entries, spine
      ensures Valid() && NoForeign(old(spine))
      ensures entries == if key == "" then old(entries) else Remove(old(entries), key)
    {
      hide Chain, Indexes, Find, FindFrom;
      if key == head.key || key == tail.key {
        return;
      }
      AbsentOrFound(key);
      if key !in cache {
        return;
      }
      var node, k := Lookup(key);
      DeleteNode(node, k);
    }

    method Resize(size: int) returns (removed: int, err: Err)
      requires Valid()
      modifies this`cache, this`spine, this`entries, this`capacity, spine
      ensures Valid() && NoForeign(old(spine))
      ensures size <= 0 ==> err == ErrInvalidSize && removed == 0
      ensures size <= 0 ==> entries == old(entries) && capacity == old(capacity)
      ensures size > 0 ==> err == Nil && capacity == size && entries == Newest(old(entries), size)
                           && removed == |old(entries)| - |entries|
    {
      hide Chain, Finds, Unique, Find, FindFrom;
      if size <= 0 {
        return 0, ErrInvalidSize;
      }
      var overflow := |cache| - size;
      capacity := size;
      if overflow <= 0 {
        return 0, Nil;
      }
      for i := 0 to overflow
        invariant Linked()
        invariant spine == old(spine)[..1] + old(spine)[i + 1..]
        invariant capacity == size && entries == old(entries)[i..]
      {
        DeleteOldest();
      }
      return overflow, Nil;
    }
  }

  /** The key is present and its value satisfies the condition. */
  predicate HitIf<T>(s: seq<Entry<T>>, key: string, condition: T -> bool) {
    Has(s, key) && condition(s[Find(s, key)].value)
  }

  lemma ChainHead<T>(spine: seq<Node<T>>)
    requires Chain(spine)
    ensures spine[0].next == spine[1]
  {
  }
}
