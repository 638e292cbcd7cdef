/**
 Laws of the LRU cache over whole runs, stated on the sequence that `LruCache.Lru` refines.
 */
module LruLaws {
  import opened LruCache
  import opened Prelude

  // ----- what every operation keeps -----

  datatype Op<T> =
    | Set(key: string, value: T)
    | Get(key: string)
    | Delete(key: string)
    | Refetch(key: string, hit: bool, fetched: seq<T>)
    | Resize(size: int)

  datatype Cache<T> = Cache(entries: seq<Entry<T>>, capacity: int)

  /** The effect of one operation; a `Refetch` is a GetIfOrSet, whose fetch fails when `fetched` is empty. */
  function Apply<T>(c: Cache<T>, op: Op<T>): Cache<T> {
    match op
    case Set(k, v) => c.(entries := Put(c.entries, k, v, c.capacity))
    case Get(k) => c.(entries := Touch(c.entries, k, c.capacity))
    case Delete(k) => if k == "" then c else c.(entries := LruCache.Remove(c.entries, k))
    case Refetch(k, hit, fetched) =>
      if Has(c.entries, k) && hit then c.(entries := Touch(c.entries, k, c.capacity))
      else if |fetched| == 0 then c.(entries := LruCache.Remove(c.entries, k))
      else c.(entries := Put(c.entries, k, fetched[0], c.capacity))
    case Resize(size) => if size <= 0 then c else Cache(Newest(c.entries, size), size)
  }

  function RunFrom<T>(c: Cache<T>, ops: seq<Op<T>>, n: nat): Cache<T>
    requires n <= |ops|
  {
    if n == 0 then c else Apply(RunFrom(c, ops, n - 1), ops[n - 1])
  }

  /** No key twice, and never more entries than the capacity allows. */
  predicate Sound<T>(c: Cache<T>) {
    Unique(c.entries) && |c.entries| <= Max(c.capacity, 0)
  }

  lemma {:induction false} RemoveKeeps<T>(s: seq<Entry<T>>, key: string)
    requires Unique(s)
    ensures Unique(LruCache.Remove(s, key)) && !Has(LruCache.Remove(s, key), key)
    ensures |LruCache.Remove(s, key)| == if Has(s, key) then |s| - 1 else |s|
  {
    if Has(s, key) { FindInCut(s, Find(s, key), key); }
  }

  lemma {:induction false} PutKeeps<T>(s: seq<Entry<T>>, key: string, value: T, capacity: int)
    requires Unique(s) && |s| <= Max(capacity, 0)
    ensures Unique(Put(s, key, value, capacity)) && |Put(s, key, value, capacity)| <= Max(capacity, 0)
  {
    var r := LruCache.Remove(s, key);
    RemoveKeeps(s, key);
    FindInPush(r, Entry(key, value), key);
  }

  lemma {:induction false} ApplyKeeps<T>(c: Cache<T>, op: Op<T>)
    requires Sound(c)
    ensures Sound(Apply(c, op))
  {
    match op
    case Set(k, v) => PutKeeps(c.entries, k, v, c.capacity);
    case Get(k) => if Has(c.entries, k) { PutKeeps(c.entries, k, c.entries[Find(c.entries, k)].value, c.capacity); }
    case Delete(k) => RemoveKeeps(c.entries, k);
    case Refetch(k, hit, fetched) =>
      RemoveKeeps(c.entries, k);
      if Has(c.entries, k) && hit {
        PutKeeps(c.entries, k, c.entries[Find(c.entries, k)].value, c.capacity);
      } else if |fetched| > 0 {
        PutKeeps(c.entries, k, fetched[0], c.capacity);
      }
    case Resize(size) =>
  }

  /** Every run from an empty cache, of any capacity, stays sound. */
  lemma {:induction false} RunIsSound<T>(capacity: int, ops: seq<Op<T>>, n: nat)
    requires n <= |ops|
    ensures Sound(RunFrom(Cache([], capacity), ops, n))
  {
    if n == 0 {
    } else {
      RunIsSound(capacity, ops, n - 1);
      ApplyKeeps(RunFrom(Cache([], capacity), ops, n - 1), ops[n - 1]);
    }
  }

  // ----- eviction -----

  /** The entries after storing the first `n` of a run of writes. */
  function Stored<T>(writes: seq<Entry<T>>, n: nat, capacity: int): seq<Entry<T>>
    requires n <= |writes|
  {
    if n == 0 then [] else Put(Stored(writes, n - 1, capacity), writes[n - 1].key, writes[n - 1].value, capacity)
  }

  /** The same without eviction: every key once, in the order of its last write. */
  function Recent<T>(writes: seq<Entry<T>>, n: nat): seq<Entry<T>>
    requires n <= |writes|
  {
    if n == 0 then [] else LruCache.Remove(Recent(writes, n - 1), writes[n - 1].key) + [writes[n - 1]]
  }

  /** Storing into the newest entries, with eviction, gives the newest after storing into them all. */
  lemma {:induction false} PutNewest<T>(r: seq<Entry<T>>, e: Entry<T>, capacity: nat)
    requires Unique(r)
    ensures Put(Newest(r, capacity), e.key, e.value, capacity) == Newest(LruCache.Remove(r, e.key) + [e], capacity)
  {
    hide Newest, Cut, Push;
    var s := Newest(r, capacity);
    var d := |r| - |s|;
    if Has(r, e.key) && Find(r, e.key) >= d {
      var k := Find(r, e.key);
      assert s[k - d] == r[k];
      FindOnly(s, k - d);
      PutAmong(r, e, capacity, k);
    } else {
      FindAbsent(s, e.key);
      PutBeyond(r, e, capacity);
    }
  }

  lemma {:induction false} PutAmong<T>(r: seq<Entry<T>>, e: Entry<T>, capacity: nat, k: nat)
    requires |r| - |Newest(r, capacity)| <= k < |r|
    ensures var s := Newest(r, capacity);
            Push(Cut(s, k - |r| + |s|), Entry(e.key, e.value), capacity) == Newest(Cut(r, k) + [e], capacity)
  {
    hide Newest, Cut, Push;
    var s := Newest(r, capacity);
    var a, b := Push(Cut(s, k - |r| + |s|), Entry(e.key, e.value), capacity), Newest(Cut(r, k) + [e], capacity);
    assert |a| == |b|;
    assert forall i :: 0 <= i < |a| ==> a[i] == b[i];
  }

  lemma {:induction false} PutBeyond<T>(r: seq<Entry<T>>, e: Entry<T>, capacity: nat)
    requires Has(r, e.key) ==> Find(r, e.key) < |r| - |Newest(r, capacity)|
    ensures Push(Newest(r, capacity), Entry(e.key, e.value), capacity)
            == Newest(LruCache.Remove(r, e.key) + [e], capacity)
  {
    hide Newest, Cut, Push, Find, FindFrom;
    var a := Push(Newest(r, capacity), Entry(e.key, e.value), capacity);
    var b := Newest(LruCache.Remove(r, e.key) + [e], capacity);
    assert |a| == |b|;
    assert forall i :: 0 <= i < |a| ==> a[i] == b[i];
  }

  lemma {:induction false} RecentUnique<T>(writes: seq<Entry<T>>, n: nat)
    requires n <= |writes|
    ensures Unique(Recent(writes, n))
  {
    if n == 0 {
    } else {
      RecentUnique(writes, n - 1);
      RemoveKeeps(Recent(writes, n - 1), writes[n - 1].key);
      FindInPush(LruCache.Remove(Recent(writes, n - 1), writes[n - 1].key), writes[n - 1], "");
    }
  }

  lemma NewestOfNone<T>(writes: seq<Entry<T>>, capacity: nat)
    ensures Newest(Recent(writes, 0), capacity) == []
  {
  }

  /** A cache of any capacity holds exactly the most recently written keys, as many as fit. */
  lemma {:induction false} StoredIsNewest<T>(writes: seq<Entry<T>>, n: nat, capacity: nat)
    requires n <= |writes|
    ensures Stored(writes, n, capacity) == Newest(Recent(writes, n), capacity)
  {
    hide Put, LruCache.Remove, Unique, Newest;
    if n == 0 {
      NewestOfNone(writes, capacity);
    } else {
      StoredIsNewest(writes, n - 1, capacity);
      RecentUnique(writes, n - 1);
      PutNewest(Recent(writes, n - 1), writes[n - 1], capacity);
    }
  }

  /** A larger cache holds everything that a smaller one does, in the same order. */
  lemma {:induction false} LargerHoldsMore<T>(writes: seq<Entry<T>>, small: nat, large: nat)
    requires small <= large
    ensures Stored(writes, |writes|, small) == Newest(Stored(writes, |writes|, large), small)
  {
    hide Newest, Stored, Recent;
    StoredIsNewest(writes, |writes|, small);
    StoredIsNewest(writes, |writes|, large);
    var a, b := Stored(writes, |writes|, small), Newest(Stored(writes, |writes|, large), small);
    assert forall i :: 0 <= i < |a| ==> a[i] == b[i];
  }

  // ----- eviction with refetching -----

  /** The keys of a cache, in order. */
  function KeysOnly<T>(s: seq<Entry<T>>): (r: seq<Entry<()>>)
    ensures |r| == |s| && forall i :: 0 <= i < |s| ==> r[i] == Entry(s[i].key, ())
  {
    seq(|s|, i requires 0 <= i < |s| => Entry(s[i].key, ()))
  }

  lemma {:induction false} FindKey<T>(s: seq<Entry<T>>, key: string, i: nat)
    requires i <= |s|
    ensures FindFrom(KeysOnly(s), key, i) == FindFrom(s, key, i)
    decreases |s| - i
  {
    if i == |s| || s[i].key == key {
    } else {
      FindKey(s, key, i + 1);
    }
  }

  lemma PutKey<T>(s: seq<Entry<T>>, key: string, value: T, capacity: int)
    ensures KeysOnly(Put(s, key, value, capacity)) == Put(KeysOnly(s), key, (), capacity)
  {
    hide FindFrom, Cut, Push;
    FindKey(s, key, 0);
    var a, b := LruCache.Remove(s, key), LruCache.Remove(KeysOnly(s), key);
    assert KeysOnly(a) == b;
    assert KeysOnly(Push(a, Entry(key, value), capacity)) == Push(b, Entry(key, ()), capacity);
  }

  /** A Set, or a GetIfOrSet whose fetch succeeds if it is made; `hit` is what its condition says. */
  datatype Access<T> = Write(key: string, value: T) | Fetch(key: string, hit: bool, fetched: T)

  function OpOf<T>(a: Access<T>): Op<T> {
    match a
    case Write(k, v) => Set(k, v)
    case Fetch(k, hit, v) => Refetch(k, hit, [v])
  }

  /** The cache after the first `n` accesses. */
  function Accessed<T>(accesses: seq<Access<T>>, n: nat, capacity: nat): Cache<T>
    requires n <= |accesses|
  {
    if n == 0 then Cache([], capacity) else Apply(Accessed(accesses, n - 1, capacity), OpOf(accesses[n - 1]))
  }

  function AccessedKeys<T>(accesses: seq<Access<T>>): (r: seq<Entry<()>>)
    ensures |r| == |accesses| && forall i :: 0 <= i < |r| ==> r[i] == Entry(accesses[i].key, ())
  {
    seq(|accesses|, i requires 0 <= i < |accesses| => Entry(accesses[i].key, ()))
  }

  lemma AccessKeys<T>(c: Cache<T>, a: Access<T>)
    ensures KeysOnly(Apply(c, OpOf(a)).entries) == Put(KeysOnly(c.entries), a.key, (), c.capacity)
    ensures Apply(c, OpOf(a)).capacity == c.capacity
  {
    hide Put, FindFrom, KeysOnly;
    if a.Fetch? && Has(c.entries, a.key) && a.hit {
      PutKey(c.entries, a.key, c.entries[Find(c.entries, a.key)].value, c.capacity);
    } else {
      PutKey(c.entries, a.key, if a.Write? then a.value else a.fetched, c.capacity);
    }
  }

  lemma {:induction false} KeysAreStored<T>(accesses: seq<Access<T>>, n: nat, capacity: nat)
    requires n <= |accesses|
    ensures KeysOnly(Accessed(accesses, n, capacity).entries) == Stored(AccessedKeys(accesses), n, capacity)
    ensures Accessed(accesses, n, capacity).capacity == capacity
  {
    hide Put, KeysOnly, AccessedKeys, Apply, OpOf;
    if n == 0 {
    } else {
      KeysAreStored(accesses, n - 1, capacity);
      AccessKeys(Accessed(accesses, n - 1, capacity), accesses[n - 1]);
    }
  }

  /** In such a run the cache holds exactly the most recently accessed keys, as many as fit. */
  lemma AccessedAreNewest<T>(accesses: seq<Access<T>>, n: nat, capacity: nat)
    requires n <= |accesses|
    ensures KeysOnly(Accessed(accesses, n, capacity).entries) == Newest(Recent(AccessedKeys(accesses), n), capacity)
  {
    hide Stored, Recent, Newest, Accessed;
    KeysAreStored(accesses, n, capacity);
    StoredIsNewest(AccessedKeys(accesses), n, capacity);
  }

  /**
   And a larger cache holds the keys of a smaller one, although the two may hit at different times and
   fetch different values.
   */
  lemma LargerHoldsMoreKeys<T>(a: seq<Access<T>>, b: seq<Access<T>>, small: nat, large: nat)
    requires small <= large && |a| == |b| && forall i :: 0 <= i < |a| ==> a[i].key == b[i].key
    ensures KeysOnly(Accessed(a, |a|, small).entries) == Newest(KeysOnly(Accessed(b, |b|, large).entries), small)
  {
    hide Stored, Newest, Accessed;
    assert AccessedKeys(a) == AccessedKeys(b);
    KeysAreStored(a, |a|, small);
    KeysAreStored(b, |b|, large);
    LargerHoldsMore(AccessedKeys(a), small, large);
  }

  // ----- runs that also read and delete -----

  /** The keys of `s` are among those of `l`, in the same order. */
  predicate Within<T>(s: seq<Entry<T>>, l: seq<Entry<T>>) {
    && (forall i :: 0 <= i < |s| ==> Has(l, s[i].key))
    && (forall i, j :: 0 <= i < j < |s| ==> Find(l, s[i].key) < Find(l, s[j].key))
  }

  /** Both caches are sound, and the larger one has spare entries only for its spare capacity. */
  predicate Nested<T>(s: Cache<T>, l: Cache<T>) {
    && Sound(s) && Sound(l) && Within(s.entries, l.entries)
    && |l.entries| - |s.entries| <= Max(l.capacity, 0) - Max(s.capacity, 0)
  }

  lemma FindInRemoved<T>(l: seq<Entry<T>>, k: string, key: string)
    requires Unique(l) && Has(l, key) && key != k
    ensures Has(LruCache.Remove(l, k), key)
    ensures Find(LruCache.Remove(l, k), key) ==
            if Has(l, k) && Find(l, k) < Find(l, key) then Find(l, key) - 1 else Find(l, key)
  {
    hide FindFrom, Cut;
    if Has(l, k) { FindInCut(l, Find(l, k), key); }
  }

  lemma WithinPart<T>(s: seq<Entry<T>>, l: seq<Entry<T>>, k: nat)
    requires Within(s, l) && k < |s|
    ensures Within(Cut(s, k), l)
  {
    hide Find, Has;
    var r := Cut(s, k);
    forall i | 0 <= i < |r| ensures Has(l, r[i].key) { assert r[i] == s[if i < k then i else i + 1]; }
    forall i, j | 0 <= i < j < |r| ensures Find(l, r[i].key) < Find(l, r[j].key) {
      assert r[i] == s[if i < k then i else i + 1] && r[j] == s[if j < k then j else j + 1];
    }
  }

  lemma WithinRest<T>(s: seq<Entry<T>>, l: seq<Entry<T>>, k: string)
    requires Within(s, l) && Unique(l) && forall i :: 0 <= i < |s| ==> s[i].key != k
    ensures Within(s, LruCache.Remove(l, k))
  {
    hide Find, Has, LruCache.Remove;
    var r := LruCache.Remove(l, k);
    forall i | 0 <= i < |s| ensures Has(r, s[i].key) { FindInRemoved(l, k, s[i].key); }
    forall i, j | 0 <= i < j < |s| ensures Find(r, s[i].key) < Find(r, s[j].key) {
      FindInRemoved(l, k, s[i].key);
      FindInRemoved(l, k, s[j].key);
      if Has(l, k) { FindOther(l, k, s[i].key); }
    }
  }

  lemma FindOther<T>(l: seq<Entry<T>>, k: string, key: string)
    requires Has(l, k) && Has(l, key) && k != key
    ensures Find(l, k) != Find(l, key)
  {
  }

  lemma WithinRemoved<T>(s: seq<Entry<T>>, l: seq<Entry<T>>, k: string)
    requires Unique(s) && Unique(l) && Within(s, l)
    ensures Within(LruCache.Remove(s, k), LruCache.Remove(l, k))
  {
    var r := LruCache.Remove(s, k);
    RemoveKeeps(s, k);
    if Has(s, k) { WithinPart(s, l, Find(s, k)); }
    assert forall i :: 0 <= i < |r| ==> r[i].key != k;
    WithinRest(r, l, k);
  }

  lemma WithinMore<T>(s: seq<Entry<T>>, l: seq<Entry<T>>, e: Entry<T>)
    requires Within(s, l) && Unique(l) && !Has(l, e.key)
    ensures Within(s, l + [e])
  {
    hide Find, Has;
    forall i | 0 <= i < |s| ensures Has(l + [e], s[i].key) && Find(l + [e], s[i].key) == Find(l, s[i].key) {
      FoundInPush(l, e, s[i].key);
    }
  }

  lemma FoundInPush<T>(l: seq<Entry<T>>, e: Entry<T>, key: string)
    requires Unique(l) && !Has(l, e.key)
    ensures Has(l, key) ==> Has(l + [e], key) && Find(l + [e], key) == Find(l, key) < |l|
    ensures key == e.key ==> Has(l + [e], key) && Find(l + [e], key) == |l|
  {
    hide FindFrom;
    FindInPush(l, e, key);
  }

  lemma WithinPushed<T>(s: seq<Entry<T>>, l: seq<Entry<T>>, e: Entry<T>, f: Entry<T>)
    requires Within(s, l) && Unique(l) && !Has(l, f.key) && e.key == f.key
    ensures Within(s + [e], l + [f])
  {
    hide Find, Has;
    forall i | 0 <= i < |s| ensures Has(l + [f], s[i].key) && Find(l + [f], s[i].key) < |l| {
      FoundInPush(l, f, s[i].key);
    }
    WithinMore(s, l, f);
    FoundInPush(l, f, f.key);
  }

  lemma WithinNewer<T>(s: seq<Entry<T>>, l: seq<Entry<T>>)
    requires Within(s, l) && |s| > 0 && Unique(l)
    ensures |l| > 0 && Within(s[1..], l[1..])
  {
    hide FindFrom;
    assert Has(l, s[0].key);
    var r, m := s[1..], l[1..];
    assert m == Cut(l, 0);
    forall i | 0 <= i < |r| ensures Has(m, r[i].key) && Find(m, r[i].key) == Find(l, s[i + 1].key) - 1 {
      assert Find(l, s[0].key) < Find(l, s[i + 1].key);
      FindInCut(l, 0, s[i + 1].key);
    }
  }

  lemma WithinDropped<T>(s: seq<Entry<T>>, l: seq<Entry<T>>)
    requires Within(s, l) && |s| > 0
    ensures Within(s[1..], l)
  {
    hide Find, Has;
    assert s[1..] == Cut(s, 0);
    WithinPart(s, l, 0);
  }

  /** Putting a key that neither has into both: when the larger evicts, so does the smaller. */
  lemma WithinPut<T>(s: seq<Entry<T>>, l: seq<Entry<T>>, e: Entry<T>, f: Entry<T>, small: int, large: int)
    requires Within(s, l) && Unique(l) && !Has(l, f.key) && e.key == f.key
    requires |l| + 1 > large ==> |s| + 1 > small
    ensures Within(Push(s, e, small), Push(l, f, large))
  {
    hide Find, Has, Within;
    WithinPushed(s, l, e, f);
    FindInPush(l, f, "");
    if |l| + 1 > large {
      WithinNewer(s + [e], l + [f]);
    } else if |s| + 1 > small {
      WithinDropped(s + [e], l + [f]);
    }
  }

  lemma PutBoth<T>(s: Cache<T>, l: Cache<T>, key: string, v: T, w: T)
    requires Nested(s, l)
    ensures Nested(s.(entries := Put(s.entries, key, v, s.capacity)),
                   l.(entries := Put(l.entries, key, w, l.capacity)))
  {
    hide Within, LruCache.Remove, Unique, FindFrom;
    WithinRemoved(s.entries, l.entries, key);
    RemoveKeeps(s.entries, key);
    RemoveKeeps(l.entries, key);
    HeldByLarger(s.entries, l.entries, key);
    PutKeeps(s.entries, key, v, s.capacity);
    PutKeeps(l.entries, key, w, l.capacity);
    WithinPut(LruCache.Remove(s.entries, key), LruCache.Remove(l.entries, key),
              Entry(key, v), Entry(key, w), s.capacity, l.capacity);
  }

  lemma HeldByLarger<T>(s: seq<Entry<T>>, l: seq<Entry<T>>, key: string)
    requires Within(s, l)
    ensures Has(s, key) ==> Has(l, key)
  {
  }

  lemma RemoveBoth<T>(s: Cache<T>, l: Cache<T>, key: string)
    requires Nested(s, l)
    ensures Nested(s.(entries := LruCache.Remove(s.entries, key)), l.(entries := LruCache.Remove(l.entries, key)))
  {
    hide Within, LruCache.Remove, Unique, FindFrom;
    WithinRemoved(s.entries, l.entries, key);
    RemoveKeeps(s.entries, key);
    RemoveKeeps(l.entries, key);
    HeldByLarger(s.entries, l.entries, key);
  }

  lemma TouchLarger<T>(s: Cache<T>, l: Cache<T>, key: string, w: T)
    requires Nested(s, l) && !Has(s.entries, key) && Has(l.entries, key)
    ensures Nested(s, l.(entries := Put(l.entries, key, w, l.capacity)))
  {
    hide Within, Unique, FindFrom, Cut;
    var r := LruCache.Remove(l.entries, key);
    WithinRemoved(s.entries, l.entries, key);
    RemoveKeeps(l.entries, key);
    PutKeeps(l.entries, key, w, l.capacity);
    WithinMore(s.entries, r, Entry(key, w));
  }

  /**
   The same call on two caches.  The values may differ, and so may what a condition says of them, but a
   fetch fails for both or for neither, and if it does the condition says the same.
   */
  predicate Alike<T>(a: Op<T>, b: Op<T>) {
    match a
    case Set(k, _) => b.Set? && b.key == k
    case Get(k) => b == Get(k)
    case Delete(k) => b == Delete(k)
    case Refetch(k, hit, fetched) =>
      b.Refetch? && b.key == k && (|b.fetched| == 0 <==> |fetched| == 0) && (|fetched| == 0 ==> b.hit == hit)
    case Resize(_) => false
  }

  lemma HitNested<T>(s: Cache<T>, l: Cache<T>, key: string)
    requires Nested(s, l)
    ensures Nested(s.(entries := Touch(s.entries, key, s.capacity)), l.(entries := Touch(l.entries, key, l.capacity)))
  {
    hide Nested, Put, FindFrom;
    if Has(l.entries, key) {
      var w := l.entries[Find(l.entries, key)].value;
      if Has(s.entries, key) {
        PutBoth(s, l, key, s.entries[Find(s.entries, key)].value, w);
      } else {
        TouchLarger(s, l, key, w);
      }
    } else {
      NoneHolds(s, l, key);
    }
  }

  lemma NoneHolds<T>(s: Cache<T>, l: Cache<T>, key: string)
    requires Nested(s, l) && !Has(l.entries, key)
    ensures !Has(s.entries, key)
  {
    HeldByLarger(s.entries, l.entries, key);
  }

  /** The value that stays under the key of a GetIfOrSet. */
  function Kept<T>(c: Cache<T>, op: Op<T>): T
    requires op.Refetch? && ((Has(c.entries, op.key) && op.hit) || |op.fetched| > 0)
  {
    if Has(c.entries, op.key) && op.hit then c.entries[Find(c.entries, op.key)].value else op.fetched[0]
  }

  lemma RefetchNested<T>(s: Cache<T>, l: Cache<T>, a: Op<T>, b: Op<T>)
    requires Nested(s, l) && Alike(a, b) && a.Refetch?
    ensures Nested(Apply(s, a), Apply(l, b))
  {
    hide Nested, Put, FindFrom;
    if |a.fetched| > 0 {
      PutBoth(s, l, a.key, Kept(s, a), Kept(l, b));
    } else if a.hit {
      HitNested(s, l, a.key);
    } else {
      RemoveBoth(s, l, a.key);
    }
  }

  lemma StepNested<T>(s: Cache<T>, l: Cache<T>, a: Op<T>, b: Op<T>)
    requires Nested(s, l) && Alike(a, b)
    ensures Nested(Apply(s, a), Apply(l, b))
  {
    hide Nested, Put, Touch, LruCache.Remove;
    match a
    case Set(k, v) => PutBoth(s, l, k, v, b.value);
    case Get(k) => HitNested(s, l, k);
    case Delete(k) => RemoveBoth(s, l, k);
    case Refetch(_, _, _) => RefetchNested(s, l, a, b);
  }

  lemma EmptyNested<T>(small: int, large: int)
    requires small <= large
    ensures Nested<T>(Cache([], small), Cache([], large))
  {
  }

  lemma {:induction false} RunNested<T>(small: int, large: int, a: seq<Op<T>>, b: seq<Op<T>>, n: nat)
    requires small <= large && n <= |a| == |b| && forall i :: 0 <= i < n ==> Alike(a[i], b[i])
    ensures Nested(RunFrom(Cache([], small), a, n), RunFrom(Cache([], large), b, n))
  {
    hide Nested, Apply;
    if n == 0 {
      EmptyNested<T>(small, large);
    } else {
      RunNested(small, large, a, b, n - 1);
      StepNested(RunFrom(Cache([], small), a, n - 1), RunFrom(Cache([], large), b, n - 1), a[n - 1], b[n - 1]);
    }
  }

  /**
   After every run of Set, Get, Delete and GetIfOrSet, failing fetches included, the keys of a smaller
   cache are among those of a larger one, in the same order.
   */
  lemma SmallerIsWithin<T>(small: int, large: int, a: seq<Op<T>>, b: seq<Op<T>>)
    requires small <= large && |a| == |b| && forall i :: 0 <= i < |a| ==> Alike(a[i], b[i])
    ensures Within(RunFrom(Cache([], small), a, |a|).entries, RunFrom(Cache([], large), b, |b|).entries)
  {
    hide RunFrom, Sound, Within;
    RunNested(small, large, a, b, |a|);
  }

  lemma SetNew<T>(c: Cache<T>, e: Entry<T>)
    requires forall i :: 0 <= i < |c.entries| ==> c.entries[i].key != e.key
    ensures Apply(c, Set(e.key, e.value)) == c.(entries := Push(c.entries, e, c.capacity))
  {
    FindAbsent(c.entries, e.key);
  }

  lemma GetOldest<T>(c: Cache<T>)
    requires 0 < |c.entries| <= c.capacity
    ensures Apply(c, Get(c.entries[0].key)) == c.(entries := c.entries[1..] + [c.entries[0]])
  {
    var e := c.entries[0];
    assert Find(c.entries, e.key) == 0;
    assert Cut(c.entries, 0) == c.entries[1..];
    assert Entry(e.key, e.value) == e;
  }

  lemma GetAbsent<T>(c: Cache<T>, key: string)
    requires forall i :: 0 <= i < |c.entries| ==> c.entries[i].key != key
    ensures Apply(c, Get(key)) == c
  {
    FindAbsent(c.entries, key);
  }

  /** A run that ends by taking the cache to two entries. */
  function Example<T>(v: T): seq<Op<T>> { [Set("a", v), Set("b", v), Set("c", v), Get("a"), Resize(2)] }

  lemma SmallExample<T>(v: T)
    ensures RunFrom(Cache([], 2), Example(v), 5).entries == [Entry("b", v), Entry("c", v)]
  {
    var ops, c := Example(v), Cache([], 2);
    hide Apply;
    SetNew(c, Entry("a", v));
    assert RunFrom(c, ops, 1) == Cache([Entry("a", v)], 2);
    SetNew(RunFrom(c, ops, 1), Entry("b", v));
    assert RunFrom(c, ops, 2) == Cache([Entry("a", v), Entry("b", v)], 2);
    SetNew(RunFrom(c, ops, 2), Entry("c", v));
    assert RunFrom(c, ops, 3) == Cache([Entry("b", v), Entry("c", v)], 2);
    GetAbsent(RunFrom(c, ops, 3), "a");
    ResizeFits(RunFrom(c, ops, 4), 2);
  }

  lemma ResizeFits<T>(c: Cache<T>, size: nat)
    requires size > 0
    ensures Apply(c, Resize(size)).entries == Newest(c.entries, size)
  {
  }

  lemma LargeExample<T>(v: T)
    ensures RunFrom(Cache([], 3), Example(v), 5).entries == [Entry("c", v), Entry("a", v)]
  {
    var ops, c := Example(v), Cache([], 3);
    hide Apply;
    SetNew(c, Entry("a", v));
    assert RunFrom(c, ops, 1) == Cache([Entry("a", v)], 3);
    SetNew(RunFrom(c, ops, 1), Entry("b", v));
    assert RunFrom(c, ops, 2) == Cache([Entry("a", v), Entry("b", v)], 3);
    SetNew(RunFrom(c, ops, 2), Entry("c", v));
    assert RunFrom(c, ops, 3) == Cache([Entry("a", v), Entry("b", v), Entry("c", v)], 3);
    GetOldest(RunFrom(c, ops, 3));
    assert RunFrom(c, ops, 4) == Cache([Entry("b", v), Entry("c", v), Entry("a", v)], 3);
    ResizeFits(RunFrom(c, ops, 4), 2);
  }

  /** With a Resize in the run, which takes both caches to one size, this need not be. */
  lemma ResizeBreaksWithin<T>(v: T)
    ensures !Within(RunFrom(Cache([], 2), Example(v), 5).entries, RunFrom(Cache([], 3), Example(v), 5).entries)
  {
    hide RunFrom;
    SmallExample(v);
    LargeExample(v);
    FindAbsent([Entry("c", v), Entry("a", v)], "b");
    assert [Entry("b", v), Entry("c", v)][0].key == "b";
  }

  // ----- recency, declaratively -----

  /** The last of the first `n` writes to `key`, or -1. */
  function LastWrite<T>(writes: seq<Entry<T>>, n: nat, key: string): (i: int)
    requires n <= |writes|
    ensures -1 <= i < n
    ensures i >= 0 ==> writes[i].key == key
    ensures forall j :: i < j < n ==> writes[j].key != key
  {
    if n == 0 then -1 else if writes[n - 1].key == key then n - 1 else LastWrite(writes, n - 1, key)
  }

  /** Entry `p` is the last write of its key. */
  ghost predicate IsLast<T>(writes: seq<Entry<T>>, n: nat, r: seq<Entry<T>>, p: nat)
    requires n <= |writes| && p < |r|
  {
    var i := LastWrite(writes, n, r[p].key);
    i >= 0 && r[p] == writes[i]
  }

  /** `r` lists last writes only, oldest first. */
  ghost predicate LastWritesInOrder<T>(writes: seq<Entry<T>>, n: nat, r: seq<Entry<T>>)
    requires n <= |writes|
  {
    && (forall p :: 0 <= p < |r| ==> IsLast(writes, n, r, p))
    && (forall p, q :: 0 <= p < q < |r| ==> LastWrite(writes, n, r[p].key) < LastWrite(writes, n, r[q].key))
  }

  /** `Recent` lists the last write of every key that was written, oldest write first. */
  lemma {:induction false} RecentIsLastWrites<T>(writes: seq<Entry<T>>, n: nat)
    requires n <= |writes|
    ensures LastWritesInOrder(writes, n, Recent(writes, n))
    ensures forall key :: LastWrite(writes, n, key) >= 0 <==> Has(Recent(writes, n), key)
  {
    hide LastWritesInOrder, Has, Unique, Recent;
    if n == 0 {
      NoWrites(writes);
    } else {
      RecentIsLastWrites(writes, n - 1);
      RecentUnique(writes, n - 1);
      WriteKeepsOrder(writes, n);
      forall key ensures LastWrite(writes, n, key) >= 0 <==> Has(Recent(writes, n), key) {
        hide LastWrite;
        WriteIsFound(writes, n, key);
      }
    }
  }

  lemma NoWrites<T>(writes: seq<Entry<T>>)
    ensures LastWritesInOrder(writes, 0, Recent(writes, 0))
    ensures forall key :: !Has(Recent(writes, 0), key)
  {
  }

  lemma {:induction false} WriteIsFound<T>(writes: seq<Entry<T>>, n: nat, key: string)
    requires 0 < n <= |writes| && Unique(Recent(writes, n - 1))
    requires LastWrite(writes, n - 1, key) >= 0 <==> Has(Recent(writes, n - 1), key)
    ensures LastWrite(writes, n, key) >= 0 <==> Has(Recent(writes, n), key)
  {
    hide Cut, FindFrom;
    var r, e := Recent(writes, n - 1), writes[n - 1];
    RemoveKeeps(r, e.key);
    FindInPush(LruCache.Remove(r, e.key), e, key);
    if key != e.key && Has(r, e.key) {
      FindInCut(r, Find(r, e.key), key);
    }
  }

  lemma {:induction false} WriteKeepsOrder<T>(writes: seq<Entry<T>>, n: nat)
    requires 0 < n <= |writes| && Unique(Recent(writes, n - 1))
    requires LastWritesInOrder(writes, n - 1, Recent(writes, n - 1))
    ensures LastWritesInOrder(writes, n, Recent(writes, n))
  {
    var r, e := Recent(writes, n - 1), writes[n - 1];
    RemoveKeeps(r, e.key);
    CutKeepsOrder(writes, n - 1, r, e.key);
    AppendKeepsOrder(writes, n, LruCache.Remove(r, e.key));
  }

  lemma {:induction false} AppendKeepsOrder<T>(writes: seq<Entry<T>>, n: nat, c: seq<Entry<T>>)
    requires 0 < n <= |writes| && !Has(c, writes[n - 1].key)
    requires LastWritesInOrder(writes, n - 1, c)
    ensures LastWritesInOrder(writes, n, c + [writes[n - 1]])
  {
    var m, e := n - 1, writes[n - 1];
    forall p | 0 <= p < |c|
      ensures IsLast(writes, n, c + [e], p) && LastWrite(writes, n, c[p].key) == LastWrite(writes, m, c[p].key) < m
    {
      assert IsLast(writes, m, c, p);
      assert c[p].key != e.key;
    }
    assert LastWrite(writes, n, e.key) == m;
  }

  lemma {:induction false} CutKeepsOrder<T>(writes: seq<Entry<T>>, n: nat, r: seq<Entry<T>>, key: string)
    requires n <= |writes| && LastWritesInOrder(writes, n, r)
    ensures LastWritesInOrder(writes, n, LruCache.Remove(r, key))
  {
    hide Find;
    var c := LruCache.Remove(r, key);
    if Has(r, key) {
      var d := Find(r, key);
      forall p | 0 <= p < |c| ensures IsLast(writes, n, c, p) {
        assert IsLast(writes, n, r, if p < d then p else p + 1);
      }
    }
  }
}
