/**
 The expiring cache of cache/cache.go: an index from keys to shared items, and a list of items that
 the clean-up works on.  Every method is proved to do what `ExpiringModel.Next` says.
 */
module ExpiringCache {
  import opened Prelude
  import opened ExpiringModel
  import opened Sorting

  class Item<T> {
    const key: string
    const value: T
    var expiresAt: int

    constructor (k: string, v: T, at: int)
      ensures key == k && value == v && expiresAt == at
    {
      key, value, expiresAt := k, v, at;
    }
  }

  // ----- from items to entries and stamps -----

  predicate IsLive<T>(index: map<string, Item<T>>, x: Item<T>) { x.key in index && index[x.key] == x }

  ghost function StampsOf<T>(index: map<string, Item<T>>, items: seq<Item<T>>): (r: seq<Stamp>)
    reads items
    ensures |r| == |items|
    ensures forall i :: 0 <= i < |items| ==> r[i] == Stamp(items[i].key, items[i].expiresAt, IsLive(index, items[i]))
  {
    seq(|items|, i requires 0 <= i < |items| reads items =>
      Stamp(items[i].key, items[i].expiresAt, IsLive(index, items[i])))
  }

  ghost function EntriesOf<T>(index: map<string, Item<T>>): map<string, Entry<T>>
    reads index.Values
  {
    map k | k in index :: Entry(index[k].value, index[k].expiresAt)
  }

  lemma EntriesOfKeys<T>(index: map<string, Item<T>>)
    ensures EntriesOf(index).Keys == index.Keys && |EntriesOf(index)| == |index|
  {
    assert EntriesOf(index).Keys == index.Keys;
    assert |EntriesOf(index)| == |EntriesOf(index).Keys| && |index| == |index.Keys|;
  }

  predicate Keyed<T>(index: map<string, Item<T>>) { forall k :: k in index ==> index[k].key == k }

  lemma StoredEntry<T>(index: map<string, Item<T>>, x: Item<T>)
    ensures EntriesOf(index[x.key := x]) == EntriesOf(index)[x.key := Entry(x.value, x.expiresAt)]
  {
  }

  lemma OverwrittenStamps<T>(index: map<string, Item<T>>, items: seq<Item<T>>, x: Item<T>)
    requires x !in items
    ensures StampsOf(index[x.key := x], items) == Forget(StampsOf(index, items), {x.key})
  {
  }

  lemma AddedStamps<T>(index: map<string, Item<T>>, items: seq<Item<T>>, x: Item<T>)
    requires x !in items && x.key !in index
    ensures StampsOf(index[x.key := x], items + [x]) == StampsOf(index, items) + [Stamp(x.key, x.expiresAt, true)]
  {
  }

  // ----- sorting and dropping -----

  function StampOf<T>(index: map<string, Item<T>>): Timed<Item<T>> -> Stamp {
    (t: Timed<Item<T>>) => Stamp(t.x.key, t.at, IsLive(index, t.x))
  }

  function ItemOf<T>(): Timed<Item<T>> -> Item<T> { (t: Timed<Item<T>>) => t.x }

  ghost predicate IsTimed<T>(timed: seq<Timed<Item<T>>>, items: seq<Item<T>>)
    reads items
  {
    |timed| == |items| && forall i :: 0 <= i < |items| ==> timed[i] == Timed(items[i].expiresAt, items[i])
  }

  lemma StampsOfTimed<T>(index: map<string, Item<T>>, timed: seq<Timed<Item<T>>>, items: seq<Item<T>>)
    requires IsTimed(timed, items)
    ensures StampsOf(index, items) == Map(StampOf(index), timed) && (InTime(timed) ==> InOrder(StampsOf(index, items)))
  {
  }

  lemma PermutedTimed<T>(timed: seq<Timed<Item<T>>>, other: seq<Timed<Item<T>>>, items: seq<Item<T>>)
    requires IsTimed(timed, items) && multiset(other) == multiset(timed)
    ensures IsTimed(other, Map(ItemOf(), other))
  {
    forall i | 0 <= i < |other| ensures other[i] == Timed(other[i].x.expiresAt, other[i].x) {
      assert other[i] in multiset(other);
      var j :| 0 <= j < |timed| && timed[j] == other[i];
    }
  }

  /** Sorts the items by expiry. */
  method SortItems<T>(ghost index: map<string, Item<T>>, items: seq<Item<T>>) returns (r: seq<Item<T>>)
    ensures Arranged(false, StampsOf(index, items), StampsOf(index, r))
  {
    hide StampsOf, InOrder;
    var timed := seq(|items|, i requires 0 <= i < |items| reads items => Timed(items[i].expiresAt, items[i]));
    var other := Sort(timed);
    PermutedTimed(timed, other, items);
    r := Map(ItemOf(), other);
    StampsOfTimed(index, timed, items);
    StampsOfTimed(index, other, r);
    MapPermuted(StampOf(index), timed, other);
  }

  /** A search by halves. */
  method Search<T>(ghost index: map<string, Item<T>>, items: seq<Item<T>>, now: int) returns (n: nat)
    ensures n <= |items| && n == Border(StampsOf(index, items), 0, |items|, now)
  {
    n := 0;
    var hi := |items|;
    while n < hi
      invariant 0 <= n <= hi <= |items|
      invariant Border(StampsOf(index, items), n, hi, now) == Border(StampsOf(index, items), 0, |items|, now)
    {
      var mid := (n + hi) / 2;
      if !(items[mid].expiresAt > now) {
        n := mid + 1;
      } else {
        hi := mid;
      }
    }
  }

  /** The index without some keys, and what is left of the items. */
  lemma DroppedStamps<T>(index: map<string, Item<T>>, items: seq<Item<T>>, n: nat, left: map<string, Item<T>>)
    requires n <= |items|
    requires left == index - KeysOf(StampsOf(index, items)[..n])
    ensures EntriesOf(left) == EntriesOf(index) - KeysOf(StampsOf(index, items)[..n])
    ensures StampsOf(left, items[n..]) == Forget(StampsOf(index, items)[n..], KeysOf(StampsOf(index, items)[..n]))
  {
    hide KeysOf;
  }

  lemma NextKey<T>(index: map<string, Item<T>>, items: seq<Item<T>>, i: nat)
    requires i < |items|
    ensures KeysOf(StampsOf(index, items)[..i + 1]) == KeysOf(StampsOf(index, items)[..i]) + {items[i].key}
  {
    var stamps := StampsOf(index, items);
    assert stamps[..i + 1] == stamps[..i] + [stamps[i]];
    KeysOfAppend(stamps[..i], [stamps[i]]);
    KeyOf([stamps[i]], 0);
  }

  class Cache<T(==)> {
    var index: map<string, Item<T>>
    var items: seq<Item<T>>
    var sorted: bool
    var capacity: int
    var closed: bool

    ghost function Now(): State<T>
      reads this, index.Values, items
    {
      State(EntriesOf(index), StampsOf(index, items), sorted, capacity, closed)
    }

    ghost predicate Valid()
      reads this, index.Values, items
    {
      Keyed(index) && Sound(Now())
    }

    constructor (size: int)
      ensures Valid() && Now() == Init(size)
    {
      index, items, sorted, capacity, closed := map[], [], true, size, false;
    }

    method Close() returns (r: Reply<T>)
      requires Valid()
      modifies this
      ensures Valid() && Next(old(Now()), Op.Close, 0, Now(), r)
    {
      hide Sound, EntriesOf;
      ghost var s := Now();
      r := Failed;
      if !closed {
        closed := true;
        r := Done;
      }
      StepSound(s, Op.Close, 0, Now(), r);
    }

    method Get(key: string, now: int) returns (r: Reply<T>)
      requires Valid()
      ensures Next(Now(), Op.Get(key), now, Now(), r)
    {
      if closed || key !in index {
        return Failed;
      }
      var item := index[key];
      if item.expiresAt != ZERO_TIME {
        if item.expiresAt < now {
          return Failed;
        }
      }
      return Hit(item.value);
    }

    /** Puts a new item under `key`; an item that was there stays in the list, but is not live. */
    method Store(key: string, value: T, now: int)
      requires Keyed(index)
      modifies this`index, this`items
      ensures Keyed(index)
      ensures Now() == ExpiringModel.Store(old(Now()), key, Entry(value, now + NO_EXPIRATION))
    {
      hide EntriesOf, StampsOf, Forget;
      ghost var s := Now();
      EntriesOfKeys(index);
      var item := new Item(key, value, now + NO_EXPIRATION);
      StoredEntry(index, item);
      if key in index {
        OverwrittenStamps(index, items, item);
        index := index[key := item];
      } else {
        AddedStamps(index, items, item);
        index := index[key := item];
        items := items + [item];
      }
    }

    method Set(key: string, value: T, now: int) returns (r: Reply<T>)
      requires Valid()
      modifies this`index, this`items
      ensures Valid() && Next(old(Now()), Op.Set(key, value), now, Now(), r)
    {
      hide Sound, EntriesOf, StampsOf;
      ghost var s := Now();
      EntriesOfKeys(index);
      r := Failed;
      if !closed {
        if key in index {
          Store(key, value, now);
          r := Done;
        } else if capacity > 0 && |index| < capacity {
          Store(key, value, now);
          r := Done;
        }
      }
      StepSound(s, Op.Set(key, value), now, Now(), r);
    }

    /** Gives the entry under `key` another expiry; no other item is affected. */
    method Expire(key: string, at: int)
      requires Keyed(index) && key in index
      modifies index[key]
      ensures Now() == ExpiringModel.Expire(old(Now()), key, at)
    {
      ghost var s := Now();
      ghost var t := ExpiringModel.Expire(s, key, at);
      index[key].expiresAt := at;
      assert EntriesOf(index) == t.entries;
      assert StampsOf(index, items) == t.stamps;
    }

    method Delete(key: string, now: int) returns (r: Reply<T>)
      requires Valid()
      modifies if key in index then {index[key]} else {}
      ensures Valid() && Next(old(Now()), Op.Delete(key), now, Now(), r)
    {
      hide Sound, EntriesOf, StampsOf;
      ghost var s := Now();
      EntriesOfKeys(index);
      r := Failed;
      if !closed {
        if key in index {
          Expire(key, now);
        }
        r := Done;
      }
      StepSound(s, Op.Delete(key), now, Now(), r);
    }

    method SetExpiration(key: string, at: int) returns (r: Reply<T>)
      requires Valid()
      modifies this`sorted, if key in index then {index[key]} else {}
      ensures Valid() && Next(old(Now()), Op.SetExpiration(key, at), 0, Now(), r)
    {
      hide Sound, EntriesOf, StampsOf;
      ghost var s := Now();
      EntriesOfKeys(index);
      r := Failed;
      if !closed && key in index {
        Expire(key, at);
        sorted := false;
        r := Done;
      }
      StepSound(s, Op.SetExpiration(key, at), 0, Now(), r);
    }

    method Clear() returns (r: Reply<T>)
      requires Valid()
      modifies this`index
      ensures Valid() && Next(old(Now()), Op.Clear, 0, Now(), r)
    {
      ghost var s := Now();
      r := Failed;
      if !closed {
        index := map[];
        assert StampsOf(index, items) == Forget(s.stamps, KeysOf(s.stamps)) by { NoneLive(s.stamps); }
        r := Done;
      }
      hide Sound;
      StepSound(s, Op.Clear, 0, Now(), r);
    }

    /** Drops the first `n` items, and the entries under their keys. */
    method Evict(n: nat)
      requires Keyed(index) && n <= |items|
      modifies this`index, this`items
      ensures Keyed(index)
      ensures EntriesOf(index) == old(Drop(Now(), StampsOf(index, items), n).entries)
      ensures StampsOf(index, items) == old(Drop(Now(), StampsOf(index, items), n).stamps)
    {
      ghost var before, stamps := index, StampsOf(index, items);
      hide StampsOf, EntriesOf, KeysOf;
      assert index == before - KeysOf(stamps[..0]) by { assert KeysOf(stamps[..0]) == {} by { NoKeys(); } }
      for i := 0 to n
        invariant items == old(items)
        invariant index == before - KeysOf(stamps[..i])
      {
        NextKey(before, items, i);
        index := index - {items[i].key};
      }
      DroppedStamps(before, items, n, index);
      items := items[n..];
    }

    /** Sorts the items unless they are taken to be sorted. */
    method Arrange()
      modifies this`items, this`sorted
      ensures sorted && |items| == |old(items)|
      ensures Arranged(old(sorted), old(StampsOf(index, items)), StampsOf(index, items))
    {
      hide StampsOf, InOrder;
      if !sorted {
        items := SortItems(index, items);
        sorted := true;
      }
    }

    /** Makes the items fit the new size; the first of them go, sorted unless taken to be. */
    method Resize(size: int) returns (removed: int, r: Reply<T>)
      requires Valid()
      modifies this`index, this`items, this`sorted, this`capacity
      ensures Valid() && Next(old(Now()), Op.Resize(size), 0, Now(), r)
      ensures removed == |old(items)| - |items|
    {
      hide Sound, EntriesOf, StampsOf, Arranged, Forget;
      ghost var s := Now();
      removed, r := 0, Failed;
      if size > 0 {
        var overflow := |items| - size;
        if !closed {
          capacity := size;
          r := Done;
          if overflow > 0 {
            Arrange();
            ghost var all := StampsOf(index, items);
            Evict(overflow);
            removed := overflow;
            assert Now() == Drop(s.(capacity := size), all, overflow);
          }
        }
      }
      StepSound(s, Op.Resize(size), 0, Now(), r);
    }

    /** The clean-up: the items before the border go, sorted unless taken to be. */
    method DeleteExpired(now: int) returns (r: Reply<T>)
      requires Valid()
      modifies this`index, this`items, this`sorted
      ensures Valid() && Next(old(Now()), Op.CleanUp, now, Now(), r)
    {
      hide Sound, EntriesOf, StampsOf, Arranged, Forget, Border;
      ghost var s := Now();
      r := Failed;
      if !closed {
        Arrange();
        ghost var all := StampsOf(index, items);
        var n := Search(index, items, now);
        Evict(n);
        r := Done;
        assert Now() == Drop(s, all, Border(all, 0, |all|, now));
      }
      StepSound(s, Op.CleanUp, now, Now(), r);
    }

    method HasExpired(key: string, now: int) returns (r: Option<bool>)
      requires Valid()
      ensures r == if closed then None else Some(SaysExpired(Now(), key, now))
    {
      if closed {
        return None;
      }
      if key !in index {
        return Some(true);
      }
      return Some(index[key].expiresAt < now);
    }
  }
}
