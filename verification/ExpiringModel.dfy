/**
 What the expiring cache of cache/cache.go does, on values.

 A cache has entries, under which it serves values, and a list of stamps, by which it cleans up.  A
 stamp is live when it belongs to the entry under its key, and expires with it.  The two drift apart:
 overwriting an entry and clearing the cache leave stamps that are no longer live.
 */
module ExpiringModel {
  import opened Prelude

  const NO_EXPIRATION := 86400 * 365 * 10 * 1_000_000_000

  /** The instant that stands for no time at all. */
  const ZERO_TIME := 0

  datatype Entry<T> = Entry(value: T, expiresAt: int)

  datatype Stamp = Stamp(key: string, expiresAt: int, live: bool)

  datatype State<T> = State(
    entries: map<string, Entry<T>>,
    stamps: seq<Stamp>,
    sorted: bool,
    capacity: int,
    closed: bool)

  datatype Op<T> =
    | Set(key: string, value: T)
    | Get(key: string)
    | Delete(key: string)
    | Clear
    | Resize(size: int)
    | SetExpiration(key: string, at: int)
    | CleanUp
    | Close

  datatype Reply<T> = Done | Failed | Hit(value: T)

  function Init<T>(capacity: int): State<T> { State(map[], [], true, capacity, false) }

  predicate Served(e: Entry, now: int) { e.expiresAt == ZERO_TIME || now <= e.expiresAt }

  /** What HasExpired says of a key. */
  predicate SaysExpired<T>(s: State<T>, key: string, now: int) { key !in s.entries || s.entries[key].expiresAt < now }

  predicate Room<T>(s: State<T>, key: string) { key in s.entries || (s.capacity > 0 && |s.entries| < s.capacity) }

  // ----- what a call does to the stamps -----

  function KeysOf(stamps: seq<Stamp>): set<string> { set i | 0 <= i < |stamps| :: stamps[i].key }

  /** No stamp under one of the keys is live any more. */
  function Forget(stamps: seq<Stamp>, keys: set<string>): (r: seq<Stamp>)
    ensures |r| == |stamps|
    ensures forall i :: 0 <= i < |r| ==> r[i] == stamps[i].(live := stamps[i].live && stamps[i].key !in keys)
  {
    seq(|stamps|, i requires 0 <= i < |stamps| => stamps[i].(live := stamps[i].live && stamps[i].key !in keys))
  }

  /** The live stamp under `key` expires at `at`. */
  function Restamp(stamps: seq<Stamp>, key: string, at: int): (r: seq<Stamp>)
    ensures |r| == |stamps|
    ensures forall i :: 0 <= i < |r| ==>
              r[i] == if stamps[i].live && stamps[i].key == key then stamps[i].(expiresAt := at) else stamps[i]
  {
    seq(|stamps|, i requires 0 <= i < |stamps| =>
      if stamps[i].live && stamps[i].key == key then stamps[i].(expiresAt := at) else stamps[i])
  }

  predicate InOrder(stamps: seq<Stamp>) {
    forall i, j :: 0 <= i < j < |stamps| ==> stamps[i].expiresAt <= stamps[j].expiresAt
  }

  /** The stamps as the clean-up finds them: as they are if they are taken to be sorted, and else in order. */
  predicate Arranged(sorted: bool, stamps: seq<Stamp>, all: seq<Stamp>) {
    if sorted then all == stamps else multiset(all) == multiset(stamps) && |all| == |stamps| && InOrder(all)
  }

  /** Where a search by halves between `lo` and `hi` ends. */
  function Border(stamps: seq<Stamp>, lo: nat, hi: nat, now: int): (n: nat)
    requires lo <= hi <= |stamps|
    ensures lo <= n <= hi
    decreases hi - lo
  {
    if lo == hi then lo else
    var mid := (lo + hi) / 2;
    if stamps[mid].expiresAt <= now then Border(stamps, mid + 1, hi, now) else Border(stamps, lo, mid, now)
  }

  /** The first `n` of the arranged stamps go, and with them the entries under their keys. */
  function Drop<T>(s: State<T>, all: seq<Stamp>, n: nat): State<T>
    requires n <= |all|
  {
    var keys := KeysOf(all[..n]);
    s.(entries := s.entries - keys, stamps := Forget(all[n..], keys), sorted := true)
  }

  function Store<T>(s: State<T>, key: string, e: Entry<T>): State<T> {
    s.(entries := s.entries[key := e],
       stamps := if key in s.entries then Forget(s.stamps, {key}) else s.stamps + [Stamp(key, e.expiresAt, true)])
  }

  function Expire<T>(s: State<T>, key: string, at: int): State<T>
    requires key in s.entries
  {
    s.(entries := s.entries[key := s.entries[key].(expiresAt := at)], stamps := Restamp(s.stamps, key, at))
  }

  /** What one call does to the cache, and what it answers. */
  ghost predicate Next<T>(s: State<T>, op: Op<T>, now: int, t: State<T>, r: Reply<T>) {
    if s.closed then t == s && r == Failed else
    match op
    case Set(key, value) =>
      if Room(s, key) then t == Store(s, key, Entry(value, now + NO_EXPIRATION)) && r == Done
      else t == s && r == Failed
    case Get(key) =>
      t == s && r == if key in s.entries && Served(s.entries[key], now) then Hit(s.entries[key].value) else Failed
    case Delete(key) => r == Done && t == if key in s.entries then Expire(s, key, now) else s
    case Clear => t == s.(entries := map[], stamps := Forget(s.stamps, KeysOf(s.stamps))) && r == Done
    case Resize(size) =>
      if size <= 0 then t == s && r == Failed
      else if |s.stamps| <= size then t == s.(capacity := size) && r == Done
      else r == Done && Drops(s.(capacity := size), t, |s.stamps| - size)
    case SetExpiration(key, at) =>
      if key in s.entries then t == Expire(s, key, at).(sorted := false) && r == Done
      else t == s && r == Failed
    case CleanUp => r == Done && CleansUp(s, now, t)
    case Close => t == s.(closed := true) && r == Done
  }

  /** The `n` first stamps are dropped. */
  ghost predicate Drops<T>(s: State<T>, t: State<T>, n: nat) {
    exists all :: Arranged(s.sorted, s.stamps, all) && n <= |all| && t == Drop(s, all, n)
  }

  /** The stamps before the border are dropped. */
  ghost predicate CleansUp<T>(s: State<T>, now: int, t: State<T>) {
    exists all :: Arranged(s.sorted, s.stamps, all) && t == Drop(s, all, Border(all, 0, |all|, now))
  }

  // ----- what every call keeps -----

  /** The live stamp `i` is the only one under its key, and expires with the entry. */
  ghost predicate LiveAt<T>(entries: map<string, Entry<T>>, stamps: seq<Stamp>, i: nat)
    requires i < |stamps|
  {
    var k := stamps[i].key;
    && k in entries && entries[k].expiresAt == stamps[i].expiresAt
    && forall j :: 0 <= j < |stamps| && stamps[j].live && stamps[j].key == k ==> j == i
  }

  ghost predicate LiveStamps<T>(entries: map<string, Entry<T>>, stamps: seq<Stamp>) {
    forall i :: 0 <= i < |stamps| && stamps[i].live ==> LiveAt(entries, stamps, i)
  }

  /** Every key with an entry has a stamp. */
  predicate Stamped<T>(entries: map<string, Entry<T>>, stamps: seq<Stamp>) { entries.Keys <= KeysOf(stamps) }

  /** Every entry is stamped, live stamps belong to entries, and there are no more entries than the capacity. */
  ghost predicate Sound<T>(s: State<T>) {
    Stamped(s.entries, s.stamps) && LiveStamps(s.entries, s.stamps) && |s.entries| <= Max(s.capacity, 0)
  }

  lemma KeyOf(stamps: seq<Stamp>, i: nat)
    requires i < |stamps|
    ensures stamps[i].key in KeysOf(stamps)
  {
  }

  lemma NoKeys()
    ensures KeysOf([]) == {}
  {
  }

  lemma NoneLive(stamps: seq<Stamp>)
    ensures forall i :: 0 <= i < |stamps| ==> !Forget(stamps, KeysOf(stamps))[i].live
  {
    forall i | 0 <= i < |stamps| ensures stamps[i].key in KeysOf(stamps) { KeyOf(stamps, i); }
  }

  lemma KeysOfAppend(a: seq<Stamp>, b: seq<Stamp>)
    ensures KeysOf(a + b) == KeysOf(a) + KeysOf(b)
  {
    forall i | 0 <= i < |a| ensures a[i].key in KeysOf(a + b) { assert (a + b)[i] == a[i]; }
    forall i | 0 <= i < |b| ensures b[i].key in KeysOf(a + b) { assert (a + b)[|a| + i] == b[i]; }
    forall i | 0 <= i < |a + b| ensures (a + b)[i].key in KeysOf(a) + KeysOf(b) {
      if i < |a| { KeyOf(a, i); } else { KeyOf(b, i - |a|); }
    }
  }

  lemma ForgetKeys(stamps: seq<Stamp>, keys: set<string>)
    ensures KeysOf(Forget(stamps, keys)) == KeysOf(stamps)
  {
    forall i | 0 <= i < |stamps| ensures stamps[i].key in KeysOf(Forget(stamps, keys)) {
      KeyOf(Forget(stamps, keys), i);
    }
  }

  lemma RestampKeys(stamps: seq<Stamp>, key: string, at: int)
    ensures KeysOf(Restamp(stamps, key, at)) == KeysOf(stamps)
  {
    forall i | 0 <= i < |stamps| ensures stamps[i].key in KeysOf(Restamp(stamps, key, at)) {
      KeyOf(Restamp(stamps, key, at), i);
    }
  }

  lemma StoreSound<T>(s: State<T>, key: string, e: Entry<T>)
    requires Sound(s) && Room(s, key)
    ensures Sound(Store(s, key, e))
  {
    hide KeysOf;
    var t := Store(s, key, e);
    if key in s.entries {
      ForgetKeys(s.stamps, {key});
      assert t.entries.Keys == s.entries.Keys;
    } else {
      KeysOfAppend(s.stamps, [Stamp(key, e.expiresAt, true)]);
      KeyOf([Stamp(key, e.expiresAt, true)], 0);
      assert t.entries.Keys == s.entries.Keys + {key};
    }
    forall i | 0 <= i < |t.stamps| && t.stamps[i].live ensures LiveAt(t.entries, t.stamps, i) {
      if i < |s.stamps| { assert LiveAt(s.entries, s.stamps, i); }
    }
  }

  lemma ExpireSound<T>(s: State<T>, key: string, at: int)
    requires Sound(s) && key in s.entries
    ensures Sound(Expire(s, key, at))
  {
    hide KeysOf;
    var t := Expire(s, key, at);
    RestampKeys(s.stamps, key, at);
    assert t.entries.Keys == s.entries.Keys;
    forall i | 0 <= i < |t.stamps| && t.stamps[i].live ensures LiveAt(t.entries, t.stamps, i) {
      assert LiveAt(s.entries, s.stamps, i);
    }
  }

  lemma ClearSound<T>(s: State<T>)
    ensures LiveStamps<T>(map[], Forget(s.stamps, KeysOf(s.stamps)))
  {
    NoneLive(s.stamps);
  }

  lemma ArrangedKeys(a: seq<Stamp>, b: seq<Stamp>)
    requires multiset(a) == multiset(b)
    ensures KeysOf(a) <= KeysOf(b)
  {
    forall i | 0 <= i < |a| ensures a[i].key in KeysOf(b) {
      assert a[i] in multiset(a);
      var j :| 0 <= j < |b| && b[j] == a[i];
      KeyOf(b, j);
    }
  }

  lemma ArrangedLive<T>(entries: map<string, Entry<T>>, stamps: seq<Stamp>, all: seq<Stamp>)
    requires LiveStamps(entries, stamps) && multiset(all) == multiset(stamps)
    ensures LiveStamps(entries, all)
  {
    forall a | 0 <= a < |all| && all[a].live ensures LiveAt(entries, all, a) {
      assert all[a] in multiset(all);
      var i :| 0 <= i < |stamps| && stamps[i] == all[a];
      assert LiveAt(entries, stamps, i);
      OccursOnce(stamps, i);
      OccursOnce(all, a);
      forall b | 0 <= b < |all| && all[b].live && all[b].key == all[a].key ensures b == a {
        assert all[b] in multiset(all);
        var j :| 0 <= j < |stamps| && stamps[j] == all[b];
      }
    }
  }

  lemma DropLive<T>(entries: map<string, Entry<T>>, all: seq<Stamp>, n: nat)
    requires LiveStamps(entries, all) && n <= |all|
    ensures var keys := KeysOf(all[..n]);
            LiveStamps(entries - keys, Forget(all[n..], keys))
  {
    var keys := KeysOf(all[..n]);
    hide KeysOf;
    var left, rest := entries - keys, Forget(all[n..], keys);
    forall i | 0 <= i < |rest| && rest[i].live ensures LiveAt(left, rest, i) {
      assert LiveAt(entries, all, n + i);
      assert forall j :: 0 <= j < |rest| ==> rest[j].key == all[n + j].key && (rest[j].live ==> all[n + j].live);
    }
  }

  lemma DropStamped<T>(entries: map<string, Entry<T>>, all: seq<Stamp>, n: nat)
    requires Stamped(entries, all) && n <= |all|
    ensures var keys := KeysOf(all[..n]);
            && Stamped(entries - keys, Forget(all[n..], keys))
            && |entries - keys| <= |entries| && |entries - keys| <= |all| - n
  {
    var keys := KeysOf(all[..n]);
    hide KeysOf;
    var left, rest := entries - keys, Forget(all[n..], keys);
    assert all == all[..n] + all[n..];
    KeysOfAppend(all[..n], all[n..]);
    ForgetKeys(all[n..], keys);
    SubsetSize(left.Keys, entries.Keys);
    StampedBound(left, rest);
  }

  lemma StampedBound<T>(entries: map<string, Entry<T>>, stamps: seq<Stamp>)
    requires Stamped(entries, stamps)
    ensures |entries| <= |stamps|
  {
    var keys := seq(|stamps|, i requires 0 <= i < |stamps| => stamps[i].key);
    MembersSize(keys);
    forall k | k in entries ensures k in keys {
      var i :| 0 <= i < |stamps| && stamps[i].key == k;
      assert keys[i] == k;
    }
    assert entries.Keys <= Members(keys);
    SubsetSize(entries.Keys, Members(keys));
  }

  lemma DropSound<T>(s: State<T>, all: seq<Stamp>, n: nat)
    requires Stamped(s.entries, s.stamps) && LiveStamps(s.entries, s.stamps)
    requires Arranged(s.sorted, s.stamps, all) && n <= |all|
    ensures var t := Drop(s, all, n);
            Stamped(t.entries, t.stamps) && LiveStamps(t.entries, t.stamps)
            && |t.entries| <= |s.entries| && |t.entries| <= |s.stamps| - n && t.capacity == s.capacity
  {
    hide KeysOf, LiveStamps, InOrder;
    ArrangedKeys(s.stamps, all);
    ArrangedLive(s.entries, s.stamps, all);
    DropLive(s.entries, all, n);
    DropStamped(s.entries, all, n);
  }

  /** Every call keeps the cache sound. */
  lemma StepSound<T>(s: State<T>, op: Op<T>, now: int, t: State<T>, r: Reply<T>)
    requires Sound(s) && Next(s, op, now, t, r)
    ensures Sound(t)
  {
    hide KeysOf, LiveStamps, Store, Expire, Arranged, Border, Drop, Stamped;
    if t != s {
      match op
      case Set(key, value) => StoreSound(s, key, Entry(value, now + NO_EXPIRATION));
      case Delete(key) => ExpireSound(s, key, now);
      case Clear => ClearIsSound(s, t);
      case Resize(size) => ResizeSound(s, size, t);
      case SetExpiration(key, at) => ExpireSound(s, key, at);
      case CleanUp => CleanUpSound(s, now, t);
      case Close =>
      case Get(_) =>
    }
  }

  lemma ClearIsSound<T>(s: State<T>, t: State<T>)
    requires t == s.(entries := map[], stamps := Forget(s.stamps, KeysOf(s.stamps)))
    ensures Sound(t)
  {
    hide LiveStamps;
    ClearSound(s);
  }

  lemma CleanUpSound<T>(s: State<T>, now: int, t: State<T>)
    requires Sound(s) && CleansUp(s, now, t)
    ensures Sound(t)
  {
    hide KeysOf, LiveStamps, Stamped, Arranged, Drop, Border;
    var all :| Arranged(s.sorted, s.stamps, all) && t == Drop(s, all, Border(all, 0, |all|, now));
    DropSound(s, all, Border(all, 0, |all|, now));
  }

  lemma ResizeSound<T>(s: State<T>, size: int, t: State<T>)
    requires Sound(s) && !s.closed && size > 0 && Next(s, Resize(size), 0, t, Done)
    ensures Sound(t) && |t.entries| <= size
  {
    hide KeysOf, LiveStamps, Stamped, Arranged, Drop;
    if |s.stamps| <= size {
      StampedBound(s.entries, s.stamps);
    } else {
      var u, n := s.(capacity := size), |s.stamps| - size;
      var all :| Arranged(u.sorted, u.stamps, all) && n <= |all| && t == Drop(u, all, n);
      DropSound(u, all, n);
    }
  }
}
