/**
 The token cache of cache/token.go: an LRU whose entries expire, on either of two clocks, after 80%
 of the token's lifetime or after a maximum duration.  Times are in nanoseconds.
 */
module TokenCaching {
  import opened Prelude
  import opened LruCache
  import opened LruLaws

  const SECOND: int := 1_000_000_000
  const TOKEN_MAX_DURATION: int := 3600 * SECOND

  // ----- 64-bit arithmetic -----

  const TWO_63: int := 0x8000_0000_0000_0000
  const TWO_64: int := 0x1_0000_0000_0000_0000

  predicate IsInt64(x: int) { -TWO_63 <= x < TWO_63 }

  /** The 64-bit value of a product that may have overflowed. */
  function Wrap64(x: int): (r: int)
    ensures IsInt64(r)
    ensures IsInt64(x) ==> r == x
  {
    (x + TWO_63) % TWO_64 - TWO_63
  }

  /** Division as in Go: towards zero. */
  function Quotient(a: int, b: int): int
    requires b > 0
  {
    if a >= 0 then a / b else -(-a / b)
  }

  // ----- expiry -----

  /** A point in time on the monotonic clock and on the wall clock. */
  datatype Clock = Clock(mono: int, wall: int)

  datatype Token = Token(id: nat, duration: int)

  datatype Item = Item(token: Token, mono: int, unix: int)

  /** How long a token is kept: 80% of its duration, but not longer than `max`. */
  function Lifetime(duration: int, max: int): int {
    var d := Quotient(Wrap64(duration * 8), 10);
    if d > max then max else d
  }

  /** The deadlines of a token stored at `now`; the wall deadline is cut to whole seconds. */
  function NewItem(now: Clock, token: Token, max: int): (item: Item)
    ensures item.token == token
  {
    var d := Lifetime(token.duration, max);
    Item(token, now.mono + d, (now.wall + d) / SECOND * SECOND)
  }

  predicate Expired(item: Item, now: Clock) {
    !(item.mono > now.mono) || !(item.unix > now.wall)
  }

  /** Without overflow, the lifetime is exactly 80% of the duration, or the maximum. */
  lemma LifetimeExact(duration: int, max: int)
    requires 0 <= duration && IsInt64(duration * 8)
    ensures Lifetime(duration, max) == if duration * 8 / 10 > max then max else duration * 8 / 10
  {
  }

  /**
   A token is kept no longer than 80% of its duration if and only if multiplying its duration by 8
   does not underflow 64 bits into ten or more.  An overflow of a long duration only shortens it.
   */
  lemma LifetimeSafeIff(duration: int, max: int)
    requires IsInt64(duration)
    ensures (Lifetime(duration, max) > 0 ==> 10 * Lifetime(duration, max) <= 8 * duration) <==>
            duration * 8 >= -TWO_63 || Wrap64(duration * 8) < 10 || max <= 0
  {
  }

  /** A token that expired 36 years ago can be kept for an hour. */
  lemma UnderflowKeepsExpired()
    ensures IsInt64(-0x1000_0000_0000_0001)
    ensures Lifetime(-0x1000_0000_0000_0001, TOKEN_MAX_DURATION) == TOKEN_MAX_DURATION
  {
    assert Wrap64(-0x1000_0000_0000_0001 * 8) == TWO_63 - 8;
  }

  /** A token is served only strictly before both deadlines, which lie within its lifetime. */
  lemma ServedInTime(created: Clock, token: Token, max: int, now: Clock)
    requires !Expired(NewItem(created, token, max), now)
    ensures now.mono - created.mono < Lifetime(token.duration, max)
    ensures now.wall - created.wall < Lifetime(token.duration, max)
    ensures now.wall < (created.wall + Lifetime(token.duration, max)) / SECOND * SECOND
  {
  }

  /** Still within the lifetime of a token stored at `created`, on both clocks. */
  predicate InTime(created: Clock, token: Token, max: int, now: Clock) {
    && now.mono - created.mono < Lifetime(token.duration, max)
    && now.wall < (created.wall + Lifetime(token.duration, max)) / SECOND * SECOND
  }

  /** A stored token is served exactly within its lifetime. */
  lemma ServedIffInTime(created: Clock, token: Token, max: int, now: Clock)
    ensures !Expired(NewItem(created, token, max), now) <==> InTime(created, token, max, now)
  {
  }

  // ----- the cache -----

  class TokenCache {
    const cache: Lru<Item>
    const maxDuration: int

    ghost predicate Valid()
      reads this, cache, cache.spine
    {
      cache.Valid() && maxDuration <= TOKEN_MAX_DURATION
    }

    constructor (capacity: int, max: int)
      ensures Valid() && cache.entries == [] && cache.capacity == capacity
      ensures maxDuration == if max > TOKEN_MAX_DURATION then TOKEN_MAX_DURATION else max
      ensures fresh(cache) && fresh(cache.spine)
    {
      cache := new Lru<Item>(capacity);
      maxDuration := if max > TOKEN_MAX_DURATION then TOKEN_MAX_DURATION else max;
    }

    /**
     Returns the stored token if it has not expired at `now`, and otherwise stores the one that the
     newToken function returns, at the time `later`; `None` stands for its error.
     */
    method GetOrSet(key: string, now: Clock, fetched: Option<Token>, later: Clock)
            returns (token: Token, ok: bool, err: bool)
      requires Valid()
      modifies cache, cache.spine
      ensures Valid() && cache.capacity == old(cache.capacity)
      ensures forall n :: n in cache.spine ==> n in old(cache.spine) || fresh(n)
      ensures var e := Event(key, now, fetched, later);
              && cache.entries == Step(old(cache.entries), e, cache.capacity, maxDuration)
              && ok == IsHit(old(cache.entries), e)
              && err == (!ok && fetched.None?)
              && (ok ==> token == HitToken(old(cache.entries), e))
              && (!ok && !err ==> token == fetched.value)
    {
      var condition := (item: Item) => !Expired(item, now);
      var item: Option<Item> := None;
      if fetched.Some? {
        item := Some(NewItem(later, fetched.value, maxDuration));
      }
      var value;
      value, ok, err := cache.GetIfOrSet(key, condition, item);
      token := value.token;
    }
  }

  // ----- runs -----

  /** One call: the clock when it looks, what the fetch returns, and the clock when it stores. */
  datatype Event = Event(key: string, now: Clock, fetched: Option<Token>, later: Clock)

  predicate IsHit(s: seq<Entry<Item>>, e: Event) {
    Has(s, e.key) && !Expired(s[Find(s, e.key)].value, e.now)
  }

  function HitToken(s: seq<Entry<Item>>, e: Event): Token
    requires IsHit(s, e)
  {
    s[Find(s, e.key)].value.token
  }

  function Step(s: seq<Entry<Item>>, e: Event, capacity: int, max: int): seq<Entry<Item>> {
    if IsHit(s, e) then Touch(s, e.key, capacity)
    else if e.fetched.None? then LruCache.Remove(s, e.key)
    else Put(s, e.key, NewItem(e.later, e.fetched.value, max), capacity)
  }

  function Run(events: seq<Event>, n: nat, capacity: int, max: int): seq<Entry<Item>>
    requires n <= |events|
  {
    if n == 0 then [] else Step(Run(events, n - 1, capacity, max), events[n - 1], capacity, max)
  }

  /** The entry was stored by event `j`, and every later call for its key was a hit. */
  predicate StoredBy(events: seq<Event>, n: nat, capacity: int, max: int, x: Entry<Item>, j: nat) {
    && j < n <= |events| && events[j].key == x.key && events[j].fetched.Some?
    && x.value == NewItem(events[j].later, events[j].fetched.value, max)
    && forall i :: j < i < n && events[i].key == x.key ==> HitAt(events, i, capacity, max)
  }

  predicate HitAt(events: seq<Event>, i: nat, capacity: int, max: int)
    requires i < |events|
  {
    IsHit(Run(events, i, capacity, max), events[i])
  }

  lemma EntriesOf(s: seq<Entry<Item>>, e: Event, capacity: int, max: int, x: Entry<Item>)
    requires Unique(s) && x in Step(s, e, capacity, max)
    ensures (x in s && (x.key == e.key ==> IsHit(s, e)))
            || (e.fetched.Some? && x == Entry(e.key, NewItem(e.later, e.fetched.value, max)))
  {
  }

  lemma {:induction false} RunIsSound(events: seq<Event>, n: nat, capacity: int, max: int)
    requires n <= |events|
    ensures Sound(Cache(Run(events, n, capacity, max), capacity))
  {
    if n == 0 {
    } else {
      hide Put, LruCache.Remove, NewItem, Unique;
      RunIsSound(events, n - 1, capacity, max);
      var s, e := Run(events, n - 1, capacity, max), events[n - 1];
      RemoveKeeps(s, e.key);
      if IsHit(s, e) {
        PutKeeps(s, e.key, s[Find(s, e.key)].value, capacity);
      } else if e.fetched.Some? {
        PutKeeps(s, e.key, NewItem(e.later, e.fetched.value, max), capacity);
      }
    }
  }

  /** Every entry of every reachable cache is the last one that a call for its own key stored. */
  lemma {:induction false} EntriesAreStored(events: seq<Event>, n: nat, capacity: int, max: int,
          x: Entry<Item>) returns (j: nat)
    requires n <= |events| && x in Run(events, n, capacity, max)
    ensures StoredBy(events, n, capacity, max, x, j)
  {
    hide Step, NewItem, Unique, IsHit;
    var s, e := Run(events, n - 1, capacity, max), events[n - 1];
    RunIsSound(events, n - 1, capacity, max);
    EntriesOf(s, e, capacity, max, x);
    if x in s && (x.key == e.key ==> IsHit(s, e)) {
      j := EntriesAreStored(events, n - 1, capacity, max, x);
      assert e.key == x.key ==> HitAt(events, n - 1, capacity, max);
    } else {
      j := n - 1;
    }
  }

  /**
   In every run, a hit returns the token that the last fetching call for the same key fetched, and
   both clocks have advanced by less than the token's lifetime since it was stored.
   */
  lemma {:induction false} HitIsFresh(events: seq<Event>, n: nat, capacity: int, max: int,
          token: Token) returns (j: nat)
    requires n < |events| && IsHit(Run(events, n, capacity, max), events[n])
    requires token == HitToken(Run(events, n, capacity, max), events[n])
    ensures j < n && events[j].key == events[n].key && events[j].fetched == Some(token)
    ensures forall i :: j < i < n && events[i].key == events[n].key ==> HitAt(events, i, capacity, max)
    ensures events[n].now.mono - events[j].later.mono < Lifetime(token.duration, max)
    ensures events[n].now.wall - events[j].later.wall < Lifetime(token.duration, max)
    ensures events[n].now.wall < (events[j].later.wall + Lifetime(token.duration, max)) / SECOND * SECOND
  {
    hide Run, Expired, NewItem, Lifetime, FindFrom;
    var s := Run(events, n, capacity, max);
    var x := s[Find(s, events[n].key)];
    j := EntriesAreStored(events, n, capacity, max, x);
    ServedInTime(events[j].later, events[j].fetched.value, max, events[n].now);
  }

  /** A call whose fetch fails leaves the entries of all other keys as they are. */
  lemma FailedFetchIsLocal(s: seq<Entry<Item>>, e: Event, capacity: int, max: int, key: string)
    requires Unique(s) && !IsHit(s, e) && e.fetched.None? && key != e.key
    ensures var t := Step(s, e, capacity, max);
            Has(t, key) == Has(s, key) && (Has(s, key) ==> t[Find(t, key)] == s[Find(s, key)])
  {
    if Has(s, e.key) { FindInCut(s, Find(s, e.key), key); }
  }

  // ----- tokens that are served -----

  /** The other keys that were called for since the last call for `key`. */
  function OthersSince(events: seq<Event>, n: nat, key: string): set<string>
    requires n <= |events|
  {
    if n == 0 || events[n - 1].key == key then {}
    else OthersSince(events, n - 1, key) + {events[n - 1].key}
  }

  /** The item is kept under the key, and what is newer belongs to the other keys. */
  predicate Held<T(==)>(s: seq<Entry<T>>, key: string, item: T, others: set<string>) {
    && Has(s, key) && s[Find(s, key)].value == item
    && forall i :: Find(s, key) < i < |s| ==> s[i].key in others
  }

  lemma RemoveHolds<T>(s: seq<Entry<T>>, key: string, item: T, others: set<string>, x: string)
    requires Unique(s) && Held(s, key, item, others) && x != key
    ensures Held(LruCache.Remove(s, x), key, item, others)
  {
    hide FindFrom;
    if Has(s, x) { FindInCut(s, Find(s, x), key); }
  }

  lemma PushHolds<T>(s: seq<Entry<T>>, key: string, item: T, others: set<string>, e: Entry<T>, capacity: int)
    requires Unique(s) && Held(s, key, item, others) && !Has(s, e.key)
    requires |s| + 1 > capacity ==> Find(s, key) > 0
    ensures Held(Push(s, e, capacity), key, item, others + {e.key})
  {
    hide FindFrom;
    FindInPush(s, e, key);
    var all := s + [e];
    assert Held(all, key, item, others + {e.key});
    if |s| + 1 > capacity {
      FindInCut(all, 0, key);
      assert all[1..] == Cut(all, 0);
    }
  }

  /** What is newer are different keys. */
  lemma {:induction false} NewerAreFew<T>(s: seq<Entry<T>>, f: nat, others: set<string>)
    requires Unique(s) && f <= |s| && forall i :: f <= i < |s| ==> s[i].key in others
    ensures |s| - f <= |others|
  {
    var keys := seq(|s| - f, i requires 0 <= i < |s| - f => s[f + i].key);
    MembersSize(keys);
    assert Members(keys) <= others;
    SubsetSize(Members(keys), others);
  }

  lemma PutHolds<T>(s: seq<Entry<T>>, key: string, item: T, others: set<string>, x: string, v: T, capacity: int)
    requires Unique(s) && |s| <= capacity && Held(s, key, item, others) && x != key
    requires |others + {x}| < capacity
    ensures Held(Put(s, x, v, capacity), key, item, others + {x})
  {
    hide FindFrom, Cut, Push;
    var r := LruCache.Remove(s, x);
    RemoveKeeps(s, x);
    RemoveHolds(s, key, item, others, x);
    if |r| + 1 > capacity && Find(r, key) == 0 {
      OthersFillUp(r, key, item, others, x);
      assert false;
    }
    PushHolds(r, key, item, others, Entry(x, v), capacity);
  }

  lemma OthersFillUp<T>(r: seq<Entry<T>>, key: string, item: T, others: set<string>, x: string)
    requires Unique(r) && Held(r, key, item, others) && Find(r, key) == 0 && !Has(r, x)
    ensures |r| <= |others + {x}|
  {
    forall i | 1 <= i < |r| ensures r[i].key in others + {x} - {x} { assert r[i].key != x; }
    NewerAreFew(r, 1, others + {x} - {x});
    assert |others + {x}| == |others + {x} - {x}| + 1;
  }

  lemma StepHolds(s: seq<Entry<Item>>, e: Event, key: string, item: Item, others: set<string>,
                  capacity: int, max: int)
    requires Sound(Cache(s, capacity)) && Held(s, key, item, others) && e.key != key && |others + {e.key}| < capacity
    ensures Held(Step(s, e, capacity, max), key, item, others + {e.key})
  {
    hide Put, Unique, FindFrom, LruCache.Remove, NewItem, Expired;
    if IsHit(s, e) {
      PutHolds(s, key, item, others, e.key, s[Find(s, e.key)].value, capacity);
    } else if e.fetched.None? {
      RemoveHolds(s, key, item, others, e.key);
    } else {
      PutHolds(s, key, item, others, e.key, NewItem(e.later, e.fetched.value, max), capacity);
    }
  }

  /** A stored item is the newest. */
  lemma PutIsHeld<T>(s: seq<Entry<T>>, key: string, item: T, capacity: int)
    requires Unique(s) && |s| <= capacity && capacity > 0
    ensures Held(Put(s, key, item, capacity), key, item, {})
  {
    hide FindFrom;
    var r := LruCache.Remove(s, key);
    RemoveKeeps(s, key);
    var all := r + [Entry(key, item)];
    FindInPush(r, Entry(key, item), key);
    if |r| + 1 > capacity {
      FindInCut(all, 0, key);
      assert all[1..] == Cut(all, 0);
    }
  }

  /** The call fetches and stores a token. */
  predicate Stores(events: seq<Event>, j: nat, capacity: int, max: int)
    requires j < |events|
  {
    !HitAt(events, j, capacity, max) && events[j].fetched.Some?
  }

  /** The calls for the key since `j` came in time, and there was room for all others between them. */
  ghost predicate Undisturbed(events: seq<Event>, j: nat, n: nat, capacity: int, max: int)
    requires j < n <= |events| && events[j].fetched.Some?
  {
    var key := events[j].key;
    && (forall i :: j < i < n && events[i].key == key ==>
                      InTime(events[j].later, events[j].fetched.value, max, events[i].now))
    && (forall i :: j < i <= n ==> |OthersSince(events, i, key)| < capacity)
  }

  lemma {:induction false} TokenIsHeld(events: seq<Event>, j: nat, n: nat, capacity: int, max: int)
    requires j < n <= |events| && Stores(events, j, capacity, max) && Undisturbed(events, j, n, capacity, max)
    ensures Held(Run(events, n, capacity, max), events[j].key,
                 NewItem(events[j].later, events[j].fetched.value, max), OthersSince(events, n, events[j].key))
  {
    hide Put, Unique, Held, NewItem, Expired, InTime;
    var key, item := events[j].key, NewItem(events[j].later, events[j].fetched.value, max);
    var s, e := Run(events, n - 1, capacity, max), events[n - 1];
    RunIsSound(events, n - 1, capacity, max);
    assert |OthersSince(events, n, key)| < capacity;
    if n == j + 1 {
      PutIsHeld(s, key, item, capacity);
    } else {
      TokenIsHeld(events, j, n - 1, capacity, max);
      if e.key == key {
        HeldIsHit(s, e, item, OthersSince(events, n - 1, key), events[j], max);
        PutIsHeld(s, key, item, capacity);
      } else {
        StepHolds(s, e, key, item, OthersSince(events, n - 1, key), capacity, max);
      }
    }
  }

  lemma HeldIsHit(s: seq<Entry<Item>>, e: Event, item: Item, others: set<string>, from: Event, max: int)
    requires from.fetched.Some? && item == NewItem(from.later, from.fetched.value, max) && Held(s, e.key, item, others)
    requires InTime(from.later, from.fetched.value, max, e.now)
    ensures IsHit(s, e) && s[Find(s, e.key)].value == item && HitToken(s, e) == from.fetched.value
  {
    hide FindFrom;
    ServedIffInTime(from.later, from.fetched.value, max, e.now);
  }

  /**
   The converse, in every run: a token that was stored is served at every later call in time, as long as
   between two calls for its key there were calls for fewer other keys than the capacity.
   */
  lemma StoredIsServed(events: seq<Event>, j: nat, n: nat, capacity: int, max: int)
    requires j < n < |events| && Stores(events, j, capacity, max) && Undisturbed(events, j, n, capacity, max)
    requires events[n].key == events[j].key
    requires InTime(events[j].later, events[j].fetched.value, max, events[n].now)
    ensures HitAt(events, n, capacity, max)
    ensures HitToken(Run(events, n, capacity, max), events[n]) == events[j].fetched.value
  {
    hide Held, NewItem, Expired, InTime, Run, Undisturbed;
    TokenIsHeld(events, j, n, capacity, max);
    HeldIsHit(Run(events, n, capacity, max), events[n], NewItem(events[j].later, events[j].fetched.value, max),
              OthersSince(events, n, events[j].key), events[j], max);
  }
}
