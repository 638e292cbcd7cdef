/**
 Laws of the expiring cache, stated on the states that `ExpiringCache.Cache` refines: what the clean-up
 drops, and what holds in every run, whatever the clock says.
 */
module ExpiringLaws {
  import opened Prelude
  import opened ExpiringModel

  // ----- what the clean-up drops -----

  /** The clean-up works on stamps in order: it sorts them, or they are. */
  predicate Trusted<T>(s: State<T>) { !s.sorted || InOrder(s.stamps) }

  /** No stamp that has expired by `now` stands behind one that has not. */
  predicate Parted(stamps: seq<Stamp>, now: int) {
    forall i, j :: 0 <= i < j < |stamps| && stamps[j].expiresAt <= now ==> stamps[i].expiresAt <= now
  }

  /** The clean-up finds the expired stamps in front: it sorts them, or they are there. */
  predicate Ready<T>(s: State<T>, now: int) { !s.sorted || Parted(s.stamps, now) }

  /** An order is trusted exactly when it is good for a clean-up at any time. */
  lemma ReadyAlwaysIff<T>(s: State<T>)
    ensures (forall now :: Ready(s, now)) <==> Trusted(s)
  {
    if forall now :: Ready(s, now) {
      forall i, j | 0 <= i < j < |s.stamps| && s.sorted ensures s.stamps[i].expiresAt <= s.stamps[j].expiresAt {
        assert Ready(s, s.stamps[j].expiresAt);
      }
    }
  }

  /** The keys under which some stamp has expired by `now`. */
  function ExpiredKeys(stamps: seq<Stamp>, now: int): set<string> {
    set i | 0 <= i < |stamps| && stamps[i].expiresAt <= now :: stamps[i].key
  }

  lemma {:induction false} BorderIs(stamps: seq<Stamp>, lo: nat, hi: nat, now: int)
    requires Parted(stamps, now) && lo <= hi <= |stamps|
    requires forall i :: 0 <= i < lo ==> stamps[i].expiresAt <= now
    requires forall i :: hi <= i < |stamps| ==> stamps[i].expiresAt > now
    ensures var n := Border(stamps, lo, hi, now);
            forall i :: 0 <= i < |stamps| ==> (i < n <==> stamps[i].expiresAt <= now)
    decreases hi - lo
  {
    if lo == hi {
    } else {
      var mid := (lo + hi) / 2;
      if stamps[mid].expiresAt <= now { BorderIs(stamps, mid + 1, hi, now); } else { BorderIs(stamps, lo, mid, now); }
    }
  }

  lemma ExpiredPermuted(a: seq<Stamp>, b: seq<Stamp>, now: int)
    requires multiset(a) == multiset(b)
    ensures ExpiredKeys(a, now) <= ExpiredKeys(b, now)
  {
    forall i | 0 <= i < |a| && a[i].expiresAt <= now ensures a[i].key in ExpiredKeys(b, now) {
      assert a[i] in multiset(a);
      assert a[i] in b;
    }
  }

  lemma ExpiredAreFirst(all: seq<Stamp>, now: int)
    requires Parted(all, now)
    ensures KeysOf(all[..Border(all, 0, |all|, now)]) == ExpiredKeys(all, now)
  {
    hide Parted, Border;
    BorderIs(all, 0, |all|, now);
    var n := Border(all, 0, |all|, now);
    forall i | 0 <= i < |all| && all[i].expiresAt <= now ensures all[i].key in KeysOf(all[..n]) {
      assert all[..n][i] == all[i];
    }
    forall i | 0 <= i < n ensures all[..n][i].key in ExpiredKeys(all, now) {
      assert all[i].expiresAt <= now;
    }
  }

  /** With the expired stamps in front, exactly the entries go under whose key some stamp has expired. */
  lemma CleanUpDrops<T>(s: State<T>, now: int, t: State<T>)
    requires Ready(s, now) && CleansUp(s, now, t)
    ensures t.entries == s.entries - ExpiredKeys(s.stamps, now)
  {
    hide Border, KeysOf, ExpiredKeys, Forget;
    var all :| Arranged(s.sorted, s.stamps, all) && t == Drop(s, all, Border(all, 0, |all|, now));
    ExpiredAreFirst(all, now);
    ExpiredPermuted(all, s.stamps, now);
    ExpiredPermuted(s.stamps, all, now);
  }

  /** The entries that have not expired. */
  function Unexpired<T>(entries: map<string, Entry<T>>, now: int): map<string, Entry<T>> {
    map k | k in entries && entries[k].expiresAt > now :: entries[k]
  }

  /** The stamps tell of every key whether its entry has expired. */
  predicate Faithful<T>(s: State<T>, now: int) {
    forall k :: k in s.entries ==> (k in ExpiredKeys(s.stamps, now) <==> s.entries[k].expiresAt <= now)
  }

  /** With the expired stamps in front, exactly the expired entries go if and only if the stamps are faithful. */
  lemma CleanUpIsExactIff<T>(s: State<T>, now: int, t: State<T>)
    requires Ready(s, now) && CleansUp(s, now, t)
    ensures t.entries == Unexpired(s.entries, now) <==> Faithful(s, now)
  {
    hide ExpiredKeys, Parted;
    CleanUpDrops(s, now, t);
    if t.entries == Unexpired(s.entries, now) {
      forall k | k in s.entries ensures k in ExpiredKeys(s.stamps, now) <==> s.entries[k].expiresAt <= now {
        assert k in t.entries <==> k in Unexpired(s.entries, now);
      }
    }
  }

  /** The first stamp under `k` to expire does so with the entry. */
  predicate FirstWithEntry<T>(s: State<T>, k: string)
    requires k in s.entries
  {
    && (exists i :: 0 <= i < |s.stamps| && s.stamps[i].key == k && s.stamps[i].expiresAt == s.entries[k].expiresAt)
    && (forall i :: 0 <= i < |s.stamps| && s.stamps[i].key == k ==> s.stamps[i].expiresAt >= s.entries[k].expiresAt)
  }

  /** The stamps are faithful at all times exactly when under every key the first one expires with the entry. */
  lemma FaithfulAlwaysIff<T>(s: State<T>)
    ensures (forall now :: Faithful(s, now)) <==> (forall k :: k in s.entries ==> FirstWithEntry(s, k))
  {
    if forall now :: Faithful(s, now) {
      forall k | k in s.entries ensures FirstWithEntry(s, k) {
        var at := s.entries[k].expiresAt;
        assert Faithful(s, at) && Faithful(s, at - 1);
        assert k in ExpiredKeys(s.stamps, at) && k !in ExpiredKeys(s.stamps, at - 1);
      }
    }
    if forall k :: k in s.entries ==> FirstWithEntry(s, k) {
      forall now ensures Faithful(s, now) {
        forall k | k in s.entries ensures k in ExpiredKeys(s.stamps, now) <==> s.entries[k].expiresAt <= now {
          assert FirstWithEntry(s, k);
        }
      }
    }
  }

  // ----- when the stamps are those of the entries -----

  /** No stamp is left over. */
  predicate Intact<T>(s: State<T>) { forall i :: 0 <= i < |s.stamps| ==> s.stamps[i].live }

  lemma IntactIsFaithful<T>(s: State<T>, now: int)
    requires Sound(s) && Intact(s)
    ensures Faithful(s, now)
  {
    forall k | k in s.entries ensures k in ExpiredKeys(s.stamps, now) <==> s.entries[k].expiresAt <= now {
      assert k in KeysOf(s.stamps);
      var i :| 0 <= i < |s.stamps| && s.stamps[i].key == k;
      forall j | 0 <= j < |s.stamps| && s.stamps[j].key == k ensures s.stamps[j].expiresAt == s.entries[k].expiresAt {
        assert LiveAt(s.entries, s.stamps, j);
      }
    }
  }

  /** An exact clean-up of stamps in any order finds the expired ones in front. */
  lemma ExactIsReady<T>(s: State<T>, now: int, t: State<T>)
    requires Sound(s) && Intact(s) && CleansUp(s, now, t) && t.entries == Unexpired(s.entries, now)
    ensures Ready(s, now)
  {
    hide Border, Forget, KeysOf;
    if s.sorted {
      var n := Border(s.stamps, 0, |s.stamps|, now);
      var first := s.stamps[..n];
      forall i, j | 0 <= i < j < |s.stamps| && s.stamps[j].expiresAt <= now ensures s.stamps[i].expiresAt <= now {
        assert LiveAt(s.entries, s.stamps, i) && LiveAt(s.entries, s.stamps, j);
        assert s.stamps[j].key !in t.entries;
        var m := KeyAmong(first, s.stamps[j].key);
        assert s.stamps[m].live && m == j;
        KeyOf(first, i);
        assert s.stamps[i].key !in t.entries;
      }
    }
  }

  /** With no stamp left over, exactly the expired entries go if and only if the expired stamps are in front. */
  lemma IntactCleanUpIsExactIff<T>(s: State<T>, now: int, t: State<T>)
    requires Sound(s) && Intact(s) && CleansUp(s, now, t)
    ensures t.entries == Unexpired(s.entries, now) <==> Ready(s, now)
  {
    hide Sound, Intact, Ready, Faithful, CleansUp;
    IntactIsFaithful(s, now);
    if Ready(s, now) { CleanUpIsExactIff(s, now, t); }
    if t.entries == Unexpired(s.entries, now) { ExactIsReady(s, now, t); }
  }

  lemma DeletedStamps<T>(s: State<T>, i: nat, at: int, u: State<T>)
    requires Sound(s) && Intact(s) && !s.closed && i < |s.stamps| && Next(s, Delete(s.stamps[i].key), at, u, Done)
    ensures Intact(u) && u.sorted == s.sorted && u.stamps == s.stamps[i := s.stamps[i].(expiresAt := at)]
  {
    hide KeysOf;
    assert LiveAt(s.entries, s.stamps, i);
  }

  lemma PartedIff(stamps: seq<Stamp>, i: nat, moved: seq<Stamp>, now: int)
    requires InOrder(stamps) && i < |stamps| == |moved| && moved == stamps[i := moved[i]] && moved[i].expiresAt <= now
    ensures Parted(moved, now) <==> forall j :: 0 <= j < i ==> stamps[j].expiresAt <= now
  {
    assert forall j :: 0 <= j < |stamps| && j != i ==> moved[j] == stamps[j];
  }

  /**
   A Delete at `at` in a cache in order, and a later clean-up: exactly the expired entries go if and only
   if all entries that were to expire before the deleted one have expired too.
   */
  lemma DeleteThenCleanUpIff<T>(s: State<T>, i: nat, at: int, u: State<T>, now: int, t: State<T>)
    requires Sound(s) && Intact(s) && s.sorted && InOrder(s.stamps) && !s.closed && i < |s.stamps|
    requires Next(s, Delete(s.stamps[i].key), at, u, Done) && at <= now && CleansUp(u, now, t)
    ensures t.entries == Unexpired(u.entries, now) <==>
            forall j :: 0 <= j < i ==> s.stamps[j].expiresAt <= now
  {
    hide Sound, Intact, CleansUp, Next, InOrder, Parted, Unexpired;
    StepSound(s, Delete(s.stamps[i].key), at, u, Done);
    DeletedStamps(s, i, at, u);
    PartedIff(s.stamps, i, u.stamps, now);
    IntactCleanUpIsExactIff(u, now, t);
  }

  /** An overwriting Set and a Clear that clears something. */
  predicate LeavesStamps<T>(s: State<T>, op: Op<T>) {
    !s.closed && ((op.Set? && op.key in s.entries) || (op.Clear? && |s.stamps| > 0))
  }

  lemma DropIntact<T>(s: State<T>, all: seq<Stamp>, n: nat)
    requires LiveStamps(s.entries, all) && (forall i :: 0 <= i < |all| ==> all[i].live) && n <= |all|
    ensures Intact(Drop(s, all, n))
  {
    var keys := KeysOf(all[..n]);
    forall j | n <= j < |all| ensures all[j].key !in keys {
      assert LiveAt(s.entries, all, j);
      assert forall i :: 0 <= i < n ==> all[..n][i] == all[i] && all[i].key != all[j].key;
    }
  }

  lemma ArrangedIntact<T>(s: State<T>, all: seq<Stamp>, n: nat)
    requires Sound(s) && Intact(s) && Arranged(s.sorted, s.stamps, all) && n <= |all|
    ensures Intact(Drop(s, all, n))
  {
    hide LiveStamps, Forget, KeysOf, InOrder;
    ArrangedLive(s.entries, s.stamps, all);
    forall i | 0 <= i < |all| ensures all[i].live {
      assert all[i] in multiset(all);
      assert all[i] in s.stamps;
    }
    DropIntact(s, all, n);
  }

  /** Of all calls exactly those two leave stamps over. */
  lemma IntactKeptIff<T>(s: State<T>, op: Op<T>, now: int, t: State<T>, r: Reply<T>)
    requires Sound(s) && Intact(s) && Next(s, op, now, t, r)
    ensures Intact(t) <==> !LeavesStamps(s, op)
  {
    hide LiveStamps, KeysOf, Arranged, Border, Drop;
    if op.Clear? && LeavesStamps(s, op) {
      NoneLive(s.stamps);
      assert !t.stamps[0].live;
    } else if LeavesStamps(s, op) {
      OverwriteLeaves(s, op.key);
    } else if t != s {
      match op
      case Resize(size) =>
        if |s.stamps| > size {
          var u, n := s.(capacity := size), |s.stamps| - size;
          var all :| Arranged(u.sorted, u.stamps, all) && n <= |all| && t == Drop(u, all, n);
          ResizedIntact(s, size, all, n);
        }
      case CleanUp =>
        var all :| Arranged(s.sorted, s.stamps, all) && t == Drop(s, all, Border(all, 0, |all|, now));
        ArrangedIntact(s, all, Border(all, 0, |all|, now));
      case _ =>
    }
  }

  lemma ResizedIntact<T>(s: State<T>, size: int, all: seq<Stamp>, n: nat)
    requires Sound(s) && Intact(s) && Arranged(s.sorted, s.stamps, all) && n <= |all|
    ensures Intact(Drop(s.(capacity := size), all, n))
  {
    hide Forget;
    ArrangedIntact(s, all, n);
  }

  lemma OverwriteLeaves<T>(s: State<T>, key: string)
    requires Sound(s) && key in s.entries
    ensures exists i :: 0 <= i < |s.stamps| && !Forget(s.stamps, {key})[i].live
  {
    assert key in KeysOf(s.stamps);
    var i :| 0 <= i < |s.stamps| && s.stamps[i].key == key;
    assert !Forget(s.stamps, {key})[i].live;
  }

  /** In a trusted order, an entry that a smaller size costs has a stamp that expires no later than all that stay. */
  lemma ResizeDropsSoonest<T>(s: State<T>, size: int, t: State<T>, k: string)
    requires Trusted(s) && Next(s, Resize(size), 0, t, Done) && k in s.entries && k !in t.entries
    ensures |t.stamps| == size < |s.stamps|
    ensures exists x :: x in s.stamps && x.key == k && forall y :: y in t.stamps ==> x.expiresAt <= y.expiresAt
  {
    var all := ResizedBy(s, size, t);
    hide Next, InOrder, Forget, KeysOf, Trusted;
    var n := |s.stamps| - size;
    var i := KeyAmong(all[..n], k);
    assert all[i] in multiset(all) && all[i] in s.stamps;
    forall y | y in t.stamps ensures all[i].expiresAt <= y.expiresAt { FirstIsSoonest(all, n, KeysOf(all[..n]), i, y); }
  }

  lemma ResizedBy<T>(s: State<T>, size: int, t: State<T>) returns (all: seq<Stamp>)
    requires Trusted(s) && Next(s, Resize(size), 0, t, Done) && t.entries != s.entries
    ensures InOrder(all) && multiset(all) == multiset(s.stamps) && |all| == |s.stamps| > size > 0
    ensures t == Drop(s.(capacity := size), all, |s.stamps| - size)
  {
    hide Drop;
    var u, n := s.(capacity := size), |s.stamps| - size;
    all :| Arranged(u.sorted, u.stamps, all) && n <= |all| && t == Drop(u, all, n);
  }

  lemma KeyAmong(stamps: seq<Stamp>, k: string) returns (i: nat)
    requires k in KeysOf(stamps)
    ensures i < |stamps| && stamps[i].key == k
  {
    i :| 0 <= i < |stamps| && stamps[i].key == k;
  }

  lemma FirstIsSoonest(all: seq<Stamp>, n: nat, keys: set<string>, i: nat, y: Stamp)
    requires InOrder(all) && i < n <= |all| && y in Forget(all[n..], keys)
    ensures all[i].expiresAt <= y.expiresAt
  {
    var j :| 0 <= j < |all| - n && Forget(all[n..], keys)[j] == y;
    assert y.expiresAt == all[n + j].expiresAt;
  }

  /** HasExpired says when Get misses, but for entries that never expire. */
  lemma SaysExpiredIff<T>(s: State<T>, key: string, now: int)
    ensures SaysExpired(s, key, now) <==>
            !(key in s.entries && Served(s.entries[key], now)) || s.entries[key].expiresAt == ZERO_TIME < now
  {
  }

  /** Such an entry is served, and said to have expired. */
  lemma SaysExpiredYetServed<T>(v: T)
    ensures var s := Expire(Store(Init(1), "k", Entry(v, NO_EXPIRATION)), "k", ZERO_TIME);
            SaysExpired(s, "k", 1) && Next(s, Get("k"), 1, s, Hit(v))
  {
  }

  // ----- where the clean-up goes wrong -----

  lemma ExpiredStampTakes<T>(s: State<T>, i: nat, now: int, t: State<T>)
    requires Ready(s, now) && CleansUp(s, now, t) && i < |s.stamps| && s.stamps[i].expiresAt <= now
    ensures s.stamps[i].key !in t.entries
  {
    hide CleansUp, Parted;
    CleanUpDrops(s, now, t);
  }

  /** Set, an expiry in the past, and Set again: the clean-up takes the live entry with the old stamp. */
  lemma OverwrittenIsDropped<T>(v: T, w: T, t: State<T>)
    ensures var s1 := Store(Init(1), "k", Entry(v, 100 + NO_EXPIRATION));
            var s2 := Expire(s1, "k", 50).(sorted := false);
            var s3 := Store(s2, "k", Entry(w, 100 + NO_EXPIRATION));
            && Next(Init(1), Set("k", v), 100, s1, Done) && Next(s1, SetExpiration("k", 50), 0, s2, Done)
            && Next(s2, Set("k", w), 100, s3, Done) && Trusted(s3) && Served(s3.entries["k"], 100)
            && (CleansUp(s3, 100, t) ==> "k" !in t.entries)
  {
    hide CleansUp, KeysOf, Border, Parted;
    var s1 := Store(Init(1), "k", Entry(v, 100 + NO_EXPIRATION));
    var s2 := Expire(s1, "k", 50).(sorted := false);
    var s3 := Store(s2, "k", Entry(w, 100 + NO_EXPIRATION));
    assert s3.stamps == [Stamp("k", 50, false)];
    if CleansUp(s3, 100, t) { ExpiredStampTakes(s3, 0, 100, t); }
  }

  lemma BothTaken<T>(s: State<T>, t: State<T>)
    requires s.sorted && s.stamps == [Stamp("a", 100 + NO_EXPIRATION, true), Stamp("b", 200, true)]
    requires s.entries.Keys == {"a", "b"} && CleansUp(s, 300, t)
    ensures t.entries == map[]
  {
    hide Forget;
    var all := s.stamps;
    assert Border(all, 0, 2, 300) == 2;
    assert all[..2] == all && KeysOf(all) == {"a", "b"} by { KeyOf(all, 0); KeyOf(all, 1); }
  }

  /** Two entries, of which the second is deleted: the order is not trusted, and the clean-up takes both. */
  lemma DeletedTakesOther<T>(v: T, w: T, t: State<T>)
    ensures var s1 := Store(Init(2), "a", Entry(v, 100 + NO_EXPIRATION));
            var s2 := Store(s1, "b", Entry(w, 100 + NO_EXPIRATION));
            var s3 := Expire(s2, "b", 200);
            && Next(Init(2), Set("a", v), 100, s1, Done) && Next(s1, Set("b", w), 100, s2, Done)
            && Next(s2, Delete("b"), 200, s3, Done) && Intact(s3) && Served(s3.entries["a"], 300)
            && (CleansUp(s3, 300, t) ==> t.entries == map[])
  {
    hide CleansUp, KeysOf, Border;
    var s1 := Store(Init(2), "a", Entry(v, 100 + NO_EXPIRATION));
    var s2 := Store(s1, "b", Entry(w, 100 + NO_EXPIRATION));
    assert s1.entries.Keys == {"a"} && |s1.entries.Keys| == 1;
    var s3 := Expire(s2, "b", 200);
    assert s3.stamps == [Stamp("a", 100 + NO_EXPIRATION, true), Stamp("b", 200, true)];
    assert s3.entries.Keys == {"a", "b"};
    if CleansUp(s3, 300, t) { BothTaken(s3, t); }
  }

  lemma DropInOrder(all: seq<Stamp>, n: nat, keys: set<string>)
    requires InOrder(all) && n <= |all|
    ensures InOrder(Forget(all[n..], keys))
  {
  }

  lemma StoreInOrder<T>(s: State<T>, key: string, e: Entry<T>)
    requires InOrder(s.stamps) && forall i :: 0 <= i < |s.stamps| ==> s.stamps[i].expiresAt <= e.expiresAt
    ensures InOrder(Store(s, key, e).stamps)
  {
  }

  lemma DropTrusted<T>(s: State<T>, all: seq<Stamp>, n: nat)
    requires Trusted(s) && Arranged(s.sorted, s.stamps, all) && n <= |all|
    ensures Trusted(Drop(s, all, n))
  {
    hide InOrder, KeysOf;
    DropInOrder(all, n, KeysOf(all[..n]));
  }

  /** The order stays trusted through a Set no stamp expires after, and through all calls but Delete. */
  lemma TrustedKept<T>(s: State<T>, op: Op<T>, now: int, t: State<T>, r: Reply<T>)
    requires Trusted(s) && Next(s, op, now, t, r) && !op.Delete?
    requires op.Set? ==> forall i :: 0 <= i < |s.stamps| ==> s.stamps[i].expiresAt <= now + NO_EXPIRATION
    ensures Trusted(t)
  {
    hide KeysOf, InOrder, Border, Restamp, Drop, Arranged;
    if t != s {
      match op
      case Set(key, value) => if s.sorted { StoreInOrder(s, key, Entry(value, now + NO_EXPIRATION)); }
      case Resize(size) =>
        if |s.stamps| > size {
          var u, n := s.(capacity := size), |s.stamps| - size;
          var all :| Arranged(u.sorted, u.stamps, all) && n <= |all| && t == Drop(u, all, n);
          DropTrusted(u, all, n);
        }
      case CleanUp =>
        var all :| Arranged(s.sorted, s.stamps, all) && t == Drop(s, all, Border(all, 0, |all|, now));
        DropTrusted(s, all, Border(all, 0, |all|, now));
      case Clear => DropInOrderAll(s.stamps);
      case _ =>
    }
  }

  lemma DropInOrderAll(stamps: seq<Stamp>)
    ensures InOrder(stamps) ==> InOrder(Forget(stamps, KeysOf(stamps)))
  {
    assert stamps[0..] == stamps;
  }

  // ----- runs -----

  /** One call: what is asked, when, and what is answered. */
  datatype Call<T> = Call(op: Op<T>, now: int, reply: Reply<T>)

  /** A run: from an empty cache, every call does what the cache does. */
  ghost predicate Run<T>(calls: seq<Call<T>>, states: seq<State<T>>) {
    && |states| == |calls| + 1
    && states[0] == Init(states[0].capacity)
    && forall i :: 0 <= i < |calls| ==> IsStep(states[i], calls[i], states[i + 1])
  }

  ghost predicate IsStep<T>(s: State<T>, c: Call<T>, t: State<T>) { Next(s, c.op, c.now, t, c.reply) }

  /** What the first `n` calls last said about `key`, since the last clearing; nothing else is looked at. */
  function Latest<T>(calls: seq<Call<T>>, n: nat, key: string): Option<Entry<T>>
    requires n <= |calls|
  {
    if n == 0 then None else LatestAfter(Latest(calls, n - 1, key), calls[n - 1], key)
  }

  function LatestAfter<T>(before: Option<Entry<T>>, c: Call<T>, key: string): Option<Entry<T>> {
    match c.op
    case Set(k, v) => if k == key then Some(Entry(v, c.now + NO_EXPIRATION)) else before
    case Delete(k) => if k == key && before.Some? then Some(before.value.(expiresAt := c.now)) else before
    case SetExpiration(k, at) => if k == key && before.Some? then Some(before.value.(expiresAt := at)) else before
    case Clear => None
    case _ => before
  }

  ghost predicate UpToDate<T>(calls: seq<Call<T>>, n: nat, s: State<T>)
    requires n <= |calls|
  {
    !s.closed ==> forall k :: k in s.entries ==> Latest(calls, n, k) == Some(s.entries[k])
  }

  /** Dropping changes no entry that it leaves. */
  lemma StepLeaves<T>(s: State<T>, op: Op<T>, now: int, t: State<T>, r: Reply<T>)
    requires Next(s, op, now, t, r) && (op.CleanUp? || op.Resize?)
    ensures forall k :: k in t.entries ==> k in s.entries && t.entries[k] == s.entries[k]
    ensures t.closed == s.closed
  {
    hide KeysOf, InOrder, Border;
  }

  lemma StepUpToDate<T>(calls: seq<Call<T>>, n: nat, s: State<T>, t: State<T>)
    requires 0 < n <= |calls| && UpToDate(calls, n - 1, s) && IsStep(s, calls[n - 1], t)
    ensures UpToDate(calls, n, t)
  {
    hide KeysOf, InOrder, Border, Forget, Restamp;
    var c := calls[n - 1];
    if c.op.CleanUp? || c.op.Resize? {
      StepLeaves(s, c.op, c.now, t, c.reply);
    }
  }

  /** Every entry is stamped, there are no more than the capacity, and each is the latest word on its key. */
  lemma {:induction false} RunIsSound<T>(calls: seq<Call<T>>, states: seq<State<T>>, n: nat)
    requires Run(calls, states) && n <= |calls|
    ensures Sound(states[n]) && UpToDate(calls, n, states[n])
  {
    hide Sound, UpToDate;
    if n == 0 {
      InitIsSound(calls, states[0]);
    } else {
      RunIsSound(calls, states, n - 1);
      assert IsStep(states[n - 1], calls[n - 1], states[n - 1 + 1]);
      StepSound(states[n - 1], calls[n - 1].op, calls[n - 1].now, states[n], calls[n - 1].reply);
      StepUpToDate(calls, n, states[n - 1], states[n]);
    }
  }

  lemma InitIsSound<T>(calls: seq<Call<T>>, s: State<T>)
    requires s == Init(s.capacity)
    ensures Sound(s) && UpToDate(calls, 0, s)
  {
  }

  /** A hit answers with the value set last since the last clearing, and that has not expired. */
  lemma HitIsLatest<T>(calls: seq<Call<T>>, states: seq<State<T>>, n: nat)
    requires Run(calls, states) && n < |calls| && calls[n].op.Get? && calls[n].reply.Hit?
    ensures var e := Latest(calls, n, calls[n].op.key);
            e.Some? && e.value.value == calls[n].reply.value && Served(e.value, calls[n].now)
  {
    hide Sound;
    RunIsSound(calls, states, n);
    assert IsStep(states[n], calls[n], states[n + 1]);
  }

  predicate Deletes<T>(c: Call<T>, key: string) { c.op.Delete? && c.op.key == key }

  /** The call may bring `key` back. */
  predicate Revives<T>(c: Call<T>, key: string) { (c.op.Set? || c.op.SetExpiration?) && c.op.key == key }

  lemma {:induction false} DeletedExpires<T>(calls: seq<Call<T>>, d: nat, n: nat, key: string)
    requires d < n <= |calls| && Deletes(calls[d], key)
    requires forall i :: d < i < n ==> !Revives(calls[i], key)
    ensures var e := Latest(calls, n, key);
            e.Some? ==> exists i :: d <= i < n && Deletes(calls[i], key) && e.value.expiresAt == calls[i].now
  {
    if d < n - 1 {
      DeletedExpires(calls, d, n - 1, key);
      assert !Revives(calls[n - 1], key);
    }
    assert Deletes(calls[n - 1], key) || d < n - 1;
  }

  /** After a deletion nothing is served under the key, until it is set again or given another expiry. */
  lemma DeletedIsMissed<T>(calls: seq<Call<T>>, states: seq<State<T>>, d: nat, n: nat, key: string)
    requires Run(calls, states) && d < n < |calls| && Deletes(calls[d], key) && calls[n].op == Get(key)
    requires forall i :: d < i < n ==> !Revives(calls[i], key)
    requires forall i :: d <= i < n && Deletes(calls[i], key) ==> ZERO_TIME < calls[i].now < calls[n].now
    ensures !calls[n].reply.Hit?
  {
    hide Run;
    DeletedExpires(calls, d, n, key);
    if calls[n].reply.Hit? {
      HitIsLatest(calls, states, n);
      assert false;
    }
  }

  // ----- runs in which nothing is lost -----

  /** What the first `n` calls last said about `key` and no clean-up has found expired; failed calls say nothing. */
  function Word<T>(calls: seq<Call<T>>, n: nat, key: string): Option<Entry<T>>
    requires n <= |calls|
  {
    if n == 0 then None else WordAfter(Word(calls, n - 1, key), calls[n - 1], key)
  }

  function WordAfter<T>(before: Option<Entry<T>>, c: Call<T>, key: string): Option<Entry<T>> {
    if c.reply.Failed? then before
    else if c.op.CleanUp? && before.Some? && before.value.expiresAt <= c.now then None
    else LatestAfter(before, c, key)
  }

  function EntryOf<T>(s: State<T>, key: string): Option<Entry<T>> {
    if key in s.entries then Some(s.entries[key]) else None
  }

  /** Nothing is lost: the cache holds the word on every key. */
  ghost predicate Tracks<T>(calls: seq<Call<T>>, n: nat, s: State<T>)
    requires n <= |calls|
  {
    forall k :: EntryOf(s, k) == Word(calls, n, k)
  }

  /** A clean-up takes exactly what has expired, and a resizing takes no entry. */
  ghost predicate Exact<T>(s: State<T>, c: Call<T>, t: State<T>) {
    match c.op
    case CleanUp => s.closed || t.entries == Unexpired(s.entries, c.now)
    case Resize(_) => t.entries == s.entries
    case _ => true
  }

  /** Before the call: the stamps serve a clean-up, and a smaller size costs none but stamps left over. */
  predicate Gentle<T>(s: State<T>, c: Call<T>) {
    s.closed ||
    match c.op
    case CleanUp => Ready(s, c.now) && Faithful(s, c.now)
    case Resize(size) => size <= 0 || Spares(s, |s.stamps| - size)
    case _ => true
  }

  /** There is no entry under the keys of the first `n` stamps, which are those to go. */
  predicate Spares<T>(s: State<T>, n: int) {
    n <= 0 || (s.sorted && n <= |s.stamps| && forall i :: 0 <= i < n ==> s.stamps[i].key !in s.entries)
  }

  lemma SameWord<T>(s: State<T>, c: Call<T>, t: State<T>, k: string)
    requires IsStep(s, c, t) && !c.op.CleanUp? && !c.op.Resize?
    ensures EntryOf(t, k) == WordAfter(EntryOf(s, k), c, k)
  {
    hide Forget, Restamp, KeysOf;
  }

  lemma SameEntries<T>(s: State<T>, t: State<T>)
    requires forall k :: EntryOf(s, k) == EntryOf(t, k)
    ensures s.entries == t.entries
  {
    forall k ensures k in s.entries <==> k in t.entries { assert EntryOf(s, k) == EntryOf(t, k); }
    forall k | k in s.entries ensures s.entries[k] == t.entries[k] { assert EntryOf(s, k) == EntryOf(t, k); }
  }

  /** The entries as a clean-up should leave them. */
  function Swept<T>(s: State<T>, c: Call<T>): State<T> {
    if c.op.CleanUp? && !s.closed then s.(entries := Unexpired(s.entries, c.now)) else s
  }

  lemma SweptWord<T>(s: State<T>, c: Call<T>, t: State<T>, k: string)
    requires IsStep(s, c, t) && (c.op.CleanUp? || c.op.Resize?)
    ensures EntryOf(Swept(s, c), k) == WordAfter(EntryOf(s, k), c, k)
    ensures Exact(s, c, t) <==> t.entries == Swept(s, c).entries
  {
    hide Drops, CleansUp;
  }

  /** One call: nothing gets lost exactly when it is exact. */
  lemma StepTracks<T>(calls: seq<Call<T>>, n: nat, s: State<T>, t: State<T>)
    requires 0 < n <= |calls| && IsStep(s, calls[n - 1], t) && Tracks(calls, n - 1, s)
    ensures Tracks(calls, n, t) <==> Exact(s, calls[n - 1], t)
  {
    var c := calls[n - 1];
    hide IsStep, WordAfter, EntryOf, Exact, Swept;
    if c.op.CleanUp? || c.op.Resize? {
      var u := Swept(s, c);
      SweptWord(s, c, t, "");
      forall k ensures EntryOf(u, k) == Word(calls, n, k) { SweptWord(s, c, t, k); }
      if Tracks(calls, n, t) { SameEntries(u, t); }
      if t.entries == u.entries { SameOf(u, t); }
    } else {
      NoDrop(s, c, t);
      forall k ensures EntryOf(t, k) == Word(calls, n, k) { SameWord(s, c, t, k); }
    }
  }

  lemma NoDrop<T>(s: State<T>, c: Call<T>, t: State<T>)
    requires !c.op.CleanUp? && !c.op.Resize?
    ensures Exact(s, c, t)
  {
  }

  lemma SameOf<T>(s: State<T>, t: State<T>)
    requires s.entries == t.entries
    ensures forall k :: EntryOf(s, k) == EntryOf(t, k)
  {
  }

  lemma SparedDrop<T>(s: State<T>, u: State<T>, n: nat)
    requires 0 < n && Spares(s, n) && u.entries == s.entries && u.stamps == s.stamps
    ensures s.sorted && n <= |s.stamps| && Drop(u, s.stamps, n).entries == s.entries
  {
    hide Forget, KeysOf;
    forall k | k in KeysOf(s.stamps[..n]) ensures k !in s.entries { var i := KeyAmong(s.stamps[..n], k); }
  }

  lemma SparedIsExact<T>(s: State<T>, c: Call<T>, t: State<T>)
    requires IsStep(s, c, t) && c.op.Resize? && Gentle(s, c)
    ensures Exact(s, c, t)
  {
    hide Drop, Spares, KeysOf, InOrder;
    if !s.closed && 0 < c.op.size < |s.stamps| {
      SparedDrop(s, s.(capacity := c.op.size), |s.stamps| - c.op.size);
    }
  }

  /** A gentle call is exact. */
  lemma GentleIsExact<T>(s: State<T>, c: Call<T>, t: State<T>)
    requires IsStep(s, c, t) && Gentle(s, c)
    ensures Exact(s, c, t)
  {
    hide Faithful, Ready, Spares, Unexpired;
    if c.op.Resize? {
      SparedIsExact(s, c, t);
    } else if c.op.CleanUp? && !s.closed {
      CleanUpIsExactIff(s, c.now, t);
    }
  }

  /** Where it can be seen: no stamp is left over, or the stamps to go are known before the call. */
  predicate Plain<T>(s: State<T>, c: Call<T>) {
    Intact(s) || ((c.op.CleanUp? ==> Ready(s, c.now)) && (c.op.Resize? ==> s.sorted))
  }

  lemma DropsNone<T>(s: State<T>, all: seq<Stamp>, n: nat)
    requires n <= |all| && Drop(s, all, n).entries == s.entries
    ensures forall i :: 0 <= i < n ==> all[i].key !in s.entries
  {
    hide Forget, KeysOf;
    forall i | 0 <= i < n ensures all[i].key !in s.entries { KeyOf(all[..n], i); }
  }

  lemma ExactSpares<T>(s: State<T>, c: Call<T>, t: State<T>)
    requires Sound(s) && IsStep(s, c, t) && c.op.Resize? && (Intact(s) || s.sorted) && Exact(s, c, t)
    ensures Gentle(s, c)
  {
    hide Drop, InOrder, LiveStamps, Stamped, Intact;
    if !s.closed && 0 < c.op.size < |s.stamps| {
      var u, n := s.(capacity := c.op.size), |s.stamps| - c.op.size;
      var all: seq<Stamp> :| Arranged(u.sorted, u.stamps, all) && n <= |all| && t == Drop(u, all, n);
      DropsNone(u, all, n);
      if !s.sorted {
        LiveAmong(s, all);
        assert false;
      }
    }
  }

  lemma LiveAmong<T>(s: State<T>, all: seq<Stamp>)
    requires LiveStamps(s.entries, s.stamps) && Intact(s) && multiset(all) == multiset(s.stamps) && |all| > 0
    ensures all[0].key in s.entries
  {
    assert all[0] in multiset(all);
    var i :| 0 <= i < |s.stamps| && s.stamps[i] == all[0];
    assert LiveAt(s.entries, s.stamps, i);
  }

  /** And there an exact call is gentle. */
  lemma ExactIsGentle<T>(s: State<T>, c: Call<T>, t: State<T>)
    requires Sound(s) && IsStep(s, c, t) && Plain(s, c) && Exact(s, c, t)
    ensures Gentle(s, c)
  {
    hide Sound, Faithful, Ready, Intact, Spares, Unexpired;
    if c.op.Resize? {
      ExactSpares(s, c, t);
    } else if c.op.CleanUp? && !s.closed {
      if Intact(s) {
        IntactIsFaithful(s, c.now);
        IntactCleanUpIsExactIff(s, c.now, t);
      } else {
        CleanUpIsExactIff(s, c.now, t);
      }
    }
  }

  /** A run in which each of the first `n` calls is gentle. */
  ghost predicate GentleRun<T>(calls: seq<Call<T>>, states: seq<State<T>>, n: nat) {
    Run(calls, states) && n <= |calls| && forall i :: 0 <= i < n ==> Gentle(states[i], calls[i])
  }

  /** In a gentle run nothing is lost: the cache holds the word on every key. */
  lemma {:induction false} GentleRunTracks<T>(calls: seq<Call<T>>, states: seq<State<T>>, n: nat)
    requires GentleRun(calls, states, n)
    ensures Tracks(calls, n, states[n])
  {
    hide Tracks, Gentle, Exact;
    if n == 0 {
      InitTracks(calls, states[0]);
    } else {
      GentleRunTracks(calls, states, n - 1);
      assert IsStep(states[n - 1], calls[n - 1], states[n - 1 + 1]);
      GentleIsExact(states[n - 1], calls[n - 1], states[n]);
      StepTracks(calls, n, states[n - 1], states[n]);
    }
  }

  lemma InitTracks<T>(calls: seq<Call<T>>, s: State<T>)
    requires s == Init(s.capacity)
    ensures Tracks(calls, 0, s)
  {
  }

  /** Nothing is lost up to call `n`. */
  ghost predicate LosesNothing<T>(calls: seq<Call<T>>, states: seq<State<T>>, n: nat)
    requires n <= |calls| && |states| == |calls| + 1
  {
    forall i :: 0 <= i <= n ==> Tracks(calls, i, states[i])
  }

  /** In a run of plain calls, nothing is lost at any time if and only if every call is gentle. */
  lemma LosesNothingIff<T>(calls: seq<Call<T>>, states: seq<State<T>>, n: nat)
    requires Run(calls, states) && n <= |calls|
    requires forall i :: 0 <= i < n ==> Plain(states[i], calls[i])
    ensures LosesNothing(calls, states, n) <==> GentleRun(calls, states, n)
  {
    hide Tracks, Gentle, Exact, Plain, Sound, UpToDate;
    if LosesNothing(calls, states, n) {
      forall i | 0 <= i < n ensures Gentle(states[i], calls[i]) {
        assert Tracks(calls, i, states[i]) && Tracks(calls, i + 1, states[i + 1]);
        assert IsStep(states[i], calls[i], states[i + 1]);
        RunIsSound(calls, states, i);
        StepTracks(calls, i + 1, states[i], states[i + 1]);
        ExactIsGentle(states[i], calls[i], states[i + 1]);
      }
    }
    if GentleRun(calls, states, n) {
      forall i | 0 <= i <= n ensures Tracks(calls, i, states[i]) { GentleRunTracks(calls, states, i); }
    }
  }

  /** In a gentle run, Get hits exactly when there is a word on the key that is still served, and answers with it. */
  lemma HitIff<T>(calls: seq<Call<T>>, states: seq<State<T>>, n: nat)
    requires GentleRun(calls, states, n) && n < |calls| && calls[n].op.Get?
    ensures var e := Word(calls, n, calls[n].op.key);
            calls[n].reply == if && e.Some? && !states[n].closed
                                 && (e.value.expiresAt == ZERO_TIME || calls[n].now <= e.value.expiresAt)
                              then Hit(e.value.value) else Failed
  {
    hide Gentle, Word;
    GentleRunTracks(calls, states, n);
    assert IsStep(states[n], calls[n], states[n + 1]);
    assert EntryOf(states[n], calls[n].op.key) == Word(calls, n, calls[n].op.key);
  }

  // ----- when a Set succeeds -----

  /** In every run a Set succeeds exactly when the cache is open and its key has an entry or there is one to spare. */
  lemma SetSucceedsIff<T>(calls: seq<Call<T>>, states: seq<State<T>>, n: nat)
    requires Run(calls, states) && n < |calls| && calls[n].op.Set?
    ensures var s := states[n];
            calls[n].reply == if !s.closed && (calls[n].op.key in s.entries || |s.entries| < s.capacity)
                              then Done else Failed
  {
    hide Store;
    assert IsStep(states[n], calls[n], states[n + 1]);
  }

  /** The keys on which there is a word. */
  function Worded<T>(calls: seq<Call<T>>, n: nat): set<string>
    requires n <= |calls|
  {
    set i | 0 <= i < n && calls[i].op.Set? && Word(calls, n, calls[i].op.key).Some? :: calls[i].op.key
  }

  /** Closing works once, and nothing works after it. */
  predicate ClosedBy<T>(calls: seq<Call<T>>, n: nat)
    requires n <= |calls|
  {
    exists i :: 0 <= i < n && calls[i].op.Close? && calls[i].reply.Done?
  }

  /** The size that was asked for last. */
  function CapacityOf<T>(calls: seq<Call<T>>, n: nat, first: int): int
    requires n <= |calls|
  {
    if n == 0 then first
    else if calls[n - 1].op.Resize? && calls[n - 1].reply.Done? then calls[n - 1].op.size
    else CapacityOf(calls, n - 1, first)
  }

  lemma {:induction false} WordWasSet<T>(calls: seq<Call<T>>, n: nat, key: string)
    requires n <= |calls| && Word(calls, n, key).Some?
    ensures key in Worded(calls, n)
  {
    var i := WordSetAt(calls, n, key);
  }

  lemma {:induction false} WordSetAt<T>(calls: seq<Call<T>>, n: nat, key: string) returns (i: nat)
    requires n <= |calls| && Word(calls, n, key).Some?
    ensures i < n && calls[i].op.Set? && calls[i].op.key == key
  {
    if n == 0 {
    } else if calls[n - 1].op.Set? && calls[n - 1].op.key == key {
      i := n - 1;
    } else {
      i := WordSetAt(calls, n - 1, key);
    }
  }

  lemma StepSettings<T>(s: State<T>, c: Call<T>, t: State<T>)
    requires IsStep(s, c, t)
    ensures t.closed <==> s.closed || (c.op.Close? && c.reply.Done?)
    ensures t.capacity == if c.op.Resize? && c.reply.Done? then c.op.size else s.capacity
  {
    hide KeysOf, Forget, Restamp, Arranged, Border;
  }

  lemma {:induction false} SettingsAre<T>(calls: seq<Call<T>>, states: seq<State<T>>, n: nat)
    requires Run(calls, states) && n <= |calls|
    ensures states[n].closed <==> ClosedBy(calls, n)
    ensures states[n].capacity == CapacityOf(calls, n, states[0].capacity)
  {
    hide IsStep;
    if n == 0 {
    } else {
      SettingsAre(calls, states, n - 1);
      assert IsStep(states[n - 1], calls[n - 1], states[n - 1 + 1]);
      StepSettings(states[n - 1], calls[n - 1], states[n]);
    }
  }

  lemma WordedAreKeys<T>(calls: seq<Call<T>>, n: nat, s: State<T>)
    requires n <= |calls| && Tracks(calls, n, s)
    ensures s.entries.Keys == Worded(calls, n) && |s.entries| == |Worded(calls, n)|
  {
    forall k | k in s.entries ensures k in Worded(calls, n) {
      assert EntryOf(s, k) == Word(calls, n, k);
      WordWasSet(calls, n, k);
    }
    forall k | k in Worded(calls, n) ensures k in s.entries {
      assert EntryOf(s, k) == Word(calls, n, k);
    }
  }

  /** In a gentle run that can be told from the calls alone. */
  lemma SetSucceedsByWords<T>(calls: seq<Call<T>>, states: seq<State<T>>, n: nat)
    requires GentleRun(calls, states, n) && n < |calls| && calls[n].op.Set?
    ensures var room := |Worded(calls, n)| < CapacityOf(calls, n, states[0].capacity);
            calls[n].reply == if !ClosedBy(calls, n) && (Word(calls, n, calls[n].op.key).Some? || room)
                              then Done else Failed
  {
    hide Gentle, Tracks, Worded, ClosedBy, CapacityOf, Word;
    GentleRunTracks(calls, states, n);
    WordedAreKeys(calls, n, states[n]);
    SettingsAre(calls, states, n);
    SetSucceedsIff(calls, states, n);
    EntryIsWord(calls, n, states[n], calls[n].op.key);
  }

  lemma EntryIsWord<T>(calls: seq<Call<T>>, n: nat, s: State<T>, key: string)
    requires n <= |calls| && Tracks(calls, n, s)
    ensures key in s.entries <==> Word(calls, n, key).Some?
  {
    assert EntryOf(s, key) == Word(calls, n, key);
  }
}
