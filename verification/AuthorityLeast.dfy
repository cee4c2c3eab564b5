/** What satisfaction of an authority means without counting levels: the permissions that
  * count are the least set that the grants and the weighted entries force. */
module AuthorityLeast {
  import opened AuthorityChecker
  import opened AuthorityExact
  import opened AuthorityResults

  /** Weight of the entries whose key or permission is in the set. */
  ghost function WeightIn<T>(entries: seq<(T, Weight)>, s: iset<T>): nat {
    if entries == [] then 0 else (if entries[0].0 in s then entries[0].1 else 0) + WeightIn(entries[1..], s)
  }

  /** Keys and permissions together reach the threshold of an authority that has entries. */
  ghost predicate Reaches(a: Authority, keys: set<Key>, s: iset<Permission>) {
    && |a.accounts| + |a.keys| + |a.waits| > 0
    && WeightIn(a.keys, iset k | k in keys) + WeightIn(a.accounts, s) >= a.threshold
  }

  /** Holds every granted permission, every permission of an actor granted as a whole, and
    * every permission on chain whose authority the keys and the set's own members reach. */
  ghost predicate Closed(env: Env, keys: set<Key>, s: iset<Permission>) {
    && (forall p :: p in env.granted || Permission(p.actor, 0) in env.granted ==> p in s)
    && (forall p :: p in env.authorities && Reaches(env.authorities[p], keys, s) ==> p in s)
  }

  /** Reached whichever closed set is taken, and so by the least one. */
  ghost predicate Forced(env: Env, keys: set<Key>, a: Authority) {
    forall s: iset<Permission> :: Closed(env, keys, s) ==> Reaches(a, keys, s)
  }

  // ------------------------------------------------------- the sum by kinds of entry

  /** The permissions that count with n levels left. */
  ghost function At(env: Env, keys: set<Key>, n: nat): iset<Permission> {
    iset p | Holds(env, keys, AccountFactor(p, 0), n)
  }

  lemma {:induction false} HeldAppend(env: Env, keys: set<Key>, fs: seq<Factor>, gs: seq<Factor>, n: nat)
    ensures Held(env, keys, fs + gs, n) == Held(env, keys, fs, n) + Held(env, keys, gs, n)
    decreases |fs|
  {
    if fs == [] {
      assert fs + gs == gs;
    } else {
      assert (fs + gs)[1..] == fs[1..] + gs;
      HeldAppend(env, keys, fs[1..], gs, n);
    }
  }

  lemma {:induction false} HeldAccounts(env: Env, keys: set<Key>, entries: seq<(Permission, Weight)>, fs: seq<Factor>, n: nat)
    requires |fs| == |entries| && forall i :: 0 <= i < |fs| ==> fs[i] == AccountFactor(entries[i].0, entries[i].1)
    ensures Held(env, keys, fs, n) == WeightIn(entries, At(env, keys, n))
    decreases |fs|
  {
    if fs != [] {
      HeldAccounts(env, keys, entries[1..], fs[1..], n);
    }
  }

  lemma {:induction false} HeldKeys(env: Env, keys: set<Key>, entries: seq<(Key, Weight)>, fs: seq<Factor>, n: nat)
    requires |fs| == |entries| && forall i :: 0 <= i < |fs| ==> fs[i] == KeyFactor(entries[i].0, entries[i].1)
    ensures Held(env, keys, fs, n) == WeightIn(entries, iset k | k in keys)
    decreases |fs|
  {
    if fs != [] {
      HeldKeys(env, keys, entries[1..], fs[1..], n);
    }
  }

  lemma {:induction false} HeldWaits(env: Env, keys: set<Key>, fs: seq<Factor>, n: nat)
    requires forall i :: 0 <= i < |fs| ==> fs[i].WaitFactor?
    ensures Held(env, keys, fs, n) == 0
    decreases |fs|
  {
    if fs != [] {
      HeldWaits(env, keys, fs[1..], n);
    }
  }

  lemma SatByKinds(env: Env, keys: set<Key>, a: Authority, n: nat)
    ensures Sat(env, keys, a, n) <==> Reaches(a, keys, At(env, keys, n))
  {
    var fs := seq(|a.accounts|, i requires 0 <= i < |a.accounts| => AccountFactor(a.accounts[i].0, a.accounts[i].1));
    var gs := seq(|a.keys|, i requires 0 <= i < |a.keys| => KeyFactor(a.keys[i].0, a.keys[i].1));
    var hs := seq(|a.waits|, i requires 0 <= i < |a.waits| => WaitFactor(a.waits[i].0, a.waits[i].1));
    assert Factors(a) == fs + gs + hs;
    HeldAppend(env, keys, fs + gs, hs, n);
    HeldAppend(env, keys, fs, gs, n);
    HeldAccounts(env, keys, a.accounts, fs, n);
    HeldKeys(env, keys, a.keys, gs, n);
    HeldWaits(env, keys, hs, n);
  }

  // ------------------------------------------------------------ below every closed set

  lemma {:induction false} WeightMonotone<T>(entries: seq<(T, Weight)>, s: iset<T>, t: iset<T>)
    requires s <= t
    ensures WeightIn(entries, s) <= WeightIn(entries, t)
  {
    if entries != [] {
      WeightMonotone(entries[1..], s, t);
    }
  }

  lemma {:induction false} BelowClosed(env: Env, keys: set<Key>, s: iset<Permission>, n: nat)
    requires Closed(env, keys, s)
    ensures At(env, keys, n) <= s
  {
    forall p | p in At(env, keys, n) ensures p in s {
      if !Granted(env, p) {
        BelowClosed(env, keys, s, n - 1);
        SatByKinds(env, keys, env.authorities[p], n - 1);
        WeightMonotone(env.authorities[p].accounts, At(env, keys, n - 1), s);
      }
    }
  }

  // ----------------------------------------------------------------- the least closed set

  ghost predicate Counts(env: Env, keys: set<Key>, p: Permission) {
    exists n: nat :: p in At(env, keys, n)
  }

  /** The permissions that count at some depth. */
  ghost function Least(env: Env, keys: set<Key>): iset<Permission> {
    iset p | Counts(env, keys, p)
  }

  lemma Deeper(env: Env, keys: set<Key>, n: nat, m: nat)
    requires n <= m
    ensures At(env, keys, n) <= At(env, keys, m)
  {
    forall p | p in At(env, keys, n) ensures p in At(env, keys, m) {
      HoldsMonotone(env, keys, keys, AccountFactor(p, 0), n, m);
    }
  }

  /** Finitely many entries are all decided at one depth. */
  lemma {:induction false} OneDepth(env: Env, keys: set<Key>, entries: seq<(Permission, Weight)>) returns (n: nat)
    ensures WeightIn(entries, At(env, keys, n)) >= WeightIn(entries, Least(env, keys))
  {
    n := 0;
    if entries != [] {
      n := OneDepth(env, keys, entries[1..]);
      if entries[0].0 in Least(env, keys) {
        var m: nat :| entries[0].0 in At(env, keys, m);
        var k := if m < n then n else m;
        Deeper(env, keys, m, k);
        Deeper(env, keys, n, k);
        WeightMonotone(entries[1..], At(env, keys, n), At(env, keys, k));
        n := k;
      }
    }
  }

  lemma ReachesAtDepth(env: Env, keys: set<Key>, a: Authority) returns (n: nat)
    requires Reaches(a, keys, Least(env, keys))
    ensures Sat(env, keys, a, n)
  {
    n := OneDepth(env, keys, a.accounts);
    SatByKinds(env, keys, a, n);
  }

  lemma LeastIsClosed(env: Env, keys: set<Key>)
    ensures Closed(env, keys, Least(env, keys))
  {
    var s := Least(env, keys);
    forall p | p in env.granted || Permission(p.actor, 0) in env.granted ensures p in s {
      assert p in At(env, keys, 0);
    }
    forall p | p in env.authorities && Reaches(env.authorities[p], keys, s) ensures p in s {
      var n := ReachesAtDepth(env, keys, env.authorities[p]);
      assert p in At(env, keys, n + 1);
    }
  }

  /** An authority is satisfied at some depth if and only if every closed set reaches it. */
  lemma SatisfiedIffForced(env: Env, keys: set<Key>, a: Authority)
    ensures SatAtAnyDepth(env, keys, a) <==> Forced(env, keys, a)
  {
    if SatAtAnyDepth(env, keys, a) {
      var n :| Sat(env, keys, a, n);
      SatByKinds(env, keys, a, n);
      forall s: iset<Permission> | Closed(env, keys, s) ensures Reaches(a, keys, s) {
        BelowClosed(env, keys, s, n);
        WeightMonotone(a.accounts, At(env, keys, n), s);
      }
    }
    if Forced(env, keys, a) {
      LeastIsClosed(env, keys);
      var n := ReachesAtDepth(env, keys, a);
    }
  }

  /** The checker's verdict in these terms, whatever keys earlier calls marked: never
    * accepted without being forced, and accepted exactly when forced if nesting ends within
    * the limit. */
  lemma CheckForced(env: Env, provided: set<Key>, limit: nat, a: Authority, used: set<Key>)
    requires WellFormed(env)
    ensures var ok := Check(env, provided, a, limit, State(used, Fresh(env).cache)).ok;
            && (ok ==> Forced(env, provided, a))
            && (Small(a) && Bounded(env, a, limit) ==> (ok <==> Forced(env, provided, a)))
  {
    var s := State(used, Fresh(env).cache);
    FreshCache(env, provided, limit);
    var m := CheckSound(env, provided, a, limit, s);
    SatisfiedIffForced(env, provided, a);
    if Small(a) && Bounded(env, a, limit) {
      CheckExact(env, provided, a, limit, limit, s);
      SettledDepth(env, provided, a, limit);
    }
  }

  // ------------------------------------------------------------------ the visiting order

  /** The factors of one weight and kind, in order. */
  function Only(fs: seq<Factor>, like: Factor): seq<Factor> {
    if fs == [] then [] else (if Alike(fs[0], like) then [fs[0]] else []) + Only(fs[1..], like)
  }

  predicate Alike(f: Factor, g: Factor) {
    f.weight == g.weight && (f.AccountFactor? <==> g.AccountFactor?) && (f.KeyFactor? <==> g.KeyFactor?)
  }

  lemma {:induction false} OnlyNone(fs: seq<Factor>, like: Factor)
    requires forall i :: 0 <= i < |fs| ==> !Alike(fs[i], like)
    ensures Only(fs, like) == []
  {
    if fs != [] {
      OnlyNone(fs[1..], like);
    }
  }

  function Own(f: Factor, like: Factor): seq<Factor> {
    if Alike(f, like) then [f] else []
  }

  lemma OnlyBehind(f: Factor, fs: seq<Factor>, like: Factor)
    ensures Only([f] + fs, like) == Own(f, like) + Only(fs, like)
  {
    assert ([f] + fs)[1..] == fs;
  }

  /** Nothing alike stands behind the place of insertion. */
  lemma OnlyBefore(fs: seq<Factor>, f: Factor, like: Factor)
    requires fs != [] && Sorted(fs) && Heavier(f, fs[0])
    ensures Own(f, like) + Only(fs, like) == Only(fs, like) + Own(f, like)
  {
    if Alike(f, like) {
      forall i | 0 <= i < |fs| ensures !Alike(fs[i], like) {
        assert i > 0 ==> !Heavier(fs[i], fs[0]);
      }
      OnlyNone(fs, like);
    }
  }

  lemma {:induction false} OnlyInsert(fs: seq<Factor>, f: Factor, like: Factor)
    requires Sorted(fs)
    ensures Only(Insert(fs, f), like) == Only(fs, like) + Own(f, like)
  {
    if fs == [] {
      OnlyBehind(f, [], like);
      assert [f] + [] == [f];
    } else if Heavier(f, fs[0]) {
      OnlyBehind(f, fs, like);
      OnlyBefore(fs, f, like);
    } else {
      OnlyInsert(fs[1..], f, like);
      OnlyBehind(fs[0], Insert(fs[1..], f), like);
      assert fs == [fs[0]] + fs[1..];
      OnlyBehind(fs[0], fs[1..], like);
    }
  }

  lemma {:induction false} OnlyInsertAll(sorted: seq<Factor>, fs: seq<Factor>, like: Factor)
    requires Sorted(sorted)
    ensures Only(InsertAll(sorted, fs), like) == Only(sorted, like) + Only(fs, like)
    decreases |fs|
  {
    if fs != [] {
      var f, rest := fs[0], fs[1..];
      assert fs == [f] + rest;
      InsertSorts(sorted, f);
      OnlyInsert(sorted, f, like);
      OnlyInsertAll(Insert(sorted, f), rest, like);
      OnlyBehind(f, rest, like);
      assert Only(sorted, like) + Own(f, like) + Only(rest, like) == Only(sorted, like) + (Own(f, like) + Only(rest, like));
    }
  }

  /** The order in full: by falling weight; among equal weights waits, then keys, then
    * accounts; and entries of one kind and weight as the authority lists them. */
  lemma VisitedInOrder(a: Authority, like: Factor, h: seq<Factor>)
    requires h == HeaviestFirst(a)
    ensures forall i, j :: 0 <= i < j < |h| ==> h[i].weight >= h[j].weight
    ensures forall i, j :: 0 <= i < j < |h| && h[i].weight == h[j].weight ==>
                             h[i].WaitFactor? || h[j].AccountFactor? || (h[i].KeyFactor? && h[j].KeyFactor?)
    ensures Only(h, like) == Only(Factors(a), like)
  {
    VisitOrder(a);
    OnlyInsertAll([], Factors(a), like);
  }
}
