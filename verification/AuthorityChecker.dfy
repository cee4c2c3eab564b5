/** Weighted authorities and the recursive checker that decides whether a set of
  * keys satisfies one. */
module AuthorityChecker {

  type Key = nat
  type Weight = w: nat | w < 0x1_0000
  type Threshold = t: nat | t < 0x1_0000_0000

  /** Name 0 is the empty name. */
  datatype Permission = Permission(actor: nat, name: nat)

  datatype Factor =
    | AccountFactor(permission: Permission, weight: Weight)
    | KeyFactor(key: Key, weight: Weight)
    | WaitFactor(seconds: nat, weight: Weight)

  datatype Authority = Authority(
    threshold: Threshold,
    keys: seq<(Key, Weight)>,
    accounts: seq<(Permission, Weight)>,
    waits: seq<(nat, Weight)>)

  /** What one checker is built over: the permissions on chain and the permissions
    * given as already satisfied. */
  datatype Env = Env(authorities: map<Permission, Authority>, granted: set<Permission>)

  // ------------------------------------------------------------------- factors

  /** The factors in the order in which the checker collects them. */
  function Factors(a: Authority): seq<Factor> {
    seq(|a.accounts|, i requires 0 <= i < |a.accounts| => AccountFactor(a.accounts[i].0, a.accounts[i].1)) +
    seq(|a.keys|, i requires 0 <= i < |a.keys| => KeyFactor(a.keys[i].0, a.keys[i].1)) +
    seq(|a.waits|, i requires 0 <= i < |a.waits| => WaitFactor(a.waits[i].0, a.waits[i].1))
  }

  function Priority(f: Factor): nat {
    match f
    case AccountFactor(_, _) => 1
    case KeyFactor(_, _) => 2
    case WaitFactor(_, _) => 3
  }

  predicate Heavier(f: Factor, g: Factor) {
    f.weight > g.weight || (f.weight == g.weight && Priority(f) > Priority(g))
  }

  /** Insertion behind every factor that is at least as heavy. */
  function Insert(fs: seq<Factor>, f: Factor): seq<Factor> {
    if fs == [] then [f]
    else if Heavier(f, fs[0]) then [f] + fs
    else [fs[0]] + Insert(fs[1..], f)
  }

  function InsertAll(sorted: seq<Factor>, fs: seq<Factor>): seq<Factor>
    decreases |fs|
  {
    if fs == [] then sorted else InsertAll(Insert(sorted, fs[0]), fs[1..])
  }

  function HeaviestFirst(a: Authority): seq<Factor> {
    InsertAll([], Factors(a))
  }

  lemma {:induction false} InsertKeeps(fs: seq<Factor>, f: Factor)
    ensures multiset(Insert(fs, f)) == multiset(fs) + multiset{f}
  {
    if fs == [] {
    } else if Heavier(f, fs[0]) {
      assert multiset([f] + fs) == multiset([f]) + multiset(fs);
    } else {
      InsertKeeps(fs[1..], f);
      assert fs == [fs[0]] + fs[1..];
    }
  }

  predicate Sorted(fs: seq<Factor>) {
    forall i, j :: 0 <= i < j < |fs| ==> !Heavier(fs[j], fs[i])
  }

  lemma {:induction false} InsertSorts(fs: seq<Factor>, f: Factor)
    requires Sorted(fs)
    ensures Sorted(Insert(fs, f))
  {
    if fs != [] && !Heavier(f, fs[0]) {
      InsertSorts(fs[1..], f);
      InsertKeeps(fs[1..], f);
      var r := Insert(fs[1..], f);
      forall j | 0 <= j < |r| ensures !Heavier(r[j], fs[0]) {
        assert r[j] in multiset(r);
        assert r[j] == f || r[j] in multiset(fs[1..]);
      }
    }
  }

  lemma {:induction false} InsertAllSorts(sorted: seq<Factor>, fs: seq<Factor>)
    requires Sorted(sorted)
    ensures multiset(InsertAll(sorted, fs)) == multiset(sorted) + multiset(fs)
    ensures Sorted(InsertAll(sorted, fs))
    decreases |fs|
  {
    if fs != [] {
      InsertKeeps(sorted, fs[0]);
      InsertSorts(sorted, fs[0]);
      InsertAllSorts(Insert(sorted, fs[0]), fs[1..]);
      assert fs == [fs[0]] + fs[1..];
    }
  }

  /** The checker visits every factor of the authority once, the heaviest first. */
  lemma VisitOrder(a: Authority)
    ensures multiset(HeaviestFirst(a)) == multiset(Factors(a)) && Sorted(HeaviestFirst(a))
    ensures HeaviestFirst(a) == [] <==> Factors(a) == []
  {
    InsertAllSorts([], Factors(a));
    assert |multiset(HeaviestFirst(a))| == |multiset(Factors(a))|;
  }

  // -------------------------------------------------- what satisfaction means

  predicate Granted(env: Env, p: Permission) {
    p in env.granted || Permission(p.actor, 0) in env.granted
  }

  /** With `n` levels of nesting left. */
  predicate Holds(env: Env, keys: set<Key>, f: Factor, n: nat)
    decreases n, 0
  {
    match f
    case KeyFactor(k, _) => k in keys
    case WaitFactor(_, _) => false
    case AccountFactor(p, _) => Granted(env, p) || (n > 0 && p in env.authorities && Sat(env, keys, env.authorities[p], n - 1))
  }

  /** Total weight of the factors that hold. */
  function Held(env: Env, keys: set<Key>, fs: seq<Factor>, n: nat): nat
    decreases n, 1, |fs|
  {
    if fs == [] then 0 else (if Holds(env, keys, fs[0], n) then fs[0].weight else 0) + Held(env, keys, fs[1..], n)
  }

  /** An authority without any factor is never satisfied, whatever its threshold. */
  predicate Sat(env: Env, keys: set<Key>, a: Authority, n: nat)
    decreases n, 2
  {
    Factors(a) != [] && Held(env, keys, Factors(a), n) >= a.threshold
  }

  /** Satisfied with no limit on nesting. */
  ghost predicate SatAtAnyDepth(env: Env, keys: set<Key>, a: Authority) {
    exists n :: Sat(env, keys, a, n)
  }

  // ------------------------------------------------------- the checker's steps

  datatype Status = BeingEvaluated | Unsatisfied | Satisfied
  datatype Option<T> = None | Some(value: T)

  datatype State = State(used: set<Key>, cache: map<Permission, Status>)
  datatype Verdict = Verdict(ok: bool, state: State)
  datatype Visited = Visited(total: nat, state: State)

  function StatusInCache(cache: map<Permission, Status>, p: Permission): Option<Status> {
    if p in cache then Some(cache[p])
    else if Permission(p.actor, 0) in cache then Some(cache[Permission(p.actor, 0)])
    else None
  }

  function Add32(total: nat, w: Weight): (r: nat)
    ensures r <= total + w
    ensures total + w < 0x1_0000_0000 ==> r == total + w
  {
    (total + w) % 0x1_0000_0000
  }

  function Visit(env: Env, provided: set<Key>, f: Factor, n: nat, s: State, total: nat): Visited
    decreases n, 0
  {
    match f
    case WaitFactor(_, _) => Visited(total, s)
    case KeyFactor(k, w) =>
      if k in provided then Visited(Add32(total, w), s.(used := s.used + {k})) else Visited(total, s)
    case AccountFactor(p, w) =>
      match StatusInCache(s.cache, p)
      case Some(status) => Visited(if status == Satisfied then Add32(total, w) else total, s)
      case None =>
        if n == 0 || p !in env.authorities then Visited(total, s)
        else
          var r := Check(env, provided, env.authorities[p], n - 1, s.(cache := s.cache[p := BeingEvaluated]));
          if r.ok then Visited(Add32(total, w), r.state.(cache := r.state.cache[p := Satisfied]))
          else Visited(total, r.state.(cache := r.state.cache[p := Unsatisfied]))
  }

  function Tally(env: Env, provided: set<Key>, fs: seq<Factor>, threshold: Threshold, n: nat, s: State, total: nat): Verdict
    decreases n, 1, |fs|
  {
    if fs == [] then Verdict(false, s)
    else
      var v := Visit(env, provided, fs[0], n, s, total);
      if v.total >= threshold then Verdict(true, v.state)
      else Tally(env, provided, fs[1..], threshold, n, v.state, v.total)
  }

  function Check(env: Env, provided: set<Key>, a: Authority, n: nat, s: State): Verdict
    decreases n, 2
  {
    var r := Tally(env, provided, HeaviestFirst(a), a.threshold, n, s, 0);
    if r.ok then r else Verdict(false, State(s.used, r.state.cache))
  }

  function Fresh(env: Env): State {
    State({}, map p | p in env.granted :: Satisfied)
  }

  /** The verdict of a new checker. */
  function Run(env: Env, provided: set<Key>, limit: nat, a: Authority): Verdict {
    Check(env, provided, a, limit, Fresh(env))
  }

  // ---------------------------------------------------------- reordering factors

  function HeldBy(env: Env, keys: set<Key>, f: Factor, n: nat): nat {
    if Holds(env, keys, f, n) then f.weight else 0
  }

  lemma {:induction false} HeldInsert(env: Env, keys: set<Key>, fs: seq<Factor>, f: Factor, n: nat)
    ensures Held(env, keys, Insert(fs, f), n) == Held(env, keys, fs, n) + HeldBy(env, keys, f, n)
  {
    if fs != [] {
      if Heavier(f, fs[0]) {
        assert ([f] + fs)[1..] == fs;
      } else {
        HeldInsert(env, keys, fs[1..], f, n);
        assert ([fs[0]] + Insert(fs[1..], f))[1..] == Insert(fs[1..], f);
      }
    }
  }

  lemma {:induction false} HeldInsertAll(env: Env, keys: set<Key>, sorted: seq<Factor>, fs: seq<Factor>, n: nat)
    ensures Held(env, keys, InsertAll(sorted, fs), n) == Held(env, keys, sorted, n) + Held(env, keys, fs, n)
    decreases |fs|
  {
    if fs != [] {
      HeldInsert(env, keys, sorted, fs[0], n);
      HeldInsertAll(env, keys, Insert(sorted, fs[0]), fs[1..], n);
    }
  }

  lemma SatHeaviestFirst(env: Env, keys: set<Key>, a: Authority, n: nat)
    ensures Sat(env, keys, a, n) <==> HeaviestFirst(a) != [] && Held(env, keys, HeaviestFirst(a), n) >= a.threshold
  {
    VisitOrder(a);
    HeldInsertAll(env, keys, [], Factors(a), n);
  }

  // --------------------------------------------------------------- monotonicity

  /** More keys and more depth never take satisfaction away. */
  lemma {:induction false} SatMonotone(env: Env, keys: set<Key>, more: set<Key>, a: Authority, n: nat, m: nat)
    requires keys <= more && n <= m
    ensures Sat(env, keys, a, n) ==> Sat(env, more, a, m)
    decreases n, 2
  {
    HeldMonotone(env, keys, more, Factors(a), n, m);
  }

  lemma {:induction false} HeldMonotone(env: Env, keys: set<Key>, more: set<Key>, fs: seq<Factor>, n: nat, m: nat)
    requires keys <= more && n <= m
    ensures Held(env, keys, fs, n) <= Held(env, more, fs, m)
    decreases n, 1, |fs|
  {
    if fs != [] {
      HoldsMonotone(env, keys, more, fs[0], n, m);
      HeldMonotone(env, keys, more, fs[1..], n, m);
    }
  }

  lemma {:induction false} HoldsMonotone(env: Env, keys: set<Key>, more: set<Key>, f: Factor, n: nat, m: nat)
    requires keys <= more && n <= m
    ensures Holds(env, keys, f, n) ==> Holds(env, more, f, m)
    decreases n, 0
  {
    if f.AccountFactor? && n > 0 && f.permission in env.authorities {
      SatMonotone(env, keys, more, env.authorities[f.permission], n - 1, m - 1);
    }
  }

  // ---------------------------------------------------------- state of the cache

  /** Permissions on chain: none has the empty name, which stands for all permissions
    * of an account, and validation keeps every authority at 2^16 factors at most. */
  predicate WellFormed(env: Env) {
    forall p :: p in env.authorities ==> p.name != 0 && Small(env.authorities[p])
  }

  predicate Small(a: Authority) {
    |Factors(a)| <= 0x1_0000
  }

  /** Granted permissions stay satisfied in the cache; everything else in it is a
    * permission on chain. */
  predicate CacheOk(env: Env, cache: map<Permission, Status>) {
    && (forall g :: g in env.granted ==> g in cache && cache[g] == Satisfied)
    && (forall p :: p in cache ==> p in env.granted || (p in env.authorities && !Granted(env, p)))
  }

  lemma StatusMeaning(env: Env, cache: map<Permission, Status>, p: Permission)
    requires WellFormed(env) && CacheOk(env, cache)
    ensures Granted(env, p) ==> StatusInCache(cache, p) == Some(Satisfied)
    ensures !Granted(env, p) ==> StatusInCache(cache, p) == if p in cache then Some(cache[p]) else None
  {
  }

  // ------------------------------------------------------------------ used keys

  /** The checker only ever marks provided keys, and a failed authority, at any
    * level, leaves the marks as they were. */
  lemma {:induction false} CheckMarks(env: Env, provided: set<Key>, a: Authority, n: nat, s: State)
    ensures var r := Check(env, provided, a, n, s);
            && s.used <= r.state.used <= s.used + provided
            && (!r.ok ==> r.state.used == s.used)
    decreases n, 2
  {
    TallyMarks(env, provided, HeaviestFirst(a), a.threshold, n, s, 0);
  }

  lemma {:induction false} TallyMarks(env: Env, provided: set<Key>, fs: seq<Factor>, threshold: Threshold, n: nat, s: State, total: nat)
    ensures s.used <= Tally(env, provided, fs, threshold, n, s, total).state.used <= s.used + provided
    decreases n, 1, |fs|
  {
    if fs != [] {
      VisitMarks(env, provided, fs[0], n, s, total);
      var v := Visit(env, provided, fs[0], n, s, total);
      TallyMarks(env, provided, fs[1..], threshold, n, v.state, v.total);
    }
  }

  lemma {:induction false} VisitMarks(env: Env, provided: set<Key>, f: Factor, n: nat, s: State, total: nat)
    ensures s.used <= Visit(env, provided, f, n, s, total).state.used <= s.used + provided
    decreases n, 0
  {
    if f.AccountFactor? && n > 0 && f.permission in env.authorities {
      CheckMarks(env, provided, env.authorities[f.permission], n - 1, s.(cache := s.cache[f.permission := BeingEvaluated]));
    }
  }

  // ------------------------------------------------------------------ soundness

  ghost predicate CacheSound(env: Env, provided: set<Key>, cache: map<Permission, Status>) {
    forall p :: p in cache && cache[p] == Satisfied && p !in env.granted ==>
      p in env.authorities && SatAtAnyDepth(env, provided, env.authorities[p])
  }

  /** Whatever the cache did, an accepted authority really is satisfied by the
    * provided keys at some depth of nesting. */
  lemma {:induction false} CheckSound(env: Env, provided: set<Key>, a: Authority, n: nat, s: State) returns (m: nat)
    requires WellFormed(env) && CacheOk(env, s.cache) && CacheSound(env, provided, s.cache)
    ensures var r := Check(env, provided, a, n, s);
            && CacheOk(env, r.state.cache) && CacheSound(env, provided, r.state.cache)
            && (r.ok ==> Sat(env, provided, a, m))
    decreases n, 2
  {
    m := TallySound(env, provided, HeaviestFirst(a), a.threshold, n, s, 0);
    SatHeaviestFirst(env, provided, a, m);
  }

  lemma {:induction false} TallySound(env: Env, provided: set<Key>, fs: seq<Factor>, threshold: Threshold, n: nat, s: State, total: nat)
    returns (m: nat)
    requires WellFormed(env) && CacheOk(env, s.cache) && CacheSound(env, provided, s.cache)
    ensures var r := Tally(env, provided, fs, threshold, n, s, total);
            && CacheOk(env, r.state.cache) && CacheSound(env, provided, r.state.cache)
            && (r.ok ==> fs != [] && threshold <= total + Held(env, provided, fs, m))
    decreases n, 1, |fs|
  {
    m := 0;
    if fs != [] {
      var m1 := VisitSound(env, provided, fs[0], n, s, total);
      var v := Visit(env, provided, fs[0], n, s, total);
      var m2 := TallySound(env, provided, fs[1..], threshold, n, v.state, v.total);
      m := m1 + m2;
      HoldsMonotone(env, provided, provided, fs[0], m1, m);
      HeldMonotone(env, provided, provided, fs[1..], m2, m);
    }
  }

  lemma {:induction false} VisitSound(env: Env, provided: set<Key>, f: Factor, n: nat, s: State, total: nat) returns (m: nat)
    requires WellFormed(env) && CacheOk(env, s.cache) && CacheSound(env, provided, s.cache)
    ensures var v := Visit(env, provided, f, n, s, total);
            && CacheOk(env, v.state.cache) && CacheSound(env, provided, v.state.cache)
            && v.total <= total + HeldBy(env, provided, f, m)
    decreases n, 0
  {
    m := 0;
    if f.AccountFactor? && !Granted(env, f.permission) {
      var p := f.permission;
      StatusMeaning(env, s.cache, p);
      if p in s.cache {
        if s.cache[p] == Satisfied {
          var k: nat :| Sat(env, provided, env.authorities[p], k);
          m := k + 1;
        }
      } else if n > 0 && p in env.authorities {
        var k := CheckSound(env, provided, env.authorities[p], n - 1, s.(cache := s.cache[p := BeingEvaluated]));
        m := k + 1;
      }
    } else if f.AccountFactor? {
      StatusMeaning(env, s.cache, f.permission);
    }
  }
}
