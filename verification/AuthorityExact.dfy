/** When the cache is harmless: the checker agrees with summing the weights of
  * all factors that hold. */
module AuthorityExact {
  import opened AuthorityChecker

  // -------------------------------------------------------------- no wrap-around

  function Total(fs: seq<Factor>): nat {
    if fs == [] then 0 else fs[0].weight + Total(fs[1..])
  }

  lemma {:induction false} TotalBound(fs: seq<Factor>)
    ensures Total(fs) <= 0xFFFF * |fs|
  {
    if fs != [] {
      TotalBound(fs[1..]);
    }
  }

  /** The 32-bit tally of an authority that passed validation cannot wrap. */
  lemma TotalFits(a: Authority)
    requires Small(a)
    ensures Total(HeaviestFirst(a)) < 0x1_0000_0000
  {
    VisitOrder(a);
    assert |multiset(HeaviestFirst(a))| == |multiset(Factors(a))|;
    TotalBound(HeaviestFirst(a));
  }

  lemma {:induction false} HeldAtMostTotal(env: Env, keys: set<Key>, fs: seq<Factor>, n: nat)
    ensures Held(env, keys, fs, n) <= Total(fs)
  {
    if fs != [] {
      HeldAtMostTotal(env, keys, fs[1..], n);
    }
  }

  // ------------------------------------------- permissions consulted only once

  /** Every permission on chain the checker may meet, as often as it is met. */
  function Consulted(env: Env, fs: seq<Factor>, n: nat): multiset<Permission>
    decreases n, 2, |fs|
  {
    if fs == [] then multiset{} else ConsultedBy(env, fs[0], n) + Consulted(env, fs[1..], n)
  }

  function ConsultedBy(env: Env, f: Factor, n: nat): multiset<Permission>
    decreases n, 1
  {
    if f.AccountFactor? && !Granted(env, f.permission) && f.permission in env.authorities
    then multiset{f.permission} + ConsultedIn(env, f.permission, n)
    else multiset{}
  }

  function ConsultedIn(env: Env, p: Permission, n: nat): multiset<Permission>
    requires p in env.authorities
    decreases n, 0
  {
    if n == 0 then multiset{} else Consulted(env, Factors(env.authorities[p]), n - 1)
  }

  ghost predicate Distinct(ps: multiset<Permission>) {
    forall p :: ps[p] <= 1
  }

  lemma {:induction false} ConsultedInsert(env: Env, fs: seq<Factor>, f: Factor, n: nat)
    ensures Consulted(env, Insert(fs, f), n) == Consulted(env, fs, n) + ConsultedBy(env, f, n)
  {
    if fs != [] {
      if Heavier(f, fs[0]) {
        assert ([f] + fs)[1..] == fs;
      } else {
        ConsultedInsert(env, fs[1..], f, n);
        assert ([fs[0]] + Insert(fs[1..], f))[1..] == Insert(fs[1..], f);
      }
    }
  }

  lemma {:induction false} ConsultedInsertAll(env: Env, sorted: seq<Factor>, fs: seq<Factor>, n: nat)
    ensures Consulted(env, InsertAll(sorted, fs), n) == Consulted(env, sorted, n) + Consulted(env, fs, n)
    decreases |fs|
  {
    if fs != [] {
      ConsultedInsert(env, sorted, fs[0], n);
      ConsultedInsertAll(env, Insert(sorted, fs[0]), fs[1..], n);
    }
  }

  ghost predicate Unseen(ps: multiset<Permission>, cache: map<Permission, Status>) {
    forall p :: p in ps ==> p !in cache
  }

  ghost predicate GrowsBy(cache: map<Permission, Status>, after: map<Permission, Status>, ps: multiset<Permission>) {
    forall p :: p in after ==> p in cache || p in ps
  }

  lemma {:induction false} CheckOnce(env: Env, provided: set<Key>, a: Authority, n: nat, s: State)
    requires WellFormed(env) && Small(a) && CacheOk(env, s.cache)
    requires Distinct(Consulted(env, Factors(a), n)) && Unseen(Consulted(env, Factors(a), n), s.cache)
    ensures var r := Check(env, provided, a, n, s);
            && (r.ok <==> Sat(env, provided, a, n))
            && (r.ok ==> Sat(env, r.state.used, a, n))
            && CacheOk(env, r.state.cache)
            && GrowsBy(s.cache, r.state.cache, Consulted(env, Factors(a), n))
    decreases n, 2
  {
    var fs := HeaviestFirst(a);
    ConsultedInsertAll(env, [], Factors(a), n);
    assert Consulted(env, fs, n) == Consulted(env, Factors(a), n);
    TotalFits(a);
    TallyOnce(env, provided, fs, a.threshold, n, s, 0);
    SatHeaviestFirst(env, provided, a, n);
    SatHeaviestFirst(env, Tally(env, provided, fs, a.threshold, n, s, 0).state.used, a, n);
  }

  lemma {:induction false} TallyOnce(env: Env, provided: set<Key>, fs: seq<Factor>, threshold: Threshold, n: nat, s: State, total: nat)
    requires WellFormed(env) && CacheOk(env, s.cache) && total + Total(fs) < 0x1_0000_0000
    requires Distinct(Consulted(env, fs, n)) && Unseen(Consulted(env, fs, n), s.cache)
    ensures var r := Tally(env, provided, fs, threshold, n, s, total);
            && (r.ok <==> fs != [] && total + Held(env, provided, fs, n) >= threshold)
            && (r.ok ==> total + Held(env, r.state.used, fs, n) >= threshold)
            && CacheOk(env, r.state.cache)
            && GrowsBy(s.cache, r.state.cache, Consulted(env, fs, n))
    decreases n, 1, |fs|
  {
    if fs != [] {
      var f, rest := fs[0], fs[1..];
      Split(ConsultedBy(env, f, n), Consulted(env, rest, n));
      VisitOnce(env, provided, f, n, s, total);
      var v := Visit(env, provided, f, n, s, total);
      assert Unseen(Consulted(env, rest, n), v.state.cache);
      TallyOnce(env, provided, rest, threshold, n, v.state, v.total);
      var r := Tally(env, provided, fs, threshold, n, s, total);
      TallyMarks(env, provided, rest, threshold, n, v.state, v.total);
      HoldsMonotone(env, v.state.used, r.state.used, f, n, n);
    }
  }

  lemma Split(ps: multiset<Permission>, qs: multiset<Permission>)
    requires Distinct(ps + qs)
    ensures Distinct(ps) && Distinct(qs)
    ensures forall p :: p in ps ==> p !in qs
  {
    forall p ensures ps[p] + qs[p] <= 1 {
      assert (ps + qs)[p] <= 1;
    }
  }

  lemma {:induction false} VisitOnce(env: Env, provided: set<Key>, f: Factor, n: nat, s: State, total: nat)
    requires WellFormed(env) && CacheOk(env, s.cache) && total + f.weight < 0x1_0000_0000
    requires Distinct(ConsultedBy(env, f, n)) && Unseen(ConsultedBy(env, f, n), s.cache)
    ensures var v := Visit(env, provided, f, n, s, total);
            && v.total == total + HeldBy(env, provided, f, n)
            && v.total <= total + HeldBy(env, v.state.used, f, n)
            && CacheOk(env, v.state.cache)
            && GrowsBy(s.cache, v.state.cache, ConsultedBy(env, f, n))
    decreases n, 0
  {
    if f.AccountFactor? {
      StatusMeaning(env, s.cache, f.permission);
      if !Granted(env, f.permission) && f.permission in env.authorities {
        assert f.permission in ConsultedBy(env, f, n);
        if n > 0 {
          EvaluateOnce(env, provided, f.permission, n, s);
        }
      }
    }
  }

  /** The nested evaluation of a permission met for the first time. */
  lemma {:induction false} EvaluateOnce(env: Env, provided: set<Key>, p: Permission, n: nat, s: State)
    requires WellFormed(env) && CacheOk(env, s.cache) && n > 0
    requires p in env.authorities && !Granted(env, p) && p !in s.cache
    requires var ps := multiset{p} + ConsultedIn(env, p, n); Distinct(ps) && Unseen(ps, s.cache)
    ensures var r := Check(env, provided, env.authorities[p], n - 1, s.(cache := s.cache[p := BeingEvaluated]));
            && (r.ok <==> Sat(env, provided, env.authorities[p], n - 1))
            && (r.ok ==> Sat(env, r.state.used, env.authorities[p], n - 1))
            && CacheOk(env, r.state.cache)
            && GrowsBy(s.cache, r.state.cache, multiset{p} + ConsultedIn(env, p, n))
    decreases n - 1, 3
  {
    Split(multiset{p}, ConsultedIn(env, p, n));
    CheckOnce(env, provided, env.authorities[p], n - 1, s.(cache := s.cache[p := BeingEvaluated]));
  }

  // ------------------------------------- nesting that ends within the depth limit

  /** Every chain of permissions on chain below the authority ends within `h` steps;
    * in particular there is no cycle. */
  predicate Bounded(env: Env, a: Authority, h: nat)
    decreases h, 1
  {
    forall i :: 0 <= i < |Factors(a)| ==> BoundedFactor(env, Factors(a)[i], h)
  }

  predicate BoundedFactor(env: Env, f: Factor, h: nat)
    decreases h, 0
  {
    f.AccountFactor? && !Granted(env, f.permission) && f.permission in env.authorities ==>
      h > 0 && Bounded(env, env.authorities[f.permission], h - 1)
  }

  lemma {:induction false} BoundedMonotone(env: Env, a: Authority, h: nat, k: nat)
    requires Bounded(env, a, h) && h <= k
    ensures Bounded(env, a, k)
    decreases h
  {
    forall i | 0 <= i < |Factors(a)| ensures BoundedFactor(env, Factors(a)[i], k) {
      BoundedFactorMonotone(env, Factors(a)[i], h, k);
    }
  }

  lemma {:induction false} BoundedFactorMonotone(env: Env, f: Factor, h: nat, k: nat)
    requires BoundedFactor(env, f, h) && h <= k
    ensures BoundedFactor(env, f, k)
    decreases h, 0
  {
    if h > 0 && f.AccountFactor? && !Granted(env, f.permission) && f.permission in env.authorities {
      BoundedMonotone(env, env.authorities[f.permission], h - 1, k - 1);
    }
  }

  function Height(env: Env, a: Authority, h: nat): (k: nat)
    requires Bounded(env, a, h)
    ensures k <= h && Bounded(env, a, k) && (k > 0 ==> !Bounded(env, a, k - 1))
  {
    if h > 0 && Bounded(env, a, h - 1) then Height(env, a, h - 1) else h
  }

  /** Beyond its height an authority gains nothing from more depth. */
  lemma {:induction false} DepthEnough(env: Env, keys: set<Key>, a: Authority, h: nat, m: nat)
    requires Bounded(env, a, h)
    ensures Sat(env, keys, a, m) ==> Sat(env, keys, a, h)
    decreases h, 2
  {
    HeldEnough(env, keys, Factors(a), h, m);
  }

  lemma {:induction false} HeldEnough(env: Env, keys: set<Key>, fs: seq<Factor>, h: nat, m: nat)
    requires forall i :: 0 <= i < |fs| ==> BoundedFactor(env, fs[i], h)
    ensures Held(env, keys, fs, m) <= Held(env, keys, fs, h)
    decreases h, 1, |fs|
  {
    if fs != [] {
      HoldsEnough(env, keys, fs[0], h, m);
      HeldEnough(env, keys, fs[1..], h, m);
    }
  }

  lemma {:induction false} HoldsEnough(env: Env, keys: set<Key>, f: Factor, h: nat, m: nat)
    requires BoundedFactor(env, f, h)
    ensures Holds(env, keys, f, m) ==> Holds(env, keys, f, h)
    decreases h, 0
  {
    if h > 0 && m > 0 && f.AccountFactor? && !Granted(env, f.permission) && f.permission in env.authorities {
      DepthEnough(env, keys, env.authorities[f.permission], h - 1, m - 1);
    }
  }

  /** Cached verdicts are right at every depth, and what is being evaluated lies
    * strictly above height `h`. */
  ghost predicate CacheExact(env: Env, provided: set<Key>, cache: map<Permission, Status>, h: nat) {
    forall p :: p in cache && p !in env.granted ==>
      && p in env.authorities
      && match cache[p] {
           case Satisfied => SatAtAnyDepth(env, provided, env.authorities[p])
           case Unsatisfied => !SatAtAnyDepth(env, provided, env.authorities[p])
           case BeingEvaluated => h == 0 || !Bounded(env, env.authorities[p], h - 1)
         }
  }

  ghost predicate SameOpen(cache: map<Permission, Status>, after: map<Permission, Status>) {
    forall p :: p in after && after[p] == BeingEvaluated ==> p in cache && cache[p] == BeingEvaluated
  }

  lemma {:induction false} CheckExact(env: Env, provided: set<Key>, a: Authority, n: nat, h: nat, s: State)
    requires WellFormed(env) && Small(a) && CacheOk(env, s.cache)
    requires Bounded(env, a, h) && h <= n && CacheExact(env, provided, s.cache, h)
    ensures var r := Check(env, provided, a, n, s);
            && (r.ok <==> Sat(env, provided, a, h))
            && CacheOk(env, r.state.cache) && CacheExact(env, provided, r.state.cache, h)
            && SameOpen(s.cache, r.state.cache)
    decreases n, 2
  {
    var fs := HeaviestFirst(a);
    VisitOrder(a);
    forall i | 0 <= i < |fs| ensures BoundedFactor(env, fs[i], h) {
      assert fs[i] in multiset(Factors(a));
    }
    TotalFits(a);
    TallyExact(env, provided, fs, a.threshold, n, h, s, 0);
    SatHeaviestFirst(env, provided, a, h);
  }

  lemma {:induction false} TallyExact(env: Env, provided: set<Key>, fs: seq<Factor>, threshold: Threshold, n: nat, h: nat,
                                      s: State, total: nat)
    requires WellFormed(env) && CacheOk(env, s.cache) && total + Total(fs) < 0x1_0000_0000
    requires forall i :: 0 <= i < |fs| ==> BoundedFactor(env, fs[i], h)
    requires h <= n && CacheExact(env, provided, s.cache, h)
    ensures var r := Tally(env, provided, fs, threshold, n, s, total);
            && (r.ok <==> fs != [] && total + Held(env, provided, fs, h) >= threshold)
            && CacheOk(env, r.state.cache) && CacheExact(env, provided, r.state.cache, h)
            && SameOpen(s.cache, r.state.cache)
    decreases n, 1, |fs|
  {
    if fs != [] {
      VisitExact(env, provided, fs[0], n, h, s, total);
      var v := Visit(env, provided, fs[0], n, s, total);
      TallyExact(env, provided, fs[1..], threshold, n, h, v.state, v.total);
    }
  }

  lemma {:induction false} VisitExact(env: Env, provided: set<Key>, f: Factor, n: nat, h: nat, s: State, total: nat)
    requires WellFormed(env) && CacheOk(env, s.cache) && total + f.weight < 0x1_0000_0000
    requires BoundedFactor(env, f, h) && h <= n && CacheExact(env, provided, s.cache, h)
    ensures var v := Visit(env, provided, f, n, s, total);
            && v.total == total + HeldBy(env, provided, f, h)
            && CacheOk(env, v.state.cache) && CacheExact(env, provided, v.state.cache, h)
            && SameOpen(s.cache, v.state.cache)
    decreases n, 0
  {
    if f.AccountFactor? {
      var p := f.permission;
      StatusMeaning(env, s.cache, p);
      if !Granted(env, p) && p in env.authorities {
        SettledDepth(env, provided, env.authorities[p], h - 1);
        if p !in s.cache {
          EvaluateExact(env, provided, p, n, h, s);
        }
      }
    }
  }

  lemma SettledDepth(env: Env, keys: set<Key>, a: Authority, h: nat)
    requires Bounded(env, a, h)
    ensures SatAtAnyDepth(env, keys, a) <==> Sat(env, keys, a, h)
  {
    if SatAtAnyDepth(env, keys, a) {
      var m: nat :| Sat(env, keys, a, m);
      DepthEnough(env, keys, a, h, m);
    }
  }

  lemma {:induction false} EvaluateExact(env: Env, provided: set<Key>, p: Permission, n: nat, h: nat, s: State)
    requires WellFormed(env) && CacheOk(env, s.cache) && 0 < h <= n && CacheExact(env, provided, s.cache, h)
    requires p in env.authorities && !Granted(env, p) && p !in s.cache && Bounded(env, env.authorities[p], h - 1)
    ensures var r := Check(env, provided, env.authorities[p], n - 1, s.(cache := s.cache[p := BeingEvaluated]));
            var after := r.state.cache[p := if r.ok then Satisfied else Unsatisfied];
            && (r.ok <==> Sat(env, provided, env.authorities[p], h - 1))
            && CacheOk(env, after) && CacheExact(env, provided, after, h) && SameOpen(s.cache, after)
    decreases n - 1, 3
  {
    var a := env.authorities[p];
    var k := Height(env, a, h - 1);
    OpenExact(env, provided, p, h, k, s.cache);
    CheckExact(env, provided, a, n - 1, k, s.(cache := s.cache[p := BeingEvaluated]));
    SettledDepth(env, provided, a, k);
    SettledDepth(env, provided, a, h - 1);
  }

  lemma OpenExact(env: Env, provided: set<Key>, p: Permission, h: nat, k: nat, cache: map<Permission, Status>)
    requires k < h && CacheOk(env, cache) && CacheExact(env, provided, cache, h)
    requires p in env.authorities && !Granted(env, p) && (k > 0 ==> !Bounded(env, env.authorities[p], k - 1))
    ensures CacheOk(env, cache[p := BeingEvaluated]) && CacheExact(env, provided, cache[p := BeingEvaluated], k)
  {
    forall q | q in cache && q !in env.granted && cache[q] == BeingEvaluated && k > 0
      ensures !Bounded(env, env.authorities[q], k - 1)
    {
      if Bounded(env, env.authorities[q], k - 1) {
        BoundedMonotone(env, env.authorities[q], k - 1, h - 1);
      }
    }
  }
}
