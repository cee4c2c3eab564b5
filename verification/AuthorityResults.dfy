/** What the authority checker promises, and where its cache breaks the promise. */
module AuthorityResults {
  import opened AuthorityChecker
  import opened AuthorityExact

  lemma FreshCache(env: Env, provided: set<Key>, h: nat)
    ensures CacheOk(env, Fresh(env).cache)
    ensures CacheSound(env, provided, Fresh(env).cache) && CacheExact(env, provided, Fresh(env).cache, h)
  {
  }

  /** No authority is accepted that the provided keys do not satisfy. */
  lemma Sound(env: Env, provided: set<Key>, limit: nat, a: Authority)
    requires WellFormed(env)
    ensures Run(env, provided, limit, a).ok ==> SatAtAnyDepth(env, provided, a)
    ensures Run(env, provided, limit, a).state.used <= provided
  {
    FreshCache(env, provided, 0);
    var m := CheckSound(env, provided, a, limit, Fresh(env));
    CheckMarks(env, provided, a, limit, Fresh(env));
  }

  /** When nesting ends within the limit, stopping early, heaviest first, and
    * with cached verdicts decides exactly whether all holding factors together
    * reach the threshold. */
  lemma ExactWhenBounded(env: Env, provided: set<Key>, limit: nat, a: Authority)
    requires WellFormed(env) && Small(a) && Bounded(env, a, limit)
    ensures Run(env, provided, limit, a).ok <==> Sat(env, provided, a, limit)
    ensures Run(env, provided, limit, a).ok <==> SatAtAnyDepth(env, provided, a)
  {
    FreshCache(env, provided, limit);
    CheckExact(env, provided, a, limit, limit, Fresh(env));
    SettledDepth(env, provided, a, limit);
  }

  /** When no permission is met twice the verdict is exact even where the limit
    * cuts nesting short, and the marked keys alone are accepted again. */
  lemma ExactWhenDistinct(env: Env, provided: set<Key>, limit: nat, a: Authority)
    requires WellFormed(env) && Small(a) && NothingMetTwice(env, limit, a)
    ensures Run(env, provided, limit, a).ok <==> Sat(env, provided, a, limit)
    ensures var r := Run(env, provided, limit, a);
            r.ok ==> r.state.used <= provided && Run(env, r.state.used, limit, a).ok
  {
    FreshCache(env, provided, limit);
    NeverGranted(env, Factors(a), limit);
    CheckOnce(env, provided, a, limit, Fresh(env));
    CheckMarks(env, provided, a, limit, Fresh(env));
    CheckOnce(env, Run(env, provided, limit, a).state.used, a, limit, Fresh(env));
  }

  /** No permission on chain is met twice below the authority. */
  ghost predicate NothingMetTwice(env: Env, limit: nat, a: Authority) {
    Distinct(Consulted(env, Factors(a), limit))
  }

  lemma {:induction false} NeverGranted(env: Env, fs: seq<Factor>, n: nat)
    ensures forall p :: p in Consulted(env, fs, n) ==> p !in env.granted
    decreases n, 1, |fs|
  {
    if fs != [] {
      NeverGrantedBy(env, fs[0], n);
      NeverGranted(env, fs[1..], n);
    }
  }

  lemma {:induction false} NeverGrantedBy(env: Env, f: Factor, n: nat)
    ensures forall p :: p in ConsultedBy(env, f, n) ==> p !in env.granted
    decreases n, 0, 0
  {
    if f.AccountFactor? && !Granted(env, f.permission) && f.permission in env.authorities && n > 0 {
      NeverGranted(env, Factors(env.authorities[f.permission]), n - 1);
    }
  }

  /** The checker finds every way there is: nesting ends within the limit, or no
    * permission is met twice. */
  ghost predicate FindsAll(env: Env, limit: nat, a: Authority) {
    Bounded(env, a, limit) || NothingMetTwice(env, limit, a)
  }

  /** More provided keys or a higher limit never turn an acceptance into a refusal as
    * long as the second run finds every way; of the first nothing is asked. */
  lemma VerdictMonotone(env: Env, provided: set<Key>, more: set<Key>, limit: nat, higher: nat, a: Authority)
    requires WellFormed(env) && Small(a) && provided <= more && limit <= higher
    requires FindsAll(env, higher, a)
    ensures Run(env, provided, limit, a).ok ==> Run(env, more, higher, a).ok
  {
    if Run(env, provided, limit, a).ok {
      if Bounded(env, a, higher) {
        Sound(env, provided, limit, a);
        var m: nat :| Sat(env, provided, a, m);
        SatMonotone(env, provided, more, a, m, m);
        ExactWhenBounded(env, more, higher, a);
      } else {
        FewerAtLess(env, Factors(a), limit, higher);
        ExactWhenDistinct(env, provided, limit, a);
        SatMonotone(env, provided, more, a, limit, higher);
        ExactWhenDistinct(env, more, higher, a);
      }
    }
  }

  /** With less depth no permission is met more often. */
  lemma {:induction false} FewerAtLess(env: Env, fs: seq<Factor>, n: nat, m: nat)
    requires n <= m
    ensures Consulted(env, fs, n) <= Consulted(env, fs, m)
    decreases n, 1, |fs|
  {
    if fs != [] {
      FewerByOne(env, fs[0], n, m);
      FewerAtLess(env, fs[1..], n, m);
    }
  }

  lemma {:induction false} FewerByOne(env: Env, f: Factor, n: nat, m: nat)
    requires n <= m
    ensures ConsultedBy(env, f, n) <= ConsultedBy(env, f, m)
    decreases n, 0, 0
  {
    if f.AccountFactor? && !Granted(env, f.permission) && f.permission in env.authorities && n > 0 {
      FewerAtLess(env, Factors(env.authorities[f.permission]), n - 1, m - 1);
    }
  }

  // ------------------------------------------------------------ counterexamples

  const P := Permission(1, 1)
  const Q := Permission(2, 1)
  const L := Permission(3, 1)

  function Key1(k: Key): Authority { Authority(1, [(k, 1)], [], []) }
  function Via(p: Permission): Authority { Authority(1, [], [(p, 1)], []) }
  function Pair(t: Threshold, p: Permission, u: Weight, q: Permission, v: Weight): Authority {
    Authority(t, [], [(p, u), (q, v)], [])
  }

  lemma Shapes(k: Key, t: Threshold, p: Permission, u: Weight, q: Permission, v: Weight)
    ensures Factors(Key1(k)) == HeaviestFirst(Key1(k)) == [KeyFactor(k, 1)]
    ensures Factors(Via(p)) == HeaviestFirst(Via(p)) == [AccountFactor(p, 1)]
    ensures Factors(Pair(t, p, u, q, v)) == [AccountFactor(p, u), AccountFactor(q, v)]
    ensures u >= v ==> HeaviestFirst(Pair(t, p, u, q, v)) == [AccountFactor(p, u), AccountFactor(q, v)]
  {
    var f, g := AccountFactor(p, u), AccountFactor(q, v);
    assert Factors(Key1(k)) == [KeyFactor(k, 1)];
    assert Factors(Via(p)) == [AccountFactor(p, 1)];
    assert Factors(Pair(t, p, u, q, v)) == [f, g];
    InsertOne(KeyFactor(k, 1));
    InsertOne(AccountFactor(p, 1));
    if u >= v {
      InsertTwo(f, g);
    }
  }

  lemma InsertOne(f: Factor)
    ensures InsertAll([], [f]) == [f]
  {
    assert InsertAll([f], [f][1..]) == [f];
  }

  lemma InsertTwo(f: Factor, g: Factor)
    requires !Heavier(g, f)
    ensures InsertAll([], [f, g]) == [f, g]
  {
    assert [f, g][1..] == [g];
    assert InsertAll(Insert([f], g), [g][1..]) == Insert([f], g);
    assert Insert([f], g) == [f] + Insert([f][1..], g);
  }

  /** A chain P, L, key reached by way of Q as well: within depth 2 the direct way
    * is short enough, the way through Q is not, and the cached verdict is taken
    * for both. */
  lemma DeeperThanTheLimit()
    ensures var env := Env(map[P := Via(L), Q := Via(P), L := Key1(7)], {});
            var a := Pair(2, P, 1, Q, 1);
            && WellFormed(env) && Small(a)
            && Run(env, {7}, 2, a).ok && !Sat(env, {7}, a, 2)
  {
    var env := Env(map[P := Via(L), Q := Via(P), L := Key1(7)], {});
    var a := Pair(2, P, 1, Q, 1);
    Shapes(7, 2, P, 1, Q, 1);
    Shapes(7, 2, L, 1, Q, 1);
    assert !Holds(env, {7}, AccountFactor(L, 1), 0);
    assert !Sat(env, {7}, Via(L), 0);
    assert !Holds(env, {7}, AccountFactor(P, 1), 1);
    assert !Sat(env, {7}, Via(P), 1);
    assert !Holds(env, {7}, AccountFactor(Q, 1), 2);
  }

  lemma Step1(env: Env, provided: set<Key>, f: Factor, t: Threshold, n: nat, s: State, total: nat)
    ensures var v := Visit(env, provided, f, n, s, total);
            Tally(env, provided, [f], t, n, s, total) == Verdict(v.total >= t, v.state)
  {
    assert [f][1..] == [];
  }

  lemma Step2(env: Env, provided: set<Key>, f: Factor, g: Factor, t: Threshold, n: nat, s: State)
    ensures var v := Visit(env, provided, f, n, s, 0);
            var w := Visit(env, provided, g, n, v.state, v.total);
            Tally(env, provided, [f, g], t, n, s, 0) ==
            if v.total >= t then Verdict(true, v.state) else Verdict(w.total >= t, w.state)
  {
    assert [f, g][1..] == [g];
    var v := Visit(env, provided, f, n, s, 0);
    Step1(env, provided, g, t, n, v.state, v.total);
  }

  lemma Sum2(env: Env, keys: set<Key>, f: Factor, g: Factor, n: nat)
    ensures Held(env, keys, [f], n) == HeldBy(env, keys, f, n)
    ensures Held(env, keys, [f, g], n) == HeldBy(env, keys, f, n) + HeldBy(env, keys, g, n)
  {
    assert [f, g][1..] == [g] && [f][1..] == [] && [g][1..] == [];
  }

  /** P accepts key 7 or Q, and Q accepts P. While P is being evaluated Q counts as
    * unsatisfied, and that verdict stays in the cache after P is satisfied. */
  lemma CycleRefused(limit: nat)
    requires limit >= 2
    ensures var env := Env(map[P := Authority(1, [(7, 1)], [(Q, 2)], []), Q := Via(P)], {});
            var a := Pair(2, P, 1, Q, 1);
            && WellFormed(env) && Small(a)
            && !Run(env, {7}, limit, a).ok && Sat(env, {7}, a, limit)
  {
    var pa := Authority(1, [(7, 1)], [(Q, 2)], []);
    var env := Env(map[P := pa, Q := Via(P)], {});
    var a := Pair(2, P, 1, Q, 1);
    Shapes(7, 2, P, 1, Q, 1);
    assert Factors(pa) == [AccountFactor(Q, 2), KeyFactor(7, 1)];
    InsertTwo(AccountFactor(Q, 2), KeyFactor(7, 1));
    Sum2(env, {7}, AccountFactor(Q, 2), KeyFactor(7, 1), limit - 2);
    assert Sat(env, {7}, pa, limit - 2);
    SatMonotone(env, {7}, {7}, pa, limit - 2, limit - 1);
    Sum2(env, {7}, AccountFactor(P, 1), AccountFactor(Q, 1), limit - 1);
    assert Sat(env, {7}, Via(P), limit - 1);
    Sum2(env, {7}, AccountFactor(P, 1), AccountFactor(Q, 1), limit);
    CycleRun(env, pa, limit);
  }

  lemma CycleRun(env: Env, pa: Authority, limit: nat)
    requires limit >= 2 && env == Env(map[P := pa, Q := Via(P)], {}) && pa.threshold == 1
    requires HeaviestFirst(pa) == [AccountFactor(Q, 2), KeyFactor(7, 1)]
    ensures !Run(env, {7}, limit, Pair(2, P, 1, Q, 1)).ok
  {
    Shapes(7, 2, P, 1, Q, 1);
    var s0 := Fresh(env);
    var s1 := State({}, map[P := BeingEvaluated]);
    var s2 := State({}, map[P := BeingEvaluated, Q := BeingEvaluated]);
    var s3 := State({}, map[P := BeingEvaluated, Q := Unsatisfied]);
    Step1(env, {7}, AccountFactor(P, 1), 1, limit - 2, s2, 0);
    assert Check(env, {7}, Via(P), limit - 2, s2) == Verdict(false, s2);
    assert s1.cache[Q := BeingEvaluated] == s2.cache && s2.cache[Q := Unsatisfied] == s3.cache;
    assert Visit(env, {7}, AccountFactor(Q, 2), limit - 1, s1, 0) == Visited(0, s3);
    Step2(env, {7}, AccountFactor(Q, 2), KeyFactor(7, 1), 1, limit - 1, s1);
    assert Check(env, {7}, pa, limit - 1, s1) == Verdict(true, State({7}, s3.cache));
    assert s0.cache[P := BeingEvaluated] == s1.cache;
    Step2(env, {7}, AccountFactor(P, 1), AccountFactor(Q, 1), 2, limit, s0);
  }

  /** Q needs P and a key that is not provided: its failure takes back the mark of
    * P's key, but P stays cached as satisfied and is accepted without a mark. */
  lemma MarksTakenBack(limit: nat)
    requires limit >= 2
    ensures var env := Env(map[P := Key1(7), Q := Authority(5, [(9, 2)], [(P, 3)], [])], {});
            var a := Pair(2, Q, 3, P, 2);
            && WellFormed(env) && Small(a)
            && Run(env, {7}, limit, a).ok && Run(env, {7}, limit, a).state.used == {}
            && !SatAtAnyDepth(env, {}, a)
  {
    var qa := Authority(5, [(9, 2)], [(P, 3)], []);
    var env := Env(map[P := Key1(7), Q := qa], {});
    var a := Pair(2, Q, 3, P, 2);
    Shapes(7, 2, Q, 3, P, 2);
    assert Factors(qa) == [AccountFactor(P, 3), KeyFactor(9, 2)];
    InsertTwo(AccountFactor(P, 3), KeyFactor(9, 2));
    MarksRun(env, qa, limit);
    forall n: nat ensures !Sat(env, {}, a, n) {
      NoKeys(env, qa, n);
      Sum2(env, {}, AccountFactor(Q, 3), AccountFactor(P, 2), n);
    }
  }

  lemma NoKeys(env: Env, qa: Authority, n: nat)
    requires env == Env(map[P := Key1(7), Q := qa], {}) && qa.threshold == 5
    requires Factors(qa) == [AccountFactor(P, 3), KeyFactor(9, 2)]
    ensures !Holds(env, {}, AccountFactor(P, 2), n) && !Holds(env, {}, AccountFactor(Q, 3), n)
  {
    if n > 0 {
      Shapes(7, 2, Q, 3, P, 2);
      Sum2(env, {}, KeyFactor(7, 1), KeyFactor(7, 1), n - 1);
      Sum2(env, {}, AccountFactor(P, 3), KeyFactor(9, 2), n - 1);
    }
  }

  lemma MarksRun(env: Env, qa: Authority, limit: nat)
    requires limit >= 2 && env == Env(map[P := Key1(7), Q := qa], {}) && qa.threshold == 5
    requires HeaviestFirst(qa) == [AccountFactor(P, 3), KeyFactor(9, 2)]
    ensures var r := Run(env, {7}, limit, Pair(2, Q, 3, P, 2)); r.ok && r.state.used == {}
  {
    Shapes(7, 2, Q, 3, P, 2);
    var s0 := Fresh(env);
    var s1 := State({}, map[Q := BeingEvaluated]);
    var s2 := State({}, map[Q := BeingEvaluated, P := BeingEvaluated]);
    var s3 := State({}, map[Q := BeingEvaluated, P := Satisfied]);
    Step1(env, {7}, KeyFactor(7, 1), 1, limit - 2, s2, 0);
    assert Check(env, {7}, Key1(7), limit - 2, s2) == Verdict(true, State({7}, s2.cache));
    assert s1.cache[P := BeingEvaluated] == s2.cache && s2.cache[P := Satisfied] == s3.cache;
    assert Visit(env, {7}, AccountFactor(P, 3), limit - 1, s1, 0) == Visited(3, State({7}, s3.cache));
    Step2(env, {7}, AccountFactor(P, 3), KeyFactor(9, 2), 5, limit - 1, s1);
    assert Check(env, {7}, qa, limit - 1, s1) == Verdict(false, s3);
    assert s0.cache[Q := BeingEvaluated] == s1.cache;
    Step2(env, {7}, AccountFactor(Q, 3), AccountFactor(P, 2), 2, limit, s0);
  }

  // ------------------------------------------------------- verdicts that go back

  /** With the cycle of P and Q a higher limit refuses what a lower one accepts. */
  lemma HigherLimitRefuses()
    ensures var env := Env(map[P := Authority(1, [(7, 1)], [(Q, 2)], []), Q := Via(P)], {});
            var a := Pair(2, P, 1, Q, 1);
            && WellFormed(env) && Small(a)
            && Run(env, {7}, 1, a).ok && !Run(env, {7}, 2, a).ok
  {
    var pa := Authority(1, [(7, 1)], [(Q, 2)], []);
    var env := Env(map[P := pa, Q := Via(P)], {});
    assert Factors(pa) == [AccountFactor(Q, 2), KeyFactor(7, 1)];
    InsertTwo(AccountFactor(Q, 2), KeyFactor(7, 1));
    CycleRefused(2);
    CutCycleRun(env, pa);
  }

  lemma CutCycleRun(env: Env, pa: Authority)
    requires env == Env(map[P := pa, Q := Via(P)], {}) && pa.threshold == 1
    requires HeaviestFirst(pa) == [AccountFactor(Q, 2), KeyFactor(7, 1)]
    ensures Run(env, {7}, 1, Pair(2, P, 1, Q, 1)).ok
  {
    Shapes(7, 2, P, 1, Q, 1);
    var s0 := Fresh(env);
    var s1 := State({}, map[P := BeingEvaluated]);
    var s2 := State({7}, map[P := Satisfied]);
    var s3 := State({7}, map[P := Satisfied, Q := BeingEvaluated]);
    Step2(env, {7}, AccountFactor(Q, 2), KeyFactor(7, 1), 1, 0, s1);
    assert Check(env, {7}, pa, 0, s1) == Verdict(true, State({7}, s1.cache));
    assert s0.cache[P := BeingEvaluated] == s1.cache && s1.cache[P := Satisfied] == s2.cache;
    assert Visit(env, {7}, AccountFactor(P, 1), 1, s0, 0) == Visited(1, s2);
    Step1(env, {7}, AccountFactor(P, 1), 1, 0, s3, 0);
    assert s2.cache[Q := BeingEvaluated] == s3.cache;
    assert Check(env, {7}, Via(P), 0, s3).ok;
    Step2(env, {7}, AccountFactor(P, 1), AccountFactor(Q, 1), 2, 1, s0);
  }

  const X := Permission(4, 1)

  /** Beside P and Q there is X, which accepts key 8 or Q. With key 8 it no longer has
    * to look at Q, so that Q is met first inside P, in the cycle. */
  function WithX(): Env {
    Env(map[P := Authority(1, [(7, 1)], [(Q, 2)], []), Q := Via(P), X := Authority(1, [(8, 3)], [(Q, 1)], [])], {})
  }

  function Three(): Authority {
    Authority(4, [], [(P, 1), (Q, 1), (X, 2)], [])
  }

  lemma ThreeShapes()
    ensures Factors(Three()) == [AccountFactor(P, 1), AccountFactor(Q, 1), AccountFactor(X, 2)]
    ensures HeaviestFirst(Three()) == [AccountFactor(X, 2), AccountFactor(P, 1), AccountFactor(Q, 1)]
    ensures HeaviestFirst(WithX().authorities[P]) == [AccountFactor(Q, 2), KeyFactor(7, 1)]
    ensures HeaviestFirst(WithX().authorities[X]) == [KeyFactor(8, 3), AccountFactor(Q, 1)]
  {
    var p, q, x := AccountFactor(P, 1), AccountFactor(Q, 1), AccountFactor(X, 2);
    assert Factors(Three()) == [p, q, x];
    InsertThree(p, q, x);
    assert Factors(WithX().authorities[P]) == [AccountFactor(Q, 2), KeyFactor(7, 1)];
    InsertTwo(AccountFactor(Q, 2), KeyFactor(7, 1));
    var k, o := KeyFactor(8, 3), AccountFactor(Q, 1);
    assert Factors(WithX().authorities[X]) == [o, k];
    InsertSwapped(o, k);
  }

  lemma InsertThree(p: Factor, q: Factor, x: Factor)
    requires !Heavier(q, p) && Heavier(x, p)
    ensures InsertAll([], [p, q, x]) == [x, p, q]
  {
    assert [p, q, x][1..] == [q, x] && [q, x][1..] == [x] && [x][1..] == [];
    assert Insert([p], q) == [p] + Insert([p][1..], q) == [p, q];
    assert Insert([p, q], x) == [x, p, q];
    assert InsertAll([p, q], [x]) == [x, p, q];
    assert InsertAll([p], [q, x]) == InsertAll([p, q], [x]);
  }

  lemma InsertSwapped(f: Factor, g: Factor)
    requires Heavier(g, f)
    ensures InsertAll([], [f, g]) == [g, f]
  {
    assert [f, g][1..] == [g] && [g][1..] == [];
    assert InsertAll([f], [g]) == InsertAll(Insert([f], g), []);
  }

  lemma Step3(env: Env, provided: set<Key>, f: Factor, g: Factor, h: Factor, t: Threshold, n: nat, s: State)
    ensures var v := Visit(env, provided, f, n, s, 0);
            var w := Visit(env, provided, g, n, v.state, v.total);
            var u := Visit(env, provided, h, n, w.state, w.total);
            v.total < t && w.total < t ==> Tally(env, provided, [f, g, h], t, n, s, 0) == Verdict(u.total >= t, u.state)
  {
    assert [f, g, h][1..] == [g, h] && [g, h][1..] == [h];
    var v := Visit(env, provided, f, n, s, 0);
    var w := Visit(env, provided, g, n, v.state, v.total);
    Step1(env, provided, h, t, n, w.state, w.total);
  }

  /** More keys refuse what fewer accept. */
  lemma MoreKeysRefuse()
    ensures WellFormed(WithX()) && Small(Three())
    ensures Run(WithX(), {7}, 3, Three()).ok && !Run(WithX(), {7, 8}, 3, Three()).ok
  {
    ThreeShapes();
    FewKeys();
    ManyKeys();
  }

  /** Q is met inside X, and P inside Q: each is satisfied and cached so. */
  lemma FewKeys()
    ensures Run(WithX(), {7}, 3, Three()).ok
  {
    ThreeShapes();
    Shapes(7, 2, P, 1, Q, 1);
    var env, xa, pa := WithX(), WithX().authorities[X], WithX().authorities[P];
    var s0 := Fresh(env);
    var s1 := State({}, map[X := BeingEvaluated]);
    var s2 := State({}, map[X := BeingEvaluated, Q := BeingEvaluated]);
    var s3 := State({}, map[X := BeingEvaluated, Q := BeingEvaluated, P := BeingEvaluated]);
    var s4 := State({7}, map[X := BeingEvaluated, Q := BeingEvaluated, P := Satisfied]);
    var s5 := State({7}, map[X := BeingEvaluated, Q := Satisfied, P := Satisfied]);
    var s6 := State({7}, map[X := Satisfied, Q := Satisfied, P := Satisfied]);
    Step2(env, {7}, AccountFactor(Q, 2), KeyFactor(7, 1), 1, 0, s3);
    assert Check(env, {7}, pa, 0, s3) == Verdict(true, State({7}, s3.cache));
    assert s2.cache[P := BeingEvaluated] == s3.cache && s3.cache[P := Satisfied] == s4.cache;
    Step1(env, {7}, AccountFactor(P, 1), 1, 1, s2, 0);
    assert Check(env, {7}, Via(P), 1, s2) == Verdict(true, s4);
    assert s1.cache[Q := BeingEvaluated] == s2.cache && s4.cache[Q := Satisfied] == s5.cache;
    Step2(env, {7}, KeyFactor(8, 3), AccountFactor(Q, 1), 1, 2, s1);
    assert Check(env, {7}, xa, 2, s1) == Verdict(true, s5);
    assert s0.cache[X := BeingEvaluated] == s1.cache && s5.cache[X := Satisfied] == s6.cache;
    assert Visit(env, {7}, AccountFactor(X, 2), 3, s0, 0) == Visited(2, s6);
    Step3(env, {7}, AccountFactor(X, 2), AccountFactor(P, 1), AccountFactor(Q, 1), 4, 3, s0);
  }

  lemma ManyKeys()
    ensures !Run(WithX(), {7, 8}, 3, Three()).ok
  {
    ThreeShapes();
    Shapes(7, 2, P, 1, Q, 1);
    var env, xa, pa, keys := WithX(), WithX().authorities[X], WithX().authorities[P], {7, 8};
    var s0 := Fresh(env);
    var s1 := State({}, map[X := BeingEvaluated]);
    var s2 := State({8}, map[X := Satisfied]);
    var s3 := State({8}, map[X := Satisfied, P := BeingEvaluated]);
    var s4 := State({8}, map[X := Satisfied, P := BeingEvaluated, Q := BeingEvaluated]);
    var s5 := State({8}, map[X := Satisfied, P := BeingEvaluated, Q := Unsatisfied]);
    var s6 := State({8, 7}, map[X := Satisfied, P := Satisfied, Q := Unsatisfied]);
    Step2(env, keys, KeyFactor(8, 3), AccountFactor(Q, 1), 1, 2, s1);
    assert Check(env, keys, xa, 2, s1) == Verdict(true, State({8}, s1.cache));
    assert s0.cache[X := BeingEvaluated] == s1.cache && s1.cache[X := Satisfied] == s2.cache;
    assert Visit(env, keys, AccountFactor(X, 2), 3, s0, 0) == Visited(2, s2);
    Step1(env, keys, AccountFactor(P, 1), 1, 1, s4, 0);
    assert Check(env, keys, Via(P), 1, s4) == Verdict(false, s4);
    assert s3.cache[Q := BeingEvaluated] == s4.cache && s4.cache[Q := Unsatisfied] == s5.cache;
    assert Visit(env, keys, AccountFactor(Q, 2), 2, s3, 0) == Visited(0, s5);
    Step2(env, keys, AccountFactor(Q, 2), KeyFactor(7, 1), 1, 2, s3);
    assert Check(env, keys, pa, 2, s3) == Verdict(true, State({8, 7}, s5.cache));
    assert s2.cache[P := BeingEvaluated] == s3.cache && s5.cache[P := Satisfied] == s6.cache;
    assert Visit(env, keys, AccountFactor(P, 1), 3, s2, 2) == Visited(3, s6);
    Step3(env, keys, AccountFactor(X, 2), AccountFactor(P, 1), AccountFactor(Q, 1), 4, 3, s0);
  }

  /** Neither condition is necessary: P, which accepts key 7 or itself, is met over and
    * over and has no end, and the verdict is exact with all keys at every limit. */
  lemma HarmlessLoop(keys: set<Key>, limit: nat)
    ensures var env := Env(map[P := Authority(1, [(7, 1)], [(P, 1)], [])], {});
            && (limit > 0 ==> !FindsAll(env, limit, Via(P)))
            && (Run(env, keys, limit, Via(P)).ok <==> Sat(env, keys, Via(P), limit))
  {
    var pa := Authority(1, [(7, 1)], [(P, 1)], []);
    var env := Env(map[P := pa], {});
    Shapes(7, 1, P, 1, P, 1);
    assert Factors(pa) == [AccountFactor(P, 1), KeyFactor(7, 1)];
    InsertSwapped(AccountFactor(P, 1), KeyFactor(7, 1));
    LoopRun(env, pa, keys, limit);
    LoopSat(env, pa, keys, limit);
    NoEnd(env, pa, limit);
    if limit > 0 {
      LoopTwice(env, pa, limit);
    }
  }

  lemma LoopRun(env: Env, pa: Authority, keys: set<Key>, limit: nat)
    requires env == Env(map[P := pa], {}) && pa.threshold == 1 && HeaviestFirst(pa) == [KeyFactor(7, 1), AccountFactor(P, 1)]
    ensures Run(env, keys, limit, Via(P)).ok <==> limit > 0 && 7 in keys
  {
    Shapes(7, 1, P, 1, P, 1);
    var s0, s1 := Fresh(env), State({}, map[P := BeingEvaluated]);
    Step1(env, keys, AccountFactor(P, 1), 1, limit, s0, 0);
    if limit > 0 {
      assert s0.cache[P := BeingEvaluated] == s1.cache;
      Step2(env, keys, KeyFactor(7, 1), AccountFactor(P, 1), 1, limit - 1, s1);
    }
  }

  lemma {:induction false} LoopSat(env: Env, pa: Authority, keys: set<Key>, n: nat)
    requires env == Env(map[P := pa], {}) && pa.threshold == 1 && Factors(pa) == [AccountFactor(P, 1), KeyFactor(7, 1)]
    ensures Sat(env, keys, Via(P), n) <==> n > 0 && 7 in keys
    decreases n
  {
    Shapes(7, 1, P, 1, P, 1);
    Sum2(env, keys, AccountFactor(P, 1), KeyFactor(7, 1), n);
    if n > 0 {
      Sum2(env, keys, AccountFactor(P, 1), KeyFactor(7, 1), n - 1);
      LoopSat(env, pa, keys, n - 1);
      assert Sat(env, keys, Via(P), n - 1) <==> Holds(env, keys, AccountFactor(P, 1), n - 1);
      assert Sat(env, keys, pa, n - 1) <==> 7 in keys;
    }
  }

  lemma {:induction false} NoEnd(env: Env, pa: Authority, n: nat)
    requires env == Env(map[P := pa], {}) && Factors(pa) == [AccountFactor(P, 1), KeyFactor(7, 1)]
    ensures !Bounded(env, Via(P), n) && !Bounded(env, pa, n)
    decreases n
  {
    Shapes(7, 1, P, 1, P, 1);
    assert AccountFactor(P, 1) == Factors(pa)[0] == Factors(Via(P))[0];
    if n > 0 {
      NoEnd(env, pa, n - 1);
    }
  }

  lemma LoopTwice(env: Env, pa: Authority, n: nat)
    requires env == Env(map[P := pa], {}) && Factors(pa) == [AccountFactor(P, 1), KeyFactor(7, 1)] && n > 0
    ensures !NothingMetTwice(env, n, Via(P))
  {
    Shapes(7, 1, P, 1, P, 1);
    var f := AccountFactor(P, 1);
    assert [f][1..] == [];
    assert P in Consulted(env, Factors(pa), n - 1) by { assert P in ConsultedBy(env, f, n - 1); }
    assert Consulted(env, Factors(Via(P)), n) == ConsultedBy(env, f, n);
    assert ConsultedBy(env, f, n)[P] >= 2;
  }
}
