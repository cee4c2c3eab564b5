/** The authority checker as an object, authority validation, and the key test of
  * block signing authorities. */
module AuthorityObjects {
  import opened AuthorityChecker
  import opened AuthorityExact
  import opened AuthorityLeast
  import opened AuthorityResults

  class Checker {
    const env: Env
    const provided: set<Key>
    const limit: nat
    var used: set<Key>
    var cache: map<Permission, Status>

    constructor (env: Env, provided: set<Key>, limit: nat)
      ensures this.env == env && this.provided == provided && this.limit == limit && used == {}
    {
      this.env := env;
      this.provided := provided;
      this.limit := limit;
      used := {};
      cache := map[];
    }

    /** Marks made by earlier calls on the same checker stay. */
    method Satisfied(a: Authority) returns (ok: bool)
      modifies this
      ensures Verdict(ok, State(used, cache)) == Check(env, provided, a, limit, State(old(used), Fresh(env).cache))
      ensures WellFormed(env) && ok ==> Forced(env, provided, a)
      ensures WellFormed(env) && Small(a) && Bounded(env, a, limit) ==> (ok <==> Forced(env, provided, a))
    {
      cache := map p | p in env.granted :: AuthorityChecker.Satisfied;
      ok := CheckAt(a, 0);
      if WellFormed(env) {
        CheckForced(env, provided, limit, a, old(used));
      }
    }

    method SatisfiedPermission(p: Permission) returns (ok: bool)
      modifies this
      ensures var v := Visit(env, provided, AccountFactor(p, 1), limit, State(old(used), Fresh(env).cache), 0);
              ok == (v.total > 0) && State(used, cache) == v.state
    {
      cache := map p | p in env.granted :: AuthorityChecker.Satisfied;
      var total := VisitFactor(AccountFactor(p, 1), 0, 0);
      ok := total > 0;
    }

    method CheckAt(a: Authority, depth: nat) returns (ok: bool)
      requires depth <= limit
      modifies this
      ensures Verdict(ok, State(used, cache)) == Check(env, provided, a, limit - depth, old(State(used, cache)))
      decreases limit - depth, 1
    {
      var usedBefore := used;
      ghost var s := State(used, cache);
      var permissions := Arrange(a);
      var total: nat := 0;
      var i := 0;
      ok := false;
      while i < |permissions|
        invariant 0 <= i <= |permissions|
        invariant Tally(env, provided, permissions, a.threshold, limit - depth, s, 0) ==
                  Tally(env, provided, permissions[i..], a.threshold, limit - depth, State(used, cache), total)
      {
        assert permissions[i..][0] == permissions[i] && permissions[i..][1..] == permissions[i + 1..];
        total := VisitFactor(permissions[i], depth, total);
        if total >= a.threshold {
          return true;
        }
        i := i + 1;
      }
      used := usedBefore;
    }

    method VisitFactor(f: Factor, depth: nat, total: nat) returns (newTotal: nat)
      requires depth <= limit
      modifies this
      ensures Visited(newTotal, State(used, cache)) == Visit(env, provided, f, limit - depth, old(State(used, cache)), total)
      decreases limit - depth, 0
    {
      newTotal := total;
      match f {
        case WaitFactor(_, _) =>
        case KeyFactor(k, w) =>
          if k in provided {
            used := used + {k};
            newTotal := Add32(total, w);
          }
        case AccountFactor(p, w) =>
          var status := StatusInCache(cache, p);
          if status.None? {
            if depth < limit && p in env.authorities {
              cache := cache[p := BeingEvaluated];
              var r := CheckAt(env.authorities[p], depth + 1);
              if r {
                newTotal := Add32(total, w);
                cache := cache[p := AuthorityChecker.Satisfied];
              } else {
                cache := cache[p := Unsatisfied];
              }
            }
          } else if status.value == AuthorityChecker.Satisfied {
            newTotal := Add32(total, w);
          }
      }
    }
  }

  /** The multimap of factors, filled one by one. */
  method Arrange(a: Authority) returns (permissions: seq<Factor>)
    ensures permissions == HeaviestFirst(a)
    ensures multiset(permissions) == multiset(Factors(a)) && Sorted(permissions)
  {
    var fs := Factors(a);
    permissions := [];
    var i := 0;
    while i < |fs|
      invariant 0 <= i <= |fs|
      invariant InsertAll(permissions, fs[i..]) == HeaviestFirst(a)
    {
      assert fs[i..][1..] == fs[i + 1..];
      permissions := Insert(permissions, fs[i]);
      i := i + 1;
    }
    VisitOrder(a);
  }

  // ------------------------------------------------------------------ validation

  predicate Precedes(p: Permission, q: Permission) {
    p.actor < q.actor || (p.actor == q.actor && p.name < q.name)
  }

  function WeightSum<T>(entries: seq<(T, Weight)>): nat {
    if entries == [] then 0 else WeightSum(entries[..|entries| - 1]) + entries[|entries| - 1].1
  }

  lemma {:induction false} WeightSumBound<T>(entries: seq<(T, Weight)>)
    ensures WeightSum(entries) <= 0xFFFF * |entries|
  {
    if entries != [] {
      WeightSumBound(entries[..|entries| - 1]);
    }
  }

  predicate Ascending(a: Authority) {
    && (forall i, j :: 0 <= i < j < |a.keys| ==> a.keys[i].0 < a.keys[j].0)
    && (forall i, j :: 0 <= i < j < |a.accounts| ==> Precedes(a.accounts[i].0, a.accounts[j].0))
    && (forall i, j :: 0 <= i < j < |a.waits| ==> a.waits[i].0 < a.waits[j].0)
    && (forall i :: 0 <= i < |a.waits| ==> a.waits[i].0 > 0)
  }

  /** Every factor counted, in unbounded arithmetic. */
  predicate Validated(a: Authority) {
    && |a.keys| + |a.accounts| + |a.waits| <= 0x1_0000
    && 0 < a.threshold <= WeightSum(a.keys) + WeightSum(a.accounts) + WeightSum(a.waits)
    && Ascending(a)
  }

  method Validate(a: Authority) returns (ok: bool)
    ensures ok <==> Validated(a)
  {
    if |a.keys| + |a.accounts| + |a.waits| > 0x1_0000 {
      return false;
    }
    if a.threshold == 0 {
      return false;
    }
    WeightSumBound(a.keys);
    WeightSumBound(a.accounts);
    WeightSumBound(a.waits);
    var keys := KeysAscend(a.keys);
    if keys.None? {
      return false;
    }
    var accounts := AccountsAscend(a.accounts, keys.value);
    if accounts.None? {
      return false;
    }
    var waits := WaitsAscend(a.waits, accounts.value);
    if waits.None? {
      return false;
    }
    ok := waits.value >= a.threshold;
  }

  method KeysAscend(keys: seq<(Key, Weight)>) returns (total: Option<nat>)
    requires |keys| <= 0x1_0000
    ensures total.Some? <==> forall i, j :: 0 <= i < j < |keys| ==> keys[i].0 < keys[j].0
    ensures total.Some? ==> total.value == WeightSum(keys)
  {
    var sum := 0;
    var i := 0;
    while i < |keys|
      invariant 0 <= i <= |keys| && sum == WeightSum(keys[..i])
      invariant forall i', j :: 0 <= i' < j < i ==> keys[i'].0 < keys[j].0
    {
      if i > 0 && !(keys[i - 1].0 < keys[i].0) {
        return None;
      }
      assert keys[..i + 1][..i] == keys[..i];
      WeightSumBound(keys[..i]);
      sum := Add32(sum, keys[i].1);
      i := i + 1;
    }
    assert keys[..i] == keys;
    total := Some(sum);
  }

  method AccountsAscend(accounts: seq<(Permission, Weight)>, before: nat) returns (total: Option<nat>)
    requires before + 0xFFFF * |accounts| < 0x1_0000_0000
    ensures total.Some? <==> forall i, j :: 0 <= i < j < |accounts| ==> Precedes(accounts[i].0, accounts[j].0)
    ensures total.Some? ==> total.value == before + WeightSum(accounts)
  {
    var sum := before;
    var i := 0;
    while i < |accounts|
      invariant 0 <= i <= |accounts| && sum == before + WeightSum(accounts[..i])
      invariant forall i', j :: 0 <= i' < j < i ==> Precedes(accounts[i'].0, accounts[j].0)
    {
      if i > 0 && !Precedes(accounts[i - 1].0, accounts[i].0) {
        return None;
      }
      assert accounts[..i + 1][..i] == accounts[..i];
      WeightSumBound(accounts[..i]);
      sum := Add32(sum, accounts[i].1);
      i := i + 1;
    }
    assert accounts[..i] == accounts;
    total := Some(sum);
  }

  method WaitsAscend(waits: seq<(nat, Weight)>, before: nat) returns (total: Option<nat>)
    requires before + 0xFFFF * |waits| < 0x1_0000_0000
    ensures total.Some? <==> (forall i, j :: 0 <= i < j < |waits| ==> waits[i].0 < waits[j].0) &&
                             (forall i :: 0 <= i < |waits| ==> waits[i].0 > 0)
    ensures total.Some? ==> total.value == before + WeightSum(waits)
  {
    if |waits| > 0 && waits[0].0 == 0 {
      return None;
    }
    var sum := before;
    var i := 0;
    while i < |waits|
      invariant 0 <= i <= |waits| && sum == before + WeightSum(waits[..i])
      invariant forall i', j :: 0 <= i' < j < i ==> waits[i'].0 < waits[j].0
      invariant forall i' :: 0 <= i' < i ==> waits[i'].0 > 0
    {
      if i > 0 && waits[i - 1].0 >= waits[i].0 {
        return None;
      }
      assert waits[..i + 1][..i] == waits[..i];
      WeightSumBound(waits[..i]);
      sum := Add32(sum, waits[i].1);
      i := i + 1;
    }
    assert waits[..i] == waits;
    total := Some(sum);
  }

  // --------------------------------------------- what validation does not promise

  predicate Everything(env: Env, provided: set<Key>, f: Factor) {
    match f
    case KeyFactor(k, _) => k in provided
    case AccountFactor(p, _) => Granted(env, p)
    case WaitFactor(_, _) => true
  }

  function WithoutWaits(fs: seq<Factor>): nat {
    if fs == [] then 0 else (if fs[0].WaitFactor? then 0 else fs[0].weight) + WithoutWaits(fs[1..])
  }

  lemma {:induction false} WaitsNeverCount(env: Env, provided: set<Key>, fs: seq<Factor>, n: nat)
    ensures Held(env, provided, fs, n) <= WithoutWaits(fs)
    ensures (forall i :: 0 <= i < |fs| ==> Everything(env, provided, fs[i])) ==> Held(env, provided, fs, n) == WithoutWaits(fs)
  {
    if fs != [] {
      WaitsNeverCount(env, provided, fs[1..], n);
      if forall i :: 0 <= i < |fs| ==> Everything(env, provided, fs[i]) {
        assert Everything(env, provided, fs[0]);
        assert forall i :: 0 <= i < |fs[1..]| ==> fs[1..][i] == fs[i + 1];
      }
    }
  }

  ghost predicate CanBeSatisfied(a: Authority) {
    exists env, provided, limit :: WellFormed(env) && Run(env, provided, limit, a).ok
  }

  /** Validation counts waits but the checker never does: a validated authority can
    * be satisfied exactly when its keys and accounts alone reach the threshold. */
  lemma SatisfiableIff(a: Authority)
    requires Validated(a)
    ensures CanBeSatisfied(a) <==> WithoutWaits(Factors(a)) >= a.threshold
  {
    if CanBeSatisfied(a) {
      var env, provided, limit: nat :| WellFormed(env) && Run(env, provided, limit, a).ok;
      Sound(env, provided, limit, a);
      var m: nat :| Sat(env, provided, a, m);
      WaitsNeverCount(env, provided, Factors(a), m);
    }
    if WithoutWaits(Factors(a)) >= a.threshold {
      var env := Env(map[], set i | 0 <= i < |a.accounts| :: a.accounts[i].0);
      var provided := set i | 0 <= i < |a.keys| :: a.keys[i].0;
      AllProvided(a, env, provided);
      WaitsNeverCount(env, provided, Factors(a), 0);
      ExactWhenBounded(env, provided, 0, a);
    }
  }

  lemma AllProvided(a: Authority, env: Env, provided: set<Key>)
    requires env == Env(map[], set i | 0 <= i < |a.accounts| :: a.accounts[i].0)
    requires provided == set i | 0 <= i < |a.keys| :: a.keys[i].0
    ensures forall i :: 0 <= i < |Factors(a)| ==> Everything(env, provided, Factors(a)[i])
  {
    forall i | 0 <= i < |Factors(a)| ensures Everything(env, provided, Factors(a)[i]) {
      var n, m := |a.accounts|, |a.keys|;
      if i < n {
        assert Factors(a)[i] == AccountFactor(a.accounts[i].0, a.accounts[i].1);
      } else if i < n + m {
        assert Factors(a)[i] == KeyFactor(a.keys[i - n].0, a.keys[i - n].1);
      } else {
        assert Factors(a)[i] == WaitFactor(a.waits[i - n - m].0, a.waits[i - n - m].1);
      }
    }
  }

  // ------------------------------------------------------ block signing authorities

  function Present(keys: seq<(Key, Weight)>, presented: set<Key>): seq<(Key, Weight)> {
    if keys == [] then []
    else
      var last := keys[|keys| - 1];
      Present(keys[..|keys| - 1], presented) + (if last.0 in presented then [last] else [])
  }

  /** Saturating accumulation that stops at the threshold decides it exactly. */
  method KeysSatisfyAndRelevant(threshold: Threshold, keys: seq<(Key, Weight)>, presented: set<Key>)
    returns (satisfied: bool, relevant: nat)
    ensures satisfied <==> WeightSum(Present(keys, presented)) >= threshold
    ensures relevant == |Present(keys, presented)|
  {
    relevant := 0;
    var total := 0;
    var i := 0;
    while i < |keys|
      invariant 0 <= i <= |keys| && relevant == |Present(keys[..i], presented)|
      invariant 0 <= total <= 0xFFFF_FFFF
      invariant if total < threshold then total == WeightSum(Present(keys[..i], presented))
                else WeightSum(Present(keys[..i], presented)) >= threshold
    {
      assert keys[..i + 1][..i] == keys[..i];
      ghost var before := Present(keys[..i], presented);
      assert (before + [keys[i]])[..|before|] == before;
      if keys[i].0 in presented {
        relevant := relevant + 1;
        if total < threshold {
          var room := 0xFFFF_FFFF - total;
          total := total + if room < keys[i].1 then room else keys[i].1;
        }
      } else {
        assert before + [] == before;
      }
      i := i + 1;
    }
    assert keys[..i] == keys;
    satisfied := total >= threshold;
  }

  method PlainSum(keys: seq<(Key, Weight)>) returns (total: nat)
    ensures total == WeightSum(keys) % 0x1_0000_0000
  {
    total := 0;
    var i := 0;
    while i < |keys|
      invariant 0 <= i <= |keys| && total == WeightSum(keys[..i]) % 0x1_0000_0000
    {
      assert keys[..i + 1][..i] == keys[..i];
      total := Add32(total, keys[i].1);
      i := i + 1;
    }
    assert keys[..i] == keys;
  }
}
