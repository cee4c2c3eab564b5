/** Which of the provided keys the checker marks as used. */
module AuthorityMarks {
  import opened AuthorityChecker
  import opened AuthorityExact

  // ------------------------------------------------------------------ nothing beside the point

  /** The key is an entry of the authority, or of one below it that nesting lets in. */
  predicate Listed(env: Env, a: Authority, n: nat, k: Key)
    decreases n
  {
    || (exists i :: 0 <= i < |a.keys| && a.keys[i].0 == k)
    || (n > 0 && exists i :: 0 <= i < |a.accounts| && ListedBelow(env, a.accounts[i].0, n, k))
  }

  predicate ListedBelow(env: Env, p: Permission, n: nat, k: Key)
    requires n > 0
    decreases n, 0
  {
    p in env.authorities && Listed(env, env.authorities[p], n - 1, k)
  }

  predicate ListedBy(env: Env, f: Factor, n: nat, k: Key) {
    match f
    case KeyFactor(key, _) => key == k
    case AccountFactor(p, _) => n > 0 && ListedBelow(env, p, n, k)
    case WaitFactor(_, _) => false
  }

  /** Every new mark is on a provided key that the authority, or one below it, lists. */
  lemma {:induction false} MarksListed(env: Env, provided: set<Key>, a: Authority, n: nat, s: State, k: Key)
    requires k in Check(env, provided, a, n, s).state.used && k !in s.used
    ensures k in provided && Listed(env, a, n, k)
    decreases n, 2
  {
    var f := TallyListed(env, provided, HeaviestFirst(a), a.threshold, n, s, 0, k);
    VisitOrder(a);
    assert f in multiset(Factors(a));
    FactorListed(env, a, n, f, k);
  }

  lemma FactorListed(env: Env, a: Authority, n: nat, f: Factor, k: Key)
    requires f in Factors(a) && ListedBy(env, f, n, k)
    ensures Listed(env, a, n, k)
  {
    var i :| 0 <= i < |Factors(a)| && Factors(a)[i] == f;
    if i < |a.accounts| {
      assert ListedBelow(env, a.accounts[i].0, n, k);
    } else if i < |a.accounts| + |a.keys| {
      assert a.keys[i - |a.accounts|].0 == k;
    }
  }

  lemma {:induction false} TallyListed(env: Env, provided: set<Key>, fs: seq<Factor>, threshold: Threshold, n: nat, s: State, total: nat, k: Key)
    returns (f: Factor)
    requires k in Tally(env, provided, fs, threshold, n, s, total).state.used && k !in s.used
    ensures f in fs && k in provided && ListedBy(env, f, n, k)
    decreases n, 1, |fs|
  {
    f := fs[0];
    var v := Visit(env, provided, f, n, s, total);
    if k in v.state.used {
      VisitListed(env, provided, f, n, s, total, k);
    } else {
      f := TallyListed(env, provided, fs[1..], threshold, n, v.state, v.total, k);
    }
  }

  lemma {:induction false} VisitListed(env: Env, provided: set<Key>, f: Factor, n: nat, s: State, total: nat, k: Key)
    requires k in Visit(env, provided, f, n, s, total).state.used && k !in s.used
    ensures k in provided && ListedBy(env, f, n, k)
    decreases n, 0
  {
    if f.AccountFactor? {
      var p := f.permission;
      MarksListed(env, provided, env.authorities[p], n - 1, s.(cache := s.cache[p := BeingEvaluated]), k);
    }
  }

  // ------------------------------------------------------------- the marks of plain keys

  /** Weight of the entries whose key is provided. */
  function KeySum(fs: seq<Factor>, provided: set<Key>): nat {
    if fs == [] then 0
    else (if fs[0].KeyFactor? && fs[0].key in provided then fs[0].weight else 0) + KeySum(fs[1..], provided)
  }

  function KeysIn(fs: seq<Factor>, provided: set<Key>): set<Key> {
    set f | f in fs && f.KeyFactor? && f.key in provided :: f.key
  }

  /** m entries are as many as it takes to reach the threshold. */
  predicate JustEnough(fs: seq<Factor>, provided: set<Key>, threshold: nat, m: nat) {
    && 0 < m <= |fs| && KeySum(fs[..m], provided) >= threshold
    && (m > 1 ==> KeySum(fs[..m - 1], provided) < threshold)
  }

  lemma KeySumFront(fs: seq<Factor>, provided: set<Key>, m: nat)
    requires 0 < m <= |fs|
    ensures KeySum(fs[..m], provided) == KeySum(fs[..1], provided) + KeySum(fs[1..][..m - 1], provided)
  {
    assert fs[..m][1..] == fs[1..][..m - 1];
    assert fs[..1][1..] == [];
  }

  lemma KeysInFront(fs: seq<Factor>, provided: set<Key>, m: nat)
    requires 0 < m <= |fs|
    ensures KeysIn(fs[..m], provided) == KeysIn(fs[..1], provided) + KeysIn(fs[1..][..m - 1], provided)
  {
    assert fs[..m] == fs[..1] + fs[1..][..m - 1];
  }

  lemma {:induction false} TallyKeys(env: Env, provided: set<Key>, fs: seq<Factor>, threshold: Threshold, n: nat, s: State, total: nat) returns (m: nat)
    requires (forall i :: 0 <= i < |fs| ==> !fs[i].AccountFactor?) && total + Total(fs) < 0x1_0000_0000
    ensures var r := Tally(env, provided, fs, threshold, n, s, total);
            && (r.ok ==>
                  && 0 < m <= |fs| && total + KeySum(fs[..m], provided) >= threshold
                  && (m > 1 ==> total + KeySum(fs[..m - 1], provided) < threshold)
                  && r.state.used == s.used + KeysIn(fs[..m], provided))
            && (!r.ok ==> fs == [] || total + KeySum(fs, provided) < threshold)
    decreases |fs|
  {
    m := 0;
    if fs != [] {
      var v := Visit(env, provided, fs[0], n, s, total);
      KeySumFront(fs, provided, 1);
      KeysInFront(fs, provided, 1);
      assert fs[..1] == [fs[0]] && fs[1..][..0] == [];
      m := 1;
      if v.total < threshold {
        var k := TallyKeys(env, provided, fs[1..], threshold, n, v.state, v.total);
        if Tally(env, provided, fs, threshold, n, s, total).ok {
          m := k + 1;
          KeySumFront(fs, provided, m);
          KeysInFront(fs, provided, m);
          if k > 0 {
            KeySumFront(fs, provided, k);
          }
        }
      }
    }
  }

  /** Of an authority without accounts exactly the provided keys are marked that stand among
    * the first entries it takes to reach the threshold, the heaviest first. */
  lemma MarksOfKeys(env: Env, provided: set<Key>, a: Authority, n: nat, s: State, h: seq<Factor>) returns (m: nat)
    requires a.accounts == [] && Small(a) && h == HeaviestFirst(a)
    ensures var r := Check(env, provided, a, n, s);
            && (r.ok <==> h != [] && KeySum(h, provided) >= a.threshold)
            && (r.ok ==> JustEnough(h, provided, a.threshold, m) && r.state.used == s.used + KeysIn(h[..m], provided))
            && (!r.ok ==> r.state.used == s.used)
  {
    VisitOrder(a);
    TotalFits(a);
    forall i | 0 <= i < |h| ensures !h[i].AccountFactor? {
      assert h[i] in multiset(h);
      assert h[i] in Factors(a);
    }
    m := TallyKeys(env, provided, h, a.threshold, n, s, 0);
    if 0 < m <= |h| {
      KeySumPart(h, provided, m);
    }
  }

  lemma {:induction false} KeySumPart(fs: seq<Factor>, provided: set<Key>, m: nat)
    requires m <= |fs|
    ensures KeySum(fs[..m], provided) <= KeySum(fs, provided)
    decreases m
  {
    if m > 0 {
      assert fs[..m][1..] == fs[1..][..m - 1];
      KeySumPart(fs[1..], provided, m - 1);
    }
  }
}
