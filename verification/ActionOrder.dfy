/** The order in which the actions of a transaction run: the traces read as a
  * forest, and the walk through it. */
module ActionOrder {

  datatype Action = Action(account: nat, data: nat)

  /** Ordinals count from 1 in the order of scheduling; 0 stands for the transaction.
    * `ancestor` is the closest action that is not a notification. */
  datatype Trace = Trace(action: Action, receiver: nat, contextFree: bool, creator: nat, ancestor: nat)

  datatype Kind = Notification | ContextFree | Inline

  function KindOf(t: Trace): Kind {
    if t.receiver != t.action.account then Notification else if t.contextFree then ContextFree else Inline
  }

  predicate Between(us: seq<nat>, below: nat, top: nat) {
    forall i :: 0 <= i < |us| ==> below < us[i] <= top
  }

  /** Ordinals of one kind directly below action u, in order of scheduling. */
  function Kids(traces: seq<Trace>, u: nat, k: Kind): (r: seq<nat>)
    ensures Between(r, u, |traces|)
  {
    if traces == [] then []
    else
      var n := |traces|;
      var t := traces[n - 1];
      Kids(traces[..n - 1], u, k) + if t.ancestor == u && n > u && KindOf(t) == k then [n] else []
  }

  /** An action, its notifications, then what its context-free inline actions run,
    * then what its inline actions run. */
  function Walk(traces: seq<Trace>, u: nat): seq<nat>
    requires u <= |traces|
    decreases |traces| - u, 1, 0
  {
    [u] + Kids(traces, u, Notification) +
    WalkAll(traces, u, Kids(traces, u, ContextFree)) + WalkAll(traces, u, Kids(traces, u, Inline))
  }

  function WalkAll(traces: seq<Trace>, below: nat, us: seq<nat>): seq<nat>
    requires Between(us, below, |traces|)
    decreases |traces| - below, 0, |us|
  {
    if us == [] then [] else Walk(traces, us[0]) + WalkAll(traces, below, us[1..])
  }

  predicate Prefix(s: seq<nat>, t: seq<nat>) {
    |s| <= |t| && t[..|s|] == s
  }

  predicate Increasing(us: seq<nat>) {
    forall i, j :: 0 <= i < j < |us| ==> us[i] < us[j]
  }

  lemma {:induction false} KidsIncreasing(traces: seq<Trace>, u: nat, k: Kind)
    ensures Increasing(Kids(traces, u, k))
  {
    if traces != [] {
      KidsIncreasing(traces[..|traces| - 1], u, k);
    }
  }

  // ---------------------------------------------------------------- growing traces

  lemma KidsSnoc(traces: seq<Trace>, t: Trace, u: nat, k: Kind)
    ensures Kids(traces + [t], u, k) ==
            Kids(traces, u, k) + if t.ancestor == u && |traces| + 1 > u && KindOf(t) == k then [|traces| + 1] else []
  {
    assert (traces + [t])[..|traces|] == traces;
  }

  lemma {:induction false} KidsFrame(traces: seq<Trace>, more: seq<Trace>, u: nat, k: Kind)
    requires forall t :: t in more ==> t.ancestor != u
    ensures Kids(traces + more, u, k) == Kids(traces, u, k)
    decreases |more|
  {
    if more == [] {
      assert traces + more == traces;
    } else {
      var n := |more| - 1;
      assert traces + more == (traces + more[..n]) + [more[n]];
      KidsSnoc(traces + more[..n], more[n], u, k);
      KidsFrame(traces, more[..n], u, k);
    }
  }

  /** Traces added elsewhere do not change the walk below u. */
  lemma {:induction false} WalkFrame(traces: seq<Trace>, more: seq<Trace>, u: nat)
    requires u <= |traces| && forall t :: t in more ==> t.ancestor !in Walk(traces, u)
    ensures Walk(traces + more, u) == Walk(traces, u)
    decreases |traces| - u, 1, 0
  {
    assert u in Walk(traces, u);
    forall k ensures Kids(traces + more, u, k) == Kids(traces, u, k) {
      KidsFrame(traces, more, u, k);
    }
    WalkAllFrame(traces, more, u, Kids(traces, u, ContextFree));
    WalkAllFrame(traces, more, u, Kids(traces, u, Inline));
  }

  lemma {:induction false} WalkAllFrame(traces: seq<Trace>, more: seq<Trace>, below: nat, us: seq<nat>)
    requires Between(us, below, |traces|)
    requires forall t :: t in more ==> t.ancestor !in WalkAll(traces, below, us)
    ensures WalkAll(traces + more, below, us) == WalkAll(traces, below, us)
    decreases |traces| - below, 0, |us|
  {
    if us != [] {
      WalkFrame(traces, more, us[0]);
      WalkAllFrame(traces, more, below, us[1..]);
    }
  }

  lemma {:induction false} WalkAllAppend(traces: seq<Trace>, below: nat, us: seq<nat>, vs: seq<nat>)
    requires Between(us, below, |traces|) && Between(vs, below, |traces|)
    ensures WalkAll(traces, below, us + vs) == WalkAll(traces, below, us) + WalkAll(traces, below, vs)
    decreases |us|
  {
    if us == [] {
      assert us + vs == vs;
    } else {
      assert (us + vs)[1..] == us[1..] + vs;
      WalkAllAppend(traces, below, us[1..], vs);
    }
  }

  // ------------------------------------------------- what running one action means

  /** Outcome of running: done, failed in an action, or stopped before one that is
    * nested too deep. */
  datatype Status = Done | Failed(at: nat) | TooDeep(at: nat)

  /** Everything scheduled meanwhile hangs below one of `us` or below something new. */
  ghost predicate Grew(before: seq<Trace>, after: seq<Trace>, us: seq<nat>) {
    && |before| <= |after| && after[..|before|] == before
    && forall i :: |before| <= i < |after| ==> after[i].ancestor in us || after[i].ancestor > |before|
  }

  /** `order` visits each of `us` and everything new once. */
  ghost predicate VisitsOnce(before: seq<Trace>, after: seq<Trace>, us: seq<nat>, order: seq<nat>) {
    && |order| == |us| + |after| - |before|
    && (forall x :: x in order <==> x in us || |before| < x <= |after|)
  }

  /** The executed actions follow the walk: all of it, or a part up to the failure. */
  ghost predicate Follows(executed: seq<nat>, after: seq<nat>, order: seq<nat>, r: Status) {
    match r
    case Done => after == executed + order
    case Failed(at) => Prefix(after + [at], executed + order)
    case TooDeep(at) => Prefix(after + [at], executed + order)
  }

  ghost predicate Ran(t0: seq<Trace>, t1: seq<Trace>, below: nat, us: seq<nat>, e0: seq<nat>, e1: seq<nat>, r: Status) {
    && Between(us, below, |t0|)
    && Grew(t0, t1, us)
    && Follows(e0, e1, WalkAll(t1, below, us), r)
    && (r.Done? ==> VisitsOnce(t0, t1, us, WalkAll(t1, below, us)))
  }

  /** The run of one action. */
  ghost predicate RanOne(t0: seq<Trace>, t1: seq<Trace>, u: nat, e0: seq<nat>, e1: seq<nat>, r: Status) {
    && u <= |t0|
    && Grew(t0, t1, [u])
    && Follows(e0, e1, Walk(t1, u), r)
    && (r.Done? ==> VisitsOnce(t0, t1, [u], Walk(t1, u)))
  }

  lemma RanNone(t: seq<Trace>, below: nat, e: seq<nat>)
    ensures Ran(t, t, below, [], e, e, Done)
  {
  }

  /** Running one more action of a list. */
  lemma RanSnoc(t0: seq<Trace>, t1: seq<Trace>, t2: seq<Trace>, below: nat, us: seq<nat>, u: nat,
                e0: seq<nat>, e1: seq<nat>, e2: seq<nat>, r: Status)
    requires Ran(t0, t1, below, us, e0, e1, Done) && below < u <= |t0| && u !in us
    requires RanOne(t1, t2, u, e1, e2, r)
    ensures Ran(t0, t2, below, us + [u], e0, e2, r)
  {
    var w, x := WalkAll(t1, below, us), Walk(t2, u);
    WalkSnoc(t0, t1, t2, below, us, u);
    FollowsSnoc(e0, e1, e2, w, x, r);
    GrewTwice(t0, t1, t2, us, u);
    if r.Done? {
      VisitsSnoc(t0, t1, t2, us, u, w, x);
    }
  }

  lemma WalkSnoc(t0: seq<Trace>, t1: seq<Trace>, t2: seq<Trace>, below: nat, us: seq<nat>, u: nat)
    requires Between(us, below, |t0|) && |t0| <= |t1| && Grew(t1, t2, [u]) && below < u <= |t0| && u !in us
    requires VisitsOnce(t0, t1, us, WalkAll(t1, below, us))
    ensures WalkAll(t2, below, us + [u]) == WalkAll(t1, below, us) + Walk(t2, u)
  {
    var more := t2[|t1|..];
    assert t2 == t1 + more;
    forall t | t in more ensures t.ancestor !in WalkAll(t1, below, us) {
      var i :| 0 <= i < |more| && more[i] == t;
      assert t2[|t1| + i] == t;
    }
    WalkAllFrame(t1, more, below, us);
    WalkAllAppend(t2, below, us, [u]);
    assert [u][1..] == [] && WalkAll(t2, below, [u]) == Walk(t2, u) + [];
  }

  lemma FollowsSnoc(e0: seq<nat>, e1: seq<nat>, e2: seq<nat>, w: seq<nat>, x: seq<nat>, r: Status)
    requires e1 == e0 + w && Follows(e1, e2, x, r)
    ensures Follows(e0, e2, w + x, r)
  {
    assert e0 + (w + x) == (e0 + w) + x;
  }

  lemma VisitsSnoc(t0: seq<Trace>, t1: seq<Trace>, t2: seq<Trace>, us: seq<nat>, u: nat, w: seq<nat>, x: seq<nat>)
    requires |t0| <= |t1| <= |t2| && VisitsOnce(t0, t1, us, w) && VisitsOnce(t1, t2, [u], x)
    ensures VisitsOnce(t0, t2, us + [u], w + x)
  {
  }

  lemma GrewTwice(t0: seq<Trace>, t1: seq<Trace>, t2: seq<Trace>, us: seq<nat>, u: nat)
    requires Grew(t0, t1, us) && Grew(t1, t2, [u])
    ensures Grew(t0, t2, us + [u])
  {
    forall i | |t0| <= i < |t2| ensures t2[i].ancestor in us + [u] || t2[i].ancestor > |t0| {
      if i < |t1| {
        assert t2[i] == t2[..|t1|][i] == t1[i];
      }
    }
  }

  /** A failure in the middle of a list. */
  lemma RanPart(t0: seq<Trace>, t1: seq<Trace>, below: nat, us: seq<nat>, vs: seq<nat>, e0: seq<nat>, e1: seq<nat>, r: Status)
    requires Ran(t0, t1, below, us, e0, e1, r) && !r.Done? && Between(vs, below, |t0|)
    ensures Ran(t0, t1, below, us + vs, e0, e1, r)
  {
    WalkAllAppend(t1, below, us, vs);
    var w, x := WalkAll(t1, below, us), WalkAll(t1, below, vs);
    assert e0 + (w + x) == (e0 + w) + x;
  }
}
