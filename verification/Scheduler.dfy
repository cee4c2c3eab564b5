/** Running the actions of a transaction: notifications, inline actions, ordinals. */
module Scheduler {
  import opened ActionOrder
  import opened ActionReplay

  /** Bookkeeping of one action that is not a notification. */
  datatype Context = Context(first: nat, notified: seq<(nat, nat)>, contextFree: seq<nat>, inlines: seq<nat>)

  function Ordinals(notified: seq<(nat, nat)>): (r: seq<nat>)
    ensures |r| == |notified|
  {
    seq(|notified|, i requires 0 <= i < |notified| => notified[i].1)
  }

  predicate HasRecipient(c: Context, name: nat) {
    exists i :: 0 <= i < |c.notified| && c.notified[i].0 == name
  }

  // ------------------------------------------------------------------ invariants

  /** Ordinals point back, and every ancestor is no notification. */
  predicate WellFormed(traces: seq<Trace>) {
    forall i :: 0 <= i < |traces| ==> Linked(traces, i)
  }

  predicate Linked(traces: seq<Trace>, i: nat)
    requires i < |traces|
  {
    var t := traces[i];
    && t.ancestor <= t.creator <= i
    && (t.ancestor == 0 <==> t.creator == 0)
    && (t.ancestor > 0 ==>
          && KindOf(traces[t.ancestor - 1]) != Notification
          && (t.creator == t.ancestor ||
              (KindOf(traces[t.creator - 1]) == Notification && traces[t.creator - 1].ancestor == t.ancestor)))
    && (KindOf(t) == Notification ==> t.ancestor > 0 && t.action == traces[t.ancestor - 1].action)
  }

  predicate NoKids(traces: seq<Trace>, u: nat) {
    forall i :: 0 <= i < |traces| ==> traces[i].ancestor != u
  }

  /** Everything scheduled since hangs directly below u. */
  predicate AllUnder(before: seq<Trace>, after: seq<Trace>, u: nat) {
    && |before| <= |after| && after[..|before|] == before
    && forall i :: |before| <= i < |after| ==> after[i].ancestor == u
  }

  /** The context lists exactly what the traces have below u. */
  predicate Tracks(traces: seq<Trace>, c: Context) {
    var u := c.first;
    && 0 < u <= |traces| && KindOf(traces[u - 1]) != Notification
    && Ordinals(c.notified) == [u] + Kids(traces, u, Notification)
    && c.contextFree == Kids(traces, u, ContextFree) && c.inlines == Kids(traces, u, Inline)
  }

  /** Recipients are told apart by name, and each has its own trace of the action. */
  predicate Recipients(traces: seq<Trace>, c: Context) {
    && (forall i, j :: 0 <= i < j < |c.notified| ==> c.notified[i].0 != c.notified[j].0)
    && (forall i :: 0 <= i < |c.notified| ==> Recipient(traces, c.first, c.notified[i]))
  }

  predicate Recipient(traces: seq<Trace>, u: nat, n: (nat, nat)) {
    && 0 < u <= |traces| && 0 < n.1 <= |traces|
    && traces[n.1 - 1].receiver == n.0 && traces[n.1 - 1].action == traces[u - 1].action
    && (n.1 == u || (KindOf(traces[n.1 - 1]) == Notification && traces[n.1 - 1].ancestor == u))
  }

  lemma LinkedSnoc(traces: seq<Trace>, t: Trace)
    requires WellFormed(traces) && Linked(traces + [t], |traces|)
    ensures WellFormed(traces + [t])
  {
    var all := traces + [t];
    forall i | 0 <= i < |all| ensures Linked(all, i) {
      if i < |traces| {
        assert Linked(traces, i);
        assert all[i] == traces[i];
        assert forall j :: 0 <= j < |traces| ==> all[j] == traces[j];
      }
    }
  }

  lemma RecipientsSnoc(traces: seq<Trace>, t: Trace, c: Context)
    requires Recipients(traces, c)
    ensures Recipients(traces + [t], c)
  {
    forall i | 0 <= i < |c.notified| ensures Recipient(traces + [t], c.first, c.notified[i]) {
      assert Recipient(traces, c.first, c.notified[i]);
    }
  }

  lemma {:induction false} KidsNone(traces: seq<Trace>, u: nat, k: Kind)
    requires NoKids(traces, u)
    ensures Kids(traces, u, k) == []
  {
    if traces != [] {
      assert forall i :: 0 <= i < |traces| - 1 ==> traces[..|traces| - 1][i] == traces[i];
      KidsNone(traces[..|traces| - 1], u, k);
    }
  }

  // -------------------------------------------------------------- the transaction

  class TransactionContext {
    const rules: Rules
    var traces: seq<Trace>
    var executed: seq<nat>

    constructor (rules: Rules)
      ensures this.rules == rules && traces == [] && executed == []
    {
      this.rules := rules;
      traces := [];
      executed := [];
    }

    /** One call made by the code running under ordinal `current`. */
    method MakeCall(c: Context, current: nat, call: Call) returns (c': Context)
      requires Bound(traces, c) && Running(c, current)
      modifies this`traces
      ensures Bound(traces, c') && Extends(c, c') && AllUnder(old(traces), traces, c.first)
      ensures 0 < c.first <= |old(traces)| && 0 < current <= |old(traces)|
      ensures traces == old(traces) + CallTrace(old(traces), c.first, current, call)
    {
      Current(traces, c, current);
      match call {
        case Notify(name) =>
          c' := c;
          ToldIff(traces, c, name);
          if !HasRecipient(c, name) {
            FirstIsRecipient(traces, c);
            c' := Schedule(c, Trace(traces[current - 1].action, name, false, current, c.first));
          }
        case SendInline(a) =>
          c' := Schedule(c, Trace(a, a.account, false, current, c.first));
        case SendContextFree(a) =>
          c' := Schedule(c, Trace(a, a.account, true, current, c.first));
      }
    }

    method Schedule(c: Context, t: Trace) returns (c': Context)
      requires Bound(traces, c) && t.ancestor == c.first && Running(c, t.creator)
      requires KindOf(t) == Notification ==> t.action == traces[c.first - 1].action && !HasRecipient(c, t.receiver)
      modifies this`traces
      ensures Bound(traces, c') && Extends(c, c') && AllUnder(old(traces), traces, c.first)
      ensures traces == old(traces) + [t] && c' == Listed(c, t, |traces|)
    {
      c' := Listed(c, t, |traces| + 1);
      AddTrace(traces, t, c);
      traces := traces + [t];
    }

    /** Runs the code of one receiver. An account that does not exist, or code that
      * throws, leaves no receipt. */
    method ExecOne(c: Context, i: nat) returns (c': Context, ok: bool)
      requires Bound(traces, c) && i < |c.notified|
      modifies this`traces, this`executed
      ensures Bound(traces, c') && Extends(c, c') && AllUnder(old(traces), traces, c.first)
      ensures 0 < c.notified[i].1 <= |old(traces)|
      ensures traces == old(traces) + Segment(rules, old(traces), c.notified[i].1, |old(executed)|)
      ensures ok == Succeeds(rules, old(traces), c.notified[i].1, |old(executed)|)
      ensures executed == if ok then old(executed) + [c.notified[i].1] else old(executed)
      ensures ok ==> c.notified[i].0 in rules.accounts
    {
      var receiver, current := c.notified[i].0, c.notified[i].1;
      c' := c;
      Current(traces, c, current);
      assert Recipient(traces, c.first, c.notified[i]);
      if receiver !in rules.accounts {
        return c, false;
      }
      var b := rules.handler(|executed|, receiver, traces[current - 1].action);
      c' := MakeCalls(c, i, b.calls);
      ok := b.ok;
      if ok {
        executed := executed + [current];
      }
    }

    /** All calls of one receiver, in order. */
    method MakeCalls(c: Context, i: nat, calls: seq<Call>) returns (c': Context)
      requires Bound(traces, c) && i < |c.notified|
      modifies this`traces
      ensures Bound(traces, c') && Extends(c, c') && AllUnder(old(traces), traces, c.first)
      ensures 0 < c.first <= |old(traces)| && 0 < c.notified[i].1 <= |old(traces)|
      ensures traces == old(traces) + CallTraces(old(traces), c.first, c.notified[i].1, calls)
    {
      var current := c.notified[i].1;
      c' := c;
      Current(traces, c, current);
      var k := 0;
      assert calls[0..] == calls;
      while k < |calls|
        invariant 0 <= k <= |calls| && Bound(traces, c') && Extends(c, c') && AllUnder(old(traces), traces, c.first)
        invariant old(traces) + CallTraces(old(traces), c.first, current, calls) ==
                  traces + CallTraces(traces, c.first, current, calls[k..])
      {
        assert c'.notified[i] == c'.notified[..|c.notified|][i];
        ghost var t1 := traces;
        CallsStep(traces, c.first, current, calls, k);
        c' := MakeCall(c', current, calls[k]);
        UnderTwice(old(traces), t1, traces, c.first);
        k := k + 1;
      }
      assert calls[k..] == [];
    }

    /** Runs an action and everyone it notifies; `k` of them ran. */
    method NotifyAll(u: nat) returns (c: Context, k: nat)
      requires WellFormed(traces) && 0 < u <= |traces| && KindOf(traces[u - 1]) != Notification && NoKids(traces, u)
      modifies this`traces, this`executed
      ensures Bound(traces, c) && c.first == u && AllUnder(old(traces), traces, u)
      ensures k <= |c.notified| && executed == old(executed) + Ordinals(c.notified)[..k]
      ensures Replays(rules, old(traces), Ordinals(c.notified)[..k], |old(executed)|, traces,
                      if k < |c.notified| then Failed(c.notified[k].1) else Done)
    {
      c := Context(u, [(traces[u - 1].receiver, u)], [], []);
      StartBound(traces, u);
      k := 0;
      ghost var done := [];
      while k < |c.notified|
        invariant Bound(traces, c) && c.first == u && AllUnder(old(traces), traces, u)
        invariant k <= |c.notified| && done == Ordinals(c.notified)[..k] && executed == old(executed) + done
        invariant forall j :: 0 <= j < k ==> c.notified[j].0 in rules.accounts
        invariant Replays(rules, old(traces), done, |old(executed)|, traces, Done)
        decreases |rules.accounts| + 1 - k
      {
        RecipientsBound(traces, c, k, rules.accounts);
        var ok;
        c, ok := NotifyNext(c, k, old(traces), old(executed), done);
        if !ok {
          return;
        }
        done := Ordinals(c.notified)[..k + 1];
        k := k + 1;
      }
    }

    /** Runs the next receiver. */
    method NotifyNext(c: Context, k: nat, ghost t0: seq<Trace>, ghost e0: seq<nat>, ghost done: seq<nat>) returns (c': Context, ok: bool)
      requires Bound(traces, c) && k < |c.notified| && done == Ordinals(c.notified)[..k] && AllUnder(t0, traces, c.first)
      requires executed == e0 + done && Replays(rules, t0, done, |e0|, traces, Done)
      requires forall j :: 0 <= j < k ==> c.notified[j].0 in rules.accounts
      modifies this`traces, this`executed
      ensures Bound(traces, c') && c'.first == c.first && k < |c'.notified| && AllUnder(t0, traces, c.first)
      ensures ok ==> (forall j :: 0 <= j < k + 1 ==> c'.notified[j].0 in rules.accounts) && executed == e0 + Ordinals(c'.notified)[..k + 1]
      ensures ok ==> Replays(rules, t0, Ordinals(c'.notified)[..k + 1], |e0|, traces, Done)
      ensures !ok ==> done == Ordinals(c'.notified)[..k] && executed == e0 + done
      ensures !ok ==> Replays(rules, t0, done, |e0|, traces, Failed(c'.notified[k].1))
    {
      c', ok := RunNext(c, k, t0, e0, done);
      Longer(c, c', k);
    }

    method RunNext(c: Context, k: nat, ghost t0: seq<Trace>, ghost e0: seq<nat>, ghost done: seq<nat>) returns (c': Context, ok: bool)
      requires Bound(traces, c) && k < |c.notified| && |done| == k && AllUnder(t0, traces, c.first)
      requires executed == e0 + done && Replays(rules, t0, done, |e0|, traces, Done)
      modifies this`traces, this`executed
      ensures Bound(traces, c') && Extends(c, c') && AllUnder(t0, traces, c.first)
      ensures ok ==> c.notified[k].0 in rules.accounts && executed == e0 + (done + [c.notified[k].1])
      ensures ok ==> Replays(rules, t0, done + [c.notified[k].1], |e0|, traces, Done)
      ensures !ok ==> executed == e0 + done && Replays(rules, t0, done, |e0|, traces, Failed(c.notified[k].1))
    {
      ghost var t1, x := traces, c.notified[k].1;
      c', ok := ExecOne(c, k);
      UnderTwice(t0, t1, traces, c.first);
      OneMore(rules, t0, done, |e0|, t1, x, traces);
      Associates(e0, done, [x]);
    }

    /** Runs an action, its notifications and all that they send. */
    method ExecuteAction(u: nat, depth: nat) returns (r: Status)
      requires depth <= rules.maxDepth && Depth(traces, u) == depth
      requires WellFormed(traces) && 0 < u <= |traces| && KindOf(traces[u - 1]) != Notification && NoKids(traces, u)
      modifies this`traces, this`executed
      ensures WellFormed(traces) && RanOne(old(traces), traces, u, old(executed), executed, r)
      ensures Obeys(rules, old(traces), old(executed), traces, executed, r)
      decreases rules.maxDepth - depth, 1
    {
      var c, k := NotifyAll(u);
      ghost var t1, e1 := traces, executed;
      Counted(old(executed), Ordinals(c.notified)[..k], executed);
      if k < |c.notified| {
        StoppedEarly(old(traces), traces, c, old(executed), k);
        return Failed(c.notified[k].1);
      }
      assert Ordinals(c.notified)[..k] == Ordinals(c.notified);
      Nesting(old(traces), traces, c, depth);
      if (c.contextFree != [] || c.inlines != []) && depth >= rules.maxDepth {
        var x := if c.contextFree != [] then c.contextFree[0] else c.inlines[0];
        StoppedDeep(old(traces), traces, c, old(executed), x);
        DeepKid(rules, old(traces), traces, c, Ordinals(c.notified), |old(executed)|, depth, x);
        return TooDeep(x);
      }
      Shallow(rules, old(traces), traces, c, depth);
      r := RunSent(c, depth, e1);
      Finished(old(traces), t1, traces, c, old(executed), e1, executed, r);
      ObeysThen(rules, old(traces), old(executed), t1, e1, traces, executed, r);
    }

    /** Runs the actions that were sent, context-free ones first. */
    method RunSent(c: Context, depth: nat, ghost e1: seq<nat>) returns (r: Status)
      requires WellFormed(traces) && Tracks(traces, c) && executed == e1
      requires Waiting(traces, c.contextFree) && Waiting(traces, c.inlines) && NoRepeats(c.contextFree + c.inlines)
      requires AllAt(traces, c.contextFree, depth + 1) && AllAt(traces, c.inlines, depth + 1)
      requires c.contextFree == [] == c.inlines || depth < rules.maxDepth
      modifies this`traces, this`executed
      ensures WellFormed(traces) && Ran(old(traces), traces, c.first, c.contextFree + c.inlines, e1, executed, r)
      ensures Obeys(rules, old(traces), e1, traces, executed, r)
      decreases rules.maxDepth - depth, 0, 1
    {
      if c.contextFree == [] && c.inlines == [] {
        RanNone(traces, c.first, executed);
        ObeysNone(rules, traces, executed);
        assert c.contextFree + c.inlines == [];
        return Done;
      }
      r := RunLists(c.contextFree, c.inlines, depth, c.first, e1);
    }

    method RunLists(contextFree: seq<nat>, inlines: seq<nat>, depth: nat, ghost below: nat, ghost e1: seq<nat>) returns (r: Status)
      requires WellFormed(traces) && executed == e1 && depth < rules.maxDepth
      requires Between(contextFree, below, |traces|) && Between(inlines, below, |traces|)
      requires Waiting(traces, contextFree) && Waiting(traces, inlines) && NoRepeats(contextFree + inlines)
      requires AllAt(traces, contextFree, depth + 1) && AllAt(traces, inlines, depth + 1)
      modifies this`traces, this`executed
      ensures WellFormed(traces) && Ran(old(traces), traces, below, contextFree + inlines, e1, executed, r)
      ensures Obeys(rules, old(traces), e1, traces, executed, r)
      decreases rules.maxDepth - depth, 0, 0
    {
      ghost var t1 := traces;
      RanNone(traces, below, executed);
      ObeysNone(rules, traces, executed);
      assert [] + contextFree == contextFree;
      assert NoRepeats(contextFree) by { FirstPart(contextFree, inlines); }
      r := ExecuteList(contextFree, depth + 1, below, t1, e1, []);
      if r.Done? {
        r := ExecuteList(inlines, depth + 1, below, t1, e1, contextFree);
      } else {
        RanPart(t1, traces, below, contextFree, inlines, e1, executed, r);
      }
    }

    /** Runs actions one after the other. */
    method ExecuteList(us: seq<nat>, depth: nat, ghost below: nat, ghost t1: seq<Trace>, ghost e1: seq<nat>, ghost done: seq<nat>)
      returns (r: Status)
      requires depth <= rules.maxDepth
      requires WellFormed(traces) && Ran(t1, traces, below, done, e1, executed, Done) && Obeys(rules, t1, e1, traces, executed, Done)
      requires Between(us, below, |t1|) && NoRepeats(done + us) && Waiting(t1, us) && AllAt(t1, us, depth)
      modifies this`traces, this`executed
      ensures WellFormed(traces) && Ran(t1, traces, below, done + us, e1, executed, r)
      ensures Obeys(rules, t1, e1, traces, executed, r)
      decreases rules.maxDepth - depth, 2
    {
      r := Done;
      var i := 0;
      assert done + us[..0] == done;
      while i < |us|
        invariant 0 <= i <= |us| && WellFormed(traces) && r == Done
        invariant Ran(t1, traces, below, done + us[..i], e1, executed, Done)
        invariant Obeys(rules, t1, e1, traces, executed, Done)
      {
        ghost var t2, e2 := traces, executed;
        StillWaiting(t1, traces, done, us, i);
        DepthLater(t1, traces, us[i]);
        r := ExecuteAction(us[i], depth);
        ListStep(t1, t2, traces, below, done, us, i, e1, e2, executed, r);
        ObeysThen(rules, t1, e1, t2, e2, traces, executed, r);
        if !r.Done? {
          return;
        }
        i := i + 1;
      }
      assert us[..i] == us;
    }

    /** The whole transaction: context-free actions first, then actions. */
    method Exec(contextFreeActions: seq<Action>, actions: seq<Action>) returns (r: Status)
      requires traces == [] && executed == []
      modifies this`traces, this`executed
      ensures WellFormed(traces)
      ensures Complete(rules, RootTraces(contextFreeActions, true) + RootTraces(actions, false), traces, executed, r)
    {
      ScheduleRoots(contextFreeActions, true);
      ScheduleRoots(actions, false);
      assert traces == RootTraces(contextFreeActions, true) + RootTraces(actions, false);
      r := ExecuteRoots();
    }

    method ExecuteRoots() returns (r: Status)
      requires WellFormed(traces) && Roots(traces) && executed == []
      modifies this`traces, this`executed
      ensures WellFormed(traces) && Complete(rules, old(traces), traces, executed, r)
    {
      var n := |traces|;
      RanNone(traces, 0, executed);
      ObeysNone(rules, traces, executed);
      RootsWait(traces);
      assert [] + UpTo(n) == UpTo(n);
      r := ExecuteList(UpTo(n), 0, 0, traces, [], []);
      WholeRun(rules, old(traces), traces, executed, r);
    }

    method ScheduleRoots(actions: seq<Action>, contextFree: bool)
      requires WellFormed(traces) && Roots(traces)
      modifies this`traces
      ensures WellFormed(traces) && Roots(traces) && traces == old(traces) + RootTraces(actions, contextFree)
    {
      var i := 0;
      while i < |actions|
        invariant 0 <= i <= |actions| && WellFormed(traces) && Roots(traces)
        invariant traces == old(traces) + RootTraces(actions, contextFree)[..i]
      {
        var t := Trace(actions[i], actions[i].account, contextFree, 0, 0);
        LinkedSnoc(traces, t);
        traces := traces + [t];
        i := i + 1;
      }
    }
  }

  // --------------------------------------------------------------- one run and the next

  lemma OneMore(rules: Rules, t0: seq<Trace>, done: seq<nat>, i: nat, t1: seq<Trace>, x: nat, t2: seq<Trace>)
    requires Replays(rules, t0, done, i, t1, Done) && 0 < x <= |t1| && t2 == t1 + Segment(rules, t1, x, i + |done|)
    ensures Succeeds(rules, t1, x, i + |done|) ==> Replays(rules, t0, done + [x], i, t2, Done)
    ensures !Succeeds(rules, t1, x, i + |done|) ==> Replays(rules, t0, done, i, t2, Failed(x))
  {
    ReplaysStep(rules, t1, x, i + |done|);
    if Succeeds(rules, t1, x, i + |done|) {
      ReplaysThen(rules, t0, done, i, t1, [x], t2, Done);
    } else {
      ReplaysThen(rules, t0, done, i, t1, [], t2, Failed(x));
      assert done + [] == done;
    }
  }

  lemma Counted(e0: seq<nat>, part: seq<nat>, e1: seq<nat>)
    requires e1 == e0 + part
    ensures |e0| <= |e1| && e1[..|e0|] == e0 && e1[|e0|..] == part
  {
  }

  lemma CallsStep(traces: seq<Trace>, u: nat, x: nat, calls: seq<Call>, k: nat)
    requires k < |calls| && 0 < u <= |traces| && 0 < x <= |traces|
    ensures var next := traces + CallTrace(traces, u, x, calls[k]);
            traces + CallTraces(traces, u, x, calls[k..]) == next + CallTraces(next, u, x, calls[k + 1..])
  {
    var made := CallTrace(traces, u, x, calls[k]);
    assert calls[k..][0] == calls[k] && calls[k..][1..] == calls[k + 1..];
    Associates(traces, made, CallTraces(traces + made, u, x, calls[k + 1..]));
  }

  /** The context knows who was told. */
  lemma ToldIff(traces: seq<Trace>, c: Context, name: nat)
    requires Bound(traces, c)
    ensures 0 < c.first <= |traces| && (HasRecipient(c, name) <==> Told(traces, c.first, name))
  {
    var u := c.first;
    assert Ordinals(c.notified)[0] == u && Recipient(traces, u, c.notified[0]);
    if HasRecipient(c, name) {
      RecipientTold(traces, c, name);
    }
    if Told(traces, u, name) && traces[u - 1].receiver != name {
      var i :| 0 <= i < |traces| && traces[i].ancestor == u && KindOf(traces[i]) == Notification && traces[i].receiver == name;
      ToldRecipient(traces, c, i);
    }
  }

  lemma RecipientTold(traces: seq<Trace>, c: Context, name: nat)
    requires Recipients(traces, c) && 0 < c.first <= |traces| && HasRecipient(c, name)
    ensures Told(traces, c.first, name)
  {
    var j :| 0 <= j < |c.notified| && c.notified[j].0 == name;
    assert Recipient(traces, c.first, c.notified[j]);
    assert traces[c.notified[j].1 - 1].receiver == name;
  }

  lemma ToldRecipient(traces: seq<Trace>, c: Context, i: nat)
    requires Bound(traces, c) && i < |traces| && traces[i].ancestor == c.first && KindOf(traces[i]) == Notification
    ensures HasRecipient(c, traces[i].receiver)
  {
    assert Linked(traces, i);
    KidsHas(traces, c.first, Notification, i);
    var ks := Kids(traces, c.first, Notification);
    var j :| 0 <= j < |ks| && ks[j] == i + 1;
    assert ([c.first] + ks)[j + 1] == i + 1;
    assert Ordinals(c.notified)[j + 1] == i + 1 && Recipient(traces, c.first, c.notified[j + 1]);
  }

  lemma {:induction false} KidsHas(traces: seq<Trace>, u: nat, k: Kind, i: nat)
    requires i < |traces| && traces[i].ancestor == u && u <= i && KindOf(traces[i]) == k
    ensures i + 1 in Kids(traces, u, k)
  {
    if i < |traces| - 1 {
      KidsHas(traces[..|traces| - 1], u, k, i);
    }
  }

  predicate AllAt(traces: seq<Trace>, us: seq<nat>, depth: nat) {
    forall i :: 0 <= i < |us| ==> us[i] <= |traces| && Depth(traces, us[i]) == depth
  }

  /** What an action sends is one level deeper. */
  lemma KidsDeeper(traces: seq<Trace>, u: nat, k: Kind)
    requires WellFormed(traces) && 0 < u <= |traces| && k != Notification
    ensures AllAt(traces, Kids(traces, u, k), Depth(traces, u) + 1)
  {
    var us := Kids(traces, u, k);
    forall i | 0 <= i < |us| ensures Depth(traces, us[i]) == Depth(traces, u) + 1 {
      KidsKind(traces, u, k, i);
      KidsAncestor(traces, u, k, i);
    }
  }

  lemma {:induction false} KidsAncestor(traces: seq<Trace>, u: nat, k: Kind, i: nat)
    requires i < |Kids(traces, u, k)|
    ensures traces[Kids(traces, u, k)[i] - 1].ancestor == u
  {
    var n := |traces| - 1;
    if i < |Kids(traces[..n], u, k)| {
      KidsAncestor(traces[..n], u, k, i);
    }
  }

  /** Everything sent waits, one level deeper. */
  lemma Nesting(t0: seq<Trace>, t1: seq<Trace>, c: Context, depth: nat)
    requires WellFormed(t0) && WellFormed(t1) && Tracks(t1, c) && AllUnder(t0, t1, c.first) && NoKids(t0, c.first) && c.first <= |t0|
    requires Depth(t0, c.first) == depth
    ensures Depth(t1, c.first) == depth
    ensures AllAt(t1, c.contextFree, depth + 1) && AllAt(t1, c.inlines, depth + 1)
    ensures Waiting(t1, c.contextFree) && Waiting(t1, c.inlines) && NoRepeats(c.contextFree + c.inlines)
  {
    DepthLater(t0, t1, c.first);
    KidsDeeper(t1, c.first, ContextFree);
    KidsDeeper(t1, c.first, Inline);
    Sent(t0, t1, c);
  }

  lemma FirstPart(s: seq<nat>, t: seq<nat>)
    requires NoRepeats(s + t)
    ensures NoRepeats(s)
  {
    forall i, j | 0 <= i < j < |s| ensures s[i] != s[j] {
      assert (s + t)[i] == s[i] && (s + t)[j] == s[j];
    }
  }

  lemma DeepKid(rules: Rules, t0: seq<Trace>, t1: seq<Trace>, c: Context, order: seq<nat>, i: nat, depth: nat, x: nat)
    requires Replays(rules, t0, order, i, t1, Done) && AllUnder(t0, t1, c.first) && NoKids(t0, c.first) && c.first <= |t0|
    requires Tracks(t1, c) && AllAt(t1, c.contextFree, depth + 1) && AllAt(t1, c.inlines, depth + 1)
    requires depth >= rules.maxDepth && (x in c.contextFree || x in c.inlines)
    ensures Replays(rules, t0, order, i, t1, TooDeep(x)) && NestsWithin(rules, t0, t1, TooDeep(x))
  {
    KidsNew(t0, t1, c.first, ContextFree);
    KidsNew(t0, t1, c.first, Inline);
    AlsoStopped(rules, t0, order, i, t1, x);
  }

  lemma {:induction false} AlsoStopped(rules: Rules, t0: seq<Trace>, order: seq<nat>, i: nat, t1: seq<Trace>, x: nat)
    requires Replays(rules, t0, order, i, t1, Done)
    ensures Replays(rules, t0, order, i, t1, TooDeep(x))
    decreases |order|
  {
    if order != [] {
      AlsoStopped(rules, t0 + Segment(rules, t0, order[0], i), order[1..], i + 1, t1, x);
    }
  }

  lemma Shallow(rules: Rules, t0: seq<Trace>, t1: seq<Trace>, c: Context, depth: nat)
    requires WellFormed(t1) && Tracks(t1, c) && AllUnder(t0, t1, c.first) && c.first <= |t0| && Depth(t1, c.first) == depth <= rules.maxDepth
    requires c.contextFree == [] == c.inlines || depth < rules.maxDepth
    ensures NestsWithin(rules, t0, t1, Done)
  {
    forall x | |t0| < x <= |t1| ensures Depth(t1, x) <= rules.maxDepth {
      assert Linked(t1, x - 1) && t1[x - 1].ancestor == c.first;
      if KindOf(t1[x - 1]) != Notification {
        KidsHas(t1, c.first, KindOf(t1[x - 1]), x - 1);
      }
    }
  }

  // ---------------------------------------------------------- putting runs together

  predicate NoRepeats(us: seq<nat>) {
    forall i, j :: 0 <= i < j < |us| ==> us[i] != us[j]
  }

  /** Scheduled but not run yet. */
  predicate Waiting(traces: seq<Trace>, us: seq<nat>) {
    forall i :: 0 <= i < |us| ==>
      0 < us[i] <= |traces| && NoKids(traces, us[i]) && KindOf(traces[us[i] - 1]) != Notification
  }

  lemma StillWaiting(t1: seq<Trace>, t2: seq<Trace>, done: seq<nat>, us: seq<nat>, i: nat)
    requires i < |us| && Waiting(t1, us) && Grew(t1, t2, done + us[..i]) && NoRepeats(done + us)
    ensures 0 < us[i] <= |t2| && NoKids(t2, us[i]) && KindOf(t2[us[i] - 1]) != Notification
    ensures us[i] !in done + us[..i]
  {
    var before := done + us[..i];
    forall k | 0 <= k < |before| ensures before[k] != us[i] {
      assert before[k] == (done + us)[k] && us[i] == (done + us)[|done| + i];
    }
    forall k | 0 <= k < |t2| ensures t2[k].ancestor != us[i] {
      if k < |t1| {
        assert t2[k] == t2[..|t1|][k] == t1[k];
      }
    }
    assert t2[us[i] - 1] == t2[..|t1|][us[i] - 1];
  }

  lemma ListStep(t1: seq<Trace>, t2: seq<Trace>, t3: seq<Trace>, below: nat, done: seq<nat>, us: seq<nat>, i: nat,
                 e1: seq<nat>, e2: seq<nat>, e3: seq<nat>, r: Status)
    requires i < |us| && Between(us, below, |t1|) && us[i] !in done + us[..i]
    requires Ran(t1, t2, below, done + us[..i], e1, e2, Done) && RanOne(t2, t3, us[i], e2, e3, r)
    ensures Ran(t1, t3, below, done + us[..i + 1], e1, e3, r)
    ensures !r.Done? ==> Ran(t1, t3, below, done + us, e1, e3, r)
  {
    RanSnoc(t1, t2, t3, below, done + us[..i], us[i], e1, e2, e3, r);
    assert done + us[..i] + [us[i]] == done + us[..i + 1];
    if !r.Done? {
      RanPart(t1, t3, below, done + us[..i + 1], us[i + 1..], e1, e3, r);
      assert done + us[..i + 1] + us[i + 1..] == done + us;
    }
  }

  lemma WalkOf(traces: seq<Trace>, c: Context)
    requires Tracks(traces, c)
    ensures Between(c.contextFree + c.inlines, c.first, |traces|)
    ensures Walk(traces, c.first) == Ordinals(c.notified) + WalkAll(traces, c.first, c.contextFree + c.inlines)
  {
    var a, b := WalkAll(traces, c.first, c.contextFree), WalkAll(traces, c.first, c.inlines);
    WalkAllAppend(traces, c.first, c.contextFree, c.inlines);
    Associates(Ordinals(c.notified), a, b);
  }

  lemma Associates<T>(x: seq<T>, y: seq<T>, z: seq<T>)
    ensures x + y + z == x + (y + z)
  {
  }

  lemma GrewUnder(t0: seq<Trace>, t1: seq<Trace>, u: nat)
    requires AllUnder(t0, t1, u)
    ensures Grew(t0, t1, [u])
  {
  }

  lemma StoppedEarly(t0: seq<Trace>, t1: seq<Trace>, c: Context, e0: seq<nat>, k: nat)
    requires Tracks(t1, c) && AllUnder(t0, t1, c.first) && c.first <= |t0| && k < |c.notified|
    ensures RanOne(t0, t1, c.first, e0, e0 + Ordinals(c.notified)[..k], Failed(c.notified[k].1))
  {
    WalkOf(t1, c);
    GrewUnder(t0, t1, c.first);
    PrefixPart(e0, Ordinals(c.notified), WalkAll(t1, c.first, c.contextFree + c.inlines), k);
  }

  lemma PrefixPart(e: seq<nat>, x: seq<nat>, y: seq<nat>, k: nat)
    requires k < |x|
    ensures Prefix(e + x[..k] + [x[k]], e + (x + y))
  {
  }

  lemma StoppedDeep(t0: seq<Trace>, t1: seq<Trace>, c: Context, e0: seq<nat>, x: nat)
    requires Tracks(t1, c) && AllUnder(t0, t1, c.first) && c.first <= |t0| && c.contextFree + c.inlines != []
    requires x == (c.contextFree + c.inlines)[0]
    ensures RanOne(t0, t1, c.first, e0, e0 + Ordinals(c.notified), TooDeep(x))
  {
    WalkOf(t1, c);
    GrewUnder(t0, t1, c.first);
    var w := WalkAll(t1, c.first, c.contextFree + c.inlines);
    assert w[0] == x;
    assert e0 + (Ordinals(c.notified) + w) == e0 + Ordinals(c.notified) + w;
  }

  lemma {:induction false} KidsNew(t0: seq<Trace>, t1: seq<Trace>, u: nat, k: Kind)
    requires AllUnder(t0, t1, u) && NoKids(t0, u) && u <= |t0|
    ensures Between(Kids(t1, u, k), |t0|, |t1|)
    ensures forall i :: |t0| <= i < |t1| && KindOf(t1[i]) == k ==> i + 1 in Kids(t1, u, k)
    decreases |t1|
  {
    if |t1| == |t0| {
      assert t1 == t0;
      KidsNone(t1, u, k);
    } else {
      var n := |t1| - 1;
      assert t1[..n][..|t0|] == t0;
      KidsNew(t0, t1[..n], u, k);
      forall i | |t0| <= i < n && KindOf(t1[i]) == k ensures i + 1 in Kids(t1[..n], u, k) {
        assert t1[..n][i] == t1[i];
      }
    }
  }

  lemma {:induction false} KidsCount(t0: seq<Trace>, t1: seq<Trace>, u: nat)
    requires AllUnder(t0, t1, u) && NoKids(t0, u) && u <= |t0|
    ensures |Kids(t1, u, Notification)| + |Kids(t1, u, ContextFree)| + |Kids(t1, u, Inline)| == |t1| - |t0|
    decreases |t1|
  {
    if |t1| == |t0| {
      assert t1 == t0;
      KidsNone(t1, u, Notification);
      KidsNone(t1, u, ContextFree);
      KidsNone(t1, u, Inline);
    } else {
      assert t1[..|t1| - 1][..|t0|] == t0;
      KidsCount(t0, t1[..|t1| - 1], u);
    }
  }

  lemma {:induction false} KidsKind(traces: seq<Trace>, u: nat, k: Kind, i: nat)
    requires i < |Kids(traces, u, k)|
    ensures KindOf(traces[Kids(traces, u, k)[i] - 1]) == k
  {
    var n := |traces| - 1;
    if i < |Kids(traces[..n], u, k)| {
      KidsKind(traces[..n], u, k, i);
    }
  }

  /** What an action sent waits to be run. */
  lemma Sent(t0: seq<Trace>, t1: seq<Trace>, c: Context)
    requires WellFormed(t0) && Tracks(t1, c) && AllUnder(t0, t1, c.first) && NoKids(t0, c.first) && c.first <= |t0|
    ensures Waiting(t1, c.contextFree) && Waiting(t1, c.inlines)
    ensures NoRepeats(c.contextFree) && NoRepeats(c.contextFree + c.inlines)
  {
    WaitingKids(t0, t1, c.first, ContextFree);
    WaitingKids(t0, t1, c.first, Inline);
    forall i, j | 0 <= i < |c.contextFree| && 0 <= j < |c.inlines| ensures c.contextFree[i] != c.inlines[j] {
      KidsKind(t1, c.first, ContextFree, i);
      KidsKind(t1, c.first, Inline, j);
    }
    KidsIncreasing(t1, c.first, ContextFree);
    KidsIncreasing(t1, c.first, Inline);
    JoinNoRepeats(c.contextFree, c.inlines);
  }

  lemma JoinNoRepeats(s: seq<nat>, t: seq<nat>)
    requires Increasing(s) && Increasing(t) && forall i, j :: 0 <= i < |s| && 0 <= j < |t| ==> s[i] != t[j]
    ensures NoRepeats(s + t)
  {
  }

  lemma WaitingKids(t0: seq<Trace>, t1: seq<Trace>, u: nat, k: Kind)
    requires WellFormed(t0) && AllUnder(t0, t1, u) && u <= |t0| && NoKids(t0, u) && k != Notification
    ensures Waiting(t1, Kids(t1, u, k))
  {
    KidsNew(t0, t1, u, k);
    var us := Kids(t1, u, k);
    forall i | 0 <= i < |us| ensures NoKids(t1, us[i]) && KindOf(t1[us[i] - 1]) != Notification {
      KidsKind(t1, u, k, i);
      forall j | 0 <= j < |t1| ensures t1[j].ancestor != us[i] {
        if j < |t0| {
          assert t1[j] == t1[..|t0|][j] && Linked(t0, j);
        }
      }
    }
  }

  lemma Finished(t0: seq<Trace>, t1: seq<Trace>, t2: seq<Trace>, c: Context, e0: seq<nat>, e1: seq<nat>, e2: seq<nat>, r: Status)
    requires WellFormed(t0) && Tracks(t1, c) && AllUnder(t0, t1, c.first) && NoKids(t0, c.first) && c.first <= |t0|
    requires e1 == e0 + Ordinals(c.notified) && Ran(t1, t2, c.first, c.contextFree + c.inlines, e1, e2, r)
    ensures RanOne(t0, t2, c.first, e0, e2, r)
  {
    var u, us := c.first, c.contextFree + c.inlines;
    KidsNew(t0, t1, u, ContextFree);
    KidsNew(t0, t1, u, Inline);
    StillTracks(t1, t2, c);
    WalkOf(t2, c);
    FollowsSnoc(e0, e1, e2, Ordinals(c.notified), WalkAll(t2, u, us), r);
    GrewBelow(t0, t1, t2, u, us);
    if r.Done? {
      OnceBelow(t0, t1, t2, c, WalkAll(t2, u, us));
    }
  }

  lemma StillTracks(t1: seq<Trace>, t2: seq<Trace>, c: Context)
    requires Tracks(t1, c) && Grew(t1, t2, c.contextFree + c.inlines)
    ensures Tracks(t2, c)
  {
    var more, us := t2[|t1|..], c.contextFree + c.inlines;
    assert t2 == t1 + more;
    assert Between(us, c.first, |t1|);
    forall t | t in more ensures t.ancestor != c.first {
      var i :| 0 <= i < |more| && more[i] == t;
      assert t2[|t1| + i] == t;
    }
    KidsFrame(t1, more, c.first, Notification);
    KidsFrame(t1, more, c.first, ContextFree);
    KidsFrame(t1, more, c.first, Inline);
  }

  lemma GrewBelow(t0: seq<Trace>, t1: seq<Trace>, t2: seq<Trace>, u: nat, us: seq<nat>)
    requires AllUnder(t0, t1, u) && Grew(t1, t2, us) && Between(us, |t0|, |t1|)
    ensures Grew(t0, t2, [u])
  {
    forall i | |t0| <= i < |t2| ensures t2[i].ancestor in [u] || t2[i].ancestor > |t0| {
      if i < |t1| {
        assert t2[i] == t2[..|t1|][i];
      }
    }
  }

  lemma OnceBelow(t0: seq<Trace>, t1: seq<Trace>, t2: seq<Trace>, c: Context, w: seq<nat>)
    requires Tracks(t1, c) && AllUnder(t0, t1, c.first) && NoKids(t0, c.first) && c.first <= |t0|
    requires |t1| <= |t2| && VisitsOnce(t1, t2, c.contextFree + c.inlines, w)
    ensures VisitsOnce(t0, t2, [c.first], Ordinals(c.notified) + w)
  {
    var u, us := c.first, c.contextFree + c.inlines;
    KidsCount(t0, t1, u);
    KidsNew(t0, t1, u, Notification);
    KidsNew(t0, t1, u, ContextFree);
    KidsNew(t0, t1, u, Inline);
    var ns := Kids(t1, u, Notification);
    forall x | |t0| < x <= |t1| ensures x in ns || x in us {
      assert KindOf(t1[x - 1]) in {Notification, ContextFree, Inline};
    }
    OnceUnion(t0, t1, t2, u, ns, us, w);
  }

  lemma OnceUnion(t0: seq<Trace>, t1: seq<Trace>, t2: seq<Trace>, u: nat, ns: seq<nat>, us: seq<nat>, w: seq<nat>)
    requires |t0| <= |t1| <= |t2| && |ns| + |us| == |t1| - |t0| && VisitsOnce(t1, t2, us, w)
    requires Between(ns, |t0|, |t1|) && Between(us, |t0|, |t1|)
    requires forall x :: |t0| < x <= |t1| ==> x in ns || x in us
    ensures VisitsOnce(t0, t2, [u], [u] + ns + w)
  {
  }

  // ---------------------------------------------------------------- the first actions

  function UpTo(n: nat): (r: seq<nat>)
    ensures |r| == n && Between(r, 0, n)
  {
    seq(n, i requires 0 <= i < n => i + 1)
  }

  predicate Roots(traces: seq<Trace>) {
    forall i :: 0 <= i < |traces| ==> traces[i].ancestor == 0 && KindOf(traces[i]) != Notification
  }

  lemma RootsWait(traces: seq<Trace>)
    requires Roots(traces)
    ensures Waiting(traces, UpTo(|traces|)) && NoRepeats(UpTo(|traces|))
  {
  }

  /** A run of all of `roots`: the executed actions follow the walk over the final
    * actions, and when nothing failed they are all of them, each once; and what was
    * scheduled, and why it stopped, is what the rules say. */
  ghost predicate Complete(rules: Rules, roots: seq<Trace>, traces: seq<Trace>, executed: seq<nat>, r: Status) {
    && |roots| <= |traces| && traces[..|roots|] == roots
    && Follows([], executed, WalkAll(traces, 0, UpTo(|roots|)), r)
    && (r.Done? ==> VisitsOnce([], traces, [], executed))
    && Obeys(rules, roots, [], traces, executed, r)
  }

  lemma WholeRun(rules: Rules, t1: seq<Trace>, t2: seq<Trace>, executed: seq<nat>, r: Status)
    requires Ran(t1, t2, 0, UpTo(|t1|), [], executed, r) && Obeys(rules, t1, [], t2, executed, r)
    ensures Complete(rules, t1, t2, executed, r)
  {
    if r.Done? {
      assert executed == WalkAll(t2, 0, UpTo(|t1|));
      AllOnce(t1, t2, executed);
    }
  }

  /** A transaction succeeds exactly when every receiver in the order of the walk is an
    * account whose code returns, and no inline action is nested too deep. */
  lemma DoneIff(rules: Rules, roots: seq<Trace>, traces: seq<Trace>, executed: seq<nat>, r: Status)
    requires Complete(rules, roots, traces, executed, r) && Roots(roots)
    ensures var walk := WalkAll(traces, 0, UpTo(|roots|));
            r.Done? <==>
            (forall i :: 0 <= i < |walk| ==> Succeeds(rules, traces, walk[i], i)) && NoneTooDeep(rules, roots, traces)
  {
    var walk := WalkAll(traces, 0, UpTo(|roots|));
    if r.Done? {
      AllSucceeded(rules, roots, traces, executed, walk);
    } else if r.Failed? {
      StopNamed(rules, roots, traces, executed, r);
      assert !Succeeds(rules, traces, walk[|executed|], |executed|);
    }
  }

  lemma AllSucceeded(rules: Rules, roots: seq<Trace>, traces: seq<Trace>, executed: seq<nat>, walk: seq<nat>)
    requires Replays(rules, roots, executed[0..], 0, traces, Done) && executed == [] + walk
    ensures forall i :: 0 <= i < |walk| ==> Succeeds(rules, traces, walk[i], i)
  {
    assert executed[0..] == walk;
    ReplaysMeans(rules, roots, walk, 0, traces, Done);
  }

  /** A run that stops names the next action of the walk: its receiver is missing or
    * throws, or it is nested too deep; all before it ran with success. */
  lemma StopNamed(rules: Rules, roots: seq<Trace>, traces: seq<Trace>, executed: seq<nat>, r: Status)
    requires Complete(rules, roots, traces, executed, r) && !r.Done?
    ensures var walk := WalkAll(traces, 0, UpTo(|roots|));
            && |executed| < |walk| && r.at == walk[|executed|] && executed == walk[..|executed|]
            && (forall i :: 0 <= i < |executed| ==> Succeeds(rules, traces, walk[i], i))
            && (if r.Failed? then !Succeeds(rules, traces, r.at, |executed|) else Depth(traces, r.at) > rules.maxDepth)
  {
    StopCore(rules, roots, traces, executed, r, WalkAll(traces, 0, UpTo(|roots|)));
  }

  lemma StopCore(rules: Rules, roots: seq<Trace>, traces: seq<Trace>, executed: seq<nat>, r: Status, walk: seq<nat>)
    requires Replays(rules, roots, executed[0..], 0, traces, r) && Follows([], executed, walk, r) && !r.Done?
    ensures |executed| < |walk| && r.at == walk[|executed|] && executed == walk[..|executed|]
    ensures r.Failed? ==> !Succeeds(rules, traces, r.at, |executed|)
    ensures forall i :: 0 <= i < |executed| ==> Succeeds(rules, traces, walk[i], i)
  {
    assert executed[0..] == executed && [] + walk == walk;
    ReplaysMeans(rules, roots, executed, 0, traces, r);
    assert (executed + [r.at])[|executed|] == r.at;
    assert walk[..|executed|] == (executed + [r.at])[..|executed|];
    forall i | 0 <= i < |executed| ensures walk[i] == executed[i] {
      assert walk[i] == walk[..|executed|][i];
    }
  }

  /** Every trace beyond the roots is a call that the code of its creator made when it ran. */
  lemma TracesAreCalls(rules: Rules, roots: seq<Trace>, traces: seq<Trace>, executed: seq<nat>, r: Status, j: nat) returns (k: nat)
    requires Complete(rules, roots, traces, executed, r) && |roots| <= j < |traces|
    ensures k < |AllRun(executed, r)| && IsCall(rules, traces, AllRun(executed, r)[k], k, traces[j])
  {
    assert executed[0..] == executed;
    k := EveryTraceIsACall(rules, roots, executed, 0, traces, r, j);
  }

  /** Every call the code of an action made when it ran has its trace. */
  lemma CallsHaveTraces(rules: Rules, roots: seq<Trace>, traces: seq<Trace>, executed: seq<nat>, r: Status, k: nat, c: nat)
    requires Complete(rules, roots, traces, executed, r) && WellFormed(traces) && k < |AllRun(executed, r)|
    requires var x := AllRun(executed, r)[k]; Present(rules, traces, x) && c < |Behaves(rules, traces, x, k).calls|
    ensures var x := AllRun(executed, r)[k];
            Sensible(traces, x) && Answered(traces, Origin(traces, x), x, Behaves(rules, traces, x, k).calls[c])
  {
    assert executed[0..] == executed;
    AlwaysSensible(traces, AllRun(executed, r)[k]);
    EveryCallAnswered(rules, roots, executed, 0, traces, r, k, AllRun(executed, r)[k], c);
  }

  lemma AlwaysSensible(traces: seq<Trace>, x: nat)
    requires WellFormed(traces) && 0 < x <= |traces|
    ensures Sensible(traces, x)
  {
    assert Linked(traces, x - 1);
  }

  lemma AllOnce(t1: seq<Trace>, t2: seq<Trace>, executed: seq<nat>)
    requires |t1| <= |t2| && VisitsOnce(t1, t2, UpTo(|t1|), executed)
    ensures VisitsOnce([], t2, [], executed)
  {
    forall x | 0 < x <= |t1| ensures x in UpTo(|t1|) {
      assert UpTo(|t1|)[x - 1] == x;
    }
  }

  lemma UnderTwice(t0: seq<Trace>, t1: seq<Trace>, t2: seq<Trace>, u: nat)
    requires AllUnder(t0, t1, u) && AllUnder(t1, t2, u)
    ensures AllUnder(t0, t2, u)
  {
    forall i | |t0| <= i < |t2| ensures t2[i].ancestor == u {
      if i < |t1| {
        assert t2[i] == t2[..|t1|][i];
      }
    }
  }

  lemma Longer(c: Context, c': Context, k: nat)
    requires Extends(c, c') && k < |c.notified|
    ensures Ordinals(c'.notified)[..k] == Ordinals(c.notified)[..k]
    ensures Ordinals(c'.notified)[..k + 1] == Ordinals(c.notified)[..k] + [c.notified[k].1]
    ensures forall j :: 0 <= j <= k ==> c'.notified[j] == c.notified[j]
  {
    forall j | 0 <= j <= k ensures c'.notified[j] == c.notified[j] {
      assert c'.notified[j] == c'.notified[..|c.notified|][j];
    }
  }

  lemma StartBound(traces: seq<Trace>, u: nat)
    requires WellFormed(traces) && 0 < u <= |traces| && KindOf(traces[u - 1]) != Notification && NoKids(traces, u)
    ensures Bound(traces, Context(u, [(traces[u - 1].receiver, u)], [], []))
  {
    KidsNone(traces, u, Notification);
    KidsNone(traces, u, ContextFree);
    KidsNone(traces, u, Inline);
  }

  lemma RecipientsBound(traces: seq<Trace>, c: Context, k: nat, accounts: set<nat>)
    requires Recipients(traces, c) && k <= |c.notified| && forall j :: 0 <= j < k ==> c.notified[j].0 in accounts
    ensures k <= |accounts|
  {
    NamesBound(c.notified[..k], accounts);
  }

  lemma {:induction false} NamesBound(notified: seq<(nat, nat)>, accounts: set<nat>)
    requires forall i, j :: 0 <= i < j < |notified| ==> notified[i].0 != notified[j].0
    requires forall i :: 0 <= i < |notified| ==> notified[i].0 in accounts
    ensures |notified| <= |accounts|
  {
    if notified != [] {
      NamesBound(notified[1..], accounts - {notified[0].0});
    }
  }

  /** The context with one more action. */
  function Listed(c: Context, t: Trace, ordinal: nat): Context {
    match KindOf(t)
    case Notification => c.(notified := c.notified + [(t.receiver, ordinal)])
    case ContextFree => c.(contextFree := c.contextFree + [ordinal])
    case Inline => c.(inlines := c.inlines + [ordinal])
  }

  function RootTraces(actions: seq<Action>, contextFree: bool): seq<Trace> {
    seq(|actions|, i requires 0 <= i < |actions| => Trace(actions[i], actions[i].account, contextFree, 0, 0))
  }

  predicate Bound(traces: seq<Trace>, c: Context) {
    WellFormed(traces) && Tracks(traces, c) && Recipients(traces, c)
  }

  predicate Running(c: Context, current: nat) {
    exists i :: 0 <= i < |c.notified| && c.notified[i].1 == current
  }

  predicate Extends(c: Context, c': Context) {
    c'.first == c.first && |c.notified| <= |c'.notified| && c'.notified[..|c.notified|] == c.notified
  }

  lemma Current(traces: seq<Trace>, c: Context, current: nat)
    requires Recipients(traces, c) && Running(c, current)
    ensures 0 < current <= |traces| && 0 < c.first <= |traces| && traces[current - 1].action == traces[c.first - 1].action
    ensures current == c.first || (KindOf(traces[current - 1]) == Notification && traces[current - 1].ancestor == c.first)
  {
    var i :| 0 <= i < |c.notified| && c.notified[i].1 == current;
    assert Recipient(traces, c.first, c.notified[i]);
  }

  lemma FirstIsRecipient(traces: seq<Trace>, c: Context)
    requires Tracks(traces, c) && Recipients(traces, c)
    ensures HasRecipient(c, traces[c.first - 1].action.account)
  {
    assert Ordinals(c.notified)[0] == c.first;
    assert Recipient(traces, c.first, c.notified[0]);
  }

  lemma AddTrace(traces: seq<Trace>, t: Trace, c: Context)
    requires Bound(traces, c) && t.ancestor == c.first && Running(c, t.creator)
    requires KindOf(t) == Notification ==> t.action == traces[c.first - 1].action && !HasRecipient(c, t.receiver)
    ensures Bound(traces + [t], Listed(c, t, |traces| + 1))
  {
    AddLinked(traces, t, c);
    LinkedSnoc(traces, t);
    AddTracked(traces, t, c);
    RecipientsSnoc(traces, t, c);
    if KindOf(t) == Notification {
      AddRecipient(traces + [t], c, t.receiver, |traces| + 1);
    }
  }

  lemma AddLinked(traces: seq<Trace>, t: Trace, c: Context)
    requires Bound(traces, c) && t.ancestor == c.first && Running(c, t.creator)
    requires KindOf(t) == Notification ==> t.action == traces[c.first - 1].action
    ensures Linked(traces + [t], |traces|)
  {
    Current(traces, c, t.creator);
    assert Linked(traces, t.creator - 1);
  }

  lemma AddTracked(traces: seq<Trace>, t: Trace, c: Context)
    requires Tracks(traces, c) && t.ancestor == c.first
    ensures Tracks(traces + [t], Listed(c, t, |traces| + 1))
  {
    var u, n := c.first, |traces| + 1;
    KidsSnoc(traces, t, u, Notification);
    KidsSnoc(traces, t, u, ContextFree);
    KidsSnoc(traces, t, u, Inline);
    if KindOf(t) == Notification {
      assert Ordinals(Listed(c, t, n).notified) == Ordinals(c.notified) + [n];
    }
  }

  lemma AddRecipient(traces: seq<Trace>, c: Context, name: nat, ordinal: nat)
    requires Recipients(traces, c) && !HasRecipient(c, name) && Recipient(traces, c.first, (name, ordinal))
    ensures Recipients(traces, c.(notified := c.notified + [(name, ordinal)]))
  {
  }
}
