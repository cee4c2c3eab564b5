/** What running actions does to a transaction, told from the code of the receivers:
  * which traces it leaves, whether it succeeds, and how deep it nests. */
module ActionReplay {
  import opened ActionOrder

  datatype Call = Notify(recipient: nat) | SendInline(action: Action) | SendContextFree(action: Action)

  /** What the code of a receiver does with an action: the calls it makes and
    * whether it then returns or throws. */
  datatype Behaviour = Behaviour(calls: seq<Call>, ok: bool)

  /** The first argument counts the actions executed before. */
  type Handler = (nat, nat, Action) -> Behaviour

  /** The accounts on chain, their code, and the limit on nested inline actions. */
  datatype Rules = Rules(accounts: set<nat>, handler: Handler, maxDepth: nat)

  // ------------------------------------------------------------- traces of one receiver

  /** The action itself, or the one a notification tells of. */
  function Origin(traces: seq<Trace>, x: nat): nat
    requires 0 < x <= |traces|
  {
    if KindOf(traces[x - 1]) == Notification then traces[x - 1].ancestor else x
  }

  /** The receiver of an action and everyone notified of it know it. */
  predicate Told(traces: seq<Trace>, u: nat, name: nat)
    requires 0 < u <= |traces|
  {
    || traces[u - 1].receiver == name
    || exists i :: 0 <= i < |traces| && traces[i].ancestor == u && KindOf(traces[i]) == Notification && traces[i].receiver == name
  }

  /** The trace a call made under ordinal x adds, if any: nobody is told twice. */
  function CallTrace(traces: seq<Trace>, u: nat, x: nat, call: Call): (r: seq<Trace>)
    requires 0 < u <= |traces| && 0 < x <= |traces|
    ensures |r| <= 1
  {
    match call
    case Notify(name) => if Told(traces, u, name) then [] else [Trace(traces[x - 1].action, name, false, x, u)]
    case SendInline(a) => [Trace(a, a.account, false, x, u)]
    case SendContextFree(a) => [Trace(a, a.account, true, x, u)]
  }

  function CallTraces(traces: seq<Trace>, u: nat, x: nat, calls: seq<Call>): seq<Trace>
    requires 0 < u <= |traces| && 0 < x <= |traces|
    decreases |calls|
  {
    if calls == [] then []
    else
      var made := CallTrace(traces, u, x, calls[0]);
      made + CallTraces(traces + made, u, x, calls[1..])
  }

  predicate Present(rules: Rules, traces: seq<Trace>, x: nat) {
    0 < x <= |traces| && traces[x - 1].receiver in rules.accounts
  }

  /** What the receiver of action x does when i actions were executed before. */
  function Behaves(rules: Rules, traces: seq<Trace>, x: nat, i: nat): Behaviour
    requires 0 < x <= |traces|
  {
    rules.handler(i, traces[x - 1].receiver, traces[x - 1].action)
  }

  predicate Succeeds(rules: Rules, traces: seq<Trace>, x: nat, i: nat) {
    Present(rules, traces, x) && Behaves(rules, traces, x, i).ok
  }

  /** All that running action x schedules. */
  function Segment(rules: Rules, traces: seq<Trace>, x: nat, i: nat): seq<Trace> {
    if Present(rules, traces, x) && 0 < Origin(traces, x) <= |traces|
    then CallTraces(traces, Origin(traces, x), x, Behaves(rules, traces, x, i).calls)
    else []
  }

  // ------------------------------------------------------------------- replaying a run

  datatype Option<T> = None | Some(value: T)

  /** The traces after running the actions of a list, each scheduled by then and each
    * with success, i actions having run before; and then, after a failure, the action
    * that failed. */
  function Replay(rules: Rules, t0: seq<Trace>, order: seq<nat>, i: nat, r: Status): Option<seq<Trace>>
    decreases |order|
  {
    if order != [] then
      if 0 < order[0] <= |t0| && Succeeds(rules, t0, order[0], i)
      then Replay(rules, t0 + Segment(rules, t0, order[0], i), order[1..], i + 1, r)
      else None
    else if r.Failed? then
      if 0 < r.at <= |t0| && !Succeeds(rules, t0, r.at, i) then Some(t0 + Segment(rules, t0, r.at, i)) else None
    else Some(t0)
  }

  predicate Replays(rules: Rules, t0: seq<Trace>, order: seq<nat>, i: nat, t1: seq<Trace>, r: Status) {
    Replay(rules, t0, order, i, r) == Some(t1)
  }

  lemma {:induction false} ReplaysThen(rules: Rules, t0: seq<Trace>, a: seq<nat>, i: nat, t1: seq<Trace>, b: seq<nat>, t2: seq<Trace>, r: Status)
    requires Replays(rules, t0, a, i, t1, Done) && Replays(rules, t1, b, i + |a|, t2, r)
    ensures Replays(rules, t0, a + b, i, t2, r)
    decreases |a|
  {
    if a == [] {
      assert a + b == b;
    } else {
      assert (a + b)[1..] == a[1..] + b;
      ReplaysThen(rules, t0 + Segment(rules, t0, a[0], i), a[1..], i + 1, t1, b, t2, r);
    }
  }

  lemma ReplaysStep(rules: Rules, t: seq<Trace>, x: nat, i: nat)
    requires 0 < x <= |t|
    ensures var t' := t + Segment(rules, t, x, i);
            if Succeeds(rules, t, x, i) then Replays(rules, t, [x], i, t', Done) else Replays(rules, t, [], i, t', Failed(x))
  {
    assert [x][1..] == [];
  }

  lemma {:induction false} ReplaysExtends(rules: Rules, t0: seq<Trace>, order: seq<nat>, i: nat, t1: seq<Trace>, r: Status)
    requires Replays(rules, t0, order, i, t1, r)
    ensures |t0| <= |t1| && t1[..|t0|] == t0
    decreases |order|
  {
    if order != [] {
      var t := t0 + Segment(rules, t0, order[0], i);
      ReplaysExtends(rules, t, order[1..], i + 1, t1, r);
      assert t1[..|t0|] == t1[..|t|][..|t0|];
    }
  }

  /** What becomes of an action is settled once it is scheduled. */
  lemma SucceedsLater(rules: Rules, t: seq<Trace>, t': seq<Trace>, x: nat, i: nat)
    requires |t| <= |t'| && t'[..|t|] == t && 0 < x <= |t|
    ensures Succeeds(rules, t, x, i) == Succeeds(rules, t', x, i)
  {
    assert t'[x - 1] == t'[..|t|][x - 1];
  }

  /** All that ran succeeded, and the action that stopped the run did not. */
  lemma {:induction false} ReplaysMeans(rules: Rules, t0: seq<Trace>, order: seq<nat>, i: nat, t1: seq<Trace>, r: Status)
    requires Replays(rules, t0, order, i, t1, r)
    ensures forall k :: 0 <= k < |order| ==> Succeeds(rules, t1, order[k], i + k)
    ensures r.Failed? ==> 0 < r.at <= |t1| && !Succeeds(rules, t1, r.at, i + |order|)
    decreases |order|
  {
    ReplaysExtends(rules, t0, order, i, t1, r);
    if order != [] {
      SucceedsLater(rules, t0, t1, order[0], i);
      ReplaysMeans(rules, t0 + Segment(rules, t0, order[0], i), order[1..], i + 1, t1, r);
      forall k | 0 <= k < |order| ensures Succeeds(rules, t1, order[k], i + k) {
        if k > 0 {
          assert order[k] == order[1..][k - 1];
          assert Succeeds(rules, t1, order[1..][k - 1], i + 1 + (k - 1));
        }
      }
    } else if r.Failed? {
      SucceedsLater(rules, t0, t1, r.at, i);
    }
  }

  // ----------------------------------------------------------------------- nesting

  /** How many inline actions lead to an action. */
  function Depth(traces: seq<Trace>, x: nat): nat
    decreases x
  {
    if x == 0 || x > |traces| then 0
    else
      var t := traces[x - 1];
      if t.ancestor == 0 || t.ancestor >= x then 0
      else Depth(traces, t.ancestor) + if KindOf(t) == Notification then 0 else 1
  }

  lemma {:induction false} DepthLater(t: seq<Trace>, t': seq<Trace>, x: nat)
    requires |t| <= |t'| && t'[..|t|] == t && x <= |t|
    ensures Depth(t', x) == Depth(t, x)
    decreases x
  {
    if x > 0 {
      assert t'[x - 1] == t'[..|t|][x - 1];
      if 0 < t[x - 1].ancestor < x {
        DepthLater(t, t', t[x - 1].ancestor);
      }
    }
  }

  /** Nothing scheduled in between is nested too deep, unless that is why the run stopped. */
  ghost predicate NestsWithin(rules: Rules, t0: seq<Trace>, t1: seq<Trace>, r: Status) {
    && |t0| <= |t1| && t1[..|t0|] == t0
    && (r.Done? ==> NoneTooDeep(rules, t0, t1))
    && (r.TooDeep? ==> |t0| < r.at <= |t1| && Depth(t1, r.at) > rules.maxDepth)
  }

  predicate NoneTooDeep(rules: Rules, t0: seq<Trace>, t1: seq<Trace>) {
    forall x :: |t0| < x <= |t1| ==> Depth(t1, x) <= rules.maxDepth
  }

  lemma NestsThen(rules: Rules, t0: seq<Trace>, t1: seq<Trace>, t2: seq<Trace>, r: Status)
    requires NestsWithin(rules, t0, t1, Done) && NestsWithin(rules, t1, t2, r)
    ensures NestsWithin(rules, t0, t2, r)
  {
    assert t2[..|t0|] == t2[..|t1|][..|t0|];
    if r.Done? {
      forall x | |t0| < x <= |t2| ensures Depth(t2, x) <= rules.maxDepth {
        if x <= |t1| {
          DepthLater(t1, t2, x);
        }
      }
    }
  }

  /** A run that the rules explain. */
  ghost predicate Obeys(rules: Rules, t0: seq<Trace>, e0: seq<nat>, t1: seq<Trace>, e1: seq<nat>, r: Status) {
    && |e0| <= |e1| && e1[..|e0|] == e0
    && Replays(rules, t0, e1[|e0|..], |e0|, t1, r) && NestsWithin(rules, t0, t1, r)
  }

  lemma ObeysNone(rules: Rules, t: seq<Trace>, e: seq<nat>)
    ensures Obeys(rules, t, e, t, e, Done)
  {
  }

  lemma ObeysThen(rules: Rules, t0: seq<Trace>, e0: seq<nat>, t1: seq<Trace>, e1: seq<nat>, t2: seq<Trace>, e2: seq<nat>, r: Status)
    requires Obeys(rules, t0, e0, t1, e1, Done) && Obeys(rules, t1, e1, t2, e2, r)
    ensures Obeys(rules, t0, e0, t2, e2, r)
  {
    Regrouped(e0, e1, e2);
    ReplaysThen(rules, t0, e1[|e0|..], |e0|, t1, e2[|e1|..], t2, r);
    NestsThen(rules, t0, t1, t2, r);
  }

  lemma Regrouped(e0: seq<nat>, e1: seq<nat>, e2: seq<nat>)
    requires |e0| <= |e1| <= |e2| && e1[..|e0|] == e0 && e2[..|e1|] == e1
    ensures e1[|e0|..] + e2[|e1|..] == e2[|e0|..] && e2[..|e0|] == e0
  {
    assert e2 == e1 + e2[|e1|..];
  }

  // ------------------------------------------------------- traces and calls, one by one

  /** Traces from `from` on each belong to a call of the code running under x. */
  predicate IsCall(rules: Rules, traces: seq<Trace>, x: nat, i: nat, t: Trace) {
    && Present(rules, traces, x) && t.creator == x && t.ancestor == Origin(traces, x)
    && exists k :: 0 <= k < |Behaves(rules, traces, x, i).calls| && CallMakes(traces, x, Behaves(rules, traces, x, i).calls[k], t)
  }

  predicate CallMakes(traces: seq<Trace>, x: nat, call: Call, t: Trace)
    requires 0 < x <= |traces|
  {
    match call
    case Notify(name) => t.receiver == name && t.action == traces[x - 1].action && !t.contextFree
    case SendInline(a) => t.receiver == a.account && t.action == a && !t.contextFree
    case SendContextFree(a) => t.receiver == a.account && t.action == a && t.contextFree
  }

  lemma {:induction false} MadeByCalls(traces: seq<Trace>, u: nat, x: nat, calls: seq<Call>, j: nat)
    requires 0 < u <= |traces| && 0 < x <= |traces| && j < |CallTraces(traces, u, x, calls)|
    ensures var t := CallTraces(traces, u, x, calls)[j];
            && t.creator == x && t.ancestor == u
            && exists k :: 0 <= k < |calls| && CallMakes(traces, x, calls[k], t)
    decreases |calls|
  {
    var made := CallTrace(traces, u, x, calls[0]);
    if j < |made| {
      assert CallMakes(traces, x, calls[0], made[j]);
    } else {
      MadeByCalls(traces + made, u, x, calls[1..], j - |made|);
      var k :| 0 <= k < |calls[1..]| && CallMakes(traces + made, x, calls[1..][k], CallTraces(traces + made, u, x, calls[1..])[j - |made|]);
      assert calls[1..][k] == calls[k + 1] && (traces + made)[x - 1] == traces[x - 1];
    }
  }

  /** The actions that ran, the one that failed among them. */
  function AllRun(order: seq<nat>, r: Status): seq<nat> {
    order + if r.Failed? then [r.at] else []
  }

  lemma RunNext(order: seq<nat>, r: Status, k: nat)
    requires order != [] && 0 < k < |AllRun(order, r)|
    ensures k - 1 < |AllRun(order[1..], r)| && AllRun(order[1..], r)[k - 1] == AllRun(order, r)[k]
  {
  }

  /** Every trace beyond the first ones was made by a call of its creator, which ran. */
  lemma {:induction false} EveryTraceIsACall(rules: Rules, t0: seq<Trace>, order: seq<nat>, i: nat, t1: seq<Trace>, r: Status, j: nat)
    returns (k: nat)
    requires Replays(rules, t0, order, i, t1, r) && |t0| <= j < |t1|
    ensures k < |AllRun(order, r)| && IsCall(rules, t1, AllRun(order, r)[k], i + k, t1[j])
    decreases |order|
  {
    k := 0;
    if order == [] {
      ReplaysExtends(rules, t0, order, i, t1, r);
      SegmentCalls(rules, t0, t1, r.at, i, j - |t0|);
    } else {
      var t := FirstCalls(rules, t0, order, i, t1, r, j);
      if j >= |t| {
        k := EveryTraceIsACall(rules, t, order[1..], i + 1, t1, r, j);
        assert |AllRun(order, r)| == |AllRun(order[1..], r)| + 1;
        RunNext(order, r, k + 1);
        k := k + 1;
      }
    }
  }

  lemma FirstCalls(rules: Rules, t0: seq<Trace>, order: seq<nat>, i: nat, t1: seq<Trace>, r: Status, j: nat) returns (t: seq<Trace>)
    requires Replays(rules, t0, order, i, t1, r) && order != [] && |t0| <= j < |t1|
    ensures Replays(rules, t, order[1..], i + 1, t1, r)
    ensures j < |t| ==> IsCall(rules, t1, order[0], i, t1[j])
  {
    var made := Segment(rules, t0, order[0], i);
    t := t0 + made;
    ReplaysExtends(rules, t0, order, i, t1, r);
    ReplaysExtends(rules, t, order[1..], i + 1, t1, r);
    if j < |t| {
      assert t1[j] == t1[..|t|][j] == made[j - |t0|];
      SegmentCalls(rules, t0, t1, order[0], i, j - |t0|);
    }
  }

  lemma SegmentCalls(rules: Rules, t: seq<Trace>, r: seq<Trace>, x: nat, i: nat, j: nat)
    requires j < |Segment(rules, t, x, i)| && |t| <= |r| && r[..|t|] == t
    ensures IsCall(rules, r, x, i, Segment(rules, t, x, i)[j])
  {
    MadeByCalls(t, Origin(t, x), x, Behaves(rules, t, x, i).calls, j);
    assert r[x - 1] == r[..|t|][x - 1];
    SameCalls(rules, t, r, x, i, Segment(rules, t, x, i)[j]);
  }

  lemma SameCalls(rules: Rules, t: seq<Trace>, r: seq<Trace>, x: nat, i: nat, made: Trace)
    requires 0 < x <= |t| <= |r| && r[x - 1] == t[x - 1] && IsCall(rules, t, x, i, made)
    ensures IsCall(rules, r, x, i, made)
  {
    assert Behaves(rules, r, x, i) == Behaves(rules, t, x, i);
    var k :| 0 <= k < |Behaves(rules, t, x, i).calls| && CallMakes(t, x, Behaves(rules, t, x, i).calls[k], made);
    assert CallMakes(r, x, Behaves(rules, r, x, i).calls[k], made);
  }

  /** What a call leaves behind: its trace, or somebody who knew already. */
  predicate Answered(traces: seq<Trace>, u: nat, x: nat, call: Call)
    requires 0 < u <= |traces|
  {
    match call
    case Notify(name) => Told(traces, u, name)
    case SendInline(a) => Trace(a, a.account, false, x, u) in traces
    case SendContextFree(a) => Trace(a, a.account, true, x, u) in traces
  }

  lemma AnsweredLater(t: seq<Trace>, more: seq<Trace>, u: nat, x: nat, call: Call)
    requires 0 < u <= |t| && Answered(t, u, x, call)
    ensures Answered(t + more, u, x, call)
  {
    if call.Notify? && t[u - 1].receiver != call.recipient {
      var i :| 0 <= i < |t| && t[i].ancestor == u && KindOf(t[i]) == Notification && t[i].receiver == call.recipient;
      assert (t + more)[i] == t[i];
    }
  }

  lemma {:induction false} CallsAnswered(traces: seq<Trace>, u: nat, x: nat, calls: seq<Call>, k: nat)
    requires 0 < u <= |traces| && 0 < x <= |traces| && k < |calls|
    requires traces[u - 1].receiver == traces[u - 1].action.account && traces[x - 1].action == traces[u - 1].action
    ensures Answered(traces + CallTraces(traces, u, x, calls), u, x, calls[k])
    decreases |calls|
  {
    var made := CallTrace(traces, u, x, calls[0]);
    var rest := CallTraces(traces + made, u, x, calls[1..]);
    assert traces + (made + rest) == (traces + made) + rest;
    if k == 0 {
      FirstAnswered(traces, u, x, calls[0]);
      AnsweredLater(traces + made, rest, u, x, calls[0]);
    } else {
      CallsAnswered(traces + made, u, x, calls[1..], k - 1);
    }
  }

  lemma FirstAnswered(traces: seq<Trace>, u: nat, x: nat, call: Call)
    requires 0 < u <= |traces| && 0 < x <= |traces|
    requires traces[u - 1].receiver == traces[u - 1].action.account && traces[x - 1].action == traces[u - 1].action
    ensures Answered(traces + CallTrace(traces, u, x, call), u, x, call)
  {
    var made := CallTrace(traces, u, x, call);
    if made != [] {
      var t := made[0];
      assert (traces + made)[|traces|] == t;
      assert (traces + made)[u - 1] == traces[u - 1];
    } else {
      assert traces + made == traces;
    }
  }

  /** What the walk and the origin of an action have in common with every later state. */
  predicate Sensible(traces: seq<Trace>, x: nat) {
    && 0 < x <= |traces| && 0 < Origin(traces, x) <= x
    && var u := Origin(traces, x);
       traces[u - 1].receiver == traces[u - 1].action.account && traces[x - 1].action == traces[u - 1].action
  }

  /** Every call of an action that ran has its trace. */
  lemma {:induction false} EveryCallAnswered(rules: Rules, t0: seq<Trace>, order: seq<nat>, i: nat, t1: seq<Trace>, r: Status, k: nat, x: nat, c: nat)
    requires Replays(rules, t0, order, i, t1, r) && k < |AllRun(order, r)| && x == AllRun(order, r)[k]
    requires Sensible(t1, x) && Present(rules, t1, x) && c < |Behaves(rules, t1, x, i + k).calls|
    ensures Answered(t1, Origin(t1, x), x, Behaves(rules, t1, x, i + k).calls[c])
    decreases |order|
  {
    if k == 0 {
      AnsweredFirst(rules, t0, order, i, t1, r, x, c);
    } else {
      var t := ReplayRest(rules, t0, order, i, t1, r);
      RunNext(order, r, k);
      EveryCallAnswered(rules, t, order[1..], i + 1, t1, r, k - 1, x, c);
    }
  }

  lemma ReplayRest(rules: Rules, t0: seq<Trace>, order: seq<nat>, i: nat, t1: seq<Trace>, r: Status) returns (t: seq<Trace>)
    requires Replays(rules, t0, order, i, t1, r) && order != []
    ensures Replays(rules, t, order[1..], i + 1, t1, r)
  {
    t := t0 + Segment(rules, t0, order[0], i);
  }

  lemma AnsweredFirst(rules: Rules, t0: seq<Trace>, order: seq<nat>, i: nat, t1: seq<Trace>, r: Status, x: nat, c: nat)
    requires Replays(rules, t0, order, i, t1, r) && AllRun(order, r) != [] && x == AllRun(order, r)[0]
    requires Sensible(t1, x) && Present(rules, t1, x) && c < |Behaves(rules, t1, x, i).calls|
    ensures Answered(t1, Origin(t1, x), x, Behaves(rules, t1, x, i).calls[c])
  {
    ReplaysExtends(rules, t0, order, i, t1, r);
    if order != [] {
      ReplaysExtends(rules, t0 + Segment(rules, t0, order[0], i), order[1..], i + 1, t1, r);
    }
    AnsweredAtOnce(rules, t0, t1, x, i, c);
  }

  lemma AnsweredAtOnce(rules: Rules, t: seq<Trace>, r: seq<Trace>, x: nat, i: nat, c: nat)
    requires var next := t + Segment(rules, t, x, i); |next| <= |r| && r[..|next|] == next && r[..|t|] == t
    requires 0 < x <= |t| && Sensible(r, x) && Present(rules, r, x) && c < |Behaves(rules, r, x, i).calls|
    ensures Answered(r, Origin(r, x), x, Behaves(rules, r, x, i).calls[c])
  {
    var next := t + Segment(rules, t, x, i);
    assert r[x - 1] == r[..|t|][x - 1];
    var u := Origin(r, x);
    assert r[u - 1] == r[..|t|][u - 1];
    CallsAnswered(t, u, x, Behaves(rules, t, x, i).calls, c);
    assert r == next + r[|next|..];
    AnsweredLater(next, r[|next|..], u, x, Behaves(rules, t, x, i).calls[c]);
  }
}
