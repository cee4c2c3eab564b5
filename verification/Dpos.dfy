/** Delegated proof of stake: confirmations, the last irreversible block and the
  * promotion of a pending schedule from one block header to the next. */
module Dpos {

  const REPETITIONS: nat := 12
  const MAX_PRODUCERS: nat := 125
  const MAX_TRACKED: nat := 1024

  datatype Error = NotInFuture | DoubleConfirm
  datatype Result<T> = Ok(value: T) | Err(error: Error)

  datatype Schedule = Schedule(version: nat, producers: seq<nat>)

  datatype Header = Header(
    num: nat, slot: nat, proposed: nat, lib: nat,
    active: Schedule,
    lastProduced: map<nat, nat>,
    implied: map<nat, nat>,
    confirm: seq<nat>,
    pending: Schedule, pendingLib: nat)

  /** The state of a block being built: the header so far, and what it replaces. */
  datatype Pending = Pending(header: Header, producer: nat, activeVersion: nat, promoted: bool)

  predicate Distinct(s: seq<nat>) {
    forall i, j :: 0 <= i < j < |s| ==> s[i] != s[j]
  }

  predicate Usable(s: Schedule) {
    0 < |s.producers| <= MAX_PRODUCERS && Distinct(s.producers)
  }

  function Names(s: Schedule): set<nat> {
    set p | p in s.producers
  }

  /** Producers take turns of twelve slots. */
  function ScheduledProducer(s: Schedule, slot: nat): (p: nat)
    requires s.producers != []
    ensures p in s.producers
  {
    var index := slot % (|s.producers| * REPETITIONS);
    TurnInRange(slot, |s.producers|);
    s.producers[index / REPETITIONS]
  }

  lemma TurnInRange(slot: nat, n: nat)
    requires n > 0
    ensures slot % (n * REPETITIONS) / REPETITIONS < n
  {
  }

  /** More than two thirds. */
  function Quorum(n: nat): nat {
    n * 2 / 3 + 1
  }

  /** The least number that is more than two thirds of n. */
  lemma QuorumIsLeast(n: nat, k: nat)
    ensures k >= Quorum(n) <==> 3 * k > 2 * n
  {
  }

  // -------------------------------------------------- the last irreversible block

  function AtLeast(m: map<nat, nat>, v: nat): set<nat> {
    set p | p in m && m[p] >= v
  }

  /** The highest number that a quorum of the producers has reached. */
  ghost predicate IsLib(m: map<nat, nat>, v: nat) {
    if m.Keys == {} then v == 0 else |AtLeast(m, v)| >= Quorum(|m.Keys|) && |AtLeast(m, v + 1)| < Quorum(|m.Keys|)
  }

  function CountGe(s: seq<nat>, v: nat): (c: nat)
    ensures c <= |s|
  {
    if s == [] then 0 else (if s[0] >= v then 1 else 0) + CountGe(s[1..], v)
  }

  predicate Sorted(s: seq<nat>) {
    forall i, j :: 0 <= i < j < |s| ==> s[i] <= s[j]
  }

  function Insert(s: seq<nat>, x: nat): seq<nat> {
    if s == [] || x <= s[0] then [x] + s else [s[0]] + Insert(s[1..], x)
  }

  lemma {:induction false} InsertEffect(s: seq<nat>, x: nat, v: nat)
    ensures |Insert(s, x)| == |s| + 1 && CountGe(Insert(s, x), v) == CountGe(s, v) + if x >= v then 1 else 0
    ensures forall i :: 0 <= i < |Insert(s, x)| ==> Insert(s, x)[i] == x || Insert(s, x)[i] in s
  {
    if s == [] || x <= s[0] {
      assert ([x] + s)[1..] == s;
    } else {
      InsertEffect(s[1..], x, v);
      assert ([s[0]] + Insert(s[1..], x))[1..] == Insert(s[1..], x);
    }
  }

  lemma {:induction false} InsertSorted(s: seq<nat>, x: nat)
    requires Sorted(s)
    ensures Sorted(Insert(s, x))
  {
    if s != [] && x > s[0] {
      InsertSorted(s[1..], x);
      InsertEffect(s[1..], x, 0);
      var r := Insert(s[1..], x);
      forall i | 0 <= i < |r| ensures s[0] <= r[i] {
        assert r[i] == x || r[i] in s[1..];
      }
    }
  }

  /** In a sorted list, position k tells how many entries reach a value. */
  lemma {:induction false} SortedCount(s: seq<nat>, k: nat, v: nat)
    requires Sorted(s) && k < |s|
    ensures s[k] >= v ==> CountGe(s, v) >= |s| - k
    ensures s[k] < v ==> CountGe(s, v) < |s| - k
  {
    if |s| > 1 {
      if k > 0 {
        SortedCount(s[1..], k - 1, v);
      } else {
        SortedCount(s[1..], 0, v);
      }
    }
  }

  /** Selection of the entry at position k of the sorted order. */
  method NthElement(s: seq<nat>, k: nat) returns (x: nat)
    requires k < |s|
    ensures CountGe(s, x) >= |s| - k && CountGe(s, x + 1) < |s| - k
  {
    var t := [];
    var i := |s|;
    while i > 0
      invariant 0 <= i <= |s| && |t| == |s| - i && Sorted(t)
      invariant forall v :: CountGe(t, v) == CountGe(s[i..], v)
    {
      i := i - 1;
      assert s[i..][1..] == s[i + 1..];
      forall v ensures CountGe(Insert(t, s[i]), v) == CountGe(s[i..], v) {
        InsertEffect(t, s[i], v);
      }
      InsertEffect(t, s[i], 0);
      InsertSorted(t, s[i]);
      t := Insert(t, s[i]);
    }
    assert s[i..] == s;
    x := t[k];
    SortedCount(t, k, x);
    SortedCount(t, k, x + 1);
  }

  lemma {:induction false} CountSnoc(s: seq<nat>, x: nat, v: nat)
    ensures CountGe(s + [x], v) == CountGe(s, v) + if x >= v then 1 else 0
  {
    if s == [] {
      assert [x][1..] == [];
    } else {
      assert (s + [x])[1..] == s[1..] + [x];
      CountSnoc(s[1..], x, v);
    }
  }

  /** `values` holds one entry for each producer in `done`. */
  ghost predicate Collected(m: map<nat, nat>, done: set<nat>, values: seq<nat>) {
    done <= m.Keys && |values| == |done| && forall v :: CountGe(values, v) == |AtLeast(m, v) * done|
  }

  /** The entry of the next producer counts as the proposed number already. */
  function Raised(m: map<nat, nat>, producer: nat, proposed: nat): (r: map<nat, nat>)
    ensures r.Keys == m.Keys
  {
    if producer in m then m[producer := proposed] else m
  }

  method BlockNums(m: map<nat, nat>, producer: nat, proposed: nat) returns (values: seq<nat>)
    ensures Collected(Raised(m, producer, proposed), m.Keys, values)
  {
    values := [];
    var rest := m.Keys;
    ghost var raised := Raised(m, producer, proposed);
    CollectNone(raised);
    while rest != {}
      invariant rest <= raised.Keys == m.Keys && Collected(raised, raised.Keys - rest, values)
      decreases rest
    {
      var p :| p in rest;
      CollectNext(raised, rest, values, p);
      var x: nat := if p == producer then proposed else m[p];
      values := values + [x];
      rest := rest - {p};
    }
    assert raised.Keys - rest == m.Keys;
  }

  lemma CollectNone(m: map<nat, nat>)
    ensures Collected(m, m.Keys - m.Keys, [])
  {
    assert m.Keys - m.Keys == {};
  }

  lemma CollectNext(m: map<nat, nat>, rest: set<nat>, values: seq<nat>, p: nat)
    requires Collected(m, m.Keys - rest, values) && p in rest && rest <= m.Keys
    ensures Collected(m, m.Keys - (rest - {p}), values + [m[p]])
  {
    CollectOne(m, m.Keys - rest, values, p);
    assert (m.Keys - rest) + {p} == m.Keys - (rest - {p});
  }

  /** The highest number that more than two thirds of the producers have reached, the next
    * one counted at the proposed number. */
  method CalcLastIrreversible(m: map<nat, nat>, producer: nat, proposed: nat) returns (lib: nat)
    ensures IsLib(Raised(m, producer, proposed), lib)
    ensures m.Keys == {} ==> lib == 0
    ensures m.Keys != {} ==>
              && 3 * |set p | p in m && (if p == producer then proposed else m[p]) >= lib| > 2 * |m.Keys|
              && 3 * |set p | p in m && (if p == producer then proposed else m[p]) > lib| <= 2 * |m.Keys|
  {
    var values := BlockNums(m, producer, proposed);
    if values == [] {
      return 0;
    }
    lib := NthElement(values, (|values| - 1) / 3);
    ghost var raised := Raised(m, producer, proposed);
    AllCollected(raised, values, lib);
    AllCollected(raised, values, lib + 1);
    assert AtLeast(raised, lib) == set p | p in m && (if p == producer then proposed else m[p]) >= lib;
    assert AtLeast(raised, lib + 1) == set p | p in m && (if p == producer then proposed else m[p]) > lib;
  }

  lemma AllCollected(m: map<nat, nat>, values: seq<nat>, v: nat)
    requires Collected(m, m.Keys, values)
    ensures |values| == |m.Keys| && CountGe(values, v) == |AtLeast(m, v)|
  {
    assert AtLeast(m, v) * m.Keys == AtLeast(m, v);
  }

  lemma CollectOne(m: map<nat, nat>, done: set<nat>, values: seq<nat>, p: nat)
    requires Collected(m, done, values) && p in m && p !in done
    ensures Collected(m, done + {p}, values + [m[p]])
  {
    forall v ensures CountGe(values + [m[p]], v) == |AtLeast(m, v) * (done + {p})| {
      CountSnoc(values, m[p], v);
      if m[p] >= v {
        assert AtLeast(m, v) * (done + {p}) == AtLeast(m, v) * done + {p};
      } else {
        assert AtLeast(m, v) * (done + {p}) == AtLeast(m, v) * done;
      }
    }
  }

  /** The last irreversible block is at least v exactly when more than two thirds of the
    * producers have reached v. */
  lemma LibMeaning(m: map<nat, nat>, lib: nat, v: nat)
    requires IsLib(m, lib) && m.Keys != {}
    ensures lib >= v <==> 3 * |set p | p in m && m[p] >= v| > 2 * |m.Keys|
  {
    LibByQuorum(m, lib, v);
    QuorumIsLeast(|m.Keys|, |AtLeast(m, v)|);
    assert AtLeast(m, v) == set p | p in m && m[p] >= v;
  }

  lemma LibByQuorum(m: map<nat, nat>, lib: nat, v: nat)
    requires IsLib(m, lib) && m.Keys != {}
    ensures lib >= v <==> |AtLeast(m, v)| >= Quorum(|m.Keys|)
  {
    if lib >= v {
      SubsetSize(AtLeast(m, lib), AtLeast(m, v));
    } else {
      SubsetSize(AtLeast(m, v), AtLeast(m, lib + 1));
    }
  }

  lemma {:induction false} SubsetSize(a: set<nat>, b: set<nat>)
    requires a <= b
    ensures |a| <= |b|
  {
    if a != {} {
      var x :| x in a;
      SubsetSize(a - {x}, b - {x});
    }
  }

  /** Raising one entry never lowers the last irreversible block. */
  lemma LibRises(m: map<nat, nat>, lib: nat, p: nat, v: nat, lib': nat)
    requires IsLib(m, lib) && p in m && m[p] <= v && IsLib(m[p := v], lib')
    ensures lib <= lib'
  {
    assert m[p := v].Keys == m.Keys;
    SubsetSize(AtLeast(m, lib), AtLeast(m[p := v], lib));
    LibByQuorum(m[p := v], lib', lib);
  }

  /** Some producer has really reached it. */
  lemma LibBound(m: map<nat, nat>, lib: nat, top: nat)
    requires IsLib(m, lib) && forall p :: p in m ==> m[p] <= top
    ensures lib <= top
  {
    if m.Keys != {} {
      assert AtLeast(m, top + 1) == {};
      LibByQuorum(m, lib, top + 1);
    }
  }

  /** Any two quorums share more than a third of the producers. */
  lemma QuorumsMeet(all: set<nat>, a: set<nat>, b: set<nat>)
    requires a <= all && b <= all && 3 * |a| > 2 * |all| && 3 * |b| > 2 * |all|
    ensures 3 * |a * b| > |all|
  {
    assert |a + b| == |a| + |b| - |a * b|;
    SubsetSize(a + b, all);
  }

  // ------------------------------------------------------------- confirmations

  /** The counters of the tracked blocks with the new block's, oldest first. */
  function Tracked(confirm: seq<nat>, required: nat): (r: seq<nat>)
    ensures r != [] && |r| <= |confirm| + 1 && r[|r| - 1] == required
  {
    (if |confirm| < MAX_TRACKED then confirm else confirm[1..]) + [required]
  }

  /** How many of the newest counters one block touches. */
  function Reach(c: seq<nat>, numPrev: nat): (k: nat)
    ensures k <= |c|
  {
    if numPrev + 1 < |c| then numPrev + 1 else |c|
  }

  /** Counting down from the newest counter: all within reach lose one, or up to
    * the first that reaches zero, and that one with everything older goes. */
  ghost predicate CountedDown(c: seq<nat>, numPrev: nat, num: nat, proposed: nat, c': seq<nat>, proposed': nat) {
    var low := |c| - Reach(c, numPrev);
    if exists i :: low <= i < |c| && c[i] == 1 then
      exists i :: Hit(c, low, i) && |c'| == |c| - 1 - i && proposed' + |c'| == num && (forall j :: 0 <= j < |c'| ==> c'[j] + 1 == c[j + i + 1])
    else
      && proposed' == proposed && |c'| == |c|
      && (forall j :: 0 <= j < |c| ==> c'[j] + (if j < low then 0 else 1) == c[j])
  }

  /** The newest counter that stands at one. */
  ghost predicate Hit(c: seq<nat>, low: nat, i: nat) {
    low <= i < |c| && c[i] == 1 && forall j :: i < j < |c| ==> c[j] != 1
  }

  method CountDown(c: seq<nat>, numPrev: nat, num: nat, proposed: nat) returns (c': seq<nat>, proposed': nat)
    requires |c| <= num && forall i :: 0 <= i < |c| ==> 1 <= c[i] < 256
    ensures CountedDown(c, numPrev, num, proposed, c', proposed')
    ensures forall i :: 0 <= i < |c'| ==> 1 <= c'[i] < 256
  {
    c' := c;
    proposed' := proposed;
    var i := |c| - 1;
    var left := numPrev + 1;
    while i >= 0 && left > 0
      invariant -1 <= i < |c| && |c'| == |c| && left == numPrev + 1 - (|c| - 1 - i) && left >= 0
      invariant forall j :: 0 <= j < |c| ==> c'[j] == if j <= i then c[j] else c[j] - 1
      invariant forall j :: i < j < |c| ==> c[j] != 1
      decreases i + 1
    {
      c' := c'[i := c'[i] - 1];
      if c'[i] == 0 {
        proposed' := num - (|c'| - 1 - i);
        c' := c'[i + 1..];
        assert Hit(c, |c| - Reach(c, numPrev), i);
        return;
      }
      i := i - 1;
      left := left - 1;
    }
  }

  // --------------------------------------------------------------- the next header

  /** The producer may not confirm blocks it has confirmed before; the lower end of
    * the range is computed in 32 bits. */
  predicate ConfirmsTwice(h: Header, producer: nat, numPrev: nat) {
    producer in h.lastProduced && h.lastProduced[producer] >= (h.num + 1 - numPrev) % 0x1_0000_0000
  }

  predicate Promotes(h: Header, lib: nat) {
    h.pending.producers != [] && lib >= h.pendingLib
  }

  /** Values carried over a schedule change; newcomers start at `start`. */
  function Carried(names: set<nat>, before: map<nat, nat>, start: nat): map<nat, nat> {
    map p | p in names :: if p in before then before[p] else start
  }

  ghost predicate NextOk(h: Header, slot: nat, numPrev: nat, n: Pending)
    requires h.active.producers != []
  {
    var g := n.header;
    && n.producer == ScheduledProducer(h.active, slot) && !ConfirmsTwice(h, n.producer, numPrev)
    && n.activeVersion == h.active.version
    && g.num == h.num + 1 && g.slot == slot > h.slot
    && CountedDown(Tracked(h.confirm, Quorum(|h.active.producers|)), numPrev, g.num, h.proposed, g.confirm, g.proposed)
    && IsLib(Raised(h.implied, n.producer, h.proposed), g.lib)
    && n.promoted == Promotes(h, g.lib)
    && g.pending == h.pending && g.pendingLib == h.pendingLib
    && g.active == (if n.promoted then h.pending else h.active)
    && (n.promoted ==>
          && g.lastProduced == Carried(Names(h.pending), h.lastProduced, g.lib)[n.producer := g.num]
          && g.implied == Raised(Carried(Names(h.pending), h.implied, g.lib), n.producer, h.proposed))
    && (!n.promoted ==>
          && g.lastProduced == h.lastProduced[n.producer := g.num]
          && g.implied == h.implied[n.producer := h.proposed])
  }

  /** Slot 0 stands for the slot after the current one. */
  function When(h: Header, slot: nat): nat {
    if slot == 0 then h.slot + 1 else slot
  }

  method Next(h: Header, slot: nat, numPrev: nat) returns (r: Result<Pending>)
    requires Usable(h.active) && Countable(h)
    ensures r.Err? <==> When(h, slot) <= h.slot || ConfirmsTwice(h, ScheduledProducer(h.active, When(h, slot)), numPrev)
    ensures r == Err(NotInFuture) <==> slot != 0 && slot <= h.slot
    ensures r.Ok? ==> NextOk(h, When(h, slot), numPrev, r.value)
    ensures r.Ok? ==>
              && r.value.header.num == h.num + 1 && r.value.header.slot == (if slot == 0 then h.slot + 1 else slot)
              && (r.value.producer in h.lastProduced ==> h.lastProduced[r.value.producer] < (h.num + 1 - numPrev) % 0x1_0000_0000)
    ensures r == Err(DoubleConfirm) ==>
              var p := ScheduledProducer(h.active, if slot == 0 then h.slot + 1 else slot);
              p in h.lastProduced && h.lastProduced[p] >= (h.num + 1 - numPrev) % 0x1_0000_0000
  {
    if slot != 0 && slot <= h.slot {
      return Err(NotInFuture);
    }
    var when := When(h, slot);
    var producer := ScheduledProducer(h.active, when);
    if ConfirmsTwice(h, producer, numPrev) {
      return Err(DoubleConfirm);
    }
    var num := h.num + 1;
    var confirm, proposed := CountDown(Tracked(h.confirm, Quorum(|h.active.producers|)), numPrev, num, h.proposed);
    var lib := CalcLastIrreversible(h.implied, producer, h.proposed);
    var promoted := Promotes(h, lib);
    var active, lastProduced, implied :=
      h.active, h.lastProduced[producer := num], h.implied[producer := h.proposed];
    if promoted {
      active := h.pending;
      lastProduced := Carried(Names(h.pending), h.lastProduced, lib)[producer := num];
      implied := Raised(Carried(Names(h.pending), h.implied, lib), producer, h.proposed);
    }
    r := Ok(Pending(Header(num, when, proposed, lib, active, lastProduced, implied, confirm, h.pending, h.pendingLib),
                    producer, h.active.version, promoted));
  }

  /** The counters fit their bytes and belong to blocks after the proposed one. */
  predicate Countable(h: Header) {
    && h.proposed + |h.confirm| <= h.num
    && forall i :: 0 <= i < |h.confirm| ==> 1 <= h.confirm[i] < 256
  }

  // ------------------------------------------------------------- finishing a block

  datatype Option<T> = None | Some(value: T)

  /** The header of a finished block: a schedule adopted with it is pending from now on;
    * after a promotion none is pending. */
  function Adopted(n: Pending, s: Option<Schedule>): Header {
    var h := n.header;
    match s
    case Some(schedule) => h.(pending := schedule, pendingLib := h.num)
    case None => if n.promoted then h.(pending := Schedule(h.pending.version, [])) else h
  }
}
