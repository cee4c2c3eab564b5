/** From proposed to pending to active: producer schedules over a run of blocks. */
module Promotion {
  import D = Dpos
  import R = DposResults

  type Schedule = D.Schedule

  type Option<T> = D.Option<T>
  datatype Proposal = Proposal(blockNum: nat, schedule: Schedule)

  datatype Failure = NotInFuture | DoubleConfirm | WrongVersion | PromotedInSameBlock | StillPending
  datatype Outcome = Done | Failed(failure: Failure)

  /** A block being built. */
  datatype Building = Building(pending: D.Pending, newPending: Option<Schedule>)

  // ------------------------------------------------------------------ invariants

  predicate Acceptable(s: Schedule) {
    s.producers == [] || D.Usable(s)
  }

  /** The version a new proposal gets. */
  function NextVersion(active: Schedule, pending: Schedule): nat {
    if pending.producers == [] then active.version + 1 else pending.version + 1
  }

  /** The pending schedule is the next version; without one its number is the active
    * one's, or the next one's when an empty schedule was set. */
  predicate VersionsOk(active: Schedule, pending: Schedule) {
    if pending.producers == [] then active.version <= pending.version <= active.version + 1
    else pending.version == active.version + 1
  }

  /** At genesis the initial schedule is active and pending at once. */
  predicate Genesis(h: D.Header) {
    R.Genesis(h) && h.pending == h.active
  }

  predicate HeadOk(h: D.Header) {
    R.HeaderOk(h) && Acceptable(h.pending) && (Genesis(h) || (VersionsOk(h.active, h.pending) && !R.Genesis(h)))
  }

  predicate ProposalOk(p: Option<Proposal>, active: Schedule, pending: Schedule) {
    p.Some? ==> Acceptable(p.value.schedule) && p.value.schedule.version == NextVersion(active, pending)
  }

  /** The pending schedule as seen while a block is built. */
  function PendingNow(b: Building): Schedule {
    match b.newPending
    case Some(s) => s
    case None => b.pending.header.pending
  }

  /** The header after the block. */
  function Finished(b: Building): D.Header {
    D.Adopted(b.pending, b.newPending)
  }

  class Chain {
    const disallowEmpty: bool
    var head: D.Header
    var proposed: Option<Proposal>
    var building: Option<Building>
    var proposedBefore: Option<Proposal>

    ghost predicate Valid()
      reads this
    {
      && HeadOk(head)
      && match building {
           case None => ProposalOk(proposed, head.active, head.pending)
           case Some(b) =>
             && ProposalOk(proposedBefore, head.active, head.pending)
             && BuildingOk(head, b) && ProposalOk(proposed, b.pending.header.active, PendingNow(b))
         }
    }

    constructor (initial: Schedule, disallowEmpty: bool)
      requires D.Usable(initial)
      ensures Valid() && building.None? && proposed.None? && head.active == initial && Genesis(head)
      ensures this.disallowEmpty == disallowEmpty
    {
      this.disallowEmpty := disallowEmpty;
      head := D.Header(1, 0, 0, 0, initial, map[], map[], [], initial, 0);
      proposed := D.None;
      building := D.None;
      proposedBefore := D.None;
    }

    /** Computes the next header; a schedule proposed in an irreversible block
      * becomes pending if there is room. The version test never fails. */
    method StartBlock(slot: nat, numPrev: nat) returns (r: Outcome)
      requires Valid() && building.None?
      modifies this
      ensures Valid() && head == old(head)
      ensures r == Done || r == Failed(NotInFuture) || r == Failed(DoubleConfirm)
      ensures r != Done ==> building == D.None && proposed == old(proposed)
      ensures r == Done ==>
                && building.Some? && D.NextOk(head, D.When(head, slot), numPrev, building.value.pending)
                && (building.value.newPending.Some? <==>
                      old(proposed).Some? && old(proposed).value.blockNum <= building.value.pending.header.lib && head.pending.producers == [])
                && (if building.value.newPending.Some? then building.value.newPending.value == old(proposed).value.schedule && proposed == D.None
                    else proposed == old(proposed))
    {
      var next := D.Next(head, slot, numPrev);
      if next.Err? {
        return Failed(if next.error == D.NotInFuture then NotInFuture else DoubleConfirm);
      }
      StepBuilds(head, D.When(head, slot), numPrev, next.value, proposed);
      r := Promote(next.value);
    }

    method Promote(pending: D.Pending) returns (r: Outcome)
      requires Valid() && building.None? && BuildingOk(head, Building(pending, D.None)) && pending.activeVersion == head.active.version
      requires ProposalOk(proposed, pending.header.active, pending.header.pending)
      modifies this
      ensures Valid() && head == old(head) && r == Done && building.Some? && building.value.pending == pending
      ensures building.value.newPending.Some? <==>
                old(proposed).Some? && old(proposed).value.blockNum <= pending.header.lib && head.pending.producers == []
      ensures if building.value.newPending.Some? then building.value.newPending.value == old(proposed).value.schedule && proposed == D.None
              else proposed == old(proposed)
    {
      proposedBefore := proposed;
      var newPending := D.None;
      if proposed.Some? && proposed.value.blockNum <= pending.header.lib && pending.header.pending.producers == [] {
        if proposed.value.schedule.version != pending.activeVersion + 1 {
          return Failed(WrongVersion);
        }
        newPending := D.Some(proposed.value.schedule);
        proposed := D.None;
      }
      building := D.Some(Building(pending, newPending));
      r := Done;
    }

    /** The version of the accepted proposal, or -1. */
    method SetProposedProducers(producers: seq<nat>) returns (version: int)
      requires Valid() && building.Some? && |producers| <= D.MAX_PRODUCERS && D.Distinct(producers)
      modifies this`proposed
      ensures Valid()
      ensures version == -1 <==>
                || (producers == [] && disallowEmpty)
                || (old(proposed).Some? && (old(proposed).value.blockNum != head.num + 1 || old(proposed).value.schedule.producers == producers))
                || producers == Basis(building.value).producers
      ensures version == -1 ==> proposed == old(proposed)
      ensures var h := building.value.pending.header;
              var waiting := if building.value.newPending.Some? then building.value.newPending.value else h.pending;
              && (producers == (if waiting.producers == [] then h.active.producers else waiting.producers) ==> version == -1)
              && (version != -1 ==> version == 1 + if waiting.producers == [] then h.active.version else waiting.version)
      ensures version != -1 ==> proposed == D.Some(Proposal(head.num + 1, D.Schedule(version, producers)))
    {
      if producers == [] && disallowEmpty {
        return -1;
      }
      if proposed.Some? {
        if proposed.value.blockNum != head.num + 1 || proposed.value.schedule.producers == producers {
          return -1;
        }
      }
      var basis := Basis(building.value);
      if producers == basis.producers {
        return -1;
      }
      var s := D.Schedule(basis.version + 1, producers);
      proposed := D.Some(Proposal(head.num + 1, s));
      version := s.version;
    }

    /** A list from a contract: one that is too long, empty where that is not allowed,
      * names no account or names one twice is refused. */
    method ProposeProducers(producers: seq<nat>, accounts: set<nat>) returns (r: Option<int>)
      requires Valid() && building.Some?
      modifies this`proposed
      ensures Valid()
      ensures r.None? <==>
                || |producers| > D.MAX_PRODUCERS || (producers == [] && disallowEmpty)
                || !(forall p :: p in producers ==> p in accounts) || !D.Distinct(producers)
      ensures r.None? || r.value == -1 ==> proposed == old(proposed)
      ensures var h := building.value.pending.header;
              var waiting := if building.value.newPending.Some? then building.value.newPending.value else h.pending;
              r.Some? && r.value != -1 ==>
                && r.value == (1 + if waiting.producers == [] then h.active.version else waiting.version)
                && proposed == D.Some(Proposal(head.num + 1, D.Schedule(r.value, producers)))
      ensures r.Some? ==>
                (r.value == -1 <==>
                  || (old(proposed).Some? && (old(proposed).value.blockNum != head.num + 1 || old(proposed).value.schedule.producers == producers))
                  || producers == Basis(building.value).producers)
    {
      if |producers| > D.MAX_PRODUCERS {
        return D.None;
      }
      if producers == [] && disallowEmpty {
        return D.None;
      }
      var ok := UniqueAccounts(producers, accounts);
      if !ok {
        return D.None;
      }
      var version := SetProposedProducers(producers);
      r := D.Some(version);
    }

    /** Completes the block. None of the three tests on a new pending schedule fails. */
    method FinishBlock() returns (r: Outcome)
      requires Valid() && building.Some?
      modifies this
      ensures Valid() && r == Done && building == D.None && proposed == old(proposed)
      ensures head == Finished(old(building).value)
      ensures var b := old(building).value;
              && head.num == b.pending.header.num == old(head).num + 1 && head.lib == b.pending.header.lib
              && head.active == (if b.pending.promoted then old(head).pending else old(head).active)
              && (b.newPending.Some? ==> head.pending == b.newPending.value && head.pendingLib == head.num)
              && (b.newPending.None? && b.pending.promoted ==> head.pending.producers == [])
              && (b.newPending.None? && !b.pending.promoted ==> head.pending == old(head).pending && head.pendingLib == b.pending.header.pendingLib)
      ensures !R.Genesis(head) && D.Usable(head.active)
      ensures head.active.version == old(head).active.version +
                if old(building).value.pending.promoted && !Genesis(old(head)) then 1 else 0
      ensures head.active.version <= head.pending.version <= head.active.version + 1
    {
      var b := building.value;
      var h := b.pending.header;
      if b.newPending.Some? {
        if b.pending.promoted {
          return Failed(PromotedInSameBlock);
        }
        if b.newPending.value.version != h.active.version + 1 {
          return Failed(WrongVersion);
        }
        if h.pending.producers != [] {
          return Failed(StillPending);
        }
      }
      KeepsHeadOk(head, b);
      head := Finished(b);
      building := D.None;
      r := Done;
    }

    method AbortBlock()
      requires Valid() && building.Some?
      modifies this
      ensures Valid() && building == D.None && head == old(head) && proposed == old(proposedBefore)
    {
      building := D.None;
      proposed := proposedBefore;
    }
  }

  /** Whether all names are accounts, and as many as there are entries. */
  method UniqueAccounts(producers: seq<nat>, accounts: set<nat>) returns (ok: bool)
    ensures ok <==> (forall p :: p in producers ==> p in accounts) && D.Distinct(producers)
  {
    var unique: set<nat> := {};
    for i := 0 to |producers|
      invariant (forall p :: p in unique <==> p in producers[..i]) && forall p :: p in producers[..i] ==> p in accounts
      invariant |unique| <= i && (|unique| == i <==> D.Distinct(producers[..i]))
    {
      if producers[i] !in accounts {
        return false;
      }
      assert producers[..i + 1] == producers[..i] + [producers[i]];
      OneMoreName(producers[..i], producers[i]);
      unique := unique + {producers[i]};
    }
    assert producers[..|producers|] == producers;
    ok := |producers| == |unique|;
  }

  lemma OneMoreName(s: seq<nat>, x: nat)
    ensures D.Distinct(s + [x]) <==> D.Distinct(s) && x !in s
  {
    if x in s {
      var j :| 0 <= j < |s| && s[j] == x;
      assert (s + [x])[j] == (s + [x])[|s|];
    }
    if D.Distinct(s + [x]) {
      forall j, k | 0 <= j < k < |s| ensures s[j] != s[k] {
        assert (s + [x])[j] == s[j] && (s + [x])[k] == s[k];
      }
    }
  }

  /** The schedule a proposal is compared with. */
  function Basis(b: Building): Schedule {
    if PendingNow(b).producers == [] then b.pending.header.active else PendingNow(b)
  }

  predicate BuildingOk(head: D.Header, b: Building) {
    var h := b.pending.header;
    && R.HeaderOk(h) && !R.Genesis(h) && h.num == head.num + 1 && h.pending == head.pending
    && (Genesis(head) ==> b.pending.promoted)
    && (b.pending.promoted ==> head.pending.producers != [] && h.active == head.pending)
    && (!b.pending.promoted ==> h.active == head.active)
    && (b.newPending.Some? ==>
          head.pending.producers == [] && Acceptable(b.newPending.value) && b.newPending.value.version == head.active.version + 1)
  }

  lemma StepBuilds(head: D.Header, slot: nat, numPrev: nat, n: D.Pending, proposed: Option<Proposal>)
    requires HeadOk(head) && D.NextOk(head, slot, numPrev, n) && ProposalOk(proposed, head.active, head.pending)
    ensures BuildingOk(head, Building(n, D.None)) && n.activeVersion == head.active.version
    ensures ProposalOk(proposed, n.header.active, n.header.pending)
  {
    R.StepKeeps(head, slot, numPrev, n);
    assert n.header.active.producers[0] in n.header.implied;
  }

  lemma KeepsHeadOk(head: D.Header, b: Building)
    requires HeadOk(head) && BuildingOk(head, b)
    ensures HeadOk(Finished(b)) && !R.Genesis(Finished(b))
    ensures NextVersion(Finished(b).active, Finished(b).pending) == NextVersion(b.pending.header.active, PendingNow(b))
  {
  }
}
