/** Turns of the producers, and the loops that produce blocks until a turn comes. */
module Rotation {
  import opened Dpos
  import Bits

  /** Whose turn a slot is, by position in a schedule of n producers. */
  function Turn(n: nat, slot: nat): (i: nat)
    requires n > 0
    ensures i < n
  {
    TurnInRange(slot, n);
    slot % (n * REPETITIONS) / REPETITIONS
  }

  /** How many of the slots from..from+len-1 belong to position i. */
  function Turns(n: nat, i: nat, from: nat, len: nat): nat
    requires n > 0
    decreases len
  {
    if len == 0 then 0 else (if Turn(n, from) == i then 1 else 0) + Turns(n, i, from + 1, len - 1)
  }

  lemma Periodic(n: nat, round: nat, slot: nat)
    requires n > 0 && round == n * REPETITIONS
    ensures Turn(n, slot + round) == Turn(n, slot)
  {
    ModPeriod(slot, round);
  }

  lemma ModPeriod(x: nat, m: nat)
    requires m > 0
    ensures (x + m) % m == x % m
  {
    var q, r := x / m, x % m;
    assert x + m == m * (q + 1) + r;
    Bits.DivUnique(x + m, m, q + 1, r);
  }

  lemma {:induction false} TurnsSplit(n: nat, i: nat, from: nat, len: nat, more: nat)
    requires n > 0
    ensures Turns(n, i, from, len + more) == Turns(n, i, from, len) + Turns(n, i, from + len, more)
    decreases len
  {
    if len > 0 {
      TurnsSplit(n, i, from + 1, len - 1, more);
    }
  }

  /** Moving a window of a whole round by one slot changes nothing. */
  lemma {:induction false} AnyStart(n: nat, i: nat, round: nat, from: nat)
    requires n > 0 && round == n * REPETITIONS
    ensures Turns(n, i, from, round) == Turns(n, i, 0, round)
    decreases from
  {
    if from > 0 {
      AnyStart(n, i, round, from - 1);
      TurnsSplit(n, i, from - 1, 1, round - 1);
      TurnsSplit(n, i, from, round - 1, 1);
      Periodic(n, round, from - 1);
      assert Turns(n, i, from - 1, 1) == Turns(n, i, from - 1 + round, 1);
    }
  }

  lemma OneTurn(n: nat, i: nat, j: nat)
    requires n > 0 && j < n
    ensures Turns(n, i, j * REPETITIONS, REPETITIONS) == if i == j then REPETITIONS else 0
  {
    SameTurn(n, i, j, 0, REPETITIONS);
  }

  lemma TurnOf(n: nat, j: nat, k: nat)
    requires j < n && k < REPETITIONS
    ensures Turn(n, j * REPETITIONS + k) == j
  {
    var slot, round := j * REPETITIONS + k, n * REPETITIONS;
    assert slot == round * 0 + slot;
    Bits.DivUnique(slot, round, 0, slot);
  }

  lemma {:induction false} SameTurn(n: nat, i: nat, j: nat, k: nat, len: nat)
    requires n > 0 && j < n && k + len == REPETITIONS
    ensures Turns(n, i, j * REPETITIONS + k, len) == if i == j then len else 0
    decreases len
  {
    if len > 0 {
      TurnOf(n, j, k);
      SameTurn(n, i, j, k + 1, len - 1);
    }
  }

  lemma {:induction false} FirstTurns(n: nat, i: nat, j: nat)
    requires n > 0 && j <= n
    ensures Turns(n, i, 0, j * REPETITIONS) == if i < j then REPETITIONS else 0
    decreases j
  {
    if j > 0 {
      FirstTurns(n, i, j - 1);
      OneTurn(n, i, j - 1);
      TurnsSplit(n, i, 0, (j - 1) * REPETITIONS, REPETITIONS);
    }
  }

  /** Any whole round of consecutive slots gives every producer exactly its twelve. */
  lemma FairRound(n: nat, i: nat, from: nat)
    requires i < n
    ensures Turns(n, i, from, n * REPETITIONS) == REPETITIONS
  {
    AnyStart(n, i, n * REPETITIONS, from);
    FirstTurns(n, i, n);
  }

  // ---------------------------------------------------------------- production loops

  lemma {:induction false} SomeTurn(n: nat, i: nat, from: nat, len: nat) returns (slot: nat)
    requires n > 0 && Turns(n, i, from, len) > 0
    ensures from <= slot < from + len && Turn(n, slot) == i
    decreases len
  {
    if Turn(n, from) == i {
      slot := from;
    } else {
      slot := SomeTurn(n, i, from + 1, len - 1);
    }
  }

  lemma ScheduledIsTurn(s: Schedule, slot: nat)
    requires s.producers != []
    ensures ScheduledProducer(s, slot) == s.producers[Turn(|s.producers|, slot)]
  {
  }

  /** The producers of `len` consecutive blocks. */
  function Heads(s: Schedule, from: nat, len: nat): set<nat>
    requires s.producers != []
  {
    if len == 0 then {} else Heads(s, from, len - 1) + {ScheduledProducer(s, from + len - 1)}
  }

  lemma {:induction false} HeadsHas(s: Schedule, from: nat, len: nat, t: nat)
    requires s.producers != [] && from <= t < from + len
    ensures ScheduledProducer(s, t) in Heads(s, from, len)
  {
    if t < from + len - 1 {
      HeadsHas(s, from, len - 1, t);
    }
  }

  lemma {:induction false} HeadsGrow(s: Schedule, from: nat, len: nat, more: nat)
    requires s.producers != [] && len <= more
    ensures Heads(s, from, len) <= Heads(s, from, more)
    decreases more
  {
    if len < more {
      HeadsGrow(s, from, len, more - 1);
    }
  }

  /** Within one round everyone on the schedule has been head. */
  lemma EveryoneSeen(s: Schedule, from: nat, len: nat)
    requires s.producers != [] && len >= |s.producers| * REPETITIONS
    ensures Names(s) <= Heads(s, from, len)
  {
    var n := |s.producers|;
    forall p | p in Names(s) ensures p in Heads(s, from, len) {
      var i :| 0 <= i < n && s.producers[i] == p;
      FairRound(n, i, from);
      var t := SomeTurn(n, i, from, n * REPETITIONS);
      ScheduledIsTurn(s, t);
      HeadsHas(s, from, len, t);
    }
  }

  /** Producing one block per slot from the head's slot on, until every expected
    * producer has been head or `max` blocks were produced. */
  method ProduceUntilBlocksFrom(s: Schedule, expected: set<nat>, headSlot: nat, max: nat) returns (ok: bool, produced: nat)
    requires s.producers != []
    ensures produced <= max && (ok ==> expected <= Heads(s, headSlot, produced + 1))
    ensures ok <==> expected <= Heads(s, headSlot, max + 1)
    ensures expected <= Names(s) && max + 1 >= |s.producers| * REPETITIONS ==> ok
  {
    if max + 1 >= |s.producers| * REPETITIONS {
      EveryoneSeen(s, headSlot, max + 1);
    }
    var remaining := expected;
    produced := 0;
    while produced < max
      invariant 0 <= produced <= max && remaining == expected - Heads(s, headSlot, produced)
    {
      remaining := remaining - {ScheduledProducer(s, headSlot + produced)};
      if remaining == {} {
        HeadsGrow(s, headSlot, produced + 1, max + 1);
        return true, produced;
      }
      produced := produced + 1;
    }
    remaining := remaining - {ScheduledProducer(s, headSlot + produced)};
    ok := remaining == {};
  }

  /** The first block of the round after the head. */
  method NextRoundFirstBlock(head: nat, n: nat) returns (r: nat)
    requires n > 0
    ensures head < r <= head + n * REPETITIONS && r % (n * REPETITIONS) == 0
    ensures forall x :: head < x < r ==> x % (n * REPETITIONS) != 0
  {
    var round := n * REPETITIONS;
    r := head + 1;
    NextMultiple(head, round);
    while r % round != 0
      invariant head < r <= head + round
      invariant forall x :: head < x < r ==> x % round != 0
      decreases head + round - r
    {
      r := r + 1;
    }
  }

  lemma NextMultiple(head: nat, round: nat)
    requires round > 0
    ensures var m := head + round - head % round; head < m <= head + round && m % round == 0
  {
    var q := head / round;
    assert head + round - head % round == round * (q + 1);
    Bits.DivUnique(round * (q + 1), round, q + 1, 0);
  }
}
