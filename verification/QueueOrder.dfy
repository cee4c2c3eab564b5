/** The queue of unapplied transactions position by position: where entries are put, which
  * are kept, and what the counters count. */
module QueueOrder {
  import opened TrxQueue

  /** Persisted transactions first, then those of abandoned forks, then aborted ones, then
    * incoming ones that are persisted, then the other incoming ones. */
  predicate Sooner(a: Kind, b: Kind) {
    match a
    case Persisted => !b.Persisted?
    case Forked => !b.Persisted? && !b.Forked?
    case Aborted => b.IncomingPersisted? || b.Incoming?
    case IncomingPersisted => b.Incoming?
    case Incoming => false
  }

  /** Classes are in order, and every id is there once. */
  lemma KeptOrder(q: seq<Entry>, i: nat, j: nat)
    requires WellKept(q) && i < j < |q|
    ensures !Sooner(q[j].kind, q[i].kind) && q[i].trx.id != q[j].trx.id
  {
    KeptMeaning(q);
  }

  /** A new entry stands behind all of its own class and before all later ones; the others
    * stay where they are. */
  lemma InsertedAt(q: seq<Entry>, e: Entry) returns (i: nat)
    requires WellKept(q)
    ensures i <= |q| && Insert(q, e) == q[..i] + [e] + q[i..]
    ensures forall j :: 0 <= j < i ==> !Sooner(e.kind, q[j].kind)
    ensures forall j :: i <= j < |q| ==> Sooner(e.kind, q[j].kind)
  {
    i := Slot(q, e.kind);
    KeptMeaning(q);
  }

  // ---------------------------------------------------------------------- what is kept

  predicate Increasing(at: seq<nat>) {
    forall i, j :: 0 <= i < j < |at| ==> at[i] < at[j]
  }

  /** The entries at the given positions, in order. */
  ghost predicate Picks(q: seq<Entry>, at: seq<nat>, r: seq<Entry>) {
    && Increasing(at) && |r| == |at| && (forall i :: 0 <= i < |at| ==> at[i] < |q|)
    && forall i :: 0 <= i < |at| ==> r[i] == q[at[i]]
  }

  lemma Peel(q: seq<Entry>, from: nat)
    requires from < |q|
    ensures q[from..] != [] && q[from..][0] == q[from] && q[from..][1..] == q[from + 1..]
  {
  }

  lemma PicksFront(q: seq<Entry>, from: nat, at: seq<nat>, r: seq<Entry>)
    requires from < |q| && Picks(q, at, r) && forall p :: p in at ==> from < p
    ensures Picks(q, [from] + at, [q[from]] + r)
  {
    assert forall i :: 0 <= i < |at| ==> at[i] in at;
  }

  /** Clearing applied transactions keeps exactly the entries with other ids, in order. */
  lemma KeptWithout(q: seq<Entry>, ids: set<nat>) returns (at: seq<nat>)
    ensures Picks(q, at, Without(q, ids))
    ensures forall p :: p in at <==> 0 <= p < |q| && q[p].trx.id !in ids
  {
    at := KeptWithoutFrom(q, ids, 0);
    assert q[0..] == q;
  }

  lemma {:induction false} KeptWithoutFrom(q: seq<Entry>, ids: set<nat>, from: nat) returns (at: seq<nat>)
    requires from <= |q|
    ensures Picks(q, at, Without(q[from..], ids))
    ensures forall p :: p in at <==> from <= p < |q| && q[p].trx.id !in ids
    decreases |q| - from
  {
    at := [];
    if from < |q| {
      at := KeptWithoutFrom(q, ids, from + 1);
      Peel(q, from);
      if q[from].trx.id !in ids {
        PicksFront(q, from, at, Without(q[from + 1..], ids));
        at := [from] + at;
      }
    }
  }

  /** Clearing expired transactions keeps exactly those that expire later, in order. */
  lemma KeptUnexpired(q: seq<Entry>, t: nat) returns (at: seq<nat>)
    ensures Picks(q, at, Unexpired(q, t))
    ensures forall p :: p in at <==> 0 <= p < |q| && q[p].trx.expiry > t
  {
    at := KeptUnexpiredFrom(q, t, 0);
    assert q[0..] == q;
  }

  lemma {:induction false} KeptUnexpiredFrom(q: seq<Entry>, t: nat, from: nat) returns (at: seq<nat>)
    requires from <= |q|
    ensures Picks(q, at, Unexpired(q[from..], t))
    ensures forall p :: p in at <==> from <= p < |q| && q[p].trx.expiry > t
    decreases |q| - from
  {
    at := [];
    if from < |q| {
      at := KeptUnexpiredFrom(q, t, from + 1);
      Peel(q, from);
      if q[from].trx.expiry > t {
        PicksFront(q, from, at, Unexpired(q[from + 1..], t));
        at := [from] + at;
      }
    }
  }

  /** A class are the entries of that kind, in the order in which they stand. */
  lemma ClassAt(q: seq<Entry>, k: Kind) returns (at: seq<nat>)
    ensures Picks(q, at, Tagged(Class(q, k), k))
    ensures forall p :: p in at <==> 0 <= p < |q| && q[p].kind == k
  {
    at := ClassAtFrom(q, k, 0);
    assert q[0..] == q;
  }

  lemma {:induction false} ClassAtFrom(q: seq<Entry>, k: Kind, from: nat) returns (at: seq<nat>)
    requires from <= |q|
    ensures Picks(q, at, Tagged(Class(q[from..], k), k))
    ensures forall p :: p in at <==> from <= p < |q| && q[p].kind == k
    decreases |q| - from
  {
    at := [];
    if from < |q| {
      at := ClassAtFrom(q, k, from + 1);
      Peel(q, from);
      if q[from].kind == k {
        PicksFront(q, from, at, Tagged(Class(q[from + 1..], k), k));
        assert Tagged(Class(q[from..], k), k) == [q[from]] + Tagged(Class(q[from + 1..], k), k);
        at := [from] + at;
      }
    }
  }

  // -------------------------------------------------------------------- what is counted

  /** The count of incoming entries, persisted or not. */
  lemma {:induction false} CountMeaning(q: seq<Entry>)
    ensures IncomingCount(q) == |set p | 0 <= p < |q| && (q[p].kind.Incoming? || q[p].kind.IncomingPersisted?)|
    decreases |q|
  {
    var all := set p | 0 <= p < |q| && (q[p].kind.Incoming? || q[p].kind.IncomingPersisted?);
    if q == [] {
      assert all == {};
    } else {
      var n := |q| - 1;
      var p := q[..n];
      CountMeaning(p);
      CountsAppend(p, [q[n]]);
      assert q == p + [q[n]];
      var before := set i | 0 <= i < |p| && (p[i].kind.Incoming? || p[i].kind.IncomingPersisted?);
      assert all == before + if q[n].kind.Incoming? || q[n].kind.IncomingPersisted? then {n} else {};
    }
  }

  /** The sum of the sizes. */
  lemma BytesMeaning(q: seq<Entry>, e: Entry)
    ensures Bytes([]) == 0 && Bytes(q + [e]) == Bytes(q) + e.trx.size
  {
    CountsAppend(q, [e]);
  }

  // --------------------------------------------------------------------- what is added

  /** The first with its id, which was not there before. */
  predicate FirstOf(seen: set<nat>, ts: seq<Trx>, p: nat) {
    p < |ts| && ts[p].id !in seen && forall o :: 0 <= o < p ==> ts[o].id != ts[p].id
  }

  /** Of several transactions with one id the first is added, unless the id was there
    * before; they are added in their order. */
  lemma FirstSeenAt(seen: set<nat>, ts: seq<Trx>) returns (at: seq<nat>)
    ensures Increasing(at) && |FirstSeen(seen, ts)| == |at| && (forall i :: 0 <= i < |at| ==> at[i] < |ts|)
    ensures forall i :: 0 <= i < |at| ==> FirstSeen(seen, ts)[i] == ts[at[i]]
    ensures forall p: nat :: p in at <==> FirstOf(seen, ts, p)
  {
    at := FirstSeenFrom(seen, ts, 0, seen);
    assert ts[0..] == ts;
  }

  lemma {:induction false} FirstSeenFrom(seen: set<nat>, ts: seq<Trx>, from: nat, known: set<nat>) returns (at: seq<nat>)
    requires from <= |ts| && forall id :: id in known <==> id in seen || exists o :: 0 <= o < from && ts[o].id == id
    ensures Increasing(at) && |FirstSeen(known, ts[from..])| == |at| && (forall i :: 0 <= i < |at| ==> at[i] < |ts|)
    ensures forall i :: 0 <= i < |at| ==> FirstSeen(known, ts[from..])[i] == ts[at[i]]
    ensures forall p: nat :: p in at <==> from <= p && FirstOf(seen, ts, p)
    decreases |ts| - from
  {
    at := [];
    if from < |ts| {
      assert ts[from..][0] == ts[from] && ts[from..][1..] == ts[from + 1..];
      if ts[from].id in known {
        at := FirstSeenFrom(seen, ts, from + 1, known);
        assert !FirstOf(seen, ts, from);
      } else {
        at := FirstSeenFrom(seen, ts, from + 1, known + {ts[from].id});
        assert FirstOf(seen, ts, from);
        assert forall i :: 0 <= i < |at| ==> at[i] in at;
        at := [from] + at;
      }
    }
  }

  /** A branch is given newest block first; its transactions are taken oldest block first,
    * and within a block in their order. */
  lemma {:induction false} OldestFirst(branch: seq<seq<Trx>>, block: seq<Trx>)
    ensures Applied([]) == [] && Applied(branch + [block]) == block + Applied(branch)
    decreases |branch|
  {
    if branch == [] {
      assert [block][1..] == [] && branch + [block] == [block];
      assert [] + block == block + [];
    } else {
      assert (branch + [block])[1..] == branch[1..] + [block];
      OldestFirst(branch[1..], block);
    }
  }
}
