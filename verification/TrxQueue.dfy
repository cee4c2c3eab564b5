/** The queue of unapplied transactions: one entry per transaction id, kept by
  * class and, within a class, in order of arrival. */
module TrxQueue {

  const TWO64: nat := 0x1_0000_0000_0000_0000

  datatype Kind = Persisted | Forked | Aborted | IncomingPersisted | Incoming

  /** `object` tells apart two metadata objects for the same transaction. */
  datatype Trx = Trx(id: nat, object: nat, size: nat, expiry: nat)

  datatype Entry = Entry(trx: Trx, kind: Kind)

  datatype AddResult = Added | Present | Duplicate | Exhausted

  function Rank(k: Kind): nat {
    match k
    case Persisted => 1
    case Forked => 2
    case Aborted => 3
    case IncomingPersisted => 4
    case Incoming => 5
  }

  predicate IsIncoming(k: Kind) {
    k == Incoming || k == IncomingPersisted
  }

  // ------------------------------------------------------- the index by class

  /** Where a new entry of class k goes: behind its own class. */
  function Slot(q: seq<Entry>, k: Kind): (i: nat)
    ensures i <= |q|
    ensures forall j :: 0 <= j < i ==> Rank(q[j].kind) <= Rank(k)
    ensures i < |q| ==> Rank(k) < Rank(q[i].kind)
  {
    if q == [] || Rank(k) < Rank(q[0].kind) then 0 else 1 + Slot(q[1..], k)
  }

  function Insert(q: seq<Entry>, e: Entry): seq<Entry> {
    var i := Slot(q, e.kind);
    q[..i] + [e] + q[i..]
  }

  function Drop(q: seq<Entry>, i: nat): seq<Entry>
    requires i < |q|
  {
    q[..i] + q[i + 1..]
  }

  function Class(q: seq<Entry>, k: Kind): seq<Trx> {
    if q == [] then [] else (if q[0].kind == k then [q[0].trx] else []) + Class(q[1..], k)
  }

  function Ids(q: seq<Entry>): set<nat> {
    set e | e in q :: e.trx.id
  }

  function IncomingCount(q: seq<Entry>): nat {
    if q == [] then 0 else (if IsIncoming(q[0].kind) then 1 else 0) + IncomingCount(q[1..])
  }

  function Bytes(q: seq<Entry>): nat {
    if q == [] then 0 else q[0].trx.size + Bytes(q[1..])
  }

  predicate Sorted(q: seq<Entry>) {
    forall i, j :: 0 <= i < j < |q| ==> Rank(q[i].kind) <= Rank(q[j].kind)
  }

  predicate Distinct(q: seq<Entry>) {
    forall i, j :: 0 <= i < j < |q| ==> q[i].trx.id != q[j].trx.id
  }

  function Tagged(ts: seq<Trx>, k: Kind): seq<Entry> {
    seq(|ts|, i requires 0 <= i < |ts| => Entry(ts[i], k))
  }

  lemma {:induction false} CountsAppend(q: seq<Entry>, r: seq<Entry>)
    ensures IncomingCount(q + r) == IncomingCount(q) + IncomingCount(r)
    ensures Bytes(q + r) == Bytes(q) + Bytes(r)
  {
    if q == [] {
      assert q + r == r;
    } else {
      assert (q + r)[1..] == q[1..] + r;
      CountsAppend(q[1..], r);
    }
  }

  lemma {:induction false} ClassAppend(q: seq<Entry>, r: seq<Entry>, k: Kind)
    ensures Class(q + r, k) == Class(q, k) + Class(r, k)
  {
    if q == [] {
      assert q + r == r;
    } else {
      assert (q + r)[1..] == q[1..] + r;
      ClassAppend(q[1..], r, k);
    }
  }

  /** One entry more, wherever it stands. */
  lemma CountsSplice(p: seq<Entry>, e: Entry, r: seq<Entry>)
    ensures IncomingCount(p + [e] + r) == IncomingCount(p + r) + if IsIncoming(e.kind) then 1 else 0
    ensures Bytes(p + [e] + r) == Bytes(p + r) + e.trx.size
  {
    CountsAppend(p + [e], r);
    CountsAppend(p, [e]);
    CountsAppend(p, r);
  }

  lemma ClassSplice(p: seq<Entry>, e: Entry, r: seq<Entry>, k: Kind)
    ensures Class(p + [e] + r, k) == Class(p, k) + (if e.kind == k then [e.trx] else []) + Class(r, k)
    ensures Class(p + r, k) == Class(p, k) + Class(r, k)
  {
    ClassAppend(p + [e], r, k);
    ClassAppend(p, [e], k);
    ClassAppend(p, r, k);
  }

  lemma IdsSplice(p: seq<Entry>, e: Entry, r: seq<Entry>)
    ensures Ids(p + [e] + r) == Ids(p + r) + {e.trx.id}
  {
    assert forall x :: x in p + [e] + r <==> x in p + r || x == e;
  }

  lemma DistinctWith(p: seq<Entry>, e: Entry, r: seq<Entry>)
    requires Distinct(p + r) && e.trx.id !in Ids(p + r)
    ensures Distinct(p + [e] + r)
  {
    var q, s := p + [e] + r, p + r;
    forall i, j | 0 <= i < j < |q| ensures q[i].trx.id != q[j].trx.id {
      if i != |p| && j != |p| {
        assert q[i] == s[if i < |p| then i else i - 1] && q[j] == s[if j < |p| then j else j - 1];
      } else if i == |p| {
        assert q[j] in s;
      } else {
        assert q[i] in s;
      }
    }
  }

  lemma DistinctWithout(p: seq<Entry>, e: Entry, r: seq<Entry>)
    requires Distinct(p + [e] + r)
    ensures Distinct(p + r) && e.trx.id !in Ids(p + r)
  {
    var q, s := p + [e] + r, p + r;
    assert q[|p|] == e;
    forall j | 0 <= j < |s| ensures s[j].trx.id != e.trx.id {
      assert s[j] == q[if j < |p| then j else j + 1];
    }
    forall i, j | 0 <= i < j < |s| ensures s[i].trx.id != s[j].trx.id {
      assert s[i] == q[if i < |p| then i else i + 1] && s[j] == q[if j < |p| then j else j + 1];
    }
  }

  lemma {:induction false} EarlierClass(q: seq<Entry>, k: Kind)
    requires forall i :: 0 <= i < |q| ==> Rank(k) < Rank(q[i].kind)
    ensures Class(q, k) == []
  {
    if q != [] {
      EarlierClass(q[1..], k);
    }
  }

  lemma InsertClass(q: seq<Entry>, e: Entry, k: Kind)
    requires Sorted(q)
    ensures Class(Insert(q, e), k) == Class(q, k) + if e.kind == k then [e.trx] else []
  {
    var i := Slot(q, e.kind);
    assert q == q[..i] + q[i..];
    if e.kind == k {
      EarlierClass(q[i..], k);
    }
    ClassInserted(q[..i], e, q[i..], k);
  }

  lemma ClassInserted(p: seq<Entry>, e: Entry, r: seq<Entry>, k: Kind)
    requires e.kind == k ==> Class(r, k) == []
    ensures Class(p + [e] + r, k) == Class(p + r, k) + if e.kind == k then [e.trx] else []
  {
    ClassSplice(p, e, r, k);
  }

  lemma InsertSorted(q: seq<Entry>, e: Entry)
    requires Sorted(q)
    ensures Sorted(Insert(q, e))
  {
  }

  lemma DropSorted(q: seq<Entry>, i: nat)
    requires Sorted(q) && i < |q|
    ensures Sorted(Drop(q, i))
  {
  }

  lemma InsertEffect(q: seq<Entry>, e: Entry)
    ensures IncomingCount(Insert(q, e)) == IncomingCount(q) + if IsIncoming(e.kind) then 1 else 0
    ensures Bytes(Insert(q, e)) == Bytes(q) + e.trx.size
    ensures Ids(Insert(q, e)) == Ids(q) + {e.trx.id}
    ensures Distinct(q) && e.trx.id !in Ids(q) ==> Distinct(Insert(q, e))
  {
    var i := Slot(q, e.kind);
    var p, r := q[..i], q[i..];
    assert q == p + r;
    CountsSplice(p, e, r);
    IdsSplice(p, e, r);
    if Distinct(q) && e.trx.id !in Ids(q) {
      DistinctWith(p, e, r);
    }
  }

  lemma DropEffect(q: seq<Entry>, i: nat)
    requires i < |q|
    ensures IncomingCount(q) == IncomingCount(Drop(q, i)) + if IsIncoming(q[i].kind) then 1 else 0
    ensures Bytes(q) == Bytes(Drop(q, i)) + q[i].trx.size
    ensures Distinct(q) ==> Distinct(Drop(q, i)) && Ids(Drop(q, i)) == Ids(q) - {q[i].trx.id}
  {
    DropSplice(q, q[..i], q[i], q[i + 1..]);
  }

  lemma DropSplice(q: seq<Entry>, p: seq<Entry>, e: Entry, r: seq<Entry>)
    requires q == p + [e] + r
    ensures IncomingCount(q) == IncomingCount(p + r) + if IsIncoming(e.kind) then 1 else 0
    ensures Bytes(q) == Bytes(p + r) + e.trx.size
    ensures Distinct(q) ==> Distinct(p + r) && Ids(p + r) == Ids(q) - {e.trx.id}
  {
    CountsSplice(p, e, r);
    if Distinct(q) {
      IdsWithout(p, e, r);
    }
  }

  lemma IdsWithout(p: seq<Entry>, e: Entry, r: seq<Entry>)
    requires Distinct(p + [e] + r)
    ensures Distinct(p + r) && Ids(p + r) == Ids(p + [e] + r) - {e.trx.id}
  {
    IdsSplice(p, e, r);
    DistinctWithout(p, e, r);
  }

  /** Reading the queue from the front gives the classes one after the other, each
    * in order of arrival. */
  lemma DrainOrder(q: seq<Entry>)
    requires Sorted(q)
    ensures q == Tagged(Class(q, Persisted), Persisted) + Tagged(Class(q, Forked), Forked) + Tagged(Class(q, Aborted), Aborted) +
                 Tagged(Class(q, IncomingPersisted), IncomingPersisted) + Tagged(Class(q, Incoming), Incoming)
  {
    FromRank(q, 1);
  }

  function KindOf(r: nat): Kind {
    if r <= 1 then Persisted else if r == 2 then Forked else if r == 3 then Aborted else if r == 4 then IncomingPersisted else Incoming
  }

  function Classes(q: seq<Entry>, r: nat): seq<Entry>
    decreases 6 - r
  {
    if r > 5 then [] else Tagged(Class(q, KindOf(r)), KindOf(r)) + Classes(q, r + 1)
  }

  lemma {:induction false} FromRank(q: seq<Entry>, r: nat)
    requires 1 <= r <= 6 && Sorted(q) && forall e :: e in q ==> Rank(e.kind) >= r
    ensures q == Classes(q, r)
    decreases |q|, 6 - r
  {
    if r == 6 {
    } else if q == [] {
      FromRank(q, r + 1);
    } else if Rank(q[0].kind) > r {
      forall e | e in q ensures Rank(e.kind) >= r + 1 {
        var i :| 0 <= i < |q| && q[i] == e;
      }
      EarlierClass(q, KindOf(r));
      FromRank(q, r + 1);
    } else {
      FromRank(q[1..], r);
      HeadClass(q, r);
    }
  }

  lemma HeadClass(q: seq<Entry>, r: nat)
    requires 1 <= r <= 5 && q != [] && Rank(q[0].kind) == r
    ensures Classes(q, r) == [q[0]] + Classes(q[1..], r)
  {
    var k := KindOf(r);
    assert Tagged(Class(q, k), k) == [q[0]] + Tagged(Class(q[1..], k), k);
    LaterClasses(q, r + 1);
  }

  lemma {:induction false} LaterClasses(q: seq<Entry>, r: nat)
    requires 1 <= r <= 6 && q != [] && Rank(q[0].kind) < r
    ensures Classes(q, r) == Classes(q[1..], r)
    decreases 6 - r
  {
    if r < 6 {
      OtherClass(q, KindOf(r));
      LaterClasses(q, r + 1);
    }
  }

  lemma OtherClass(q: seq<Entry>, k: Kind)
    requires q != [] && q[0].kind != k
    ensures Class(q, k) == Class(q[1..], k)
  {
  }

  /** By class, and every id once. */
  predicate WellKept(q: seq<Entry>) {
    q == [] ||
    (WellKept(q[1..]) && forall e :: e in q[1..] ==> Rank(q[0].kind) <= Rank(e.kind) && q[0].trx.id != e.trx.id)
  }

  lemma {:induction false} KeptMeaning(q: seq<Entry>)
    ensures WellKept(q) <==> Sorted(q) && Distinct(q)
  {
    if q != [] {
      KeptMeaning(q[1..]);
      if Sorted(q) && Distinct(q) {
        forall e | e in q[1..] ensures Rank(q[0].kind) <= Rank(e.kind) && q[0].trx.id != e.trx.id {
          var i :| 0 <= i < |q| - 1 && q[1..][i] == e;
          assert q[i + 1] == e;
        }
      }
      if WellKept(q) {
        forall i, j | 0 <= i < j < |q| ensures Rank(q[i].kind) <= Rank(q[j].kind) && q[i].trx.id != q[j].trx.id {
          assert q[j] == q[1..][j - 1];
          if i > 0 {
            assert q[i] == q[1..][i - 1];
          }
        }
      }
    }
  }

  /** Adding an entry with a new id. */
  lemma KeptInsert(q: seq<Entry>, e: Entry)
    requires WellKept(q) && e.trx.id !in Ids(q)
    ensures WellKept(Insert(q, e))
    ensures IncomingCount(Insert(q, e)) == IncomingCount(q) + if IsIncoming(e.kind) then 1 else 0
    ensures Bytes(Insert(q, e)) == Bytes(q) + e.trx.size
    ensures Ids(Insert(q, e)) == Ids(q) + {e.trx.id}
  {
    KeptMeaning(q);
    InsertSorted(q, e);
    InsertEffect(q, e);
    KeptMeaning(Insert(q, e));
  }

  lemma KeptClasses(q: seq<Entry>, e: Entry)
    requires WellKept(q)
    ensures forall k :: Class(Insert(q, e), k) == Class(q, k) + if e.kind == k then [e.trx] else []
  {
    KeptMeaning(q);
    forall k ensures Class(Insert(q, e), k) == Class(q, k) + if e.kind == k then [e.trx] else [] {
      InsertClass(q, e, k);
    }
  }

  lemma KeptDrop(q: seq<Entry>, i: nat)
    requires WellKept(q) && i < |q|
    ensures WellKept(Drop(q, i))
    ensures IncomingCount(q) == IncomingCount(Drop(q, i)) + if IsIncoming(q[i].kind) then 1 else 0
    ensures Bytes(q) == Bytes(Drop(q, i)) + q[i].trx.size
    ensures Ids(Drop(q, i)) == Ids(q) - {q[i].trx.id}
  {
    KeptMeaning(q);
    DropSorted(q, i);
    DropEffect(q, i);
    KeptMeaning(Drop(q, i));
  }

  // ------------------------------------------------------- adding many at once

  function TrxIds(ts: seq<Trx>): set<nat> {
    set t | t in ts :: t.id
  }

  /** The first transaction of every id not seen before, in order. */
  function FirstSeen(seen: set<nat>, ts: seq<Trx>): seq<Trx>
    decreases |ts|
  {
    if ts == [] then []
    else if ts[0].id in seen then FirstSeen(seen, ts[1..])
    else [ts[0]] + FirstSeen(seen + {ts[0].id}, ts[1..])
  }

  lemma {:induction false} FirstSeenAppend(seen: set<nat>, ts: seq<Trx>, us: seq<Trx>)
    ensures FirstSeen(seen, ts + us) == FirstSeen(seen, ts) + FirstSeen(seen + TrxIds(ts), us)
    decreases |ts|
  {
    if ts == [] {
      assert ts + us == us && seen + TrxIds(ts) == seen;
    } else {
      assert (ts + us)[1..] == ts[1..] + us;
      assert ts == [ts[0]] + ts[1..];
      assert TrxIds(ts) == {ts[0].id} + TrxIds(ts[1..]);
      if ts[0].id in seen {
        FirstSeenAppend(seen, ts[1..], us);
        assert seen + TrxIds(ts[1..]) == seen + TrxIds(ts);
      } else {
        FirstSeenAppend(seen + {ts[0].id}, ts[1..], us);
        assert seen + {ts[0].id} + TrxIds(ts[1..]) == seen + TrxIds(ts);
      }
    }
  }

  /** The transactions of a branch, newest block first, in the order in which
    * they were applied. */
  function Applied(branch: seq<seq<Trx>>): seq<Trx> {
    if branch == [] then [] else Applied(branch[1..]) + branch[0]
  }

  // ------------------------------------------------------------- finding entries

  function IndexOf(q: seq<Entry>, id: nat): (i: nat)
    ensures i <= |q| && (i < |q| ==> q[i].trx.id == id)
    ensures i == |q| <==> id !in Ids(q)
    ensures forall j :: 0 <= j < i ==> q[j].trx.id != id
  {
    if q == [] || q[0].trx.id == id then 0
    else
      assert forall e :: e in q <==> e == q[0] || e in q[1..];
      1 + IndexOf(q[1..], id)
  }

  function IdSet(ids: seq<nat>): set<nat> {
    set id | id in ids
  }

  function Without(q: seq<Entry>, ids: set<nat>): seq<Entry> {
    if q == [] then [] else (if q[0].trx.id in ids then [] else [q[0]]) + Without(q[1..], ids)
  }

  function Unexpired(q: seq<Entry>, t: nat): seq<Entry> {
    if q == [] then [] else (if q[0].trx.expiry <= t then [] else [q[0]]) + Unexpired(q[1..], t)
  }

  lemma {:induction false} WithoutNone(q: seq<Entry>, ids: set<nat>)
    requires forall e :: e in q ==> e.trx.id !in ids
    ensures Without(q, ids) == q
  {
    if q != [] {
      WithoutNone(q[1..], ids);
    }
  }

  lemma {:induction false} WithoutOne(q: seq<Entry>, i: nat)
    requires WellKept(q) && i < |q|
    ensures Without(q, {q[i].trx.id}) == Drop(q, i)
  {
    if i == 0 {
      WithoutNone(q[1..], {q[0].trx.id});
    } else {
      assert q[i] == q[1..][i - 1];
      WithoutOne(q[1..], i - 1);
      assert Drop(q, i) == [q[0]] + Drop(q[1..], i - 1);
    }
  }

  lemma {:induction false} WithoutTwice(q: seq<Entry>, ids: set<nat>, more: set<nat>)
    ensures Without(Without(q, ids), more) == Without(q, ids + more)
  {
    if q != [] {
      WithoutTwice(q[1..], ids, more);
      assert ([q[0]] + Without(q[1..], ids))[1..] == Without(q[1..], ids);
      assert [] + Without(q[1..], ids) == Without(q[1..], ids);
    }
  }

  lemma {:induction false} UnexpiredDrop(q: seq<Entry>, t: nat, i: nat)
    requires i < |q| && q[i].trx.expiry <= t
    ensures Unexpired(Drop(q, i), t) == Unexpired(q, t)
  {
    if i == 0 {
      assert Drop(q, i) == q[1..];
    } else {
      UnexpiredDrop(q[1..], t, i - 1);
      assert Drop(q, i) == [q[0]] + Drop(q[1..], i - 1);
    }
  }

  lemma {:induction false} UnexpiredAll(q: seq<Entry>, t: nat)
    requires forall e :: e in q ==> e.trx.expiry > t
    ensures Unexpired(q, t) == q
  {
    if q != [] {
      UnexpiredAll(q[1..], t);
    }
  }

  lemma {:induction false} LastSlot(q: seq<Entry>)
    ensures Slot(q, Incoming) == |q|
  {
    if q != [] {
      LastSlot(q[1..]);
    }
  }

  // ------------------------------------------------------------------ the object

  class Queue {
    var queue: seq<Entry>
    var maxSize: nat
    var sizeInBytes: nat
    var incomingCount: nat

    /** Every id at most once, classes in order. */
    ghost predicate Valid()
      reads this
    {
      WellKept(queue) && IncomingCount(queue) <= incomingCount && sizeInBytes < TWO64
    }

    /** By how much the counters are off. */
    ghost function CountDrift(): int
      reads this
    {
      incomingCount - IncomingCount(queue)
    }

    ghost function SizeDrift(): int
      reads this
    {
      (sizeInBytes - Bytes(queue)) % TWO64
    }

    constructor ()
      ensures Valid() && queue == [] && CountDrift() == 0 && SizeDrift() == 0
      ensures maxSize == 0x4000_0000 && sizeInBytes == 0 && incomingCount == 0
    {
      queue := [];
      maxSize := 0x4000_0000;
      sizeInBytes := 0;
      incomingCount := 0;
    }

    method SetMaxSize(v: nat)
      modifies this`maxSize
      ensures maxSize == v
    {
      maxSize := v;
    }

    /** Inserts an entry whose id is new. Past the size limit an incoming entry is
      * refused after it was inserted and counted, but before its size was added. */
    method Push(trx: Trx, kind: Kind) returns (ok: bool)
      requires Valid() && trx.id !in Ids(queue)
      modifies this`queue, this`sizeInBytes, this`incomingCount
      ensures Valid() && queue == Insert(old(queue), Entry(trx, kind))
      ensures ok <==> !IsIncoming(kind) || (old(sizeInBytes) + trx.size) % TWO64 < maxSize
      ensures CountDrift() == old(CountDrift())
      ensures SizeDrift() == if ok then old(SizeDrift()) else (old(SizeDrift()) - trx.size) % TWO64
      ensures sizeInBytes == if ok then (old(sizeInBytes) + trx.size) % TWO64 else old(sizeInBytes)
      ensures incomingCount == old(incomingCount) + if IsIncoming(kind) then 1 else 0
    {
      var e := Entry(trx, kind);
      KeptInsert(queue, e);
      ghost var before := Bytes(queue);
      queue := Insert(queue, e);
      if IsIncoming(kind) {
        incomingCount := incomingCount + 1;
        if (sizeInBytes + trx.size) % TWO64 >= maxSize {
          DriftShrinks(sizeInBytes, before, trx.size);
          return false;
        }
      }
      DriftStays(sizeInBytes, before, trx.size);
      sizeInBytes := (sizeInBytes + trx.size) % TWO64;
      ok := true;
    }

    /** Removes the entry at a position, which is then the position of the next one. */
    method Erase(i: nat)
      requires Valid() && i < |queue|
      modifies this`queue, this`sizeInBytes, this`incomingCount
      ensures Valid() && queue == Drop(old(queue), i)
      ensures CountDrift() == old(CountDrift()) && SizeDrift() == old(SizeDrift())
      ensures sizeInBytes == (old(sizeInBytes) - old(queue)[i].trx.size) % TWO64
      ensures incomingCount == old(incomingCount) - if IsIncoming(old(queue)[i].kind) then 1 else 0
    {
      var e := queue[i];
      KeptDrop(queue, i);
      if IsIncoming(e.kind) {
        incomingCount := incomingCount - 1;
      }
      DriftBack(sizeInBytes, Bytes(Drop(queue, i)), e.trx.size);
      sizeInBytes := (sizeInBytes - e.trx.size) % TWO64;
      queue := queue[..i] + queue[i + 1..];
    }

    method AddPersisted(trx: Trx)
      requires Valid()
      modifies this`queue, this`sizeInBytes, this`incomingCount
      ensures Valid() && CountDrift() == old(CountDrift()) && SizeDrift() == old(SizeDrift())
      ensures var i := IndexOf(old(queue), trx.id);
              queue ==
              if i == |old(queue)| then Insert(old(queue), Entry(trx, Persisted))
              else if old(queue)[i].kind == Persisted then old(queue)
              else Insert(Drop(old(queue), i), Entry(old(queue)[i].trx, Persisted))
    {
      var i := IndexOf(queue, trx.id);
      if i == |queue| {
        var _ := Push(trx, Persisted);
      } else if queue[i].kind != Persisted {
        Convert(i);
      }
    }

    /** Moves an entry behind the persisted ones. */
    method Convert(i: nat)
      requires Valid() && i < |queue|
      modifies this`queue, this`incomingCount
      ensures Valid() && CountDrift() == old(CountDrift()) && SizeDrift() == old(SizeDrift())
      ensures queue == Insert(Drop(old(queue), i), Entry(old(queue)[i].trx, Persisted))
    {
      var e := Entry(queue[i].trx, Persisted);
      KeptDrop(queue, i);
      KeptInsert(Drop(queue, i), e);
      if IsIncoming(queue[i].kind) {
        incomingCount := incomingCount - 1;
      }
      queue := Insert(Drop(queue, i), e);
    }

    /** A second object for a known transaction is reported as a duplicate. */
    method AddIncoming(trx: Trx, persistUntilExpired: bool) returns (r: AddResult)
      requires Valid()
      modifies this`queue, this`sizeInBytes, this`incomingCount
      ensures Valid() && CountDrift() == old(CountDrift())
      ensures r != Exhausted ==> SizeDrift() == old(SizeDrift())
      ensures r == Exhausted ==> SizeDrift() == (old(SizeDrift()) - trx.size) % TWO64
      ensures r == Present || r == Duplicate <==> trx.id in old(Ids(queue))
      ensures r == Present ==> Entry(trx, old(queue)[IndexOf(old(queue), trx.id)].kind) in old(queue)
      ensures r == Exhausted <==> trx.id !in old(Ids(queue)) && (old(sizeInBytes) + trx.size) % TWO64 >= maxSize
      ensures queue == if trx.id in old(Ids(queue)) then old(queue)
                       else Insert(old(queue), Entry(trx, if persistUntilExpired then IncomingPersisted else Incoming))
      ensures sizeInBytes == if r == Added then (old(sizeInBytes) + trx.size) % TWO64 else old(sizeInBytes)
      ensures incomingCount == old(incomingCount) + if trx.id in old(Ids(queue)) then 0 else 1
    {
      var i := IndexOf(queue, trx.id);
      if i == |queue| {
        var ok := Push(trx, if persistUntilExpired then IncomingPersisted else Incoming);
        r := if ok then Added else Exhausted;
      } else {
        r := if queue[i].trx == trx then Present else Duplicate;
      }
    }

    method AddNew(t: Trx, kind: Kind)
      requires Valid() && !IsIncoming(kind) && t.id !in Ids(queue)
      modifies this`queue, this`sizeInBytes, this`incomingCount
      ensures Valid() && CountDrift() == old(CountDrift()) && SizeDrift() == old(SizeDrift())
      ensures Class(queue, kind) == old(Class(queue, kind)) + [t] && Ids(queue) == old(Ids(queue)) + {t.id}
      ensures forall k :: k != kind ==> Class(queue, k) == old(Class(queue, k))
    {
      KeptInsert(queue, Entry(t, kind));
      KeptClasses(queue, Entry(t, kind));
      var _ := Push(t, kind);
    }

    method AddAll(ts: seq<Trx>, kind: Kind)
      requires Valid() && !IsIncoming(kind)
      modifies this`queue, this`sizeInBytes, this`incomingCount
      ensures Valid() && CountDrift() == old(CountDrift()) && SizeDrift() == old(SizeDrift())
      ensures Class(queue, kind) == old(Class(queue, kind)) + FirstSeen(old(Ids(queue)), ts)
      ensures forall k :: k != kind ==> Class(queue, k) == old(Class(queue, k))
      ensures Ids(queue) == old(Ids(queue)) + TrxIds(ts)
    {
      var i := 0;
      while i < |ts|
        invariant 0 <= i <= |ts| && Valid() && CountDrift() == old(CountDrift()) && SizeDrift() == old(SizeDrift())
        invariant Class(queue, kind) + FirstSeen(Ids(queue), ts[i..]) == old(Class(queue, kind)) + FirstSeen(old(Ids(queue)), ts)
        invariant forall k :: k != kind ==> Class(queue, k) == old(Class(queue, k))
        invariant Ids(queue) + TrxIds(ts[i..]) == old(Ids(queue)) + TrxIds(ts)
      {
        var t := ts[i];
        NextFirstSeen(Ids(queue), Class(queue, kind), ts, i);
        if t.id !in Ids(queue) {
          AddNew(t, kind);
        }
        i := i + 1;
      }
    }

    method AddAborted(ts: seq<Trx>)
      requires Valid()
      modifies this`queue, this`sizeInBytes, this`incomingCount
      ensures Valid() && CountDrift() == old(CountDrift()) && SizeDrift() == old(SizeDrift())
      ensures Class(queue, Aborted) == old(Class(queue, Aborted)) + FirstSeen(old(Ids(queue)), ts)
      ensures forall k :: k != Aborted ==> Class(queue, k) == old(Class(queue, k))
    {
      AddAll(ts, Aborted);
    }

    /** The branch comes newest block first and is walked backwards. */
    method AddForked(branch: seq<seq<Trx>>)
      requires Valid()
      modifies this`queue, this`sizeInBytes, this`incomingCount
      ensures Valid() && CountDrift() == old(CountDrift()) && SizeDrift() == old(SizeDrift())
      ensures Class(queue, Forked) == old(Class(queue, Forked)) + FirstSeen(old(Ids(queue)), Applied(branch))
      ensures forall k :: k != Forked ==> Class(queue, k) == old(Class(queue, k))
    {
      var i := |branch|;
      while i > 0
        invariant 0 <= i <= |branch| && Valid() && CountDrift() == old(CountDrift()) && SizeDrift() == old(SizeDrift())
        invariant Class(queue, Forked) == old(Class(queue, Forked)) + FirstSeen(old(Ids(queue)), Applied(branch[i..]))
        invariant forall k :: k != Forked ==> Class(queue, k) == old(Class(queue, k))
        invariant Ids(queue) == old(Ids(queue)) + TrxIds(Applied(branch[i..]))
      {
        i := i - 1;
        BlockAppended(old(Ids(queue)), old(Class(queue, Forked)), branch, i);
        AddAll(branch[i], Forked);
      }
    }

    method EraseId(id: nat)
      requires Valid()
      modifies this`queue, this`sizeInBytes, this`incomingCount
      ensures Valid() && CountDrift() == old(CountDrift()) && SizeDrift() == old(SizeDrift())
      ensures queue == Without(old(queue), {id})
    {
      var i := IndexOf(queue, id);
      if i < |queue| {
        WithoutOne(queue, i);
        Erase(i);
      } else {
        WithoutNone(queue, {id});
      }
    }

    method ClearApplied(ids: seq<nat>)
      requires Valid()
      modifies this`queue, this`sizeInBytes, this`incomingCount
      ensures Valid() && CountDrift() == old(CountDrift()) && SizeDrift() == old(SizeDrift())
      ensures queue == Without(old(queue), IdSet(ids))
    {
      WithoutNone(queue, IdSet(ids[..0]));
      var i := 0;
      while i < |ids|
        invariant 0 <= i <= |ids| && Valid() && CountDrift() == old(CountDrift()) && SizeDrift() == old(SizeDrift())
        invariant queue == Without(old(queue), IdSet(ids[..i]))
      {
        assert IdSet(ids[..i + 1]) == IdSet(ids[..i]) + {ids[i]};
        WithoutTwice(old(queue), IdSet(ids[..i]), {ids[i]});
        EraseId(ids[i]);
        i := i + 1;
      }
      assert ids[..i] == ids;
    }

    method Earliest() returns (i: nat)
      requires queue != []
      ensures i < |queue| && forall e :: e in queue ==> queue[i].trx.expiry <= e.trx.expiry
    {
      i := 0;
      var j := 1;
      while j < |queue|
        invariant i < j <= |queue|
        invariant forall k :: 0 <= k < j ==> queue[i].trx.expiry <= queue[k].trx.expiry
      {
        if queue[j].trx.expiry < queue[i].trx.expiry {
          i := j;
        }
        j := j + 1;
      }
    }

    /** `time` counts the removals that fit before the deadline. */
    method ClearExpired(blockTime: nat, time: nat) returns (done: bool)
      requires Valid()
      modifies this`queue, this`sizeInBytes, this`incomingCount
      ensures Valid() && CountDrift() == old(CountDrift()) && SizeDrift() == old(SizeDrift())
      ensures Unexpired(queue, blockTime) == Unexpired(old(queue), blockTime)
      ensures done ==> queue == Unexpired(old(queue), blockTime)
      ensures !done ==> |queue| + time == |old(queue)| && exists e :: e in queue && e.trx.expiry <= blockTime
    {
      var left := time;
      while queue != []
        invariant Valid() && CountDrift() == old(CountDrift()) && SizeDrift() == old(SizeDrift())
        invariant Unexpired(queue, blockTime) == Unexpired(old(queue), blockTime)
        invariant left <= time && |queue| + time - left == |old(queue)|
        decreases |queue|
      {
        var i := Earliest();
        if queue[i].trx.expiry > blockTime {
          break;
        }
        if left == 0 {
          assert queue[i] in queue;
          return false;
        }
        UnexpiredDrop(queue, blockTime, i);
        Erase(i);
        left := left - 1;
      }
      UnexpiredAll(queue, blockTime);
      done := true;
    }

    /** The counters are left alone. */
    method Clear()
      requires Valid()
      modifies this`queue
      ensures Valid() && queue == []
      ensures CountDrift() == 0 <==> old(incomingCount) == 0
      ensures SizeDrift() == 0 <==> old(sizeInBytes) == 0
    {
      queue := [];
    }

    method Next() returns (trx: seq<Trx>)
      requires Valid()
      modifies this`queue, this`sizeInBytes, this`incomingCount
      ensures Valid() && CountDrift() == old(CountDrift()) && SizeDrift() == old(SizeDrift())
      ensures trx == if old(queue) == [] then [] else [old(queue)[0].trx]
      ensures queue == if old(queue) == [] then [] else old(queue)[1..]
    {
      trx := [];
      if queue != [] {
        trx := [queue[0].trx];
        Erase(0);
      }
    }

    method DrainAll() returns (ts: seq<Trx>)
      requires Valid()
      modifies this`queue, this`sizeInBytes, this`incomingCount
      ensures Valid() && queue == [] && CountDrift() == old(CountDrift()) && SizeDrift() == old(SizeDrift())
      ensures ts == old(Class(queue, Persisted) + Class(queue, Forked) + Class(queue, Aborted) +
                        Class(queue, IncomingPersisted) + Class(queue, Incoming))
    {
      ghost var q := queue;
      ts := [];
      while queue != []
        invariant Valid() && CountDrift() == old(CountDrift()) && SizeDrift() == old(SizeDrift())
        invariant |ts| + |queue| == |q| && queue == q[|ts|..]
        invariant ts == Trxs(q[..|ts|])
        decreases |queue|
      {
        assert q[..|ts| + 1] == q[..|ts|] + [queue[0]];
        var t := Next();
        ts := ts + t;
      }
      assert q[..|ts|] == q;
      DrainedTrxs(q);
    }

    method MoveToEnd(itr: nat)
      requires Valid() && sizeInBytes < maxSize && itr < |queue| && queue[itr].kind == Incoming
      modifies this`queue, this`sizeInBytes, this`incomingCount
      ensures Valid() && queue == Drop(old(queue), itr) + [old(queue)[itr]]
      ensures CountDrift() == old(CountDrift()) && incomingCount == old(incomingCount) && sizeInBytes == old(sizeInBytes)
    {
      var trx := queue[itr].trx;
      KeptDrop(queue, itr);
      ThereAndBack(sizeInBytes, trx.size);
      Erase(itr);
      LastSlot(queue);
      var _ := AddIncoming(trx, false);
    }

    /** Erasing each incoming entry and adding it again, as often as there are any. */
    method RotateIncoming()
      requires Valid() && CountDrift() == 0 && sizeInBytes < maxSize
      requires forall e :: e in queue ==> e.kind != IncomingPersisted
      modifies this`queue, this`sizeInBytes, this`incomingCount
      ensures Valid() && queue == old(queue) && incomingCount == old(incomingCount) && sizeInBytes == old(sizeInBytes)
    {
      var begin := Slot(queue, Aborted);
      ghost var q := queue;
      ghost var c := 0;
      IncomingTail(q);
      var itr := begin;
      var count := incomingCount;
      while count > 0 && itr < |queue|
        invariant Valid() && CountDrift() == 0 && 0 <= c <= |q| - begin && count == |q| - begin - c && itr == begin
        invariant begin < |q| ==> queue == Rotated(q, begin, c)
        invariant begin == |q| ==> queue == q
        invariant sizeInBytes == old(sizeInBytes) && incomingCount == old(incomingCount)
        decreases count
      {
        NextIncoming(q, begin, c);
        MoveToEnd(itr);
        c := c + 1;
        count := count - 1;
      }
      if begin < |q| {
        assert c == |q| - begin;
        RotatedFull(q, begin);
      }
    }
  }

  /** The entry at `begin` moved to the end, c times over. */
  function Rotated(q: seq<Entry>, begin: nat, c: nat): (r: seq<Entry>)
    requires begin < |q|
    ensures |r| == |q|
  {
    if c == 0 then q
    else
      var r := Rotated(q, begin, c - 1);
      Drop(r, begin) + [r[begin]]
  }

  lemma {:induction false} RotatedIs(q: seq<Entry>, begin: nat, c: nat)
    requires begin < |q| && c <= |q| - begin
    ensures Rotated(q, begin, c) == q[..begin] + q[begin + c..] + q[begin..begin + c]
  {
    if c > 0 {
      RotatedIs(q, begin, c - 1);
      RotatedParts(q[..begin], q[begin + c - 1..], q[begin..begin + c - 1]);
      assert q[begin + c - 1..][1..] == q[begin + c..];
      assert q[begin..begin + c] == q[begin..begin + c - 1] + [q[begin + c - 1]];
    }
  }

  lemma RotatedParts(a: seq<Entry>, b: seq<Entry>, d: seq<Entry>)
    requires b != []
    ensures Drop(a + b + d, |a|) + [(a + b + d)[|a|]] == a + b[1..] + (d + [b[0]])
  {
  }

  lemma RotatedFront(q: seq<Entry>, begin: nat, c: nat)
    requires begin < |q| && c < |q| - begin
    ensures Rotated(q, begin, c)[begin] == q[begin + c]
  {
    RotatedIs(q, begin, c);
  }

  lemma NextIncoming(q: seq<Entry>, begin: nat, c: nat)
    requires begin < |q| && c < |q| - begin && forall i :: begin <= i < |q| ==> q[i].kind == Incoming
    ensures Rotated(q, begin, c)[begin].kind == Incoming
  {
    RotatedFront(q, begin, c);
  }

  lemma RotatedFull(q: seq<Entry>, begin: nat)
    requires begin < |q|
    ensures Rotated(q, begin, |q| - begin) == q
  {
    RotatedIs(q, begin, |q| - begin);
  }

  function Trxs(q: seq<Entry>): seq<Trx> {
    seq(|q|, i requires 0 <= i < |q| => q[i].trx)
  }

  lemma DrainedTrxs(q: seq<Entry>)
    requires WellKept(q)
    ensures Trxs(q) == Class(q, Persisted) + Class(q, Forked) + Class(q, Aborted) + Class(q, IncomingPersisted) + Class(q, Incoming)
  {
    KeptMeaning(q);
    DrainOrder(q);
  }

  lemma NextFirstSeen(ids: set<nat>, before: seq<Trx>, ts: seq<Trx>, i: nat)
    requires i < |ts|
    ensures TrxIds(ts[i..]) == {ts[i].id} + TrxIds(ts[i + 1..])
    ensures ts[i].id in ids ==> FirstSeen(ids, ts[i..]) == FirstSeen(ids, ts[i + 1..])
    ensures ts[i].id !in ids ==>
              before + FirstSeen(ids, ts[i..]) == before + [ts[i]] + FirstSeen(ids + {ts[i].id}, ts[i + 1..])
  {
    assert ts[i..] == [ts[i]] + ts[i + 1..];
  }

  lemma BlockAppended(ids: set<nat>, before: seq<Trx>, branch: seq<seq<Trx>>, i: nat)
    requires i < |branch|
    ensures var done := Applied(branch[i + 1..]);
            var all := Applied(branch[i..]);
            && before + FirstSeen(ids, done) + FirstSeen(ids + TrxIds(done), branch[i]) == before + FirstSeen(ids, all)
            && ids + TrxIds(done) + TrxIds(branch[i]) == ids + TrxIds(all)
  {
    assert branch[i..][0] == branch[i] && branch[i..][1..] == branch[i + 1..];
    FirstSeenAppend(ids, Applied(branch[i + 1..]), branch[i]);
  }

  lemma {:induction false} IncomingTail(q: seq<Entry>)
    requires WellKept(q)
    ensures IncomingCount(q) == |q| - Slot(q, Aborted)
    ensures forall i :: Slot(q, Aborted) <= i < |q| ==> IsIncoming(q[i].kind)
  {
    if q != [] {
      IncomingTail(q[1..]);
      if Rank(Aborted) < Rank(q[0].kind) && q[1..] != [] {
        assert q[1..][0] in q[1..];
      }
    }
  }

  lemma ThereAndBack(s: int, x: int)
    requires 0 <= s < TWO64
    ensures ((s - x) % TWO64 + x) % TWO64 == s
  {
  }

  lemma DriftStays(s: int, b: int, x: int)
    ensures ((s + x) % TWO64 - (b + x)) % TWO64 == (s - b) % TWO64
  {
  }

  lemma DriftShrinks(s: int, b: int, x: int)
    ensures (s - (b + x)) % TWO64 == ((s - b) % TWO64 - x) % TWO64
  {
  }

  lemma DriftBack(s: int, b: int, x: int)
    ensures ((s - x) % TWO64 - b) % TWO64 == (s - (b + x)) % TWO64
  {
  }

  // ------------------------------------------------------- where the counters go wrong

  /** One incoming transaction, then cleared: it is still counted. */
  method ClearedButCounted() returns (q: Queue)
    ensures q.queue == [] && q.incomingCount == 1 && q.sizeInBytes == 5
    ensures q.CountDrift() != 0 && q.SizeDrift() != 0
  {
    q := new Queue();
    var r := q.AddIncoming(Trx(1, 0, 5, 0), false);
    q.Clear();
  }

  /** Two incoming transactions, too large together: the second is refused and kept. */
  method RefusedButKept() returns (q: Queue, r: AddResult)
    ensures r == Exhausted && |q.queue| == 2 && q.incomingCount == 2 && q.SizeDrift() != 0
  {
    q := new Queue();
    q.SetMaxSize(10);
    r := q.AddIncoming(Trx(1, 0, 5, 0), false);
    r := q.AddIncoming(Trx(2, 0, 6, 0), false);
  }
}
