/** Two runs from genesis, block by block: one on which the last irreversible block goes
  * back, and one on which a producer confirms a block over and over. */
module DposExamples {
  import opened Dpos
  import opened DposResults
  import opened DposHistory

  // ------------------------------------------------------------------ checking one block

  lemma NoHit(c: seq<nat>, numPrev: nat, num: nat, proposed: nat, c': seq<nat>)
    requires |c'| == |c| && forall i :: 0 <= i < |c| ==> c[i] != 1 || i < |c| - Reach(c, numPrev)
    requires forall j :: 0 <= j < |c| ==> c'[j] + (if j < |c| - Reach(c, numPrev) then 0 else 1) == c[j]
    ensures CountedDown(c, numPrev, num, proposed, c', proposed)
  {
  }

  lemma OldestHit(c: seq<nat>, numPrev: nat, num: nat, proposed: nat, c': seq<nat>, proposed': nat)
    requires numPrev + 1 >= |c| == |c'| + 1 && c[0] == 1 && (forall i :: 0 < i < |c| ==> c[i] == c'[i - 1] + 1 > 1)
    requires proposed' + |c'| == num
    ensures CountedDown(c, numPrev, num, proposed, c', proposed')
  {
    assert Hit(c, 0, 0);
  }

  lemma LibOf1(m: map<nat, nat>, a: nat, lib: nat)
    requires m == map[a := lib]
    ensures IsLib(m, lib)
  {
    assert m.Keys == {a} && AtLeast(m, lib) == {a} && AtLeast(m, lib + 1) == {};
  }

  /** Of four producers the second lowest entry counts, of three the lowest. */
  lemma LibOf4(m: map<nat, nat>, a: nat, b: nat, c: nat, d: nat)
    requires m.Keys == {a, b, c, d} && |{a, b, c, d}| == 4 && m[a] < m[b] <= m[c] && m[b] <= m[d]
    ensures IsLib(m, m[b])
  {
    assert AtLeast(m, m[b]) == {b, c, d};
    assert b !in AtLeast(m, m[b] + 1) && a !in AtLeast(m, m[b] + 1);
    assert AtLeast(m, m[b] + 1) <= {c, d};
    SubsetSize(AtLeast(m, m[b] + 1), {c, d});
    assert |{b, c, d}| == 3 by { assert {a, b, c, d} == {a} + {b, c, d}; }
  }

  lemma Lib4Equal(m: map<nat, nat>, a: nat, b: nat, c: nat, d: nat)
    requires m.Keys == {a, b, c, d} && |{a, b, c, d}| == 4 && m[a] == m[b] <= m[c] && m[b] <= m[d]
    ensures IsLib(m, m[b])
  {
    assert AtLeast(m, m[b]) == {a, b, c, d};
    assert AtLeast(m, m[b] + 1) <= {c, d};
    SubsetSize(AtLeast(m, m[b] + 1), {c, d});
  }

  lemma LibOf3(m: map<nat, nat>, a: nat, b: nat, c: nat)
    requires m.Keys == {a, b, c} && |{a, b, c}| == 3 && m[a] <= m[b] && m[a] <= m[c]
    ensures IsLib(m, m[a])
  {
    assert AtLeast(m, m[a]) == {a, b, c};
    assert AtLeast(m, m[a] + 1) <= {b, c};
    SubsetSize(AtLeast(m, m[a] + 1), {b, c});
  }

  /** A block without promotion. */
  function Made(h: Header, slot: nat, p: nat, lib: nat, confirm: seq<nat>, proposed: nat): Pending {
    Pending(Header(h.num + 1, slot, proposed, lib, h.active, h.lastProduced[p := h.num + 1], h.implied[p := h.proposed],
                   confirm, h.pending, h.pendingLib),
            p, h.active.version, false)
  }

  /** A block that promotes the pending schedule. */
  function Promoted(h: Header, slot: nat, p: nat, lib: nat, confirm: seq<nat>, proposed: nat): Pending {
    Pending(Header(h.num + 1, slot, proposed, lib, h.pending, Carried(Names(h.pending), h.lastProduced, lib)[p := h.num + 1],
                   Raised(Carried(Names(h.pending), h.implied, lib), p, h.proposed), confirm, h.pending, h.pendingLib),
            p, h.active.version, true)
  }

  lemma MadeOk(h: Header, slot: nat, numPrev: nat, p: nat, lib: nat, confirm: seq<nat>, proposed: nat, s: Option<Schedule>) returns (b: Block)
    requires HeaderOk(h) && slot > h.slot && p == ScheduledProducer(h.active, slot) && !ConfirmsTwice(h, p, numPrev)
    requires CountedDown(Tracked(h.confirm, Quorum(|h.active.producers|)), numPrev, h.num + 1, h.proposed, confirm, proposed)
    requires IsLib(Raised(h.implied, p, h.proposed), lib)
    requires s.Some? ==> !Promotes(h, lib) && h.pending.producers == [] && Usable(s.value)
    ensures b == Block(slot, numPrev, if Promotes(h, lib) then Promoted(h, slot, p, lib, confirm, proposed) else Made(h, slot, p, lib, confirm, proposed), s)
    ensures FollowsOn(h, b) && HeaderOk(HeaderOf(b))
  {
    if Promotes(h, lib) {
      b := Block(slot, numPrev, Promoted(h, slot, p, lib, confirm, proposed), s);
    } else {
      b := Block(slot, numPrev, Made(h, slot, p, lib, confirm, proposed), s);
    }
    assert NextOk(h, slot, numPrev, b.pending);
    AdoptedOk(h, b);
  }

  // ----------------------------------------------------------------------- the schedules

  function One(): Schedule { Schedule(0, [9]) }
  function Four(): Schedule { Schedule(1, [1, 4, 5, 6]) }
  function Three(): Schedule { Schedule(2, [1, 2, 3]) }

  lemma Usables()
    ensures Usable(One()) && Usable(Four()) && Usable(Three())
    ensures Names(One()) == {9} && Names(Four()) == {1, 4, 5, 6} && Names(Three()) == {1, 2, 3}
  {
  }

  function Start(): Header {
    Header(1, 0, 0, 0, One(), map[], map[], [], One(), 0)
  }

  /** Producer 9 alone. */
  predicate Alone(h: Header, num: nat, slot: nat, lib: nat) {
    && h.num == num && h.slot == slot && h.proposed == num && h.confirm == [] && h.active == One()
    && h.implied == map[9 := lib] && h.lastProduced == map[9 := num]
  }

  /** The four, producer 1 having stayed at block 3, with the three pending since block 5. */
  predicate Fours(h: Header, num: nat, slot: nat, proposed: nat, confirm: seq<nat>, e4: nat, e5: nat, e6: nat, l4: nat, l5: nat, l6: nat) {
    && h.num == num && h.slot == slot && h.proposed == proposed && h.confirm == confirm && h.active == Four()
    && h.pending == Three() && h.pendingLib == 5
    && h.implied.Keys == {1, 4, 5, 6} && h.implied[1] == 3 && h.implied[4] == e4 && h.implied[5] == e5 && h.implied[6] == e6
    && 4 in h.lastProduced && 5 in h.lastProduced && 6 in h.lastProduced && 2 !in h.lastProduced
    && h.lastProduced[4] == l4 && h.lastProduced[5] == l5 && h.lastProduced[6] == l6
  }

  // ---------------------------------------------------------------------- block by block

  /** Producer 9 alone: every block is proposed irreversible at once. */
  lemma AloneNext(h: Header, slot: nat, lib: nat, s: Option<Schedule>) returns (b: Block)
    requires HeaderOk(h) && h.active == One() && h.confirm == [] && slot > h.slot && (9 in h.lastProduced ==> h.lastProduced[9] <= h.num < 0xFFFF)
    requires (h.implied == map[] && lib == 0) || (h.implied.Keys == {9} && lib == h.proposed)
    requires s.Some? ==> !Promotes(h, lib) && h.pending.producers == [] && Usable(s.value)
    ensures b == Block(slot, 0, if Promotes(h, lib) then Promoted(h, slot, 9, lib, [], h.num + 1) else Made(h, slot, 9, lib, [], h.num + 1), s)
    ensures FollowsOn(h, b) && HeaderOk(HeaderOf(b))
  {
    AloneCounts(h);
    AloneLib(h, lib);
    AloneTurn(slot);
    b := MadeOk(h, slot, 0, 9, lib, [], h.num + 1, s);
  }

  lemma AloneTurn(slot: nat)
    ensures ScheduledProducer(One(), slot) == 9
  {
  }

  lemma AloneLib(h: Header, lib: nat)
    requires (h.implied == map[] && lib == 0) || (h.implied.Keys == {9} && lib == h.proposed)
    ensures IsLib(Raised(h.implied, 9, h.proposed), lib)
  {
    if h.implied != map[] {
      LibOf1(Raised(h.implied, 9, h.proposed), 9, lib);
    }
  }

  lemma AloneCounts(h: Header)
    requires h.active == One() && h.confirm == []
    ensures CountedDown(Tracked(h.confirm, Quorum(|h.active.producers|)), 0, h.num + 1, h.proposed, [], h.num + 1)
  {
    OldestHit(Tracked(h.confirm, Quorum(1)), 0, h.num + 1, h.proposed, [], h.num + 1);
  }

  lemma SteadyCounts(h: Header, numPrev: nat)
    requires h.active == Four() && h.confirm == [1, 2] && h.num > 2 && numPrev >= 2
    ensures CountedDown(Tracked(h.confirm, Quorum(|h.active.producers|)), numPrev, h.num + 1, h.proposed, [1, 2], h.num - 1)
  {
    OldestHit(Tracked(h.confirm, Quorum(4)), numPrev, h.num + 1, h.proposed, [1, 2], h.num - 1);
  }

  lemma GrowingCounts(h: Header, numPrev: nat, confirm: seq<nat>)
    requires h.active == Four() && numPrev >= |h.confirm|
    requires (h.confirm == [] && confirm == [2]) || (h.confirm == [2] && confirm == [1, 2])
    ensures CountedDown(Tracked(h.confirm, Quorum(|h.active.producers|)), numPrev, h.num + 1, h.proposed, confirm, h.proposed)
  {
    NoHit(Tracked(h.confirm, Quorum(4)), numPrev, h.num + 1, h.proposed, confirm);
  }

  /** The four with one block almost confirmed: the next one, which confirms all that are
    * tracked, completes it. */
  lemma Steady(h: Header, slot: nat, numPrev: nat, p: nat, x: nat, y: nat, z: nat, v: nat) returns (b: Block)
    requires HeaderOk(h) && h.active == Four() && h.confirm == [1, 2] && h.num > 2 && numPrev >= 2 && slot > h.slot
    requires p == ScheduledProducer(Four(), slot) && !ConfirmsTwice(h, p, numPrev) && Ordered(Raised(h.implied, p, h.proposed), x, y, z, v)
    ensures var lib := Raised(h.implied, p, h.proposed)[y];
            b == Block(slot, numPrev, if Promotes(h, lib) then Promoted(h, slot, p, lib, [1, 2], h.num - 1) else Made(h, slot, p, lib, [1, 2], h.num - 1), None)
    ensures FollowsOn(h, b) && HeaderOk(HeaderOf(b))
  {
    SteadyCounts(h, numPrev);
    var m := Raised(h.implied, p, h.proposed);
    Second(m, x, y, z, v);
    b := MadeOk(h, slot, numPrev, p, m[y], [1, 2], h.num - 1, None);
  }

  /** The four with nothing completed. */
  lemma Growing(h: Header, slot: nat, numPrev: nat, p: nat, x: nat, y: nat, z: nat, v: nat, confirm: seq<nat>, s: Option<Schedule>) returns (b: Block)
    requires HeaderOk(h) && h.active == Four() && slot > h.slot && numPrev >= |h.confirm|
    requires (h.confirm == [] && confirm == [2]) || (h.confirm == [2] && confirm == [1, 2])
    requires p == ScheduledProducer(Four(), slot) && !ConfirmsTwice(h, p, numPrev) && Ordered(Raised(h.implied, p, h.proposed), x, y, z, v)
    requires !Promotes(h, Raised(h.implied, p, h.proposed)[y]) && (s.Some? ==> h.pending.producers == [] && Usable(s.value))
    ensures b == Block(slot, numPrev, Made(h, slot, p, Raised(h.implied, p, h.proposed)[y], confirm, h.proposed), s)
    ensures FollowsOn(h, b) && HeaderOk(HeaderOf(b))
  {
    GrowingCounts(h, numPrev, confirm);
    var m := Raised(h.implied, p, h.proposed);
    Second(m, x, y, z, v);
    b := MadeOk(h, slot, numPrev, p, m[y], confirm, h.proposed, s);
  }

  /** Four entries of which y's is the second lowest. */
  predicate Ordered(m: map<nat, nat>, x: nat, y: nat, z: nat, v: nat) {
    m.Keys == {x, y, z, v} && |{x, y, z, v}| == 4 && m[x] <= m[y] <= m[z] && m[y] <= m[v]
  }

  lemma Second(m: map<nat, nat>, x: nat, y: nat, z: nat, v: nat)
    requires Ordered(m, x, y, z, v)
    ensures IsLib(m, m[y])
  {
    if m[x] < m[y] {
      LibOf4(m, x, y, z, v);
    } else {
      Lib4Equal(m, x, y, z, v);
    }
  }

  lemma Block2(h: Header) returns (b: Block)
    requires h == Start() && HeaderOk(h)
    ensures FollowsOn(h, b) && b.numPrev == 0 && b.pending.producer == 9
    ensures var g := HeaderOf(b); HeaderOk(g) && Alone(g, 2, 1, 0) && g.pending.producers == []
  {
    Usables();
    b := AloneNext(h, 1, 0, None);
  }

  lemma Block3(h: Header) returns (b: Block)
    requires HeaderOk(h) && Alone(h, 2, 1, 0) && h.pending.producers == []
    ensures FollowsOn(h, b) && b.numPrev == 0 && b.pending.producer == 9
    ensures var g := HeaderOf(b); HeaderOk(g) && Alone(g, 3, 2, 2) && g.pending == Four() && g.pendingLib == 3
  {
    Usables();
    b := AloneNext(h, 2, 2, Some(Four()));
  }

  /** The four take over. */
  predicate Taken(h: Header) {
    && h.num == 4 && h.slot == 3 && h.proposed == 4 && h.confirm == [] && h.active == Four() && h.pending.producers == []
    && h.implied.Keys == {1, 4, 5, 6} && h.implied[1] == h.implied[4] == h.implied[5] == h.implied[6] == 3
    && 4 in h.lastProduced && 5 in h.lastProduced && 6 in h.lastProduced && 2 !in h.lastProduced
    && h.lastProduced[4] == h.lastProduced[5] == h.lastProduced[6] == 3
  }

  lemma TakenOver(h: Header, implied: map<nat, nat>, last: map<nat, nat>)
    requires h.implied.Keys == {9} == h.lastProduced.Keys
    requires implied == Raised(Carried(Names(Four()), h.implied, 3), 9, h.proposed) && last == Carried(Names(Four()), h.lastProduced, 3)[9 := 4]
    ensures implied.Keys == {1, 4, 5, 6} && implied[1] == implied[4] == implied[5] == implied[6] == 3
    ensures 4 in last && 5 in last && 6 in last && 2 !in last && last[4] == last[5] == last[6] == 3
  {
    Usables();
  }

  lemma Block4(h: Header) returns (b: Block)
    requires HeaderOk(h) && Alone(h, 3, 2, 2) && h.pending == Four() && h.pendingLib == 3
    ensures FollowsOn(h, b) && b.numPrev == 0 && b.pending.producer == 9
    ensures HeaderOk(HeaderOf(b)) && Taken(HeaderOf(b))
  {
    Usables();
    b := AloneNext(h, 3, 3, None);
    TakenOver(h, HeaderOf(b).implied, HeaderOf(b).lastProduced);
  }

  lemma Block5(h: Header) returns (b: Block)
    requires HeaderOk(h) && Taken(h)
    ensures FollowsOn(h, b) && b.numPrev == 0 && b.pending.producer == 4
    ensures HeaderOk(HeaderOf(b)) && Fours(HeaderOf(b), 5, 12, 4, [2], 4, 3, 3, 5, 3, 3)
  {
    Usables();
    b := Growing(h, 12, 0, 4, 1, 5, 6, 4, [2], Some(Three()));
  }

  lemma Block6(h: Header) returns (b: Block)
    requires HeaderOk(h) && Fours(h, 5, 12, 4, [2], 4, 3, 3, 5, 3, 3)
    ensures FollowsOn(h, b) && b.numPrev == 1 && b.pending.producer == 5
    ensures HeaderOk(HeaderOf(b)) && Fours(HeaderOf(b), 6, 24, 4, [1, 2], 4, 4, 3, 5, 6, 3)
  {
    b := Growing(h, 24, 1, 5, 1, 6, 4, 5, [1, 2], None);
  }

  lemma Block7(h: Header) returns (b: Block)
    requires HeaderOk(h) && Fours(h, 6, 24, 4, [1, 2], 4, 4, 3, 5, 6, 3)
    ensures FollowsOn(h, b) && b.numPrev == 2 && b.pending.producer == 6
    ensures HeaderOk(HeaderOf(b)) && Fours(HeaderOf(b), 7, 36, 5, [1, 2], 4, 4, 4, 5, 6, 7)
  {
    b := Steady(h, 36, 2, 6, 1, 4, 5, 6);
  }

  lemma Block8(h: Header) returns (b: Block)
    requires HeaderOk(h) && Fours(h, 7, 36, 5, [1, 2], 4, 4, 4, 5, 6, 7)
    ensures FollowsOn(h, b) && b.numPrev == 2 && b.pending.producer == 4
    ensures HeaderOk(HeaderOf(b)) && Fours(HeaderOf(b), 8, 60, 6, [1, 2], 5, 4, 4, 8, 6, 7)
  {
    b := Steady(h, 60, 2, 4, 1, 5, 6, 4);
  }

  lemma Block9(h: Header) returns (b: Block)
    requires HeaderOk(h) && Fours(h, 8, 60, 6, [1, 2], 5, 4, 4, 8, 6, 7)
    ensures FollowsOn(h, b) && b.numPrev == 2 && b.pending.producer == 5
    ensures HeaderOk(HeaderOf(b)) && Fours(HeaderOf(b), 9, 72, 7, [1, 2], 5, 6, 4, 8, 9, 7)
  {
    b := Steady(h, 72, 2, 5, 1, 6, 4, 5);
  }

  /** The three take over, with the last irreversible block at 5. */
  predicate Handed(h: Header) {
    && h.num == 10 && h.slot == 84 && h.proposed == 8 && h.lib == 5 && h.confirm == [1, 2] && h.active == Three() && h.pending.producers == []
    && h.implied.Keys == {1, 2, 3} && h.implied[1] == 3 && h.implied[2] == h.implied[3] == 5 && 2 in h.lastProduced && h.lastProduced[2] == 5
  }

  lemma HandedOver(h: Header, implied: map<nat, nat>, last: map<nat, nat>)
    requires h.implied.Keys == {1, 4, 5, 6} && h.implied[1] == 3 && 2 !in h.lastProduced
    requires implied == Raised(Carried(Names(Three()), h.implied, 5), 6, h.proposed) && last == Carried(Names(Three()), h.lastProduced, 5)[6 := 10]
    ensures implied.Keys == {1, 2, 3} && implied[1] == 3 && implied[2] == implied[3] == 5 && 2 in last && last[2] == 5
  {
    Usables();
  }

  lemma Block10(h: Header) returns (b: Block)
    requires HeaderOk(h) && Fours(h, 9, 72, 7, [1, 2], 5, 6, 4, 8, 9, 7)
    ensures FollowsOn(h, b) && b.numPrev == 2 && b.pending.producer == 6
    ensures HeaderOk(HeaderOf(b)) && Handed(HeaderOf(b))
  {
    Usables();
    b := Steady(h, 84, 2, 6, 1, 4, 5, 6);
    HandedOver(h, HeaderOf(b).implied, HeaderOf(b).lastProduced);
  }

  lemma LastCounts(h: Header)
    requires h.active == Three() && h.confirm == [1, 2]
    ensures CountedDown(Tracked(h.confirm, Quorum(|h.active.producers|)), 0, h.num + 1, h.proposed, [1, 2, 2], h.proposed)
  {
    NoHit(Tracked(h.confirm, Quorum(3)), 0, h.num + 1, h.proposed, [1, 2, 2]);
  }

  lemma Block11(h: Header) returns (b: Block)
    requires HeaderOk(h) && Handed(h)
    ensures FollowsOn(h, b) && b.numPrev == 0 && HeaderOk(HeaderOf(b)) && HeaderOf(b).lib == 3
  {
    LastCounts(h);
    var m := Raised(h.implied, 2, 8);
    LibOf3(m, 1, 2, 3);
    b := MadeOk(h, 85, 0, 2, 3, [1, 2, 2], 8, None);
  }

  // ------------------------------------------------- confirming more blocks than there are

  lemma Again6(h: Header) returns (b: Block)
    requires HeaderOk(h) && Fours(h, 5, 12, 4, [2], 4, 3, 3, 5, 3, 3)
    ensures FollowsOn(h, b) && b.numPrev == 8 && b.pending.producer == 4
    ensures HeaderOk(HeaderOf(b)) && Fours(HeaderOf(b), 6, 13, 4, [1, 2], 4, 3, 3, 6, 3, 3)
  {
    b := Growing(h, 13, 8, 4, 1, 5, 6, 4, [1, 2], None);
  }

  lemma Again7(h: Header) returns (b: Block)
    requires HeaderOk(h) && Fours(h, 6, 13, 4, [1, 2], 4, 3, 3, 6, 3, 3)
    ensures FollowsOn(h, b) && b.numPrev == 9 && b.pending.producer == 4
    ensures HeaderOk(HeaderOf(b)) && Fours(HeaderOf(b), 7, 14, 5, [1, 2], 4, 3, 3, 7, 3, 3)
  {
    b := Steady(h, 14, 9, 4, 1, 5, 6, 4);
  }

  // ------------------------------------------------------------------------- the runs

  /** A run from genesis to block num, which is h. */
  ghost predicate Reached(bs: seq<Block>, h: Header, num: nat) {
    Run(Start(), bs) && |bs| + 1 == num && h == Tip(Start(), bs) && HeaderOk(h)
  }

  /** No block claims to confirm more than two before it. */
  predicate Small(bs: seq<Block>) {
    forall i :: 0 <= i < |bs| ==> bs[i].numPrev <= 2
  }

  lemma OneMore(bs: seq<Block>, h: Header, b: Block) returns (bs': seq<Block>, h': Header)
    requires Reached(bs, h, |bs| + 1) && FollowsOn(h, b) && HeaderOk(HeaderOf(b))
    ensures bs' == bs + [b] && h' == HeaderOf(b) && Reached(bs', h', |bs| + 2)
    ensures Small(bs) && b.numPrev <= 2 ==> Small(bs')
  {
    bs', h' := bs + [b], HeaderOf(b);
    assert bs'[..|bs|] == bs;
  }

  lemma UpTo2() returns (bs: seq<Block>, h: Header)
    ensures Reached(bs, h, 2) && Small(bs) && Alone(h, 2, 1, 0) && h.pending.producers == []
    ensures bs[0].numPrev == 0
  {
    Usables();
    var b := Block2(Start());
    bs, h := OneMore([], Start(), b);
  }

  lemma UpTo3() returns (bs: seq<Block>, h: Header)
    ensures Reached(bs, h, 3) && Small(bs) && Alone(h, 3, 2, 2) && h.pending == Four() && h.pendingLib == 3
    ensures bs[0].numPrev == bs[1].numPrev == 0
  {
    bs, h := UpTo2();
    var b := Block3(h);
    bs, h := OneMore(bs, h, b);
  }

  lemma UpTo4() returns (bs: seq<Block>, h: Header)
    ensures Reached(bs, h, 4) && Small(bs) && Taken(h)
    ensures bs[0].numPrev == bs[1].numPrev == bs[2].numPrev == 0
  {
    bs, h := UpTo3();
    var b := Block4(h);
    bs, h := OneMore(bs, h, b);
  }

  lemma UpTo5() returns (bs: seq<Block>, h: Header)
    ensures Reached(bs, h, 5) && Small(bs) && Fours(h, 5, 12, 4, [2], 4, 3, 3, 5, 3, 3)
    ensures bs[0].numPrev == bs[1].numPrev == bs[2].numPrev == bs[3].numPrev == 0 && bs[3].pending.producer == 4
    ensures Tip(Start(), bs[..3]).active == Four()
  {
    var four, g := UpTo4();
    var b := Block5(g);
    bs, h := OneMore(four, g, b);
    assert bs[..3] == four;
  }

  lemma UpTo6() returns (bs: seq<Block>, h: Header)
    ensures Reached(bs, h, 6) && Small(bs) && Fours(h, 6, 24, 4, [1, 2], 4, 4, 3, 5, 6, 3)
  {
    bs, h := UpTo5();
    var b := Block6(h);
    bs, h := OneMore(bs, h, b);
  }

  lemma UpTo7() returns (bs: seq<Block>, h: Header)
    ensures Reached(bs, h, 7) && Small(bs) && Fours(h, 7, 36, 5, [1, 2], 4, 4, 4, 5, 6, 7)
  {
    bs, h := UpTo6();
    var b := Block7(h);
    bs, h := OneMore(bs, h, b);
  }

  lemma UpTo8() returns (bs: seq<Block>, h: Header)
    ensures Reached(bs, h, 8) && Small(bs) && Fours(h, 8, 60, 6, [1, 2], 5, 4, 4, 8, 6, 7)
  {
    bs, h := UpTo7();
    var b := Block8(h);
    bs, h := OneMore(bs, h, b);
  }

  lemma UpTo9() returns (bs: seq<Block>, h: Header)
    ensures Reached(bs, h, 9) && Small(bs) && Fours(h, 9, 72, 7, [1, 2], 5, 6, 4, 8, 9, 7)
  {
    bs, h := UpTo8();
    var b := Block9(h);
    bs, h := OneMore(bs, h, b);
  }

  lemma UpTo10() returns (bs: seq<Block>, h: Header)
    ensures Reached(bs, h, 10) && Small(bs) && Handed(h)
  {
    bs, h := UpTo9();
    var b := Block10(h);
    bs, h := OneMore(bs, h, b);
  }

  lemma SmallIsModest(bs: seq<Block>)
    requires Numbered(1, bs) && |bs| < 0xFFFF_FFFE && Small(bs)
    ensures Modest(bs)
  {
  }

  /** The last irreversible block can go back on a run from genesis: producer 1 never
    * produces and stays at block 3 while the others reach block 5; of the smaller schedule
    * that is promoted then, whose newcomers start at 5, all three have to reach a block. */
  lemma LibGoesBack() returns (bs: seq<Block>)
    ensures Run(Start(), bs) && Modest(bs) && bs != []
    ensures Tip(Start(), bs[..|bs| - 1]).lib == 5 && Tip(Start(), bs).lib == 3
  {
    var ten, g := UpTo10();
    var b := Block11(g);
    var h;
    bs, h := OneMore(ten, g, b);
    assert bs[..|bs| - 1] == ten;
    RunNumbered(Start(), bs);
    SmallIsModest(bs);
  }

  lemma FourBacks(bs: seq<Block>)
    requires Numbered(1, bs) && |bs| == 6 && bs[0].numPrev == bs[1].numPrev == bs[2].numPrev == bs[3].numPrev == 0
    requires bs[3].pending.producer == bs[4].pending.producer == bs[5].pending.producer == 4
    ensures Backers(bs, 5) == {4}
  {
    assert bs[3].pending.producer in Backers(bs, 5);
  }

  lemma UpToAgain6() returns (bs: seq<Block>, h: Header)
    ensures Reached(bs, h, 6) && Fours(h, 6, 13, 4, [1, 2], 4, 3, 3, 6, 3, 3)
    ensures bs[0].numPrev == bs[1].numPrev == bs[2].numPrev == bs[3].numPrev == 0 && bs[4].numPrev == 8
    ensures bs[3].pending.producer == bs[4].pending.producer == 4 && Tip(Start(), bs[..3]).active == Four()
  {
    var five, g := UpTo5();
    var b := Again6(g);
    bs, h := OneMore(five, g, b);
    Sliced(five, b);
  }

  lemma Sliced(bs: seq<Block>, b: Block)
    requires |bs| >= 3
    ensures (bs + [b])[..3] == bs[..3]
  {
  }

  /** Two blocks that claim to confirm more blocks than there are: producer 4 alone makes
    * block 5 proposed irreversible, which takes three producers. */
  lemma ConfirmsAlone() returns (bs: seq<Block>)
    ensures Run(Start(), bs) && !Modest(bs) && bs != []
    ensures Tip(Start(), bs[..|bs| - 1]).proposed == 4 && Tip(Start(), bs).proposed == 5
    ensures Backers(bs, 5) == {4} && RequiredOf(Start(), bs, 5) == 3
  {
    var six, g := UpToAgain6();
    var b := Again7(g);
    var h;
    bs, h := OneMore(six, g, b);
    Sliced(six, b);
    RunNumbered(Start(), bs);
    assert bs[4].numPrev == 8;
    FourBacks(bs);
    assert bs[..|bs| - 1] == six;
  }
}
