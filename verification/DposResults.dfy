/** What holds of every header on a chain: how the proposed and the last
  * irreversible block move, and who has confirmed them. */
module DposResults {
  import opened Dpos

  /** The entries cover the active producers; before the first block there are none. */
  predicate HeaderOk(h: Header) {
    && Usable(h.active) && (h.pending.producers != [] ==> Usable(h.pending))
    && Countable(h) && |h.confirm| <= MAX_TRACKED
    && h.lib <= h.proposed && (forall p :: p in h.implied ==> h.implied[p] <= h.proposed)
    && (h.implied.Keys == Names(h.active) || Genesis(h))
  }

  predicate Genesis(h: Header) {
    h.implied == map[] && h.pending.producers != [] && h.pendingLib == 0
  }

  lemma CountersStay(c: seq<nat>, numPrev: nat, num: nat, proposed: nat, c': seq<nat>, proposed': nat)
    requires CountedDown(c, numPrev, num, proposed, c', proposed') && proposed + |c| <= num
    requires forall i :: 0 <= i < |c| ==> 1 <= c[i] < 256
    ensures proposed <= proposed' && proposed' + |c'| <= num && |c'| <= |c|
    ensures proposed' > proposed <==> exists i :: |c| - Reach(c, numPrev) <= i < |c| && c[i] == 1
    ensures forall i :: 0 <= i < |c'| ==> 1 <= c'[i] < 256
  {
    var low := |c| - Reach(c, numPrev);
    if exists i :: low <= i < |c| && c[i] == 1 {
      var i :| Hit(c, low, i) && |c'| == |c| - 1 - i && proposed' + |c'| == num &&
              (forall j :: 0 <= j < |c'| ==> c'[j] + 1 == c[j + i + 1]);
    }
  }

  lemma TrackedFits(h: Header)
    requires HeaderOk(h)
    ensures var c := Tracked(h.confirm, Quorum(|h.active.producers|));
            h.proposed + |c| <= h.num + 1 && |c| <= MAX_TRACKED && forall i :: 0 <= i < |c| ==> 1 <= c[i] < 256
  {
  }

  /** Every block keeps the invariant; the proposed irreversible block never goes
    * back, and the last irreversible block never overtakes it. */
  lemma StepKeeps(h: Header, slot: nat, numPrev: nat, n: Pending)
    requires HeaderOk(h) && NextOk(h, slot, numPrev, n)
    ensures HeaderOk(n.header) && n.header.implied.Keys == Names(n.header.active)
    ensures h.proposed <= n.header.proposed && n.header.lib <= h.proposed
  {
    var g, c := n.header, Tracked(h.confirm, Quorum(|h.active.producers|));
    TrackedFits(h);
    CountersStay(c, numPrev, g.num, h.proposed, g.confirm, g.proposed);
    LibBound(Raised(h.implied, n.producer, h.proposed), g.lib, h.proposed);
    EntriesStay(h, slot, numPrev, n);
  }

  lemma EntriesStay(h: Header, slot: nat, numPrev: nat, n: Pending)
    requires HeaderOk(h) && NextOk(h, slot, numPrev, n) && n.header.lib <= h.proposed
    ensures n.header.implied.Keys == Names(n.header.active)
    ensures forall p :: p in n.header.implied ==> n.header.implied[p] <= h.proposed
  {
  }

  /** The stored number is the one its own entries give. */
  ghost predicate Settled(h: Header) {
    IsLib(h.implied, h.lib)
  }

  /** Only the block after a promotion can lower the last irreversible block. */
  lemma LibNeverDrops(h: Header, slot: nat, numPrev: nat, n: Pending)
    requires HeaderOk(h) && NextOk(h, slot, numPrev, n)
    ensures Settled(h) ==> h.lib <= n.header.lib
    ensures !n.promoted ==> Settled(n.header)
  {
    var p := n.producer;
    if Settled(h) && h.implied.Keys != {} {
      assert p in h.implied;
      LibRises(h.implied, h.lib, p, h.proposed, n.header.lib);
    }
  }

  /** In any block the number is at least v exactly when more than two thirds of the active
    * producers have reached v, the next producer counted at the proposed number. */
  lemma LibHolds(h: Header, slot: nat, numPrev: nat, n: Pending, v: nat)
    requires HeaderOk(h) && NextOk(h, slot, numPrev, n) && !Genesis(h)
    ensures h.implied.Keys == set p | p in h.active.producers
    ensures n.header.lib >= v <==>
            3 * |set p | p in h.implied && (if p == n.producer then h.proposed else h.implied[p]) >= v| > 2 * |h.active.producers|
  {
    var raised := Raised(h.implied, n.producer, h.proposed);
    assert h.active.producers[0] in Names(h.active);
    LibMeaning(raised, n.header.lib, v);
    NamesCount(h.active.producers, Names(h.active));
    RaisedReach(h.implied, n.producer, h.proposed, v);
  }

  lemma RaisedReach(m: map<nat, nat>, producer: nat, proposed: nat, v: nat)
    ensures var raised := Raised(m, producer, proposed);
            (set p | p in raised && raised[p] >= v) == set p | p in m && (if p == producer then proposed else m[p]) >= v
  {
  }

  lemma {:induction false} NamesCount(s: seq<nat>, names: set<nat>)
    requires Distinct(s) && forall p :: p in names <==> p in s
    ensures |names| == |s|
    decreases |s|
  {
    if s != [] {
      assert s[0] in names && s[0] !in s[1..];
      NamesCount(s[1..], names - {s[0]});
    } else {
      assert names == {};
    }
  }
}
