/** Irreversibility in plain numbers: which block is proposed on a run, which is
  * irreversible, and what a header remembers of its producers. */
module DposExact {
  import Bits
  import opened Dpos
  import opened DposResults
  import opened DposHistory

  // ------------------------------------------------------------- how many are required

  /** A new block starts with the least number of confirmations that is more than two
    * thirds of the active producers. */
  lemma StartsWith(h: Header, k: nat)
    ensures var c := Tracked(h.confirm, Quorum(|h.active.producers|));
            k >= c[|c| - 1] <==> 3 * k > 2 * |h.active.producers|
  {
    QuorumIsLeast(|h.active.producers|, k);
  }

  // ------------------------------------------------------------------ which are tracked

  function Max(a: nat, b: nat): nat {
    if a >= b then a else b
  }

  /** The blocks after the proposed one are tracked, up to the newest 1024. */
  predicate TracksAll(genesis: Header, h: Header) {
    h.num >= Max(h.proposed, genesis.num) &&
    var open := h.num - Max(h.proposed, genesis.num);
    |h.confirm| == if open <= 1024 then open else 1024
  }

  lemma TracksMore(genesis: Header, h: Header, b: Block)
    requires FollowsOn(h, b) && TracksAll(genesis, h) && genesis.num <= h.num
    ensures TracksAll(genesis, HeaderOf(b))
  {
    AdoptedOk(h, b);
    TrackedFits(h);
    var c, n := Tracked(h.confirm, Quorum(|h.active.producers|)), b.pending;
    CountedTracks(c, b.numPrev, h.num + 1, h.proposed, n.header.confirm, n.header.proposed);
  }

  lemma CountedTracks(c: seq<nat>, numPrev: nat, num: nat, proposed: nat, c': seq<nat>, proposed': nat)
    requires CountedDown(c, numPrev, num, proposed, c', proposed')
    ensures (proposed' == proposed && |c'| == |c|) || (|c'| < |c| && proposed' + |c'| == num)
  {
    var low := |c| - Reach(c, numPrev);
    if exists i :: low <= i < |c| && c[i] == 1 {
      var i :| Hit(c, low, i) && |c'| == |c| - 1 - i && proposed' + |c'| == num &&
              (forall j :: 0 <= j < |c'| ==> c'[j] + 1 == c[j + i + 1]);
    }
  }

  lemma {:induction false} RunTracks(genesis: Header, bs: seq<Block>)
    requires Run(genesis, bs)
    ensures TracksAll(genesis, Tip(genesis, bs))
    decreases |bs|
  {
    if bs != [] {
      RunTracks(genesis, bs[..|bs| - 1]);
      RunOk(genesis, bs[..|bs| - 1]);
      TracksMore(genesis, Tip(genesis, bs[..|bs| - 1]), bs[|bs| - 1]);
    }
  }

  // ------------------------------------------------------------ when a block is proposed

  /** A tracked block that has all its confirmations is proposed, or a later one is. */
  lemma ReachedIsProposed(h: Header, slot: nat, numPrev: nat, n: Pending, required: seq<nat>, who: seq<set<nat>>,
                          c: seq<nat>, needed: seq<nat>, marked: seq<set<nat>>, k: nat)
    requires HeaderOk(h) && NextOk(h, slot, numPrev, n) && History(h, required, who)
    requires c == Tracked(h.confirm, Quorum(|h.active.producers|)) && needed == Tracked(required, Quorum(|h.active.producers|))
    requires marked == Marked(Started(who), |c| - Reach(c, numPrev), n.producer) && k < |c| && k < |marked|
    requires k < |needed| && |marked[k]| >= needed[k]
    ensures n.header.proposed + |c| >= n.header.num + 1 + k
  {
    TrackedFits(h);
    CountPlus(h, required, who, c, needed, k);
    assert marked[k] <= Started(who)[k] + {n.producer};
    SubsetSize(marked[k], Started(who)[k] + {n.producer});
    HitFrom(c, numPrev, n.header.num, h.proposed, n.header.confirm, n.header.proposed, k);
  }

  lemma HitFrom(c: seq<nat>, numPrev: nat, num: nat, proposed: nat, c': seq<nat>, proposed': nat, k: nat)
    requires CountedDown(c, numPrev, num, proposed, c', proposed') && |c| - Reach(c, numPrev) <= k < |c| && c[k] == 1
    ensures proposed' + |c| >= num + 1 + k
  {
    var low := |c| - Reach(c, numPrev);
    var i :| Hit(c, low, i) && |c'| == |c| - 1 - i && proposed' + |c'| == num &&
            (forall j :: 0 <= j < |c'| ==> c'[j] + 1 == c[j + i + 1]);
  }

  /** More than two thirds of the producers of its own time have produced a block that
    * claims to confirm block b. */
  ghost predicate Backed(genesis: Header, bs: seq<Block>, b: int) {
    genesis.num < b <= genesis.num + |bs| &&
    3 * |Backers(bs, b)| > 2 * |Tip(genesis, bs[..b - genesis.num - 1]).active.producers|
  }

  lemma BackedIff(genesis: Header, bs: seq<Block>, b: int)
    requires genesis.num < b <= genesis.num + |bs|
    ensures Backed(genesis, bs, b) <==> |Backers(bs, b)| >= RequiredOf(genesis, bs, b)
  {
    QuorumIsLeast(|Tip(genesis, bs[..b - genesis.num - 1]).active.producers|, |Backers(bs, b)|);
  }

  lemma BackedIsProposed(genesis: Header, bs: seq<Block>, h: Header, x: Block, r: seq<nat>, w: seq<set<nat>>, b: nat)
    requires bs != [] && Backers(bs[..|bs| - 1], h.num + 1) == {} && h == Tip(genesis, bs[..|bs| - 1]) && h.num == genesis.num + |bs| - 1
    requires x == bs[|bs| - 1] && FollowsOn(h, x)
    requires History(h, r, w) && Fits(genesis, bs[..|bs| - 1], r, w)
    requires Backed(genesis, bs, b) && b + |Started(w)| > h.num + 1
    ensures HeaderOf(x).proposed >= b
  {
    var c := Tracked(h.confirm, Quorum(|h.active.producers|));
    var needed, marked := Tracked(r, Quorum(|h.active.producers|)), Marked(Started(w), |c| - Reach(c, x.numPrev), x.pending.producer);
    AdoptedOk(h, x);
    FitsMore(genesis, bs, h, r, w, needed, marked, |c|);
    var k := b + |c| - h.num - 2;
    BackedEnough(genesis, bs, needed, marked, b, k);
    ReachedIsProposed(h, x.slot, x.numPrev, x.pending, r, w, c, needed, marked, k);
  }

  lemma BackedEnough(genesis: Header, bs: seq<Block>, needed: seq<nat>, marked: seq<set<nat>>, b: nat, k: nat)
    requires Fits(genesis, bs, needed, marked) && k < |marked| && b + |marked| == genesis.num + |bs| + 1 + k && Backed(genesis, bs, b)
    ensures |marked[k]| >= needed[k]
  {
    assert FitsOne(genesis, bs, needed[k], marked[k], b);
    BackedIff(genesis, bs, b);
  }

  /** On every run from genesis on which no block claims to confirm more blocks than there
    * are, a new block takes the proposed number to b or beyond exactly when b or a later
    * block, among the newest 1024, has now been claimed by more than two thirds of the
    * producers of its own time. */
  lemma ProposedIff(genesis: Header, bs: seq<Block>, b: nat)
    requires Run(genesis, bs) && Modest(bs) && bs != [] && b > Tip(genesis, bs[..|bs| - 1]).proposed
    ensures Tip(genesis, bs).proposed >= b <==>
            exists b' :: b <= b' <= genesis.num + |bs| < b' + 1024 && Backed(genesis, bs, b')
  {
    if Tip(genesis, bs).proposed >= b {
      NowBacked(genesis, bs);
    }
    forall b' | b <= b' <= genesis.num + |bs| < b' + 1024 && Backed(genesis, bs, b') ensures Tip(genesis, bs).proposed >= b' {
      NowProposed(genesis, bs, b');
    }
  }

  lemma NowProposed(genesis: Header, bs: seq<Block>, b: nat)
    requires Run(genesis, bs) && Modest(bs) && bs != [] && b > Tip(genesis, bs[..|bs| - 1]).proposed
    requires genesis.num + |bs| < b + 1024 && Backed(genesis, bs, b)
    ensures Tip(genesis, bs).proposed >= b
  {
    var r, w := RecordBefore(genesis, bs, bs[..|bs| - 1], b);
    BackedIsProposed(genesis, bs, Tip(genesis, bs[..|bs| - 1]), bs[|bs| - 1], r, w, b);
  }

  lemma RecordBefore(genesis: Header, bs: seq<Block>, prev: seq<Block>, b: nat) returns (r: seq<nat>, w: seq<set<nat>>)
    requires Run(genesis, bs) && Modest(bs) && bs != [] && prev == bs[..|bs| - 1]
    requires b > Tip(genesis, prev).proposed && b > genesis.num && genesis.num + |bs| < b + 1024
    ensures Tip(genesis, prev).num == genesis.num + |bs| - 1 && Backers(prev, Tip(genesis, prev).num + 1) == {}
    ensures FollowsOn(Tip(genesis, prev), bs[|bs| - 1])
    ensures History(Tip(genesis, prev), r, w) && Fits(genesis, prev, r, w) && b + |Started(w)| > Tip(genesis, prev).num + 1
  {
    var h;
    h, r, w := RecordSoFar(genesis, bs, prev);
    RunTracks(genesis, prev);
    StartedReaches(genesis, h, r, w, b);
  }

  lemma StartedReaches(genesis: Header, h: Header, r: seq<nat>, w: seq<set<nat>>, b: nat)
    requires TracksAll(genesis, h) && History(h, r, w) && b > h.proposed && b > genesis.num && h.num + 1 < b + 1024
    ensures b + |Started(w)| > h.num + 1
  {
  }

  /** What has just become proposed is backed and among the newest. */
  lemma NowBacked(genesis: Header, bs: seq<Block>)
    requires Run(genesis, bs) && Modest(bs) && bs != [] && Tip(genesis, bs).proposed > Tip(genesis, bs[..|bs| - 1]).proposed
    ensures Backed(genesis, bs, Tip(genesis, bs).proposed) && genesis.num + |bs| < Tip(genesis, bs).proposed + 1024
  {
    var prev := bs[..|bs| - 1];
    var h, x := Tip(genesis, prev), bs[|bs| - 1];
    IrreversibleByQuorum(genesis, bs);
    BackedIff(genesis, bs, Tip(genesis, bs).proposed);
    RunOk(genesis, prev);
    AdoptedOk(h, x);
    TrackedFits(h);
    CountedTracks(Tracked(h.confirm, Quorum(|h.active.producers|)), x.numPrev, h.num + 1, h.proposed, x.pending.header.confirm, x.pending.header.proposed);
  }

  // ----------------------------------------------------------- what a header remembers

  /** Every active producer's entry is the number proposed before the last block it
    * produced; one that comes in with a promotion starts at the number that was
    * irreversible then. */
  lemma EntryMeaning(h: Header, slot: nat, numPrev: nat, n: Pending, p: nat)
    requires HeaderOk(h) && NextOk(h, slot, numPrev, n) && !Genesis(h)
    ensures p in n.header.implied <==> p in n.header.active.producers
    ensures p in n.header.implied ==>
              n.header.implied[p] == if p == n.producer then h.proposed else if p in h.active.producers then h.implied[p] else n.header.lib
    ensures p in n.header.lastProduced <==> p == n.producer || (if n.promoted then p in n.header.active.producers else p in h.lastProduced)
    ensures p in n.header.lastProduced ==>
              n.header.lastProduced[p] == if p == n.producer then h.num + 1 else if p in h.lastProduced then h.lastProduced[p] else n.header.lib
  {
  }

  /** The pending schedule takes over exactly when the block in which it became pending is
    * irreversible. */
  lemma PromotedIff(h: Header, slot: nat, numPrev: nat, n: Pending)
    requires HeaderOk(h) && NextOk(h, slot, numPrev, n)
    ensures n.header.active == if h.pending.producers != [] && n.header.lib >= h.pendingLib then h.pending else h.active
    ensures n.promoted <==> h.pending.producers != [] && n.header.lib >= h.pendingLib
  {
  }

  /** In the numbers of twelve slots each, the producer of a block. */
  lemma ProducerOf(h: Header, slot: nat, numPrev: nat, n: Pending, round: nat, turn: nat, k: nat)
    requires HeaderOk(h) && NextOk(h, slot, numPrev, n)
    requires turn < |h.active.producers| && k < 12 && slot == (round * |h.active.producers| + turn) * 12 + k
    ensures n.producer == h.active.producers[turn]
  {
    TurnOf(|h.active.producers|, round, turn, k);
  }

  lemma TurnOf(len: nat, round: nat, turn: nat, k: nat)
    requires turn < len && k < 12
    ensures ((round * len + turn) * 12 + k) % (len * REPETITIONS) / REPETITIONS == turn
  {
    var d, s := len * REPETITIONS, (round * len + turn) * 12 + k;
    assert s == round * d + (turn * 12 + k) by {
      assert (round * len) * 12 == round * d;
    }
    assert turn * 12 + k < d;
    Bits.DivUnique(s, d, round, turn * 12 + k);
  }
}
