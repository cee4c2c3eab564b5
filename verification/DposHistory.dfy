/** Who confirmed a block: over every run from genesis, a block becomes proposed
  * irreversible only when as many different producers have confirmed it as the
  * schedule of its own time required. */
module DposHistory {
  import opened Dpos
  import opened DposResults

  // --------------------------------------------------------------- confirmations so far

  /** A producer that confirmed block b cannot confirm it again: it has produced b or a
    * later block, or it is out of the schedule and cannot come back while b is tracked. */
  predicate Accounted(h: Header, b: int, q: nat) {
    || (q in h.lastProduced && h.lastProduced[q] >= b)
    || (q !in Names(h.active) && b < h.num && (q in Names(h.pending) ==> b < h.pendingLib))
  }

  /** For each tracked block the confirmations it needs and the producers that have
    * confirmed it so far. */
  ghost predicate History(h: Header, required: seq<nat>, who: seq<set<nat>>) {
    && |required| == |who| == |h.confirm|
    && (forall k :: 0 <= k < |who| ==> h.confirm[k] + |who[k]| == required[k])
    && (forall k, q :: 0 <= k < |who| && q in who[k] ==> Accounted(h, h.num + 1 + k - |who|, q))
  }

  function Started(who: seq<set<nat>>): seq<set<nat>> {
    (if |who| < MAX_TRACKED then who else who[1..]) + [{}]
  }

  function Marked(who: seq<set<nat>>, low: nat, p: nat): (r: seq<set<nat>>)
    ensures |r| == |who|
  {
    seq(|who|, j requires 0 <= j < |who| => if j < low then who[j] else who[j] + {p})
  }

  function Newest<T>(s: seq<T>, k: nat): seq<T>
    requires k <= |s|
  {
    s[|s| - k..]
  }

  /** Whoever confirmed a block of the longer list is accounted for. */
  lemma StartedAccounted(h: Header, required: seq<nat>, who: seq<set<nat>>, j: nat, q: nat)
    requires History(h, required, who) && j < |Started(who)| && q in Started(who)[j]
    ensures j < |Started(who)| - 1 && Accounted(h, h.num + 2 + j - |Started(who)|, q)
  {
    var k := if |who| < MAX_TRACKED then j else j + 1;
    assert Started(who)[j] == if j < |Started(who)| - 1 then who[k] else {};
  }

  /** The producer has not confirmed any of the blocks it confirms now. */
  lemma NotYetConfirmed(h: Header, p: nat, numPrev: nat, required: seq<nat>, who: seq<set<nat>>, c: seq<nat>, j: nat)
    requires History(h, required, who) && p in Names(h.active) && !ConfirmsTwice(h, p, numPrev) && numPrev <= h.num + 1 < 0x1_0000_0000
    requires c == Tracked(h.confirm, Quorum(|h.active.producers|)) && |c| - Reach(c, numPrev) <= j < |c|
    ensures |Started(who)| == |c| && p !in Started(who)[j]
  {
    if p in Started(who)[j] {
      StartedAccounted(h, required, who, j, p);
    }
  }

  /** A confirmation is repeated exactly when the block claims to confirm more blocks than
    * there are, so that the lower end of its range wraps around, and its producer has
    * confirmed a tracked block. */
  lemma RepeatIff(h: Header, slot: nat, numPrev: nat, n: Pending, required: seq<nat>, who: seq<set<nat>>)
    requires HeaderOk(h) && NextOk(h, slot, numPrev, n) && History(h, required, who) && h.num + 1 < 0x1_0000_0000
    ensures var c := Tracked(h.confirm, Quorum(|h.active.producers|));
            && |Started(who)| == |c|
            && ((exists j :: |c| - Reach(c, numPrev) <= j < |c| && n.producer in Started(who)[j]) <==>
                numPrev > h.num + 1 && exists j :: 0 <= j < |c| && n.producer in Started(who)[j])
  {
    var c := Tracked(h.confirm, Quorum(|h.active.producers|));
    TrackedFits(h);
    if numPrev <= h.num + 1 {
      forall j | |c| - Reach(c, numPrev) <= j < |c| ensures n.producer !in Started(who)[j] {
        NotYetConfirmed(h, n.producer, numPrev, required, who, c, j);
      }
    } else {
      assert Reach(c, numPrev) == |c|;
    }
  }

  /** Such a block is not refused: the test compares with a number near 2^32. */
  lemma NeverRefused(h: Header, producer: nat, numPrev: nat)
    requires h.num + 1 < numPrev < 0x1_0000 && forall p :: p in h.lastProduced ==> h.lastProduced[p] <= h.num
    ensures !ConfirmsTwice(h, producer, numPrev)
  {
    assert (h.num + 1 - numPrev) % 0x1_0000_0000 == h.num + 1 - numPrev + 0x1_0000_0000;
  }

  // ------------------------------------------------------------------- one block more

  /** Counter and confirmations together make what is required, before this block's own. */
  lemma CountPlus(h: Header, required: seq<nat>, who: seq<set<nat>>, c: seq<nat>, needed: seq<nat>, i: nat)
    requires History(h, required, who) && i < |c|
    requires c == Tracked(h.confirm, Quorum(|h.active.producers|)) && needed == Tracked(required, Quorum(|h.active.producers|))
    ensures |Started(who)| == |needed| == |c| && c[i] + |Started(who)[i]| == needed[i]
  {
  }

  /** When a block becomes proposed irreversible, as many different producers have
    * confirmed it as it required; i is its place among the tracked blocks. */
  lemma ConfirmedByQuorum(h: Header, slot: nat, numPrev: nat, n: Pending, required: seq<nat>, who: seq<set<nat>>,
                          c: seq<nat>, needed: seq<nat>, marked: seq<set<nat>>) returns (i: nat)
    requires HeaderOk(h) && NextOk(h, slot, numPrev, n) && History(h, required, who)
    requires numPrev <= h.num + 1 < 0x1_0000_0000
    requires c == Tracked(h.confirm, Quorum(|h.active.producers|)) && needed == Tracked(required, Quorum(|h.active.producers|))
    requires marked == Marked(Started(who), |c| - Reach(c, numPrev), n.producer)
    ensures |marked| == |needed| == |c|
    ensures n.header.proposed > h.proposed ==>
              i < |c| && n.header.proposed + |c| == n.header.num + 1 + i && |marked[i]| == needed[i]
  {
    var g := n.header;
    i := QuorumCore(h, n.producer, numPrev, required, who, c, needed, g.confirm, g.proposed);
  }

  lemma QuorumCore(h: Header, p: nat, numPrev: nat, required: seq<nat>, who: seq<set<nat>>,
                   c: seq<nat>, needed: seq<nat>, c': seq<nat>, proposed': nat) returns (i: nat)
    requires History(h, required, who) && p in Names(h.active) && !ConfirmsTwice(h, p, numPrev) && numPrev <= h.num + 1 < 0x1_0000_0000
    requires c == Tracked(h.confirm, Quorum(|h.active.producers|)) && needed == Tracked(required, Quorum(|h.active.producers|))
    requires CountedDown(c, numPrev, h.num + 1, h.proposed, c', proposed')
    ensures var marked := Marked(Started(who), |c| - Reach(c, numPrev), p);
            && |marked| == |needed| == |c|
            && (proposed' > h.proposed ==> i < |c| && proposed' + |c| == h.num + 2 + i && |marked[i]| == needed[i])
  {
    var low := |c| - Reach(c, numPrev);
    CountPlus(h, required, who, c, needed, |c| - 1);
    i := 0;
    if proposed' > h.proposed {
      i :| Hit(c, low, i) && |c'| == |c| - 1 - i && proposed' + |c'| == h.num + 1 &&
           (forall j :: 0 <= j < |c'| ==> c'[j] + 1 == c[j + i + 1]);
      CountPlus(h, required, who, c, needed, i);
      NotYetConfirmed(h, p, numPrev, required, who, c, i);
    }
  }

  /** A schedule may become pending in a block when there was none before it. */
  predicate AdoptOk(h: Header, n: Pending, s: Option<Schedule>) {
    s.Some? ==> !n.promoted && h.pending.producers == [] && (s.value.producers == [] || Usable(s.value))
  }

  /** Accounts stay settled while the block is tracked: a producer that a promotion drops
    * can only come back with a schedule that was made pending later, and that is promoted
    * when everything up to then is irreversible. */
  lemma StillAccounted(h: Header, slot: nat, numPrev: nat, n: Pending, s: Option<Schedule>, b: int, q: nat)
    requires HeaderOk(h) && NextOk(h, slot, numPrev, n) && AdoptOk(h, n, s) && Accounted(h, b, q)
    requires h.proposed < b <= h.num
    ensures Accounted(Adopted(n, s), b, q)
  {
    StepKeeps(h, slot, numPrev, n);
  }

  lemma JustProduced(h: Header, slot: nat, numPrev: nat, n: Pending, s: Option<Schedule>, b: int)
    requires HeaderOk(h) && NextOk(h, slot, numPrev, n) && b <= h.num + 1
    ensures Accounted(Adopted(n, s), b, n.producer)
  {
  }

  /** The record of confirmations goes on with the blocks still tracked, whatever schedule
    * is promoted or adopted. */
  lemma HistoryGoesOn(h: Header, slot: nat, numPrev: nat, n: Pending, s: Option<Schedule>, required: seq<nat>, who: seq<set<nat>>,
                      c: seq<nat>, needed: seq<nat>, marked: seq<set<nat>>)
    requires HeaderOk(h) && NextOk(h, slot, numPrev, n) && AdoptOk(h, n, s) && History(h, required, who)
    requires numPrev <= h.num + 1 < 0x1_0000_0000
    requires c == Tracked(h.confirm, Quorum(|h.active.producers|)) && needed == Tracked(required, Quorum(|h.active.producers|))
    requires marked == Marked(Started(who), |c| - Reach(c, numPrev), n.producer)
    ensures |n.header.confirm| <= |marked| == |needed|
    ensures History(Adopted(n, s), Newest(needed, |n.header.confirm|), Newest(marked, |n.header.confirm|))
  {
    var g := n.header;
    Sizes(h, slot, numPrev, n, required, who, c, needed);
    CountsGoOn(h, n.producer, numPrev, required, who, c, needed, g.confirm, g.proposed, marked);
    var d := |marked| - |g.confirm|;
    MarkedAdds(Started(who), |c| - Reach(c, numPrev), n.producer);
    AllAccounted(h, slot, numPrev, n, s, required, who, marked, d);
    NewestHistory(Adopted(n, s), g.confirm, needed, marked, d);
  }

  lemma MarkedAdds(who: seq<set<nat>>, low: nat, p: nat)
    ensures forall k :: 0 <= k < |who| ==> Marked(who, low, p)[k] <= who[k] + {p}
  {
  }

  lemma Sizes(h: Header, slot: nat, numPrev: nat, n: Pending, required: seq<nat>, who: seq<set<nat>>, c: seq<nat>, needed: seq<nat>)
    requires HeaderOk(h) && NextOk(h, slot, numPrev, n) && History(h, required, who)
    requires c == Tracked(h.confirm, Quorum(|h.active.producers|)) && needed == Tracked(required, Quorum(|h.active.producers|))
    ensures |n.header.confirm| <= |c| == |needed| == |Started(who)| && h.proposed + |n.header.confirm| <= h.num + 1
  {
    var g := n.header;
    TrackedFits(h);
    CountersStay(c, numPrev, g.num, h.proposed, g.confirm, g.proposed);
    CountPlus(h, required, who, c, needed, |c| - 1);
  }

  lemma AllAccounted(h: Header, slot: nat, numPrev: nat, n: Pending, s: Option<Schedule>, required: seq<nat>, who: seq<set<nat>>,
                     marked: seq<set<nat>>, d: nat)
    requires HeaderOk(h) && NextOk(h, slot, numPrev, n) && AdoptOk(h, n, s) && History(h, required, who)
    requires |marked| == |Started(who)| && forall k :: 0 <= k < |marked| ==> marked[k] <= Started(who)[k] + {n.producer}
    requires h.num + 2 + d - |marked| > h.proposed
    ensures AccountedFrom(Adopted(n, s), marked, d)
  {
    assert Adopted(n, s).num == h.num + 1;
    forall k, q | d <= k < |marked| && q in marked[k] ensures Accounted(Adopted(n, s), h.num + 2 + k - |marked|, q) {
      MarkedAccounted(h, slot, numPrev, n, s, required, who, k, q);
    }
  }

  lemma MarkedAccounted(h: Header, slot: nat, numPrev: nat, n: Pending, s: Option<Schedule>, required: seq<nat>, who: seq<set<nat>>, k: nat, q: nat)
    requires HeaderOk(h) && NextOk(h, slot, numPrev, n) && AdoptOk(h, n, s) && History(h, required, who)
    requires k < |Started(who)| && (q in Started(who)[k] || q == n.producer) && h.num + 2 + k - |Started(who)| > h.proposed
    ensures Accounted(Adopted(n, s), h.num + 2 + k - |Started(who)|, q)
  {
    if q in Started(who)[k] {
      StartedAccounted(h, required, who, k, q);
      StillAccounted(h, slot, numPrev, n, s, h.num + 2 + k - |Started(who)|, q);
    } else {
      JustProduced(h, slot, numPrev, n, s, h.num + 2 + k - |Started(who)|);
    }
  }

  ghost predicate AccountedFrom(g: Header, marked: seq<set<nat>>, d: nat) {
    forall k, q :: d <= k < |marked| && q in marked[k] ==> Accounted(g, g.num + 1 + k - |marked|, q)
  }

  ghost predicate CountedFrom(c: seq<nat>, needed: seq<nat>, marked: seq<set<nat>>, d: nat) {
    && d + |c| == |marked| == |needed|
    && forall k :: d <= k < |marked| ==> c[k - d] + |marked[k]| == needed[k]
  }

  lemma NewestHistory(g: Header, c: seq<nat>, needed: seq<nat>, marked: seq<set<nat>>, d: nat)
    requires g.confirm == c && CountedFrom(c, needed, marked, d) && AccountedFrom(g, marked, d)
    ensures History(g, Newest(needed, |c|), Newest(marked, |c|))
  {
    var who := Newest(marked, |c|);
    forall k | 0 <= k < |who| ensures who[k] == marked[k + d] {
    }
  }

  lemma CountsGoOn(h: Header, p: nat, numPrev: nat, required: seq<nat>, who: seq<set<nat>>,
                   c: seq<nat>, needed: seq<nat>, c': seq<nat>, proposed': nat, marked: seq<set<nat>>)
    requires History(h, required, who) && p in Names(h.active) && !ConfirmsTwice(h, p, numPrev) && numPrev <= h.num + 1 < 0x1_0000_0000
    requires c == Tracked(h.confirm, Quorum(|h.active.producers|)) && needed == Tracked(required, Quorum(|h.active.producers|))
    requires CountedDown(c, numPrev, h.num + 1, h.proposed, c', proposed') && |c'| <= |c| == |needed| == |Started(who)|
    requires marked == Marked(Started(who), |c| - Reach(c, numPrev), p)
    ensures CountedFrom(c', needed, marked, |c| - |c'|)
  {
    var d := |c| - |c'|;
    forall k | d <= k < |c| ensures c'[k - d] + |marked[k]| == needed[k] {
      CountGoesOn(h, p, numPrev, required, who, c, needed, c', proposed', k - d);
    }
  }

  lemma CountGoesOn(h: Header, p: nat, numPrev: nat, required: seq<nat>, who: seq<set<nat>>,
                    c: seq<nat>, needed: seq<nat>, c': seq<nat>, proposed': nat, k: nat)
    requires History(h, required, who) && p in Names(h.active) && !ConfirmsTwice(h, p, numPrev) && numPrev <= h.num + 1 < 0x1_0000_0000
    requires c == Tracked(h.confirm, Quorum(|h.active.producers|)) && needed == Tracked(required, Quorum(|h.active.producers|))
    requires CountedDown(c, numPrev, h.num + 1, h.proposed, c', proposed') && k < |c'| <= |c| == |needed| == |Started(who)|
    ensures var marked := Marked(Started(who), |c| - Reach(c, numPrev), p);
            c'[k] + |marked[k + |c| - |c'|]| == needed[k + |c| - |c'|]
  {
    var low, j := |c| - Reach(c, numPrev), k + |c| - |c'|;
    CountPlus(h, required, who, c, needed, j);
    CountStep(c, numPrev, h.num + 1, h.proposed, c', proposed', k);
    if j >= low {
      NotYetConfirmed(h, p, numPrev, required, who, c, j);
    }
  }

  lemma CountStep(c: seq<nat>, numPrev: nat, num: nat, proposed: nat, c': seq<nat>, proposed': nat, k: nat)
    requires CountedDown(c, numPrev, num, proposed, c', proposed') && k < |c'| <= |c|
    ensures var low, j := |c| - Reach(c, numPrev), k + |c| - |c'|;
            c'[k] + (if j < low then 0 else 1) == c[j]
  {
    var low := |c| - Reach(c, numPrev);
    if exists i :: low <= i < |c| && c[i] == 1 {
      var i :| Hit(c, low, i) && |c'| == |c| - 1 - i && proposed' + |c'| == num &&
              (forall j :: 0 <= j < |c'| ==> c'[j] + 1 == c[j + i + 1]);
    }
  }

  // --------------------------------------------------------------- runs from genesis

  /** A block of a run: where it stands, how many blocks before it it confirms, and the
    * header it ends with. */
  datatype Block = Block(slot: nat, numPrev: nat, pending: Pending, adopted: Option<Schedule>)

  function HeaderOf(b: Block): Header {
    Adopted(b.pending, b.adopted)
  }

  function Tip(genesis: Header, bs: seq<Block>): Header {
    if bs == [] then genesis else HeaderOf(bs[|bs| - 1])
  }

  predicate First(h: Header) {
    HeaderOk(h) && Genesis(h) && h.confirm == [] && h.lastProduced == map[] && h.proposed == 0
  }

  ghost predicate FollowsOn(h: Header, b: Block) {
    HeaderOk(h) && NextOk(h, b.slot, b.numPrev, b.pending) && AdoptOk(h, b.pending, b.adopted)
  }

  /** A run of blocks from genesis. */
  ghost predicate Run(genesis: Header, bs: seq<Block>)
    decreases |bs|
  {
    if bs == [] then First(genesis)
    else Run(genesis, bs[..|bs| - 1]) && FollowsOn(Tip(genesis, bs[..|bs| - 1]), bs[|bs| - 1])
  }

  /** No block claims to confirm more blocks than there are. */
  predicate Modest(bs: seq<Block>) {
    forall i :: 0 <= i < |bs| ==> bs[i].numPrev <= HeaderOf(bs[i]).num < 0x1_0000_0000
  }

  /** The producers of blocks that claim to confirm block b. */
  function Backers(bs: seq<Block>, b: int): set<nat> {
    set i | 0 <= i < |bs| && HeaderOf(bs[i]).num - bs[i].numPrev <= b <= HeaderOf(bs[i]).num :: bs[i].pending.producer
  }

  /** What the schedule of its own time required of block b. */
  function RequiredOf(genesis: Header, bs: seq<Block>, b: int): nat {
    if genesis.num < b <= genesis.num + |bs| then Quorum(|Tip(genesis, bs[..b - genesis.num - 1]).active.producers|) else 0
  }

  lemma AdoptedOk(h: Header, b: Block)
    requires FollowsOn(h, b)
    ensures HeaderOk(HeaderOf(b)) && HeaderOf(b).num == h.num + 1 && h.proposed <= HeaderOf(b).proposed
    ensures HeaderOf(b).proposed == b.pending.header.proposed && HeaderOf(b).confirm == b.pending.header.confirm
  {
    StepKeeps(h, b.slot, b.numPrev, b.pending);
  }

  /** Every header on a run is in order, and blocks are numbered one by one. */
  lemma {:induction false} RunOk(genesis: Header, bs: seq<Block>)
    requires Run(genesis, bs)
    ensures HeaderOk(Tip(genesis, bs)) && Tip(genesis, bs).num == genesis.num + |bs|
    decreases |bs|
  {
    if bs != [] {
      RunOk(genesis, bs[..|bs| - 1]);
      AdoptedOk(Tip(genesis, bs[..|bs| - 1]), bs[|bs| - 1]);
    }
  }

  predicate Numbered(num: nat, bs: seq<Block>) {
    forall i :: 0 <= i < |bs| ==> HeaderOf(bs[i]).num == num + i + 1
  }

  lemma {:induction false} RunNumbered(genesis: Header, bs: seq<Block>)
    requires Run(genesis, bs)
    ensures Numbered(genesis.num, bs)
    decreases |bs|
  {
    if bs != [] {
      RunNumbered(genesis, bs[..|bs| - 1]);
      RunOk(genesis, bs);
      NumberedMore(genesis.num, bs);
    }
  }

  lemma NumberedMore(num: nat, bs: seq<Block>)
    requires bs != [] && Numbered(num, bs[..|bs| - 1]) && HeaderOf(bs[|bs| - 1]).num == num + |bs|
    ensures Numbered(num, bs)
  {
    forall i | 0 <= i < |bs| ensures HeaderOf(bs[i]).num == num + i + 1 {
      if i < |bs| - 1 {
        assert bs[i] == bs[..|bs| - 1][i];
      }
    }
  }

  /** The record fits the run: the confirmations recorded for a block are those claimed, and
    * what it needs is what its own time required. */
  ghost predicate Fits(genesis: Header, bs: seq<Block>, required: seq<nat>, who: seq<set<nat>>) {
    && |required| == |who|
    && forall k :: 0 <= k < |who| ==> FitsOne(genesis, bs, required[k], who[k], genesis.num + |bs| + 1 + k - |who|)
  }

  ghost predicate FitsOne(genesis: Header, bs: seq<Block>, required: nat, who: set<nat>, b: int) {
    genesis.num < b && who == Backers(bs, b) && required == RequiredOf(genesis, bs, b)
  }

  /** Every run has its record of confirmations, through all promotions. */
  lemma {:induction false} RunHistory(genesis: Header, bs: seq<Block>) returns (required: seq<nat>, who: seq<set<nat>>)
    requires Run(genesis, bs) && Modest(bs)
    ensures History(Tip(genesis, bs), required, who) && Fits(genesis, bs, required, who)
    decreases |bs|
  {
    if bs == [] {
      required, who := [], [];
    } else {
      var prev := bs[..|bs| - 1];
      required, who := RunHistory(genesis, prev);
      RunOk(genesis, prev);
      NoneYet(genesis, bs);
      required, who := RecordMore(genesis, bs, Tip(genesis, prev), required, who);
    }
  }

  lemma RecordMore(genesis: Header, bs: seq<Block>, h: Header, r: seq<nat>, w: seq<set<nat>>) returns (required: seq<nat>, who: seq<set<nat>>)
    requires bs != [] && Backers(bs[..|bs| - 1], h.num + 1) == {} && h == Tip(genesis, bs[..|bs| - 1]) && h.num == genesis.num + |bs| - 1
    requires var b := bs[|bs| - 1]; FollowsOn(h, b) && b.numPrev <= h.num + 1 < 0x1_0000_0000
    requires History(h, r, w) && Fits(genesis, bs[..|bs| - 1], r, w)
    ensures History(HeaderOf(bs[|bs| - 1]), required, who) && Fits(genesis, bs, required, who)
  {
    var needed, marked, len, k := NextRecord(h, bs[|bs| - 1], r, w);
    required, who := Newest(needed, k), Newest(marked, k);
    FitsNext(genesis, bs, h, r, w, needed, marked, len, k);
  }

  lemma NextRecord(h: Header, b: Block, r: seq<nat>, w: seq<set<nat>>) returns (needed: seq<nat>, marked: seq<set<nat>>, len: nat, k: nat)
    requires FollowsOn(h, b) && b.numPrev <= h.num + 1 < 0x1_0000_0000 && History(h, r, w)
    ensures needed == Tracked(r, Quorum(|h.active.producers|)) && |w| == |h.confirm| && len == |Started(w)| && HeaderOf(b).num == h.num + 1
    ensures marked == Marked(Started(w), len - (if b.numPrev + 1 < len then b.numPrev + 1 else len), b.pending.producer)
    ensures k <= |marked| && k <= |needed| && History(HeaderOf(b), Newest(needed, k), Newest(marked, k))
  {
    var n, c := b.pending, Tracked(h.confirm, Quorum(|h.active.producers|));
    needed, marked := Tracked(r, Quorum(|h.active.producers|)), Marked(Started(w), |c| - Reach(c, b.numPrev), n.producer);
    HistoryGoesOn(h, b.slot, b.numPrev, n, b.adopted, r, w, c, needed, marked);
    len, k := |c|, |n.header.confirm|;
  }

  lemma FitsNext(genesis: Header, bs: seq<Block>, h: Header, r: seq<nat>, w: seq<set<nat>>, needed: seq<nat>, marked: seq<set<nat>>, len: nat, k: nat)
    requires bs != [] && Backers(bs[..|bs| - 1], h.num + 1) == {} && h == Tip(genesis, bs[..|bs| - 1]) && h.num == genesis.num + |bs| - 1 && HeaderOf(bs[|bs| - 1]).num == h.num + 1
    requires Fits(genesis, bs[..|bs| - 1], r, w) && |w| == |h.confirm| && len == |Started(w)|
    requires needed == Tracked(r, Quorum(|h.active.producers|))
    requires var b := bs[|bs| - 1];
             marked == Marked(Started(w), len - (if b.numPrev + 1 < len then b.numPrev + 1 else len), b.pending.producer)
    requires k <= |marked|
    ensures Fits(genesis, bs, Newest(needed, k), Newest(marked, k))
  {
    FitsMore(genesis, bs, h, r, w, needed, marked, len);
    FitsNewest(genesis, bs, needed, marked, k);
  }

  lemma FitsNewest(genesis: Header, bs: seq<Block>, needed: seq<nat>, marked: seq<set<nat>>, k: nat)
    requires Fits(genesis, bs, needed, marked) && k <= |marked|
    ensures Fits(genesis, bs, Newest(needed, k), Newest(marked, k))
  {
    var d := |marked| - k;
    forall j | 0 <= j < k
      ensures FitsOne(genesis, bs, Newest(needed, k)[j], Newest(marked, k)[j], genesis.num + |bs| + 1 + j - k)
    {
      assert Newest(marked, k)[j] == marked[j + d] && Newest(needed, k)[j] == needed[j + d];
      assert FitsOne(genesis, bs, needed[j + d], marked[j + d], genesis.num + |bs| + 1 + (j + d) - |marked|);
    }
  }

  /** The record before this block, with the block itself at its end and its producer
    * added where it confirms. */
  lemma FitsMore(genesis: Header, bs: seq<Block>, h: Header, r: seq<nat>, w: seq<set<nat>>, needed: seq<nat>, marked: seq<set<nat>>, len: nat)
    requires bs != [] && Backers(bs[..|bs| - 1], h.num + 1) == {} && h == Tip(genesis, bs[..|bs| - 1]) && h.num == genesis.num + |bs| - 1 && HeaderOf(bs[|bs| - 1]).num == h.num + 1
    requires Fits(genesis, bs[..|bs| - 1], r, w) && |w| == |h.confirm| && len == |Started(w)|
    requires needed == Tracked(r, Quorum(|h.active.producers|))
    requires var b := bs[|bs| - 1];
             marked == Marked(Started(w), len - (if b.numPrev + 1 < len then b.numPrev + 1 else len), b.pending.producer)
    ensures Fits(genesis, bs, needed, marked)
  {
    forall k | 0 <= k < |marked|
      ensures FitsOne(genesis, bs, needed[k], marked[k], genesis.num + |bs| + 1 + k - |marked|)
    {
      FitsAt(genesis, bs, h, r, w, needed, marked, len, k);
    }
  }

  lemma FitsAt(genesis: Header, bs: seq<Block>, h: Header, r: seq<nat>, w: seq<set<nat>>, needed: seq<nat>, marked: seq<set<nat>>, len: nat, k: nat)
    requires bs != [] && Backers(bs[..|bs| - 1], h.num + 1) == {} && h == Tip(genesis, bs[..|bs| - 1]) && h.num == genesis.num + |bs| - 1 && HeaderOf(bs[|bs| - 1]).num == h.num + 1
    requires Fits(genesis, bs[..|bs| - 1], r, w) && |w| == |h.confirm| && len == |Started(w)| && k < len
    requires needed == Tracked(r, Quorum(|h.active.producers|))
    requires var b := bs[|bs| - 1];
             marked == Marked(Started(w), len - (if b.numPrev + 1 < len then b.numPrev + 1 else len), b.pending.producer)
    ensures FitsOne(genesis, bs, needed[k], marked[k], genesis.num + |bs| + 1 + k - len)
  {
    var at := genesis.num + |bs| + 1 + k - len;
    BackersStep(bs, at);
    if k < len - 1 {
      EarlierFits(genesis, bs, r, w, needed, k, if |w| < MAX_TRACKED then k else k + 1, at);
    }
  }

  lemma EarlierFits(genesis: Header, bs: seq<Block>, r: seq<nat>, w: seq<set<nat>>, needed: seq<nat>, k: nat, j: nat, at: int)
    requires bs != [] && Fits(genesis, bs[..|bs| - 1], r, w) && j < |w| && at == genesis.num + |bs| + j - |w|
    requires k < |Started(w)| && k < |needed| && Started(w)[k] == w[j] && needed[k] == r[j]
    ensures genesis.num < at && Started(w)[k] == Backers(bs[..|bs| - 1], at) && needed[k] == RequiredOf(genesis, bs, at)
  {
    var prev := bs[..|bs| - 1];
    assert FitsOne(genesis, prev, r[j], w[j], at);
    assert prev[..at - genesis.num - 1] == bs[..at - genesis.num - 1];
  }

  /** One block adds its producer to the backers of the blocks it claims. */
  lemma BackersStep(bs: seq<Block>, b: int)
    requires bs != []
    ensures var last := bs[|bs| - 1];
            Backers(bs, b) == Backers(bs[..|bs| - 1], b) + if HeaderOf(last).num - last.numPrev <= b <= HeaderOf(last).num then {last.pending.producer} else {}
  {
    BackersGrow(bs, b);
    var prev, last := bs[..|bs| - 1], bs[|bs| - 1];
    forall q | q in Backers(bs, b)
      ensures q in Backers(prev, b) || (HeaderOf(last).num - last.numPrev <= b <= HeaderOf(last).num && q == last.pending.producer)
    {
      var i :| 0 <= i < |bs| && HeaderOf(bs[i]).num - bs[i].numPrev <= b <= HeaderOf(bs[i]).num && bs[i].pending.producer == q;
      if i < |bs| - 1 {
        assert prev[i] == bs[i];
      }
    }
  }

  lemma NoneYet(genesis: Header, bs: seq<Block>)
    requires Run(genesis, bs) && bs != []
    ensures Backers(bs[..|bs| - 1], Tip(genesis, bs[..|bs| - 1]).num + 1) == {}
  {
    RunOk(genesis, bs[..|bs| - 1]);
    RunNumbered(genesis, bs[..|bs| - 1]);
  }

  lemma BackersGrow(bs: seq<Block>, b: int)
    requires bs != []
    ensures Backers(bs[..|bs| - 1], b) <= Backers(bs, b)
  {
    var prev := bs[..|bs| - 1];
    forall q | q in Backers(prev, b) ensures q in Backers(bs, b) {
      var i :| 0 <= i < |prev| && HeaderOf(prev[i]).num - prev[i].numPrev <= b <= HeaderOf(prev[i]).num && prev[i].pending.producer == q;
      assert bs[i] == prev[i];
    }
  }

  /** On every run from genesis on which no block claims to confirm more blocks than there
    * are: when a block becomes proposed irreversible, at least as many different producers
    * have produced blocks that confirm it as the schedule of its own time required. */
  lemma IrreversibleByQuorum(genesis: Header, bs: seq<Block>)
    requires Run(genesis, bs) && Modest(bs) && bs != []
    requires Tip(genesis, bs).proposed > Tip(genesis, bs[..|bs| - 1]).proposed
    ensures var b := Tip(genesis, bs).proposed;
            && genesis.num < b <= genesis.num + |bs|
            && |Backers(bs, b)| >= RequiredOf(genesis, bs, b) > 0
  {
    var h, r, w := RecordSoFar(genesis, bs, bs[..|bs| - 1]);
    QuorumAt(genesis, bs, h, r, w);
  }

  lemma ModestBefore(bs: seq<Block>)
    requires Modest(bs) && bs != []
    ensures Modest(bs[..|bs| - 1])
  {
    assert forall i :: 0 <= i < |bs| - 1 ==> bs[..|bs| - 1][i] == bs[i];
  }

  /** The record before the last block. */
  lemma RecordSoFar(genesis: Header, bs: seq<Block>, prev: seq<Block>) returns (h: Header, r: seq<nat>, w: seq<set<nat>>)
    requires Run(genesis, bs) && Modest(bs) && bs != [] && prev == bs[..|bs| - 1]
    ensures h == Tip(genesis, prev) && Backers(prev, h.num + 1) == {} && h.num == genesis.num + |prev|
    ensures var b := bs[|bs| - 1]; FollowsOn(h, b) && b.numPrev <= h.num + 1 < 0x1_0000_0000
    ensures History(h, r, w) && Fits(genesis, prev, r, w)
  {
    h := Tip(genesis, prev);
    ModestBefore(bs);
    RunOk(genesis, prev);
    NoneYet(genesis, bs);
    AdoptedOk(h, bs[|bs| - 1]);
    r, w := RunHistory(genesis, prev);
  }

  lemma QuorumAt(genesis: Header, bs: seq<Block>, h: Header, r: seq<nat>, w: seq<set<nat>>)
    requires bs != [] && Backers(bs[..|bs| - 1], h.num + 1) == {} && h == Tip(genesis, bs[..|bs| - 1]) && h.num == genesis.num + |bs| - 1
    requires var b := bs[|bs| - 1]; FollowsOn(h, b) && b.numPrev <= h.num + 1 < 0x1_0000_0000 && HeaderOf(b).proposed > h.proposed
    requires History(h, r, w) && Fits(genesis, bs[..|bs| - 1], r, w)
    ensures var b := HeaderOf(bs[|bs| - 1]).proposed;
            genesis.num < b <= genesis.num + |bs| && |Backers(bs, b)| >= RequiredOf(genesis, bs, b) > 0
  {
    var b := bs[|bs| - 1];
    var n, c := b.pending, Tracked(h.confirm, Quorum(|h.active.producers|));
    var needed, marked := Tracked(r, Quorum(|h.active.producers|)), Marked(Started(w), |c| - Reach(c, b.numPrev), n.producer);
    var i := ConfirmedByQuorum(h, b.slot, b.numPrev, n, r, w, c, needed, marked);
    FitsMore(genesis, bs, h, r, w, needed, marked, |c|);
    FitsQuorum(genesis, bs, needed, marked, i, n.header.proposed);
  }

  lemma FitsQuorum(genesis: Header, bs: seq<Block>, needed: seq<nat>, marked: seq<set<nat>>, i: nat, b: nat)
    requires Fits(genesis, bs, needed, marked) && i < |marked| && b + |marked| == genesis.num + |bs| + 1 + i && |marked[i]| == needed[i]
    ensures genesis.num < b <= genesis.num + |bs| && |Backers(bs, b)| >= RequiredOf(genesis, bs, b) > 0
  {
    assert FitsOne(genesis, bs, needed[i], marked[i], b);
    SubsetSize(marked[i], Backers(bs, b));
  }
}
