/** Switching the applied chain to a better fork, and back again when a block of
  * the new fork does not apply. */
module ForkSwitch {
  import opened ForkTree
  import opened ForkDb
  import TrxQueue

  // ------------------------------------------------------------ chains of blocks

  function Reversed(s: seq<Block>): seq<Block> {
    if s == [] then [] else Reversed(s[1..]) + [s[0]]
  }

  /** Whether a block applies on top of the blocks below it, oldest first. */
  type Applies = (seq<Block>, Block) -> bool

  /** Every block of the chain down to the root applies on the ones below it. */
  predicate Good(index: map<Id, Block>, applies: Applies, id: Id)
    decreases id.num
  {
    id in index && index[id].previous.num < id.num ==>
      Good(index, applies, index[id].previous) && applies(Reversed(Chain(index, index[id].previous)), index[id])
  }

  predicate AllGood(index: map<Id, Block>, validated: set<Id>, applies: Applies) {
    forall id :: id in validated ==>
      id in index && Good(index, applies, id) && (index[id].previous in index ==> index[id].previous in validated)
  }

  lemma {:induction false} GoodBelow(index: map<Id, Block>, applies: Applies, a: Id, id: Id)
    requires Descends(index, a, id) && Good(index, applies, id)
    ensures Good(index, applies, a)
    decreases id.num
  {
    if id != a {
      GoodBelow(index, applies, a, index[id].previous);
    }
  }

  lemma {:induction false} KeptChain(index: map<Id, Block>, b: Id, applies: Applies, id: Id)
    requires !Descends(index, b, id)
    ensures Chain(WithoutFork(index, b), id) == Chain(index, id)
    ensures Good(WithoutFork(index, b), applies, id) == Good(index, applies, id)
    decreases id.num
  {
    if id in index && index[id].previous.num < id.num {
      KeptChain(index, b, applies, index[id].previous);
    }
  }

  /** Removing a block that does not apply takes no validated block away. */
  lemma RemoveBad(index: map<Id, Block>, validated: set<Id>, applies: Applies, b: Id)
    requires AllGood(index, validated, applies) && !Good(index, applies, b)
    ensures validated * WithoutFork(index, b).Keys == validated
    ensures AllGood(WithoutFork(index, b), validated, applies)
  {
    forall id | id in validated ensures !Descends(index, b, id) {
      if Descends(index, b, id) {
        GoodBelow(index, applies, b, id);
      }
    }
    forall id | id in validated ensures Good(WithoutFork(index, b), applies, id) {
      KeptChain(index, b, applies, id);
    }
  }

  // ----------------------------------------------------------------- paths

  /** `s` leads from `top` down to `bottom`, newest first, without `bottom` itself. */
  predicate Path(index: map<Id, Block>, top: Id, s: seq<Block>, bottom: Id)
    decreases |s|
  {
    if s == [] then top == bottom
    else top in index && s[0] == index[top] && Path(index, index[top].previous, s[1..], bottom)
  }

  lemma {:induction false} PathLast(index: map<Id, Block>, root: Id, top: Id, s: seq<Block>, bottom: Id)
    requires Tree(index, root) && Path(index, top, s, bottom) && s != []
    ensures var b := s[|s| - 1];
            && b.id in index && index[b.id] == b && b.previous == bottom
            && Path(index, top, s[..|s| - 1], b.id)
    decreases |s|
  {
    if |s| > 1 {
      PathLast(index, root, index[top].previous, s[1..], bottom);
      assert s[..|s| - 1][1..] == s[1..][..|s| - 2];
    }
  }

  lemma {:induction false} PathDescends(index: map<Id, Block>, root: Id, top: Id, s: seq<Block>, bottom: Id)
    requires Tree(index, root) && Path(index, top, s, bottom)
    ensures Descends(index, bottom, top)
    decreases |s|
  {
    if s != [] {
      PathDescends(index, root, index[top].previous, s[1..], bottom);
    }
  }

  lemma {:induction false} KeptPath(index: map<Id, Block>, b: Id, root: Id, top: Id, s: seq<Block>, bottom: Id)
    requires Tree(index, root) && Path(index, top, s, bottom) && !Descends(index, b, top)
    ensures Path(WithoutFork(index, b), top, s, bottom)
    decreases |s|
  {
    if s != [] {
      KeptPath(index, b, root, index[top].previous, s[1..], bottom);
    }
  }

  lemma {:induction false} ChainPath(index: map<Id, Block>, root: Id, id: Id, k: nat) returns (p: Id)
    requires Tree(index, root) && Known(index, root, id) && k <= |Chain(index, id)|
    ensures Path(index, id, Chain(index, id)[..k], p)
    ensures Known(index, root, p) && Chain(index, p) == Chain(index, id)[k..]
    decreases k
  {
    p := id;
    if k > 0 {
      p := ChainPath(index, root, index[id].previous, k - 1);
      assert Chain(index, id)[..k][1..] == Chain(index, index[id].previous)[..k - 1];
    }
  }

  /** The block where two branches meet. */
  lemma MeetingPoint(index: map<Id, Block>, root: Id, first: Id, second: Id, f: seq<Block>, s: seq<Block>) returns (p: Id)
    requires Tree(index, root) && Known(index, root, first) && Known(index, root, second)
    requires Branches(index, first, second, f, s)
    ensures Path(index, first, f, p) && Path(index, second, s, p)
  {
    p := ChainPath(index, root, first, |f|);
    var q := ChainPath(index, root, second, |s|);
    if p in index {
      assert Chain(index, p)[0].id == p;
    }
    if q in index {
      assert Chain(index, q)[0].id == q;
    }
  }

  /** One block further up a path. */
  lemma NextUp(index: map<Id, Block>, root: Id, applies: Applies, top: Id, f: seq<Block>, left: nat, at: Id, bottom: Id)
    requires Tree(index, root) && 0 < left <= |f|
    requires Path(index, top, f[..left], at) && Path(index, at, f[left..], bottom)
    ensures var b := f[left - 1];
            && b.id in index && index[b.id] == b && b.previous == at && Descends(index, b.id, top)
            && Path(index, top, f[..left - 1], b.id) && Path(index, b.id, f[left - 1..], bottom)
            && (Good(index, applies, top) ==> Good(index, applies, b.id))
  {
    var b := f[left - 1];
    PathLast(index, root, top, f[..left], at);
    assert f[..left][..left - 1] == f[..left - 1];
    PathDescends(index, root, top, f[..left - 1], b.id);
    assert f[left - 1..][1..] == f[left..];
    if Good(index, applies, top) {
      GoodBelow(index, applies, b.id, top);
    }
  }

  /** One block on top of a chain. */
  lemma OneMore(index: map<Id, Block>, root: Id, applies: Applies, b: Block)
    requires Tree(index, root) && b.id in index && index[b.id] == b
    ensures Reversed(Chain(index, b.id)) == Reversed(Chain(index, b.previous)) + [b]
    ensures Good(index, applies, b.id) <==> Good(index, applies, b.previous) && applies(Reversed(Chain(index, b.previous)), b)
  {
    assert Numbered(index[b.id]);
    assert Chain(index, b.id) == [b] + Chain(index, b.previous);
    assert Chain(index, b.id)[1..] == Chain(index, b.previous);
  }

  lemma AllGoodMore(index: map<Id, Block>, validated: set<Id>, applies: Applies, b: Block)
    requires AllGood(index, validated, applies) && b.id in index && index[b.id] == b && Good(index, applies, b.id)
    requires b.previous in index ==> b.previous in validated
    ensures AllGood(index, validated + {b.id}, applies)
  {
  }

  // --------------------------------------------------------------- the controller

  datatype Outcome = NoChange | Switched | BlockFailed(block: Id) | Undefined

  class Controller {
    const db: ForkDatabase
    const applies: Applies
    var head: Id
    var applied: seq<Block>

    ghost predicate Valid()
      reads this, db
    {
      && db.Valid() && AllGood(db.index, db.validated, applies)
      && (head == db.root.id || head in db.validated)
      && applied == Reversed(Chain(db.index, head))
    }

    constructor (root: Block, applies: Applies)
      ensures Valid() && head == root.id && applied == [] && this.applies == applies && db.root == root
      ensures fresh(db) && db.index == map[] && db.validated == {}
    {
      this.applies := applies;
      db := new ForkDatabase(root);
      head := root.id;
      applied := [];
    }

    method ApplyBlock(b: Block) returns (ok: bool)
      requires Valid() && b.id in db.index && db.index[b.id] == b && b.previous == head
      modifies this, db
      ensures Valid() && db.index == old(db.index) && db.root == old(db.root)
      ensures ok <==> Good(db.index, applies, b.id)
      ensures ok ==> head == b.id && db.validated == old(db.validated) + {b.id}
      ensures !ok ==> head == old(head) && applied == old(applied) && db.validated == old(db.validated)
    {
      GoodHead();
      OneMore(db.index, db.root.id, applies, b);
      ok := applies(applied, b);
      if ok {
        AllGoodMore(db.index, db.validated, applies, b);
        applied := applied + [b];
        var _ := db.MarkValid(b, b.id in db.validated);
        head := b.id;
      }
    }

    lemma GoodHead()
      requires Valid()
      ensures Good(db.index, applies, head)
    {
    }

    method PopBlock()
      requires Valid() && head in db.index
      modifies this
      ensures Valid() && head == db.index[old(head)].previous
    {
      var below := db.index[head].previous;
      assert Chain(db.index, head)[1..] == Chain(db.index, below);
      assert applied[..|applied| - 1] == Reversed(Chain(db.index, below));
      applied := applied[..|applied| - 1];
      head := below;
    }

    method PopAll(s: seq<Block>, ghost p: Id)
      requires Valid() && Path(db.index, head, s, p)
      modifies this
      ensures Valid() && head == p
    {
      var i := 0;
      while i < |s|
        invariant 0 <= i <= |s| && Valid() && Path(db.index, head, s[i..], p)
      {
        assert s[i..][1..] == s[i + 1..];
        PopBlock();
        i := i + 1;
      }
      assert s[i..] == [];
    }

    /** Applies a branch, oldest block first; `left` blocks remain when one fails. */
    method ApplyAll(f: seq<Block>, ghost top: Id) returns (left: nat)
      requires Valid() && Path(db.index, top, f, head)
      modifies this, db
      ensures Valid() && db.index == old(db.index) && db.root == old(db.root) && old(db.validated) <= db.validated
      ensures left == 0 <==> Good(db.index, applies, top)
      ensures left <= |f| && Path(db.index, top, f[..left], head) && Path(db.index, head, f[left..], old(head))
      ensures left > 0 ==> !Good(db.index, applies, f[left - 1].id)
    {
      left := |f|;
      ghost var index, bottom := db.index, head;
      assert f[..left] == f && f[left..] == [];
      while left > 0
        invariant 0 <= left <= |f| && Valid() && db.index == index && db.root == old(db.root)
        invariant old(db.validated) <= db.validated
        invariant Path(index, top, f[..left], head) && Path(index, head, f[left..], bottom)
        decreases left
      {
        var ok := ApplyNext(f, left, top, bottom);
        if !ok {
          assert left > 0 && !Good(db.index, applies, f[left - 1].id);
          return;
        }
        left := left - 1;
      }
      assert left == 0 && f[..left] == [];
      GoodHead();
    }

    /** Applies the next block of a branch. */
    method ApplyNext(f: seq<Block>, left: nat, ghost top: Id, ghost bottom: Id) returns (ok: bool)
      requires Valid() && 0 < left <= |f| && Path(db.index, top, f[..left], head) && Path(db.index, head, f[left..], bottom)
      modifies this, db
      ensures Valid() && db.index == old(db.index) && db.root == old(db.root) && old(db.validated) <= db.validated
      ensures ok ==> Path(db.index, top, f[..left - 1], head) && Path(db.index, head, f[left - 1..], bottom)
      ensures !ok ==> head == old(head) && !Good(db.index, applies, f[left - 1].id) && !Good(db.index, applies, top)
    {
      NextUp(db.index, db.root.id, applies, top, f, left, head, bottom);
      ok := ApplyBlock(f[left - 1]);
    }

    /** Takes a block that does not apply, and all built on it, out of the database. */
    method RemoveBadFork(b: Id)
      requires Valid() && b in db.index && !Good(db.index, applies, b)
      modifies db
      ensures Valid() && db.index == WithoutFork(old(db.index), b)
      ensures db.validated == old(db.validated) && db.root == old(db.root)
    {
      NotBuiltOnBad(db.index, db.validated, db.root.id, applies, b, db.head.id);
      NotBuiltOnBad(db.index, db.validated, db.root.id, applies, b, head);
      RemoveBad(db.index, db.validated, applies, b);
      KeptChain(db.index, b, applies, head);
      var _ := db.RemoveFork(b, {db.root.id});
    }

    /** Applies the new head, switching branches where needed. The returned branch,
      * newest block first, is the one whose transactions are handed back. Nothing is
      * promised of the state where the outcome is not defined. */
    method MaybeSwitchForks(newHead: Block) returns (r: Outcome, abandoned: seq<Block>)
      requires Valid() && IsBlock(db.index, db.root, newHead) && Numbered(newHead)
      modifies this, db
      ensures !r.Undefined? ==> Valid() && db.root == old(db.root)
      ensures r.NoChange? <==> newHead.id == old(head)
      ensures r.NoChange? ==> head == old(head) && db.index == old(db.index) && db.validated == old(db.validated)
      ensures r.Switched? <==> newHead.id != old(head) && Good(old(db.index), applies, newHead.id)
      ensures r.Switched? ==> head == newHead.id && db.index == old(db.index)
      ensures r.BlockFailed? ==>
                && head == old(head) && applied == old(applied)
                && FirstBad(old(db.index), applies, newHead.id, r.block)
                && db.index == WithoutFork(old(db.index), r.block)
      ensures r.Undefined? <==> newHead.id != old(head) && newHead.previous != old(head) &&
                                Descends(old(db.index), old(head), newHead.id) && !Good(old(db.index), applies, newHead.id)
      ensures exists f :: Branches(old(db.index), newHead.id, old(head), f, abandoned)
    {
      if newHead.previous == head {
        NotTheRoot(db.index, db.root, newHead, head);
        OneAhead(db.index, db.root.id, newHead, head);
        abandoned := [];
        var ok := ApplyBlock(newHead);
        if ok {
          r := Switched;
        } else {
          NotBuiltOnBad(db.index, db.validated, db.root.id, applies, newHead.id, head);
          KeptChain(db.index, newHead.id, applies, head);
          RemoveBadFork(newHead.id);
          r := BlockFailed(newHead.id);
        }
      } else {
        var branches := db.FetchBranchFrom(newHead.id, head);
        abandoned := branches.value.1;
        r := NoChange;
        if newHead.id != head {
          EmptyBranch(db.index, db.root.id, newHead.id, head, branches.value.0, abandoned);
          r := Switch(newHead.id, branches.value.0, abandoned);
        }
      }
    }

    /** Switches between two branches. When a block of the new one does not apply, the
      * old branch is put back, but the place where it starts is taken from its last
      * block, and there may be none. */
    method Switch(newHead: Id, first: seq<Block>, second: seq<Block>) returns (r: Outcome)
      requires Valid() && Known(db.index, db.root.id, newHead) && newHead != head && Branches(db.index, newHead, head, first, second)
      modifies this, db
      ensures !r.Undefined? ==> Valid() && db.root == old(db.root)
      ensures r.Switched? <==> Good(old(db.index), applies, newHead)
      ensures r.Switched? ==> head == newHead && db.index == old(db.index)
      ensures r.BlockFailed? ==>
                && head == old(head) && applied == old(applied)
                && FirstBad(old(db.index), applies, newHead, r.block)
                && db.index == WithoutFork(old(db.index), r.block)
      ensures r.Undefined? <==> second == [] && !Good(old(db.index), applies, newHead)
      ensures !r.NoChange?
    {
      ghost var oldHead := head;
      ghost var p := MeetingPoint(db.index, db.root.id, newHead, head, first, second);
      PopAll(second, p);
      var left := ApplyAll(first, newHead);
      if left == 0 {
        assert first[..left] == [];
        return Switched;
      }
      if second == [] {
        return Undefined;
      }
      var bad := first[left - 1].id;
      GoodHead();
      NextUp(db.index, db.root.id, applies, newHead, first, left, head, p);
      SwitchBack(bad, first[left..], second, p, oldHead);
      r := BlockFailed(bad);
    }

    /** A block from outside: it is added, and the best block there is now becomes the
      * head if its chain applies. `p` is that block. */
    method PushBlock(n: Block) returns (r: Result<Outcome>, abandoned: seq<Block>, ghost p: Block)
      requires Valid() && Numbered(db.root) && Numbered(n)
      modifies this, db
      ensures r.Err? <==> !Known(old(db.index), old(db.root).id, n.previous) || n.id in old(db.index)
      ensures r.Err? ==> Valid() && head == old(head) && applied == old(applied) && db.index == old(db.index) && db.validated == old(db.validated)
      ensures r == Ok(Undefined) || (Valid() && db.root == old(db.root))
      ensures r.Ok? ==>
                var index := old(db.index)[n.id := n];
                && IsPendingHead(index, old(db.validated), old(db.root), p)
                && (r.value.NoChange? <==> p.id == old(head))
                && (r.value.NoChange? ==> head == old(head) && db.index == index && db.validated == old(db.validated))
                && (r.value.Switched? <==> p.id != old(head) && Good(index, applies, p.id))
                && (r.value.Switched? ==> head == p.id && db.index == index)
                && (r.value.BlockFailed? ==>
                      && head == old(head) && applied == old(applied)
                      && FirstBad(index, applies, p.id, r.value.block) && db.index == WithoutFork(index, r.value.block))
                && (r.value.Undefined? <==>
                      && p.id != old(head) && p.previous != old(head)
                      && Descends(index, old(head), p.id) && !Good(index, applies, p.id))
    {
      abandoned := [];
      p := n;
      var added := AddBlock(n);
      if added.Err? {
        return Err(added.error), [], n;
      }
      var pending := PendingHead();
      p := pending;
      var outcome;
      outcome, abandoned := MaybeSwitchForks(pending);
      r := Ok(outcome);
    }

    method AddToTree(n: Block) returns (r: Result<()>)
      requires db.Valid() && Numbered(n)
      modifies db
      ensures db.Valid() && db.root == old(db.root) && db.validated == old(db.validated)
      ensures r.Err? <==> !Known(old(db.index), db.root.id, n.previous) || n.id in old(db.index)
      ensures db.index == if r.Err? then old(db.index) else old(db.index)[n.id := n]
      ensures r.Ok? ==> HeadIsBest()
    {
      r := db.Add(n, false, false);
    }

    /** Adds a block without applying any. */
    method AddBlock(n: Block) returns (r: Result<()>)
      requires Valid() && Numbered(n)
      modifies db
      ensures Valid() && db.root == old(db.root) && db.validated == old(db.validated)
      ensures r.Err? <==> !Known(old(db.index), db.root.id, n.previous) || n.id in old(db.index)
      ensures db.index == if r.Err? then old(db.index) else old(db.index)[n.id := n]
      ensures r.Ok? ==> HeadIsBest()
    {
      r := AddToTree(n);
      if r.Err? {
        return;
      }
      StillGood(old(db.index), db.index, db.validated, db.root.id, applies, n, head);
    }

    /** The head of the database is the first of the validated blocks. */
    ghost predicate HeadIsBest()
      reads this, db
    {
      if db.validated == {} then db.head == db.root else IsFirst(db.index, db.validated, db.index.Keys, db.head)
    }

    /** The best block there is. */
    method PendingHead() returns (p: Block)
      requires Valid() && HeadIsBest()
      ensures IsBlock(db.index, db.root, p) && IsPendingHead(db.index, db.validated, db.root, p)
    {
      p := db.PendingHead();
      assert IsPendingOver(db.index, db.validated, db.root, db.head, p);
    }

    /** Drops the bad block, pops what was applied of its branch and applies the old
      * branch again. */
    method SwitchBack(bad: Id, partial: seq<Block>, second: seq<Block>, ghost p: Id, ghost oldHead: Id)
      requires Valid() && bad in db.index && !Good(db.index, applies, bad)
      requires Path(db.index, head, partial, p) && Path(db.index, oldHead, second, p)
      requires oldHead == db.root.id || oldHead in db.validated
      modifies this, db
      ensures Valid() && db.root == old(db.root) && db.index == WithoutFork(old(db.index), bad)
      ensures head == oldHead && applied == Reversed(Chain(old(db.index), oldHead))
    {
      NotBuiltOnBad(db.index, db.validated, db.root.id, applies, bad, oldHead);
      NotBuiltOnBad(db.index, db.validated, db.root.id, applies, bad, head);
      KeptPath(db.index, bad, db.root.id, head, partial, p);
      KeptPath(db.index, bad, db.root.id, oldHead, second, p);
      KeptChain(db.index, bad, applies, oldHead);
      RemoveBadFork(bad);
      PopAll(partial, p);
      var left := ApplyAll(second, oldHead);
      assert second[..left] == [];
    }
  }

  /** The lowest block of the chain that does not apply. */
  predicate FirstBad(index: map<Id, Block>, applies: Applies, top: Id, b: Id) {
    b in index && Descends(index, b, top) && !Good(index, applies, b) && Good(index, applies, index[b].previous)
  }

  lemma NotBuiltOnBad(index: map<Id, Block>, validated: set<Id>, root: Id, applies: Applies, b: Id, id: Id)
    requires Tree(index, root) && AllGood(index, validated, applies) && b in index && !Good(index, applies, b)
    requires id == root || id in validated
    ensures !Descends(index, b, id)
  {
    if id != root && Descends(index, b, id) {
      GoodBelow(index, applies, b, id);
    }
  }

  /** A block of the tree, or its root. */
  predicate IsBlock(index: map<Id, Block>, root: Block, b: Block) {
    b == root || (b.id in index && index[b.id] == b)
  }

  lemma NotTheRoot(index: map<Id, Block>, root: Block, b: Block, head: Id)
    requires Tree(index, root.id) && Numbered(b) && IsBlock(index, root, b) && Known(index, root.id, head) && b.previous == head
    ensures b.id in index && index[b.id] == b
  {
    if head in index {
      AboveRoot(index, root.id, head);
    }
  }

  /** The best of the blocks: the first of those not validated, if it is preferred to the
    * first of the validated ones, or to the root where there are none. */
  ghost predicate IsPendingHead(index: map<Id, Block>, validated: set<Id>, root: Block, p: Block) {
    exists h :: IsPendingOver(index, validated, root, h, p)
  }

  ghost predicate IsPendingOver(index: map<Id, Block>, validated: set<Id>, root: Block, h: Block, p: Block) {
    && (if validated == {} then h == root else IsFirst(index, validated, index.Keys, h))
    && (p == h || (IsFirst(index, validated, index.Keys - validated, p) && FirstPreferred(p, h)))
    && NoneHigher(index, index.Keys, p)
  }

  /** A new block changes no chain that was there. */
  lemma StillGood(index: map<Id, Block>, after: map<Id, Block>, validated: set<Id>, root: Id, applies: Applies, n: Block, head: Id)
    requires Tree(index, root) && AllGood(index, validated, applies) && n.id !in index && Known(index, root, head)
    requires Numbered(n) && n.id != root && after == index[n.id := n]
    ensures AllGood(after, validated, applies) && Chain(after, head) == Chain(index, head)
  {
    SameChain(index, root, applies, n, head);
    forall id | id in validated ensures Good(index[n.id := n], applies, id) {
      SameChain(index, root, applies, n, id);
    }
  }

  lemma {:induction false} SameChain(index: map<Id, Block>, root: Id, applies: Applies, n: Block, id: Id)
    requires Tree(index, root) && n.id !in index && Known(index, root, id) && n.id != root
    ensures Chain(index[n.id := n], id) == Chain(index, id)
    ensures Good(index[n.id := n], applies, id) == Good(index, applies, id)
    decreases id.num
  {
    if id in index {
      SameChain(index, root, applies, n, index[id].previous);
    }
  }

  lemma OneAhead(index: map<Id, Block>, root: Id, b: Block, head: Id)
    requires Tree(index, root) && b.id in index && index[b.id] == b && b.previous == head
    ensures Branches(index, b.id, head, [b], [])
  {
  }

  // ------------------------------------------------------- handing transactions back

  function BlockTrxs(s: seq<Block>): seq<seq<TrxQueue.Trx>> {
    seq(|s|, i requires 0 <= i < |s| => s[i].trxs)
  }

  /** The transactions of blocks given oldest first. */
  function Flatten(blocks: seq<Block>): seq<TrxQueue.Trx> {
    if blocks == [] then [] else blocks[0].trxs + Flatten(blocks[1..])
  }

  lemma {:induction false} FlattenSnoc(blocks: seq<Block>, b: Block)
    ensures Flatten(blocks + [b]) == Flatten(blocks) + b.trxs
  {
    if blocks == [] {
      assert [b][1..] == [];
    } else {
      assert (blocks + [b])[1..] == blocks[1..] + [b];
      FlattenSnoc(blocks[1..], b);
    }
  }

  lemma {:induction false} AppliedIsFlat(s: seq<Block>)
    ensures TrxQueue.Applied(BlockTrxs(s)) == Flatten(Reversed(s))
  {
    if s != [] {
      assert BlockTrxs(s)[1..] == BlockTrxs(s[1..]);
      AppliedIsFlat(s[1..]);
      FlattenSnoc(Reversed(s[1..]), s[0]);
    }
  }

  lemma {:induction false} ReversedAppend(s: seq<Block>, t: seq<Block>)
    ensures |Reversed(s)| == |s| && Reversed(s + t) == Reversed(t) + Reversed(s)
  {
    if s == [] {
      assert s + t == t;
    } else {
      assert (s + t)[1..] == s[1..] + t;
      ReversedAppend(s[1..], t);
    }
  }

  /** The abandoned branch is the end of the chain that had been applied. */
  lemma AbandonedIsTail(index: map<Id, Block>, newHead: Id, oldHead: Id, f: seq<Block>, s: seq<Block>)
    requires Branches(index, newHead, oldHead, f, s)
    ensures var applied := Reversed(Chain(index, oldHead));
            |s| <= |applied| && Reversed(s) == applied[|applied| - |s|..]
  {
    var c := Chain(index, oldHead);
    assert c == s + c[|s|..];
    ReversedAppend(s, c[|s|..]);
    ReversedAppend(c[|s|..], []);
    ReversedAppend(c, []);
  }

  /** What a fork switch gives back to the queue: the transactions of the blocks it
    * took off the chain, once each, in the order in which they had been applied. */
  method HandBack(queue: TrxQueue.Queue, abandoned: seq<Block>, ghost index: map<Id, Block>, ghost newHead: Id, ghost oldHead: Id)
    requires queue.Valid() && exists f :: Branches(index, newHead, oldHead, f, abandoned)
    modifies queue
    ensures queue.Valid() && |abandoned| <= |Reversed(Chain(index, oldHead))|
    ensures var applied := Reversed(Chain(index, oldHead));
            TrxQueue.Class(queue.queue, TrxQueue.Forked) == old(TrxQueue.Class(queue.queue, TrxQueue.Forked)) +
            TrxQueue.FirstSeen(old(TrxQueue.Ids(queue.queue)), Flatten(applied[|applied| - |abandoned|..]))
    ensures forall k :: k != TrxQueue.Forked ==> TrxQueue.Class(queue.queue, k) == old(TrxQueue.Class(queue.queue, k))
  {
    ghost var f :| Branches(index, newHead, oldHead, f, abandoned);
    AbandonedIsTail(index, newHead, oldHead, f, abandoned);
    AppliedIsFlat(abandoned);
    queue.AddForked(BlockTrxs(abandoned));
  }

  // ------------------------------------------------------ a switch that is not defined

  /** Two blocks on top of the head at once, of which the second does not apply: the first
    * has a lower irreversible block than the head, so it is not applied when it comes. */
  method SwitchUndefined() returns (c: Controller, r: Result<Outcome>)
    ensures r == Ok(Undefined)
  {
    var root, a, b := Block(Id(1, 0), Id(0, 0), 1, []), Block(Id(2, 0), Id(1, 0), 0, []), Block(Id(3, 0), Id(2, 0), 1, []);
    c := new Controller(root, (below: seq<Block>, x: Block) => x.id.num != 3);
    var abandoned;
    ghost var p;
    r, abandoned, p := c.PushBlock(a);
    assert p == root;
    r, abandoned, p := c.PushBlock(b);
    HighestPending(map[a.id := a][b.id := b], root, a, b, p);
  }

  /** Nothing is validated, and b is above the root. */
  lemma HighestPending(index: map<Id, Block>, root: Block, a: Block, b: Block, p: Block)
    requires a.id != b.id && index == map[a.id := a][b.id := b] && IsPendingHead(index, {}, root, p)
    requires b.lib == root.lib && b.id.num > root.id.num && a.lib < root.lib
    ensures p == b
  {
    assert b.id in index && index[b.id] == b;
  }
}
