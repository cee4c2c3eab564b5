/** Blocks linked to their predecessors, and the branches between two of them. */
module ForkTree {
  import opened TrxQueue

  /** The first bytes of a block id hold the block number. */
  datatype Id = Id(num: nat, hash: nat)

  datatype Block = Block(id: Id, previous: Id, lib: nat, trxs: seq<Trx>)

  /** A block's number is one more than its predecessor's. */
  predicate Numbered(b: Block) {
    b.id.num == b.previous.num + 1
  }

  /** Every block is stored under its id, and its predecessor is stored as well or
    * is one of `tops`. */
  predicate Linked(index: map<Id, Block>, tops: set<Id>) {
    forall id :: id in index ==>
      && index[id].id == id && Numbered(index[id]) && id !in tops
      && (index[id].previous in index || index[id].previous in tops)
  }

  predicate Tree(index: map<Id, Block>, root: Id) {
    Linked(index, {root})
  }

  /** The blocks from `id` down to the root, newest first, without the root. */
  function Chain(index: map<Id, Block>, id: Id): seq<Block>
    decreases id.num
  {
    if id in index && index[id].previous.num < id.num then [index[id]] + Chain(index, index[id].previous) else []
  }

  /** `id` is `ancestor` or was built on it. */
  predicate Descends(index: map<Id, Block>, ancestor: Id, id: Id)
    decreases id.num
  {
    id == ancestor ||
    (id in index && index[id].previous.num < id.num && Descends(index, ancestor, index[id].previous))
  }

  predicate Known(index: map<Id, Block>, root: Id, id: Id) {
    id == root || id in index
  }

  lemma {:induction false} AboveRoot(index: map<Id, Block>, root: Id, id: Id)
    requires Tree(index, root) && id in index
    ensures root.num < id.num
    decreases id.num
  {
    var p := index[id].previous;
    if p in index {
      AboveRoot(index, root, p);
    }
  }

  lemma SameHeightAsRoot(index: map<Id, Block>, root: Id, id: Id)
    requires Tree(index, root) && Known(index, root, id) && id.num <= root.num
    ensures id == root
  {
    if id in index {
      AboveRoot(index, root, id);
    }
  }

  lemma {:induction false} NotBelow(index: map<Id, Block>, ancestor: Id, id: Id)
    requires Descends(index, ancestor, id)
    ensures ancestor.num <= id.num && (ancestor.num == id.num ==> ancestor == id)
    decreases id.num
  {
    if id != ancestor {
      NotBelow(index, ancestor, index[id].previous);
    }
  }

  lemma {:induction false} ReachesRoot(index: map<Id, Block>, root: Id, id: Id)
    requires Tree(index, root) && Known(index, root, id)
    ensures Descends(index, root, id)
    decreases id.num
  {
    if id in index {
      ReachesRoot(index, root, index[id].previous);
    }
  }

  // ---------------------------------------------------- branches between two blocks

  predicate Disjoint(f: seq<Block>, s: seq<Block>) {
    forall i, j :: 0 <= i < |f| && 0 <= j < |s| ==> f[i].id != s[j].id
  }

  /** The parts of the two chains before they meet. */
  predicate Branches(index: map<Id, Block>, first: Id, second: Id, f: seq<Block>, s: seq<Block>) {
    var c, d := Chain(index, first), Chain(index, second);
    && |f| <= |c| && |s| <= |d|
    && c[..|f|] == f && d[..|s|] == s
    && c[|f|..] == d[|s|..]
    && Disjoint(f, s)
  }

  /** There is only one way to split two chains so. */
  lemma BranchesUnique(index: map<Id, Block>, first: Id, second: Id, f: seq<Block>, s: seq<Block>, f': seq<Block>, s': seq<Block>)
    requires Branches(index, first, second, f, s) && Branches(index, first, second, f', s')
    ensures f == f' && s == s'
  {
    BranchesShortest(index, first, second, f, s, f', s');
    BranchesShortest(index, first, second, f', s', f, s);
  }

  lemma BranchesShortest(index: map<Id, Block>, first: Id, second: Id, f: seq<Block>, s: seq<Block>, f': seq<Block>, s': seq<Block>)
    requires Branches(index, first, second, f, s) && Branches(index, first, second, f', s')
    ensures |f'| <= |f| && |s'| <= |s|
  {
    var c, d := Chain(index, first), Chain(index, second);
    assert |c| - |f| == |d| - |s| && |c| - |f'| == |d| - |s'|;
    if |f'| > |f| {
      Overlap(c, d, f, s, f', s');
    }
  }

  lemma Overlap(c: seq<Block>, d: seq<Block>, f: seq<Block>, s: seq<Block>, f': seq<Block>, s': seq<Block>)
    requires |f| < |f'| <= |c| && |s| < |s'| <= |d|
    requires c[..|f'|] == f' && d[..|s'|] == s' && c[|f|..] == d[|s|..]
    ensures !Disjoint(f', s')
  {
    assert c[|f|] == c[|f|..][0] == d[|s|..][0] == d[|s|];
    assert f'[|f|] == c[|f|] && s'[|s|] == d[|s|];
  }

  /** Two branches that both go somewhere end at blocks with the same predecessor. */
  lemma SameParent(index: map<Id, Block>, root: Id, first: Id, second: Id, f: seq<Block>, s: seq<Block>)
    requires Tree(index, root) && Known(index, root, first) && Known(index, root, second)
    requires Branches(index, first, second, f, s) && f != [] && s != []
    ensures f[|f| - 1].previous == s[|s| - 1].previous
  {
    var c, d := Chain(index, first), Chain(index, second);
    ChainLinks(index, root, first, |f| - 1);
    ChainLinks(index, root, second, |s| - 1);
    if |f| < |c| {
      assert c[|f|] == c[|f|..][0] == d[|s|..][0] == d[|s|];
    }
  }

  lemma {:induction false} ChainLinks(index: map<Id, Block>, root: Id, id: Id, i: nat)
    requires Tree(index, root) && Known(index, root, id) && i < |Chain(index, id)|
    ensures var c := Chain(index, id);
            c[i].previous == if i + 1 < |c| then c[i + 1].id else root
    decreases i
  {
    var p := index[id].previous;
    if i > 0 {
      ChainLinks(index, root, p, i - 1);
    } else if p !in index {
      assert Chain(index, p) == [];
    }
  }

  /** Neither branch is empty exactly when neither block descends from the other. */
  lemma EmptyBranch(index: map<Id, Block>, root: Id, first: Id, second: Id, f: seq<Block>, s: seq<Block>)
    requires Tree(index, root) && Known(index, root, first) && Known(index, root, second)
    requires Branches(index, first, second, f, s)
    ensures f == [] <==> Descends(index, first, second)
    ensures s == [] <==> Descends(index, second, first)
  {
    EmptyMeansAncestor(index, root, first, second, f, s);
    EmptyMeansAncestor(index, root, second, first, s, f);
  }

  lemma EmptyMeansAncestor(index: map<Id, Block>, root: Id, first: Id, second: Id, f: seq<Block>, s: seq<Block>)
    requires Tree(index, root) && Known(index, root, first) && Known(index, root, second)
    requires Branches(index, first, second, f, s) || Branches(index, second, first, s, f)
    ensures f == [] <==> Descends(index, first, second)
  {
    var c, d := Chain(index, first), Chain(index, second);
    if f == [] {
      assert c == d[|s|..];
      SuffixDescends(index, root, first, second, |s|);
    }
    if Descends(index, first, second) {
      DescendsSuffix(index, first, second);
      if f != [] {
        Overlap(c, d, [], d[..|d| - |c|], f, s);
      }
    }
  }

  lemma {:induction false} SuffixDescends(index: map<Id, Block>, root: Id, first: Id, second: Id, k: nat)
    requires Tree(index, root) && Known(index, root, first) && Known(index, root, second)
    requires k <= |Chain(index, second)| && Chain(index, first) == Chain(index, second)[k..]
    ensures Descends(index, first, second)
    decreases k
  {
    if k > 0 {
      SuffixDescends(index, root, first, index[second].previous, k - 1);
    } else if first in index {
      assert Chain(index, first)[0].id == first;
    }
  }

  lemma {:induction false} DescendsSuffix(index: map<Id, Block>, first: Id, second: Id)
    requires Descends(index, first, second)
    ensures var c, d := Chain(index, first), Chain(index, second); |c| <= |d| && c == d[|d| - |c|..]
    decreases second.num
  {
    if second != first {
      DescendsSuffix(index, first, index[second].previous);
    }
  }
}
