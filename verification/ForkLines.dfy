/** The vocabulary of fork switching in terms of the blocks alone: the line of blocks from
  * the root up to a block, each naming the one before it. */
module ForkLines {
  import opened ForkTree
  import opened ForkDb
  import opened ForkSwitch

  /** Each block names the one before it as its predecessor. */
  ghost predicate InARow(c: seq<Block>) {
    forall i, j :: 0 <= i < j < |c| && j == i + 1 ==> c[j].previous == c[i].id
  }

  /** The line that leads from the root to `id`, oldest block first. */
  ghost predicate Line(index: map<Id, Block>, root: Id, id: Id, c: seq<Block>) {
    && (if c == [] then id == root else c[0].previous == root && c[|c| - 1].id == id)
    && InARow(c) && forall i :: 0 <= i < |c| ==> c[i].id in index && index[c[i].id] == c[i]
  }

  lemma LineShorter(index: map<Id, Block>, root: Id, id: Id, c: seq<Block>)
    requires Tree(index, root) && Line(index, root, id, c) && c != []
    ensures id in index && index[id] == c[|c| - 1] && index[id].previous.num < id.num
    ensures Line(index, root, index[id].previous, c[..|c| - 1])
  {
  }

  /** The stored chain, turned round, is that line, and there is only one. */
  lemma {:induction false} ChainIsLine(index: map<Id, Block>, root: Id, id: Id)
    requires Tree(index, root) && Known(index, root, id)
    ensures Line(index, root, id, Reversed(Chain(index, id)))
    decreases id.num
  {
    if id in index {
      var p := index[id].previous;
      ChainIsLine(index, root, p);
      assert Chain(index, id) == [index[id]] + Chain(index, p);
      assert Chain(index, id)[1..] == Chain(index, p);
    }
  }

  lemma {:induction false} LineIsChain(index: map<Id, Block>, root: Id, id: Id, c: seq<Block>)
    requires Tree(index, root) && Line(index, root, id, c)
    ensures c == Reversed(Chain(index, id))
    decreases |c|
  {
    if c == [] {
      assert Chain(index, id) == [];
    } else {
      var p := index[id].previous;
      LineShorter(index, root, id, c);
      LineIsChain(index, root, p, c[..|c| - 1]);
      assert Chain(index, id)[1..] == Chain(index, p);
      assert c == c[..|c| - 1] + [index[id]];
    }
  }

  /** What a controller has applied, after whatever calls, is the line up to its head. */
  lemma AppliedIsLine(chain: Controller)
    requires chain.Valid()
    ensures Line(chain.db.index, chain.db.root.id, chain.head, chain.applied)
  {
    ChainIsLine(chain.db.index, chain.db.root.id, chain.head);
  }

  /** A block is below another, or is it, exactly when it is the root or on its line. */
  lemma {:induction false} DescendsIff(index: map<Id, Block>, root: Id, a: Id, id: Id, c: seq<Block>)
    requires Tree(index, root) && Line(index, root, id, c)
    ensures Descends(index, a, id) <==> a == root || exists i :: 0 <= i < |c| && c[i].id == a
    decreases |c|
  {
    if c != [] {
      var d := c[..|c| - 1];
      LineShorter(index, root, id, c);
      DescendsIff(index, root, a, index[id].previous, d);
      if a != root && exists i :: 0 <= i < |c| && c[i].id == a {
        var i :| 0 <= i < |c| && c[i].id == a;
        assert i < |d| ==> d[i].id == a;
      }
      if a == id {
        assert c[|c| - 1].id == a;
      }
    }
  }

  /** Taking out a fork takes exactly the blocks whose line runs through it. */
  lemma RemovedIff(index: map<Id, Block>, root: Id, b: Id, id: Id, c: seq<Block>)
    requires Tree(index, root) && b in index && Line(index, root, id, c)
    ensures id in WithoutFork(index, b) <==> id in index && forall i :: 0 <= i < |c| ==> c[i].id != b
    ensures id in WithoutFork(index, b) ==> WithoutFork(index, b)[id] == index[id]
  {
    DescendsIff(index, root, b, id, c);
  }

  /** Every block of the line applies on the blocks before it. */
  lemma {:induction false} GoodIff(index: map<Id, Block>, root: Id, applies: Applies, id: Id, c: seq<Block>)
    requires Tree(index, root) && Line(index, root, id, c)
    ensures Good(index, applies, id) <==> forall i :: 0 <= i < |c| ==> applies(c[..i], c[i])
    decreases |c|
  {
    if c != [] {
      var d := c[..|c| - 1];
      LineShorter(index, root, id, c);
      GoodIff(index, root, applies, index[id].previous, d);
      GoodStep(index, root, applies, id, c, d);
      AllApplyStep(applies, c, d);
    }
  }

  lemma GoodStep(index: map<Id, Block>, root: Id, applies: Applies, id: Id, c: seq<Block>, d: seq<Block>)
    requires Tree(index, root) && Line(index, root, id, c) && c != [] && d == c[..|c| - 1]
    ensures id in index && (Good(index, applies, id) <==> Good(index, applies, index[id].previous) && applies(d, c[|d|]))
  {
    LineShorter(index, root, id, c);
    LineIsChain(index, root, index[id].previous, d);
  }

  lemma AllApplyStep(applies: Applies, c: seq<Block>, d: seq<Block>)
    requires c != [] && d == c[..|c| - 1]
    ensures (forall i :: 0 <= i < |c| ==> applies(c[..i], c[i])) <==>
            applies(d, c[|d|]) && forall i :: 0 <= i < |d| ==> applies(d[..i], d[i])
  {
    assert forall i :: 0 <= i < |d| ==> d[..i] == c[..i] && d[i] == c[i];
  }

  /** The block that fails is the lowest of the line that does not apply. */
  lemma FailsIff(index: map<Id, Block>, root: Id, applies: Applies, id: Id, c: seq<Block>, k: nat)
    requires Tree(index, root) && Line(index, root, id, c) && k < |c|
    ensures FirstBad(index, applies, id, c[k].id) <==> !applies(c[..k], c[k]) && forall i :: 0 <= i < k ==> applies(c[..i], c[i])
  {
    LineUpTo(index, root, id, c, k + 1);
    LineUpTo(index, root, id, c, k);
    DescendsIff(index, root, c[k].id, id, c);
    var d, e := c[..k + 1], c[..k];
    GoodIff(index, root, applies, c[k].id, d);
    GoodIff(index, root, applies, c[k].previous, e);
    assert d[k] == c[k] && d[..k] == e;
    assert forall i :: 0 <= i < k ==> d[..i] == c[..i] && d[i] == c[i] && e[..i] == c[..i] && e[i] == c[i];
  }

  lemma LineUpTo(index: map<Id, Block>, root: Id, id: Id, c: seq<Block>, k: nat)
    requires Tree(index, root) && Line(index, root, id, c) && k <= |c|
    ensures Line(index, root, if k == 0 then root else c[k - 1].id, c[..k])
    ensures k < |c| ==> c[k].previous == if k == 0 then root else c[k - 1].id
  {
  }

  /** Two branches are the parts of two lines above the blocks they share. */
  lemma BranchesOfLines(index: map<Id, Block>, root: Id, first: Id, second: Id, c: seq<Block>, d: seq<Block>, f: seq<Block>, s: seq<Block>)
    requires Tree(index, root) && Line(index, root, first, c) && Line(index, root, second, d) && Branches(index, first, second, f, s)
    ensures |f| <= |c| && |s| <= |d| && c[..|c| - |f|] == d[..|d| - |s|]
    ensures forall i :: 0 <= i < |f| ==> f[i] == c[|c| - 1 - i]
    ensures forall i :: 0 <= i < |s| ==> s[i] == d[|d| - 1 - i]
    ensures forall i, j :: 0 <= i < |f| && 0 <= j < |s| ==> f[i].id != s[j].id
  {
    LineIsChain(index, root, first, c);
    LineIsChain(index, root, second, d);
    ReversedPlaces(Chain(index, first));
    ReversedPlaces(Chain(index, second));
    TopPart(Chain(index, first), c, f);
    TopPart(Chain(index, second), d, s);
    SharedPart(Chain(index, first), Chain(index, second), c, d, |f|, |s|);
  }

  ghost predicate Mirrors(x: seq<Block>, c: seq<Block>) {
    |x| == |c| && forall i :: 0 <= i < |x| ==> c[i] == x[|x| - 1 - i]
  }

  lemma TopPart(x: seq<Block>, c: seq<Block>, f: seq<Block>)
    requires Mirrors(x, c) && |f| <= |x| && x[..|f|] == f
    ensures forall i :: 0 <= i < |f| ==> f[i] == c[|c| - 1 - i]
  {
    forall i | 0 <= i < |f| ensures f[i] == c[|c| - 1 - i] {
      assert f[i] == x[i];
    }
  }

  lemma SharedPart(x: seq<Block>, y: seq<Block>, c: seq<Block>, d: seq<Block>, m: nat, n: nat)
    requires Mirrors(x, c) && Mirrors(y, d) && m <= |x| && n <= |y| && x[m..] == y[n..]
    ensures |c| - m == |d| - n && c[..|c| - m] == d[..|d| - n]
  {
    var k := |c| - m;
    assert k == |x[m..]| == |y[n..]|;
    forall i | 0 <= i < k ensures c[i] == d[i] {
      assert c[i] == x[|x| - 1 - i] == x[m..][k - 1 - i];
      assert d[i] == y[|y| - 1 - i] == y[n..][k - 1 - i];
    }
  }

  lemma {:induction false} ReversedPlaces(s: seq<Block>)
    ensures Mirrors(s, Reversed(s))
  {
    if s != [] {
      ReversedPlaces(s[1..]);
    }
  }
}
