/** The fork database: blocks not yet irreversible, the head among the validated
  * ones, and the operations that grow and prune the tree. */
module ForkDb {
  import opened ForkTree

  datatype Error = BlockNotFound | Unlinkable | DuplicateBlock | NotInDatabase | NotValidated | WouldRemoveHead | NotHead
  datatype Result<T> = Ok(value: T) | Err(error: Error)
  datatype Option<T> = None | Some(value: T)

  // ---------------------------------------------------------------- preference

  /** A longer irreversible part first, then a longer chain. */
  predicate FirstPreferred(a: Block, b: Block) {
    a.lib > b.lib || (a.lib == b.lib && a.id.num > b.id.num)
  }

  /** Order of the database: validated blocks first, then by preference, then by id. */
  predicate Before(validated: set<Id>, a: Block, b: Block) {
    if (a.id in validated) != (b.id in validated) then a.id in validated
    else FirstPreferred(a, b) || (a.lib == b.lib && a.id.num == b.id.num && a.id.hash < b.id.hash)
  }

  /** No block of the given ones has a higher irreversible block than h, and of those with
    * the same none has a higher number. */
  predicate NoneHigher(index: map<Id, Block>, ids: set<Id>, h: Block) {
    forall id :: id in ids && id in index ==> index[id].lib <= h.lib && (index[id].lib == h.lib ==> index[id].id.num <= h.id.num)
  }

  lemma BeforeTotal(validated: set<Id>, a: Block, b: Block)
    requires a.id != b.id
    ensures Before(validated, a, b) != Before(validated, b, a)
  {
  }

  lemma BeforeTransitive(validated: set<Id>, a: Block, b: Block, c: Block)
    requires Before(validated, a, b) && Before(validated, b, c)
    ensures Before(validated, a, c)
  {
  }

  ghost predicate IsFirst(index: map<Id, Block>, validated: set<Id>, ids: set<Id>, b: Block) {
    b.id in ids && b.id in index && index[b.id] == b &&
    forall id :: id in ids && id in index && id != b.id ==> Before(validated, b, index[id])
  }

  /** The first block is validated if any is; among those like it none has a higher
    * irreversible block, then none a higher number, then none a smaller id. */
  lemma FirstMeaning(index: map<Id, Block>, validated: set<Id>, ids: set<Id>, b: Block, id: Id)
    requires IsFirst(index, validated, ids, b) && id in ids && id in index && index[id].id == id
    ensures id in validated ==> b.id in validated
    ensures (id in validated <==> b.id in validated) ==>
              && index[id].lib <= b.lib && (index[id].lib == b.lib ==> id.num <= b.id.num)
              && (index[id].lib == b.lib && id.num == b.id.num ==> b.id.hash <= id.hash)
  {
  }

  // ------------------------------------------------------------------ removal

  function WithoutFork(index: map<Id, Block>, id: Id): map<Id, Block> {
    map b | b in index && !Descends(index, id, b) :: index[b]
  }

  /** Removing a block with all that was built on it leaves no loose end. */
  lemma WithoutForkLinked(index: map<Id, Block>, tops: set<Id>, id: Id)
    requires Linked(index, tops)
    ensures Linked(WithoutFork(index, id), tops - {id})
  {
    var left := WithoutFork(index, id);
    forall b | b in left ensures index[b].previous in left || index[b].previous in tops - {id} {
      assert Numbered(index[b]) && !Descends(index, id, b);
      assert !Descends(index, id, index[b].previous);
    }
  }

  lemma {:induction false} ClosedUnderChildren(index: map<Id, Block>, id: Id, removed: set<Id>, b: Id)
    requires id in removed
    requires forall c :: c in index && index[c].previous in removed ==> c in removed
    requires Descends(index, id, b)
    ensures b in removed
    decreases b.num
  {
    if b != id {
      ClosedUnderChildren(index, id, removed, index[b].previous);
    }
  }

  lemma {:induction false} AllFrom(index: map<Id, Block>, top: Id, b: Id)
    requires Linked(index, {top}) && b in index
    ensures Descends(index, top, b)
    decreases b.num
  {
    if index[b].previous in index {
      AllFrom(index, top, index[b].previous);
    }
  }

  /** Descent seen in a part of the database is descent in the whole. */
  lemma {:induction false} DescendsInWhole(part: map<Id, Block>, whole: map<Id, Block>, a: Id, b: Id)
    requires forall id :: id in part ==> id in whole && part[id] == whole[id]
    requires Descends(part, a, b)
    ensures Descends(whole, a, b)
    decreases b.num
  {
    if a != b {
      DescendsInWhole(part, whole, a, part[b].previous);
    }
  }

  /** A chain stops where a block was taken out. */
  lemma {:induction false} ChainCut(index: map<Id, Block>, cut: map<Id, Block>, id: Id, below: Id, b: Id)
    requires cut == index - {id}
    requires Descends(index, id, b) && below.num < id.num
    ensures !Descends(cut, below, b)
    decreases b.num
  {
    NotBelow(index, id, b);
    if b != id {
      ChainCut(index, cut, id, below, index[b].previous);
    }
  }

  class ForkDatabase {
    var index: map<Id, Block>
    var validated: set<Id>
    var root: Block
    var rootHasBlock: bool
    var head: Block

    /** A tree below the root, with a head no validated block is preferred to. */
    ghost predicate Valid()
      reads this
    {
      Tree(index, root.id) && HeadOk()
    }

    ghost predicate HeadOk()
      reads this
    {
      && validated <= index.Keys
      && (head == root || (head.id in validated && head.id in index && index[head.id] == head))
      && NoneHigher(index, validated, head)
    }

    constructor (root: Block)
      ensures Valid() && this.root == root && head == root && index == map[] && validated == {}
    {
      this.root := root;
      rootHasBlock := false;
      head := root;
      index := map[];
      validated := {};
    }

    method Reset(root: Block)
      modifies this
      ensures Valid() && this.root == root && head == root && index == map[] && validated == {}
    {
      this.root := root;
      rootHasBlock := false;
      head := root;
      index := map[];
      validated := {};
    }

    method RollbackHeadToRoot()
      requires Valid()
      modifies this`validated, this`head
      ensures Valid() && validated == {} && head == root
    {
      validated := {};
      head := root;
    }

    /** First entry of the index ordered by preference. */
    method First(ids: set<Id>) returns (b: Option<Block>)
      requires ids <= index.Keys && forall id :: id in index ==> index[id].id == id
      ensures b.None? <==> ids == {}
      ensures b.Some? ==> IsFirst(index, validated, ids, b.value)
    {
      b := None;
      var rest := ids;
      while rest != {}
        invariant rest <= ids && (b.None? <==> rest == ids)
        invariant b.Some? ==> IsFirst(index, validated, ids - rest, b.value)
        decreases rest
      {
        var id :| id in rest;
        var c := index[id];
        if b.None? || Before(validated, c, b.value) {
          if b.Some? {
            NewFirst(index, validated, ids - rest, b.value, c);
          }
          b := Some(c);
        } else {
          BeforeTotal(validated, c, b.value);
        }
        rest := rest - {id};
      }
      if b.Some? {
        assert ids - rest == ids;
      }
    }

    /** Head moves to the first block of the index if that is validated. */
    method HeadFromFirst()
      requires Tree(index, root.id) && validated <= index.Keys && index.Keys != {}
      requires validated == {} ==> head == root
      modifies this`head
      ensures Valid()
      ensures validated == {} ==> head == root
      ensures validated != {} ==> IsFirst(index, validated, index.Keys, head)
    {
      var candidate := First(index.Keys);
      if candidate.value.id in validated {
        head := candidate.value;
      } else {
        NoneValid(index, validated, candidate.value);
      }
    }

    /** A new block whose predecessor is known; `isValid` is its own flag. */
    method Add(n: Block, isValid: bool, ignoreDuplicate: bool) returns (r: Result<()>)
      requires Valid() && Numbered(n)
      modifies this`index, this`validated, this`head
      ensures Valid()
      ensures r.Err? <==> !Known(index, root.id, n.previous) || (n.id in old(index) && !ignoreDuplicate)
      ensures r.Err? || n.id in old(index) ==> index == old(index) && validated == old(validated) && head == old(head)
      ensures r.Ok? && n.id !in old(index) ==>
                && index == old(index)[n.id := n]
                && validated == old(validated) + (if isValid then {n.id} else {})
                && (validated == {} ==> head == old(head))
                && (validated != {} ==> IsFirst(index, validated, index.Keys, head))
      ensures head.lib < old(head).lib <==>
                && r.Ok? && n.id !in old(index) && old(head).id !in old(index) && (old(validated) != {} || isValid)
                && (forall id :: id in old(validated) ==> old(index)[id].lib < old(head).lib) && (isValid ==> n.lib < old(head).lib)
    {
      if n.previous != root.id && n.previous !in index {
        return Err(Unlinkable);
      }
      if n.id in index {
        return if ignoreDuplicate then Ok(()) else Err(DuplicateBlock);
      }
      TreeGrows(index, root.id, n);
      index := index[n.id := n];
      if isValid {
        validated := validated + {n.id};
      }
      assert n.id in index.Keys;
      HeadFromFirst();
      r := Ok(());
    }

    /** `flag` is the block's own flag. */
    method MarkValid(h: Block, flag: bool) returns (r: Result<()>)
      requires Valid() && (h.id in index ==> (flag <==> h.id in validated))
      modifies this`validated, this`head
      ensures Valid()
      ensures r.Err? <==> !flag && h.id !in index
      ensures flag || r.Err? ==> validated == old(validated) && head == old(head)
      ensures !flag && r.Ok? ==>
                && validated == old(validated) + {h.id}
                && (head == old(head) || (IsFirst(index, validated, index.Keys, head) && FirstPreferred(head, old(head))))
      ensures head.lib >= old(head).lib && (head.lib == old(head).lib ==> head.id.num >= old(head).id.num)
    {
      if flag {
        return Ok(());
      }
      if h.id !in index {
        return Err(NotInDatabase);
      }
      validated := validated + {h.id};
      var candidate := First(index.Keys);
      if FirstPreferred(candidate.value, head) {
        head := candidate.value;
      }
      r := Ok(());
    }

    /** The best block not yet validated, if it is preferred to the head. */
    method PendingHead() returns (p: Block)
      requires Valid()
      ensures p == head || (IsFirst(index, validated, index.Keys - validated, p) && FirstPreferred(p, head))
      ensures p == head || p.lib > head.lib || (p.lib == head.lib && p.id.num > head.id.num)
      ensures NoneHigher(index, index.Keys, p)
    {
      var candidate := First(index.Keys - validated);
      p := head;
      if candidate.Some? && FirstPreferred(candidate.value, head) {
        p := candidate.value;
      }
    }

    method Children(id: Id) returns (cs: seq<Id>)
      ensures forall c :: c in cs <==> c in index && index[c].previous == id
      ensures NoRepeats(cs)
    {
      cs := [];
      var rest := index.Keys;
      while rest != {}
        invariant rest <= index.Keys && NoRepeats(cs)
        invariant forall c :: c in cs <==> c in index && c !in rest && index[c].previous == id
        decreases rest
      {
        var c :| c in rest;
        rest := rest - {c};
        if index[c].previous == id {
          cs := cs + [c];
        }
      }
    }

    /** The block and everything built on it, or nothing if the head is among them. */
    method Collect(id: Id, ghost tops: set<Id>) returns (queue: Option<seq<Id>>)
      requires Linked(index, tops)
      ensures queue.None? <==> Descends(index, id, head.id)
      ensures queue.Some? ==> forall b :: b in queue.value <==> Descends(index, id, b)
    {
      var found := [id];
      var i := 0;
      while i < |found|
        invariant Collected(index, id, found, i) && head.id !in found[..i]
        decreases |index.Keys| + 1 - i
      {
        QueueBound(index, id, found, i);
        if found[i] == head.id {
          return None;
        }
        var children := Children(found[i]);
        CollectChildren(index, tops, id, found, i, children);
        OneFurther(found, children, i);
        found := found + children;
        i := i + 1;
      }
      AllCollected(index, id, found);
      assert found[..i] == found;
      queue := Some(found);
    }

    /** Removes a block and everything built on it, unless the head is among them. */
    method RemoveFork(id: Id, ghost tops: set<Id>) returns (r: Result<()>)
      requires Linked(index, tops)
      modifies this`index, this`validated
      ensures r.Err? <==> Descends(old(index), id, head.id)
      ensures r.Err? ==> index == old(index) && validated == old(validated)
      ensures r.Ok? ==> index == WithoutFork(old(index), id) && validated == old(validated) * index.Keys
      ensures r.Ok? ==> Linked(index, tops - {id})
      ensures old(HeadOk()) ==> HeadOk()
    {
      WithoutForkLinked(index, tops, id);
      var queue := Collect(id, tops);
      if queue.None? {
        return Err(WouldRemoveHead);
      }
      var k := 0;
      while k < |queue.value|
        invariant 0 <= k <= |queue.value|
        invariant index == map b | b in old(index) && b !in queue.value[..k] :: old(index)[b]
        modifies this`index
      {
        index := index - {queue.value[k]};
        k := k + 1;
      }
      assert queue.value[..k] == queue.value;
      validated := validated * index.Keys;
      r := Ok(());
    }

    /** Takes the head out alone: blocks built on it stay, without a predecessor. */
    method RemoveHead(id: Id) returns (r: Result<()>)
      requires Valid()
      modifies this`index, this`validated, this`head
      ensures HeadOk()
      ensures r.Err? <==> old(head).id != id || (old(head) == root && !rootHasBlock)
      ensures r.Err? ==> index == old(index) && validated == old(validated) && head == old(head)
      ensures r.Ok? ==> index == old(index) - {id} && validated == old(validated) - {id}
      ensures r.Ok? ==> if validated == {} then head == root else IsFirst(index, validated, index.Keys, head)
      ensures r.Ok? && id in old(index) ==>
                (Tree(index, root.id) <==> forall b :: b in old(index) ==> old(index)[b].previous != id)
    {
      if head.id != id || (head == root && !rootHasBlock) {
        return Err(NotHead);
      }
      LooseEnds(index, root.id, id);
      index := index - {id};
      validated := validated - {id};
      var candidate := First(index.Keys);
      if candidate.None? || candidate.value.id !in validated {
        if candidate.Some? {
          NoneValid(index, validated, candidate.value);
        }
        head := root;
      } else {
        head := candidate.value;
      }
      r := Ok(());
    }

    /** Ids of the blocks below a block, down to the root. */
    method Ancestors(b: Block) returns (ids: seq<Id>)
      requires Tree(index, root.id) && b.id in index && index[b.id] == b
      ensures ids != [] && ids[|ids| - 1] == root.id
      ensures forall x :: x in ids ==> x.num < b.id.num
    {
      var previous := b.previous;
      ids := [previous];
      while previous in index
        invariant Known(index, root.id, previous) && previous.num < b.id.num
        invariant ids != [] && ids[|ids| - 1] == previous
        invariant forall x :: x in ids ==> x.num < b.id.num
        decreases previous.num
      {
        previous := index[previous].previous;
        ids := ids + [previous];
      }
    }

    method RemoveBelow(p: Id, id: Id, ghost whole: map<Id, Block>, ghost tops: set<Id>, ghost rest: set<Id>)
      returns (ok: bool)
      requires Pruned(whole, index, id, tops) && p.num < id.num && tops - {p} <= rest <= tops
      modifies this`index, this`validated
      ensures id !in index
      ensures ok ==> Pruned(whole, index, id, rest) && validated == old(validated) * index.Keys
      ensures ok ==> head.id != p && (head.id in old(index) ==> head.id in index)
      ensures forall b :: b in index ==> b in old(index)
      ensures !ok ==> !Descends(whole, id, head.id)
    {
      PruneStep(whole, index, id, tops, rest, p, head.id);
      var r := RemoveFork(p, tops);
      ok := r.Ok?;
    }

    method RemoveAll(ids: seq<Id>, id: Id, ghost whole: map<Id, Block>) returns (ok: bool)
      requires Tree(whole, root.id) && id in whole && index == whole - {id}
      requires ids != [] && ids[|ids| - 1] == root.id && forall x :: x in ids ==> x.num < id.num
      requires (head == root || head.id in whole) && validated <= index.Keys
      modifies this`index, this`validated
      ensures ok <==> Descends(whole, id, head.id)
      ensures id !in index && (ok ==> Pruned(whole, index, id, {id}) && validated == old(validated) * index.Keys)
    {
      PruneStart(whole, root.id, id);
      var i := 0;
      while i < |ids| - 1
        invariant 0 <= i <= |ids| - 1 && Pruned(whole, index, id, {root.id, id}) && validated == old(validated) * index.Keys
        invariant head.id == id || head.id in index || head == root
      {
        ok := RemoveBelow(ids[i], id, whole, {root.id, id}, {root.id, id});
        if !ok {
          return;
        }
        i := i + 1;
      }
      ok := RemoveBelow(ids[i], id, whole, {root.id, id}, {id});
      if !ok {
        return;
      }
      KeptIsDescent(whole, index, id);
    }

    /** Makes a validated block the root and drops everything not built on it. When
      * the head was not built on it the call fails after the new root was taken
      * out already. */
    method AdvanceRoot(id: Id) returns (r: Result<()>)
      requires Valid()
      modifies this`index, this`validated, this`root, this`rootHasBlock
      ensures r.Ok? <==> id in old(validated) && Descends(old(index), id, head.id)
      ensures r.Ok? ==> Valid() && root == old(index)[id] && rootHasBlock
      ensures r.Ok? ==> forall b :: b in index <==> b in old(index) && b != id && Descends(old(index), id, b)
      ensures r.Ok? ==> (forall b :: b in index ==> index[b] == old(index)[b]) && validated == old(validated) * index.Keys
      ensures r.Err? ==> root == old(root)
      ensures id !in old(validated) ==> index == old(index) && validated == old(validated)
      ensures r.Err? && id in old(validated) ==> id !in index
    {
      if id !in index {
        return Err(NotInDatabase);
      }
      if id !in validated {
        return Err(NotValidated);
      }
      var newRoot := index[id];
      var toRemove := Ancestors(newRoot);
      ghost var whole := index;
      index := index - {id};
      validated := validated - {id};
      var ok := RemoveAll(toRemove, id, whole);
      if !ok {
        return Err(WouldRemoveHead);
      }
      KeptIsDescent(whole, index, id);
      root := newRoot;
      rootHasBlock := true;
      r := Ok(());
    }

    /** The blocks from `h` down, newest first, from number `trim` on down. */
    method FetchBranch(h: Id, trim: nat) returns (branch: seq<Block>)
      requires Tree(index, root.id)
      ensures branch == Chain(index, h)[Above(index, h, trim)..]
      ensures forall b :: b in branch <==> b in Chain(index, h) && b.id.num <= trim
    {
      branch := [];
      var s := h;
      ghost var c := Chain(index, h);
      ghost var i := 0;
      while s in index
        invariant 0 <= i <= |c| && c[i..] == Chain(index, s) && (s in index ==> s.num + i == h.num)
        invariant branch == if i <= Above(index, h, trim) then [] else c[Above(index, h, trim)..i]
        decreases s.num
      {
        ChainNumbers(index, root.id, h);
        assert c[i..][0] == c[i] == index[s] && c[i..][1..] == c[i + 1..];
        if index[s].id.num <= trim {
          branch := branch + [index[s]];
        }
        s := index[s].previous;
        i := i + 1;
      }
      ChainNumbers(index, root.id, h);
      assert c[..i] == c;
      AboveCut(index, root.id, h, trim);
    }

    method SearchOnBranch(h: Id, num: nat) returns (b: Option<Block>)
      requires Tree(index, root.id)
      ensures b.Some? <==> num <= h.num < num + |Chain(index, h)|
      ensures b.Some? ==> b.value == Chain(index, h)[h.num - num] && b.value.id.num == num
    {
      ghost var c := Chain(index, h);
      ChainNumbers(index, root.id, h);
      var s := h;
      ghost var i := 0;
      while s in index
        invariant 0 <= i <= |c| && c[i..] == Chain(index, s) && (s in index ==> s.num + i == h.num)
        invariant forall k :: 0 <= k < i ==> c[k].id.num != num
        decreases s.num
      {
        assert c[i..][0] == c[i] == index[s] && c[i..][1..] == c[i + 1..];
        if index[s].id.num == num {
          return Some(index[s]);
        }
        s := index[s].previous;
        i := i + 1;
      }
      OnChain(c, h.num, num);
      b := None;
    }

    /** Both branches down to where they meet. It fails only for unknown blocks. */
    method FetchBranchFrom(first: Id, second: Id) returns (r: Result<(seq<Block>, seq<Block>)>)
      requires Tree(index, root.id)
      ensures r.Err? <==> !Known(index, root.id, first) || !Known(index, root.id, second)
      ensures r.Ok? ==> Branches(index, first, second, r.value.0, r.value.1)
    {
      if !(first == root.id || first in index) || !(second == root.id || second in index) {
        return Err(BlockNotFound);
      }
      KnownHeight(index, root.id, first);
      KnownHeight(index, root.id, second);
      var f, a := DownTo(first, second.num);
      var s, b := DownTo(second, a.num);
      assert f == [] || s == [];
      if a == b {
        SplitAt(Chain(index, first), f, Chain(index, a));
        SplitAt(Chain(index, second), s, Chain(index, a));
        return Ok((f, s));
      }
      SameLevel(index, root.id, a, b);
      while index[a].previous != index[b].previous
        invariant a in index && b in index && a != b && a.num == b.num
        invariant Chain(index, first) == f + Chain(index, a) && Chain(index, second) == s + Chain(index, b)
        invariant AllAbove(f, a.num) && AllAbove(s, a.num) && Disjoint(f, s)
        decreases a.num
      {
        DisjointMore(f, s, index[a], index[b]);
        Regroup(Chain(index, first), f, index[a], Chain(index, index[a].previous));
        Regroup(Chain(index, second), s, index[b], Chain(index, index[b].previous));
        f, s := f + [index[a]], s + [index[b]];
        a, b := index[a].previous, index[b].previous;
        SameLevel(index, root.id, a, b);
      }
      MeetBelow(index, root.id, first, second, f, s, a, b);
      r := Ok((f + [index[a]], s + [index[b]]));
    }

    /** Walks down from `id` while the number is above `level`. */
    method DownTo(id: Id, level: nat) returns (f: seq<Block>, a: Id)
      requires Tree(index, root.id) && Known(index, root.id, id) && root.id.num <= level
      ensures Known(index, root.id, a) && Chain(index, id) == f + Chain(index, a)
      ensures AllAbove(f, level) && AllAbove(f, a.num)
      ensures a.num == if id.num > level then level else id.num
      ensures id.num <= level ==> f == []
    {
      f := [];
      a := id;
      while a.num > level
        invariant Known(index, root.id, a) && Chain(index, id) == f + Chain(index, a)
        invariant AllAbove(f, level) && AllAbove(f, a.num) && (if id.num > level then a.num >= level else a == id && f == [])
        decreases a.num
      {
        f := f + [index[a]];
        a := index[a].previous;
      }
    }
  }

  predicate AllAbove(f: seq<Block>, level: nat) {
    forall i :: 0 <= i < |f| ==> f[i].id.num > level
  }

  lemma {:induction false} ChainNumbers(index: map<Id, Block>, root: Id, id: Id)
    requires Tree(index, root)
    ensures forall k :: 0 <= k < |Chain(index, id)| ==> Chain(index, id)[k].id.num + k == id.num
    decreases id.num
  {
    if id in index {
      ChainNumbers(index, root, index[id].previous);
    }
  }

  lemma OnChain(c: seq<Block>, top: nat, num: nat)
    requires forall k :: 0 <= k < |c| ==> c[k].id.num + k == top
    ensures num <= top < num + |c| ==> exists k :: 0 <= k < |c| && c[k].id.num == num
  {
    if num <= top < num + |c| {
      assert c[top - num].id.num == num;
    }
  }

  /** How many blocks of the chain are numbered above `trim`. */
  function Above(index: map<Id, Block>, h: Id, trim: nat): (k: nat)
    ensures k <= |Chain(index, h)|
  {
    var n := |Chain(index, h)|;
    if h.num <= trim then 0 else if h.num - trim <= n then h.num - trim else n
  }

  lemma AboveCut(index: map<Id, Block>, root: Id, h: Id, trim: nat)
    requires Tree(index, root)
    ensures var c := Chain(index, h); forall b :: b in c[Above(index, h, trim)..] <==> b in c && b.id.num <= trim
  {
    var c, k := Chain(index, h), Above(index, h, trim);
    ChainNumbers(index, root, h);
    forall b | b in c && b.id.num <= trim ensures b in c[k..] {
      var i :| 0 <= i < |c| && c[i] == b;
      assert c[k..][i - k] == b;
    }
    forall b | b in c[k..] ensures b in c && b.id.num <= trim {
      var i :| 0 <= i < |c| - k && c[k..][i] == b;
      assert c[k + i] == b;
    }
  }

  /** Two different blocks of the same height are both above the root. */
  lemma SameLevel(index: map<Id, Block>, root: Id, a: Id, b: Id)
    requires Tree(index, root) && Known(index, root, a) && Known(index, root, b) && a.num == b.num && a != b
    ensures a in index && b in index
  {
    if a == root {
      SameHeightAsRoot(index, root, b);
    } else if b == root {
      SameHeightAsRoot(index, root, a);
    }
  }

  lemma MeetBelow(index: map<Id, Block>, root: Id, first: Id, second: Id, f: seq<Block>, s: seq<Block>, a: Id, b: Id)
    requires Tree(index, root) && a in index && b in index && a != b && a.num == b.num
    requires index[a].previous == index[b].previous
    requires Chain(index, first) == f + Chain(index, a) && Chain(index, second) == s + Chain(index, b)
    requires AllAbove(f, a.num) && AllAbove(s, a.num) && Disjoint(f, s)
    ensures Branches(index, first, second, f + [index[a]], s + [index[b]])
  {
    var below := Chain(index, index[a].previous);
    Regroup(Chain(index, first), f, index[a], below);
    Regroup(Chain(index, second), s, index[b], below);
    DisjointMore(f, s, index[a], index[b]);
  }

  lemma Regroup(c: seq<Block>, f: seq<Block>, x: Block, below: seq<Block>)
    requires c == f + ([x] + below)
    ensures c == (f + [x]) + below && |f| < |c| && c[..|f + [x]|] == f + [x] && c[|f + [x]|..] == below
  {
  }

  lemma SplitAt(c: seq<Block>, f: seq<Block>, below: seq<Block>)
    requires c == f + below
    ensures |f| <= |c| && c[..|f|] == f && c[|f|..] == below
  {
  }

  lemma DisjointMore(f: seq<Block>, s: seq<Block>, a: Block, b: Block)
    requires Disjoint(f, s) && AllAbove(f, a.id.num) && AllAbove(s, b.id.num) && a.id.num == b.id.num && a.id != b.id
    ensures Disjoint(f + [a], s + [b])
  {
  }

  lemma KnownHeight(index: map<Id, Block>, root: Id, id: Id)
    requires Tree(index, root)
    ensures Known(index, root, id) ==> root.num <= id.num
  {
    if id in index {
      AboveRoot(index, root, id);
    }
  }

  /** What is left of the database while the root advances to `id`. */
  ghost predicate Pruned(whole: map<Id, Block>, index: map<Id, Block>, id: Id, tops: set<Id>) {
    && Linked(index, tops) && id !in index
    && (forall b :: b in index ==> b in whole && index[b] == whole[b])
    && (forall b :: b in whole && b != id && Descends(whole, id, b) ==> b in index)
  }

  lemma PruneStart(whole: map<Id, Block>, root: Id, id: Id)
    requires Tree(whole, root)
    ensures Pruned(whole, whole - {id}, id, {root, id})
  {
  }

  lemma PruneStep(whole: map<Id, Block>, index: map<Id, Block>, id: Id, tops: set<Id>, rest: set<Id>, p: Id, head: Id)
    requires Pruned(whole, index, id, tops) && p.num < id.num && tops - {p} <= rest <= tops
    ensures Pruned(whole, WithoutFork(index, p), id, rest)
    ensures Descends(whole, id, head) ==> !Descends(index, p, head)
  {
    WithoutForkLinked(index, tops, p);
    forall b | Descends(whole, id, b) ensures !Descends(index, p, b) {
      if Descends(index, p, b) {
        DescendsInWhole(index, whole - {id}, p, b);
        ChainCut(whole, whole - {id}, id, p, b);
      }
    }
  }

  lemma KeptIsDescent(whole: map<Id, Block>, index: map<Id, Block>, id: Id)
    requires Pruned(whole, index, id, {id})
    ensures forall b :: b in index <==> b in whole && b != id && Descends(whole, id, b)
  {
    forall b | b in index ensures Descends(whole, id, b) {
      AllFrom(index, id, b);
      DescendsInWhole(index, whole, id, b);
    }
  }

  /** Taking one block out leaves a tree exactly when nothing was built on it. */
  lemma LooseEnds(index: map<Id, Block>, root: Id, id: Id)
    requires Tree(index, root)
    ensures id in index ==> (Tree(index - {id}, root) <==> forall b :: b in index ==> index[b].previous != id)
  {
    if id in index {
      var rest := index - {id};
      if Tree(rest, root) {
        forall b | b in index ensures index[b].previous != id {
          if b != id {
            assert b in rest && rest[b] == index[b];
          }
        }
      }
    }
  }

  predicate NoRepeats(s: seq<Id>) {
    forall i, j :: 0 <= i < j < |s| ==> s[i] != s[j]
  }

  /** State of the breadth-first search below `id`: the first `done` entries of the
    * queue have had their children appended. */
  ghost predicate Collected(index: map<Id, Block>, id: Id, queue: seq<Id>, done: nat) {
    && done <= |queue| && queue != [] && queue[0] == id && NoRepeats(queue)
    && (forall b :: b in queue ==> Descends(index, id, b))
    && (forall k :: 1 <= k < |queue| ==> queue[k] in index && index[queue[k]].previous in queue[..done])
    && (forall b :: b in index && index[b].previous in queue[..done] ==> b in queue)
  }

  lemma QueueBound(index: map<Id, Block>, id: Id, queue: seq<Id>, done: nat)
    requires Collected(index, id, queue, done)
    ensures |queue| <= |index.Keys| + 1
  {
    NoRepeatsBound(queue[1..], index.Keys);
  }

  lemma {:induction false} NoRepeatsBound(s: seq<Id>, ids: set<Id>)
    requires NoRepeats(s) && forall x :: x in s ==> x in ids
    ensures |s| <= |ids|
  {
    if s != [] {
      NoRepeatsBound(s[1..], ids - {s[0]});
    }
  }

  lemma OneFurther(queue: seq<Id>, children: seq<Id>, i: nat)
    requires i < |queue|
    ensures (queue + children)[..i + 1] == queue[..i] + [queue[i]]
  {
  }

  lemma CollectChildren(index: map<Id, Block>, tops: set<Id>, id: Id, queue: seq<Id>, i: nat, children: seq<Id>)
    requires Linked(index, tops)
    requires Collected(index, id, queue, i) && i < |queue|
    requires NoRepeats(children) && forall c :: c in children <==> c in index && index[c].previous == queue[i]
    ensures Collected(index, id, queue + children, i + 1)
  {
    var next := queue + children;
    FreshChildren(index, tops, id, queue, i, children);
    OneFurther(queue, children, i);
    forall b | b in next ensures Descends(index, id, b) {
      if b !in queue {
        assert b in children && queue[i] in queue;
      }
    }
    forall k | 1 <= k < |next| ensures next[k] in index && index[next[k]].previous in next[..i + 1] {
      if k >= |queue| {
        assert next[k] in children;
      }
    }
  }

  /** No child of an entry not yet done is in the queue already. */
  lemma FreshChildren(index: map<Id, Block>, tops: set<Id>, id: Id, queue: seq<Id>, i: nat, children: seq<Id>)
    requires Linked(index, tops)
    requires Collected(index, id, queue, i) && i < |queue|
    requires NoRepeats(children) && forall c :: c in children <==> c in index && index[c].previous == queue[i]
    ensures NoRepeats(queue + children)
  {
    forall k, l | 0 <= k < |queue| && 0 <= l < |children| ensures queue[k] != children[l] {
      assert children[l] in children;
      if k == 0 {
        assert queue[i] in queue;
        NotBelow(index, id, queue[i]);
      } else {
        assert index[queue[k]].previous in queue[..i];
      }
    }
    JoinNoRepeats(queue, children);
  }

  lemma JoinNoRepeats(s: seq<Id>, t: seq<Id>)
    requires NoRepeats(s) && NoRepeats(t) && forall k, l :: 0 <= k < |s| && 0 <= l < |t| ==> s[k] != t[l]
    ensures NoRepeats(s + t)
  {
  }

  lemma AllCollected(index: map<Id, Block>, id: Id, queue: seq<Id>)
    requires Collected(index, id, queue, |queue|)
    ensures forall b :: Descends(index, id, b) <==> b in queue
  {
    assert queue[..|queue|] == queue;
    forall b | Descends(index, id, b) ensures b in queue {
      ClosedUnderChildren(index, id, (set x | x in queue), b);
    }
  }

  lemma TreeGrows(index: map<Id, Block>, root: Id, n: Block)
    requires Tree(index, root) && Numbered(n) && Known(index, root, n.previous)
    ensures Tree(index[n.id := n], root)
  {
    if n.previous in index {
      AboveRoot(index, root, n.previous);
    }
  }

  lemma NewFirst(index: map<Id, Block>, validated: set<Id>, ids: set<Id>, b: Block, c: Block)
    requires IsFirst(index, validated, ids, b) && c.id in index && index[c.id] == c && Before(validated, c, b)
    ensures IsFirst(index, validated, ids + {c.id}, c)
  {
    forall id | id in ids && id in index && id != c.id ensures Before(validated, c, index[id]) {
      if id != b.id {
        BeforeTransitive(validated, c, b, index[id]);
      }
    }
  }

  lemma NoneValid(index: map<Id, Block>, validated: set<Id>, b: Block)
    requires IsFirst(index, validated, index.Keys, b) && b.id !in validated && validated <= index.Keys
    requires forall id :: id in index ==> index[id].id == id
    ensures validated == {}
  {
    assert forall id :: id in index && id != b.id ==> id !in validated;
  }

  /** A validated head with a block on it: taking the head out alone leaves that block
    * without a predecessor. */
  method HeadWithChild() returns (db: ForkDatabase)
    ensures !Tree(db.index, db.root.id)
  {
    var root, a, b := Block(Id(1, 0), Id(0, 0), 0, []), Block(Id(2, 0), Id(1, 0), 0, []), Block(Id(3, 0), Id(2, 0), 0, []);
    db := new ForkDatabase(root);
    var added := db.Add(a, true, false);
    added := db.Add(b, false, false);
    assert db.head == a;
    var removed := db.RemoveHead(a.id);
    assert b.id in db.index;
  }

  /** A root with a higher irreversible block than its first validated successor: marking
    * that one valid leaves the head at the root, and the next block that is added takes the
    * head down to it. */
  method AddLowersHead() returns (db: ForkDatabase)
    ensures db.head.lib < db.root.lib
  {
    var root, a, b := Block(Id(1, 0), Id(0, 0), 1, []), Block(Id(2, 0), Id(1, 0), 0, []), Block(Id(3, 0), Id(2, 0), 0, []);
    db := new ForkDatabase(root);
    var r := db.Add(a, false, false);
    r := db.MarkValid(a, false);
    assert db.head == root;
    r := db.Add(b, false, false);
  }
}
