/** When actions run, told from the fields of their traces: who runs before whom in a
  * transaction, and what each receiver's code has scheduled. */
module ActionSequence {
  import opened ActionOrder
  import opened ActionReplay
  import opened Scheduler

  // ------------------------------------------------------------------- above and below

  /** z is x, or was sent or notified by way of something below x. */
  predicate Below(traces: seq<Trace>, x: nat, z: nat)
    decreases z
  {
    z == x || (0 < z <= |traces| && traces[z - 1].ancestor < z && Below(traces, x, traces[z - 1].ancestor))
  }

  lemma {:induction false} BelowLater(traces: seq<Trace>, x: nat, z: nat)
    requires Below(traces, x, z)
    ensures x <= z
    decreases z
  {
    if z != x {
      BelowLater(traces, x, traces[z - 1].ancestor);
    }
  }

  lemma {:induction false} BelowThrough(traces: seq<Trace>, x: nat, y: nat, z: nat)
    requires Below(traces, x, y) && Below(traces, y, z)
    ensures Below(traces, x, z)
    decreases z
  {
    if z != y {
      BelowThrough(traces, x, y, traces[z - 1].ancestor);
      BelowLater(traces, x, traces[z - 1].ancestor);
    }
  }

  predicate Child(traces: seq<Trace>, u: nat, x: nat) {
    u < x <= |traces| && traces[x - 1].ancestor == u
  }

  /** Nothing is below two siblings. */
  lemma {:induction false} Apart(traces: seq<Trace>, u: nat, x: nat, y: nat, z: nat)
    requires Child(traces, u, x) && Child(traces, u, y) && Below(traces, x, z) && Below(traces, y, z)
    ensures x == y
    decreases z
  {
    if z == x {
      if x != y {
        BelowLater(traces, y, u);
      }
    } else if z == y {
      BelowLater(traces, x, u);
    } else {
      Apart(traces, u, x, y, traces[z - 1].ancestor);
    }
  }

  /** The child by way of which z is below u. */
  lemma {:induction false} ByWayOf(traces: seq<Trace>, u: nat, z: nat) returns (x: nat)
    requires Below(traces, u, z) && z != u
    ensures Child(traces, u, x) && Below(traces, x, z)
    decreases z
  {
    if traces[z - 1].ancestor == u {
      x := z;
    } else {
      x := ByWayOf(traces, u, traces[z - 1].ancestor);
    }
  }

  // ------------------------------------------------------------------ places in the walk

  lemma {:induction false} KidsAre(traces: seq<Trace>, u: nat, k: Kind, x: nat)
    ensures x in Kids(traces, u, k) <==> Child(traces, u, x) && KindOf(traces[x - 1]) == k
    decreases |traces|
  {
    if traces != [] {
      var n := |traces| - 1;
      KidsAre(traces[..n], u, k, x);
      assert x <= n && x > 0 ==> traces[..n][x - 1] == traces[x - 1];
    }
  }

  /** All of the actions have one ancestor. */
  predicate Siblings(traces: seq<Trace>, u: nat, us: seq<nat>) {
    Increasing(us) && forall i :: 0 <= i < |us| ==> Child(traces, u, us[i])
  }

  lemma KidsSiblings(traces: seq<Trace>, u: nat, k: Kind)
    ensures Siblings(traces, u, Kids(traces, u, k))
  {
    KidsIncreasing(traces, u, k);
    forall i | 0 <= i < |Kids(traces, u, k)| ensures Child(traces, u, Kids(traces, u, k)[i]) {
      KidsAre(traces, u, k, Kids(traces, u, k)[i]);
    }
  }

  /** The walk below u stays below u. */
  lemma {:induction false} WalkBelow(traces: seq<Trace>, u: nat, i: nat)
    requires u <= |traces| && i < |Walk(traces, u)|
    ensures Below(traces, u, Walk(traces, u)[i]) && (i > 0 ==> Walk(traces, u)[i] > u)
    decreases |traces| - u, 1, 0
  {
    var w := Walk(traces, u);
    if i > 0 {
      var x := WalkKid(traces, u, i);
      BelowLater(traces, x, w[i]);
      BelowThrough(traces, u, x, w[i]);
    }
  }

  /** Every further place of the walk belongs to a child. */
  lemma {:induction false} WalkKid(traces: seq<Trace>, u: nat, i: nat) returns (x: nat)
    requires u <= |traces| && 0 < i < |Walk(traces, u)|
    ensures Child(traces, u, x) && Below(traces, x, Walk(traces, u)[i])
    decreases |traces| - u, 0, 1
  {
    var ns, cs, ss := Kids(traces, u, Notification), Kids(traces, u, ContextFree), Kids(traces, u, Inline);
    var c, s := WalkAll(traces, u, cs), WalkAll(traces, u, ss);
    var w := Walk(traces, u);
    if i < 1 + |ns| {
      x := ns[i - 1];
      KidsSiblings(traces, u, Notification);
    } else if i < 1 + |ns| + |c| {
      KidsSiblings(traces, u, ContextFree);
      var p := AllBelow(traces, u, cs, i - 1 - |ns|);
      x := cs[p];
    } else {
      KidsSiblings(traces, u, Inline);
      var p := AllBelow(traces, u, ss, i - 1 - |ns| - |c|);
      x := ss[p];
    }
  }

  lemma {:induction false} AllBelow(traces: seq<Trace>, below: nat, us: seq<nat>, i: nat) returns (p: nat)
    requires Between(us, below, |traces|) && i < |WalkAll(traces, below, us)|
    ensures p < |us| && Below(traces, us[p], WalkAll(traces, below, us)[i])
    decreases |traces| - below, 0, 0, |us|
  {
    if i < |Walk(traces, us[0])| {
      WalkBelow(traces, us[0], i);
      p := 0;
    } else {
      p := AllBelow(traces, below, us[1..], i - |Walk(traces, us[0])|);
      p := p + 1;
    }
  }

  /** The part of a walk over several actions that belongs to one of them, and everything
    * below that one is in it. */
  lemma SegmentOf(traces: seq<Trace>, below: nat, u: nat, us: seq<nat>, p: nat, i: nat) returns (off: nat)
    requires Between(us, below, |traces|) && Siblings(traces, u, us) && p < |us|
    requires i < |WalkAll(traces, below, us)| && Below(traces, us[p], WalkAll(traces, below, us)[i])
    ensures Between(us[..p], below, |traces|) && off == |WalkAll(traces, below, us[..p])| <= i < off + |Walk(traces, us[p])|
    ensures WalkAll(traces, below, us)[i] == Walk(traces, us[p])[i - off]
    ensures off + |Walk(traces, us[p])| <= |WalkAll(traces, below, us)|
  {
    var a, b, c := WalkAll(traces, below, us[..p]), Walk(traces, us[p]), WalkAll(traces, below, us[p + 1..]);
    SplitWalk(traces, below, us, p);
    off := |a|;
    if i < |a| {
      var q := AllBelow(traces, below, us[..p], i);
      Apart(traces, u, us[p], us[q], a[i]);
    } else if i >= |a| + |b| {
      var q := AllBelow(traces, below, us[p + 1..], i - |a| - |b|);
      Apart(traces, u, us[p], us[p + 1 + q], c[i - |a| - |b|]);
    }
  }

  lemma SplitWalk(traces: seq<Trace>, below: nat, us: seq<nat>, p: nat)
    requires Between(us, below, |traces|) && p < |us|
    ensures WalkAll(traces, below, us) == WalkAll(traces, below, us[..p]) + Walk(traces, us[p]) + WalkAll(traces, below, us[p + 1..])
  {
    assert us == us[..p] + us[p..] && us[p..][1..] == us[p + 1..];
    WalkAllAppend(traces, below, us[..p], us[p..]);
  }

  /** Earlier actions of a list have their parts first. */
  lemma SegmentsInOrder(traces: seq<Trace>, below: nat, us: seq<nat>, p: nat, q: nat)
    requires Between(us, below, |traces|) && p < q < |us|
    ensures |WalkAll(traces, below, us[..p])| + |Walk(traces, us[p])| <= |WalkAll(traces, below, us[..q])|
  {
    SplitWalk(traces, below, us[..q], p);
    assert us[..q][..p] == us[..p];
  }

  /** Two siblings of a list: all below the first comes before all below the second. */
  lemma SiblingsInOrder(traces: seq<Trace>, below: nat, u: nat, us: seq<nat>, x: nat, y: nat, i: nat, j: nat)
    requires Between(us, below, |traces|) && Siblings(traces, u, us) && x in us && y in us && x < y
    requires i < |WalkAll(traces, below, us)| && Below(traces, x, WalkAll(traces, below, us)[i])
    requires j < |WalkAll(traces, below, us)| && Below(traces, y, WalkAll(traces, below, us)[j])
    ensures i < j
  {
    var p :| 0 <= p < |us| && us[p] == x;
    var q :| 0 <= q < |us| && us[q] == y;
    var a := SegmentOf(traces, below, u, us, p, i);
    var b := SegmentOf(traces, below, u, us, q, j);
    assert p < q;
    SegmentsInOrder(traces, below, us, p, q);
  }

  // ------------------------------------------------------------- the children of an action

  predicate Notified(t: Trace) {
    t.receiver != t.action.account
  }

  /** Of two children: notifications before sent actions, context-free ones among these
    * first, and otherwise the one that was scheduled first. */
  predicate Sooner(s: Trace, x: nat, t: Trace, y: nat) {
    if Notified(s) != Notified(t) then Notified(s)
    else if !Notified(s) && s.contextFree != t.contextFree then s.contextFree
    else x < y
  }

  /** The part of a walk that children of one kind make. */
  function PartOf(traces: seq<Trace>, u: nat, k: Kind): seq<nat>
    requires u <= |traces|
  {
    if k == Notification then Kids(traces, u, k) else WalkAll(traces, u, Kids(traces, u, k))
  }

  /** Where it starts. */
  function Start(traces: seq<Trace>, u: nat, k: Kind): nat
    requires u <= |traces|
  {
    1 + (if k == Notification then 0 else |PartOf(traces, u, Notification)|) + (if k == Inline then |PartOf(traces, u, ContextFree)| else 0)
  }

  lemma PlaceOf(traces: seq<Trace>, u: nat, i: nat) returns (k: Kind)
    requires u <= |traces| && 0 < i < |Walk(traces, u)|
    ensures Start(traces, u, k) <= i < Start(traces, u, k) + |PartOf(traces, u, k)|
    ensures Walk(traces, u)[i] == PartOf(traces, u, k)[i - Start(traces, u, k)]
  {
    var ns, c := |PartOf(traces, u, Notification)|, |PartOf(traces, u, ContextFree)|;
    k := if i < 1 + ns then Notification else if i < 1 + ns + c then ContextFree else Inline;
  }

  /** Where in the walk of its parent the actions below a child stand. */
  lemma ChildPlace(traces: seq<Trace>, u: nat, x: nat, i: nat)
    requires Child(traces, u, x) && i < |Walk(traces, u)| && Below(traces, x, Walk(traces, u)[i])
    ensures var k := KindOf(traces[x - 1]);
            && Start(traces, u, k) <= i < Start(traces, u, k) + |PartOf(traces, u, k)|
            && Walk(traces, u)[i] == PartOf(traces, u, k)[i - Start(traces, u, k)]
  {
    if i == 0 {
      BelowLater(traces, x, u);
    } else {
      var k := PlaceOf(traces, u, i);
      KidOf(traces, u, k, x, PartOf(traces, u, k), i - Start(traces, u, k));
    }
  }

  lemma KidOf(traces: seq<Trace>, u: nat, k: Kind, x: nat, part: seq<nat>, i: nat)
    requires Child(traces, u, x) && part == PartOf(traces, u, k) && i < |part| && Below(traces, x, part[i])
    ensures KindOf(traces[x - 1]) == k
  {
    var us := Kids(traces, u, k);
    var p := i;
    if k != Notification {
      p := AllBelow(traces, u, us, i);
    }
    KidsAre(traces, u, k, us[p]);
    Apart(traces, u, x, us[p], part[i]);
  }

  /** All that is below the one child comes before all that is below the other. */
  lemma ChildrenInOrder(traces: seq<Trace>, u: nat, x: nat, y: nat, i: nat, j: nat)
    requires Child(traces, u, x) && Child(traces, u, y) && Sooner(traces[x - 1], x, traces[y - 1], y)
    requires i < |Walk(traces, u)| && Below(traces, x, Walk(traces, u)[i])
    requires j < |Walk(traces, u)| && Below(traces, y, Walk(traces, u)[j])
    ensures i < j
  {
    ChildPlace(traces, u, x, i);
    ChildPlace(traces, u, y, j);
    PlacesInOrder(traces, u, KindOf(traces[x - 1]), KindOf(traces[y - 1]), x, y, i, j,
                  PartOf(traces, u, KindOf(traces[x - 1])), PartOf(traces, u, KindOf(traces[y - 1])));
  }

  lemma PlacesInOrder(traces: seq<Trace>, u: nat, k: Kind, l: Kind, x: nat, y: nat, i: nat, j: nat, part: seq<nat>, later: seq<nat>)
    requires Child(traces, u, x) && Child(traces, u, y) && Sooner(traces[x - 1], x, traces[y - 1], y)
    requires KindOf(traces[x - 1]) == k && KindOf(traces[y - 1]) == l && part == PartOf(traces, u, k) && later == PartOf(traces, u, l)
    requires Start(traces, u, k) <= i < Start(traces, u, k) + |part| && Below(traces, x, part[i - Start(traces, u, k)])
    requires Start(traces, u, l) <= j < Start(traces, u, l) + |later| && Below(traces, y, later[j - Start(traces, u, l)])
    ensures i < j
  {
    if k == l {
      SameKindInOrder(traces, u, k, part, x, y, i - Start(traces, u, k), j - Start(traces, u, k));
    } else {
      StartsInOrder(traces, u, k, l);
    }
  }

  lemma SameKindInOrder(traces: seq<Trace>, u: nat, k: Kind, part: seq<nat>, x: nat, y: nat, i: nat, j: nat)
    requires Child(traces, u, x) && Child(traces, u, y) && x < y && KindOf(traces[x - 1]) == k == KindOf(traces[y - 1])
    requires part == PartOf(traces, u, k) && i < |part| && Below(traces, x, part[i]) && j < |part| && Below(traces, y, part[j])
    ensures i < j
  {
    if k == Notification {
      NotifiedInOrder(traces, u, x, y, i, j);
    } else {
      SentInOrder(traces, u, k, x, y, i, j);
    }
  }

  lemma StartsInOrder(traces: seq<Trace>, u: nat, k: Kind, l: Kind)
    requires u <= |traces| && k != l && (k == Notification || l == Inline)
    ensures Start(traces, u, k) + |PartOf(traces, u, k)| <= Start(traces, u, l)
  {
  }

  lemma NotifiedInOrder(traces: seq<Trace>, u: nat, x: nat, y: nat, i: nat, j: nat)
    requires Child(traces, u, x) && Child(traces, u, y) && x < y
    requires i < |Kids(traces, u, Notification)| && Below(traces, x, Kids(traces, u, Notification)[i])
    requires j < |Kids(traces, u, Notification)| && Below(traces, y, Kids(traces, u, Notification)[j])
    ensures i < j
  {
    var ns := Kids(traces, u, Notification);
    KidsSiblings(traces, u, Notification);
    Apart(traces, u, x, ns[i], ns[i]);
    Apart(traces, u, y, ns[j], ns[j]);
  }

  lemma SentInOrder(traces: seq<Trace>, u: nat, k: Kind, x: nat, y: nat, i: nat, j: nat)
    requires Child(traces, u, x) && Child(traces, u, y) && x < y && KindOf(traces[x - 1]) == k == KindOf(traces[y - 1])
    requires i < |WalkAll(traces, u, Kids(traces, u, k))| && Below(traces, x, WalkAll(traces, u, Kids(traces, u, k))[i])
    requires j < |WalkAll(traces, u, Kids(traces, u, k))| && Below(traces, y, WalkAll(traces, u, Kids(traces, u, k))[j])
    ensures i < j
  {
    KidsSiblings(traces, u, k);
    KidsAre(traces, u, k, x);
    KidsAre(traces, u, k, y);
    SiblingsInOrder(traces, u, u, Kids(traces, u, k), x, y, i, j);
  }

  // ----------------------------------------------------------------- the whole transaction

  /** Ancestors come before what they lead to, and none is a notification. */
  predicate Forest(traces: seq<Trace>) {
    forall i :: 0 <= i < |traces| ==>
      traces[i].ancestor <= i && (traces[i].ancestor > 0 ==> !Notified(traces[traces[i].ancestor - 1]))
  }

  lemma {:induction false} LeadsDown(traces: seq<Trace>, x: nat, z: nat)
    requires Forest(traces) && Below(traces, x, z) && z != x && x > 0
    ensures x <= |traces| && !Notified(traces[x - 1])
    decreases z
  {
    if traces[z - 1].ancestor != x {
      LeadsDown(traces, x, traces[z - 1].ancestor);
    }
    BelowLater(traces, x, z);
  }

  /** z stands at place i of the walk of v. */
  predicate At(traces: seq<Trace>, v: nat, i: nat, z: nat) {
    v <= |traces| && i < |Walk(traces, v)| && Walk(traces, v)[i] == z
  }

  lemma KidAt(traces: seq<Trace>, u: nat, k: Kind, x: nat) returns (p: nat)
    requires Child(traces, u, x) && KindOf(traces[x - 1]) == k
    ensures p < |Kids(traces, u, k)| && Kids(traces, u, k)[p] == x && Between(Kids(traces, u, k)[..p], u, |traces|)
  {
    KidsAre(traces, u, k, x);
    p :| 0 <= p < |Kids(traces, u, k)| && Kids(traces, u, k)[p] == x;
  }

  lemma ChildAt(traces: seq<Trace>, u: nat, x: nat, k: Kind, p: nat, i: nat, z: nat) returns (off: nat)
    requires Child(traces, u, x) && KindOf(traces[x - 1]) == k != Notification && p < |Kids(traces, u, k)| && Kids(traces, u, k)[p] == x
    requires At(traces, u, i, z) && Below(traces, x, z) && Between(Kids(traces, u, k)[..p], u, |traces|)
    ensures off == Start(traces, u, k) + |WalkAll(traces, u, Kids(traces, u, k)[..p])| <= i && At(traces, x, i - off, z)
  {
    KidsSiblings(traces, u, k);
    ChildPlace(traces, u, x, i);
    var a := SegmentOf(traces, u, u, Kids(traces, u, k), p, i - Start(traces, u, k));
    off := Start(traces, u, k) + a;
  }

  /** All below a sent child stands in one part of its parent's walk, and that is the
    * child's own walk. */
  lemma ChildPart(traces: seq<Trace>, u: nat, x: nat, i: nat, z: nat, j: nat, z': nat) returns (off: nat)
    requires Child(traces, u, x) && !Notified(traces[x - 1])
    requires At(traces, u, i, z) && Below(traces, x, z) && At(traces, u, j, z') && Below(traces, x, z')
    ensures off <= i && At(traces, x, i - off, z) && off <= j && At(traces, x, j - off, z')
  {
    var k := KindOf(traces[x - 1]);
    var p := KidAt(traces, u, k, x);
    off := ChildAt(traces, u, x, k, p, i, z);
    var again := ChildAt(traces, u, x, k, p, j, z');
  }

  /** One step towards u: the child of v by way of which it is below v. */
  lemma StepDown(traces: seq<Trace>, v: nat, u: nat, i: nat, z: nat, j: nat, z': nat) returns (c: nat, off: nat)
    requires Forest(traces) && v < u <= |traces| && Below(traces, v, u) && !Notified(traces[u - 1])
    requires At(traces, v, i, z) && Below(traces, u, z) && At(traces, v, j, z') && Below(traces, u, z')
    ensures v < c && Below(traces, c, u) && off <= i && At(traces, c, i - off, z) && off <= j && At(traces, c, j - off, z')
  {
    c := ByWayOf(traces, v, u);
    if c != u {
      LeadsDown(traces, c, u);
    }
    BelowThrough(traces, c, u, z);
    BelowThrough(traces, c, u, z');
    off := ChildPart(traces, v, c, i, z, j, z');
  }

  lemma {:induction false} WalkInOrder(traces: seq<Trace>, v: nat, u: nat, x: nat, y: nat, i: nat, z: nat, j: nat, z': nat)
    requires Forest(traces) && Below(traces, v, u) && u > 0
    requires Child(traces, u, x) && Child(traces, u, y) && Sooner(traces[x - 1], x, traces[y - 1], y)
    requires At(traces, v, i, z) && Below(traces, x, z) && At(traces, v, j, z') && Below(traces, y, z')
    ensures i < j
    decreases |traces| - v
  {
    if v == u {
      ChildrenInOrder(traces, u, x, y, i, j);
    } else {
      BelowLater(traces, v, u);
      BelowThrough(traces, u, x, z);
      BelowThrough(traces, u, y, z');
      var c, off := StepDown(traces, v, u, i, z, j, z');
      WalkInOrder(traces, c, u, x, y, i - off, z, j - off, z');
    }
  }

  lemma {:induction false} WalkTopDown(traces: seq<Trace>, v: nat, x: nat, i: nat, j: nat, z: nat)
    requires Forest(traces) && Below(traces, v, x) && x > 0
    requires At(traces, v, i, x) && At(traces, v, j, z) && Below(traces, x, z) && z != x
    ensures i < j
    decreases |traces| - v
  {
    if v == x {
      WalkBelow(traces, v, i);
    } else {
      BelowLater(traces, v, x);
      LeadsDown(traces, x, z);
      var c, off := StepDown(traces, v, x, i, x, j, z);
      WalkTopDown(traces, c, x, i - off, j - off, z);
    }
  }

  // -------------------------------------------------------------- what was executed when

  /** The actions that are executed are a beginning of the walk over all that was scheduled. */
  lemma ExecutedWalk(rules: Rules, roots: seq<Trace>, traces: seq<Trace>, executed: seq<nat>, r: Status)
    requires Complete(rules, roots, traces, executed, r)
    ensures Prefix(executed, WalkAll(traces, 0, UpTo(|roots|)))
  {
    var walk := WalkAll(traces, 0, UpTo(|roots|));
    if r.Done? {
      assert executed == walk;
    } else {
      assert Prefix(executed + [r.at], [] + walk) && [] + walk == walk;
      assert walk[..|executed|] == (executed + [r.at])[..|executed|];
    }
  }

  lemma ForestOf(traces: seq<Trace>)
    requires WellFormed(traces)
    ensures Forest(traces)
  {
    forall i | 0 <= i < |traces|
      ensures traces[i].ancestor <= i && (traces[i].ancestor > 0 ==> !Notified(traces[traces[i].ancestor - 1]))
    {
      assert Linked(traces, i);
    }
  }

  lemma {:induction false} BelowAll(traces: seq<Trace>, z: nat)
    requires Forest(traces) && z <= |traces|
    ensures Below(traces, 0, z)
    decreases z
  {
    if z > 0 {
      BelowAll(traces, traces[z - 1].ancestor);
    }
  }

  lemma RootsAreSiblings(roots: seq<Trace>, traces: seq<Trace>)
    requires |roots| <= |traces| && traces[..|roots|] == roots && forall i :: 0 <= i < |roots| ==> roots[i].ancestor == 0
    ensures Between(UpTo(|roots|), 0, |traces|) && Siblings(traces, 0, UpTo(|roots|))
  {
    forall i | 0 <= i < |roots| ensures Child(traces, 0, UpTo(|roots|)[i]) {
      assert traces[i] == roots[i];
    }
  }

  /** z stands at place i of the walk over the roots. */
  predicate AtAll(traces: seq<Trace>, us: seq<nat>, i: nat, z: nat) {
    Between(us, 0, |traces|) && i < |WalkAll(traces, 0, us)| && WalkAll(traces, 0, us)[i] == z
  }

  /** The root by way of which an action was executed. */
  lemma RootOf(traces: seq<Trace>, us: seq<nat>, u: nat, i: nat, z: nat) returns (p: nat)
    requires Forest(traces) && Siblings(traces, 0, us) && 0 < u <= |traces| && AtAll(traces, us, i, z) && Below(traces, u, z)
    ensures p < |us| && Below(traces, us[p], u)
  {
    BelowAll(traces, u);
    var c := ByWayOf(traces, 0, u);
    BelowThrough(traces, c, u, z);
    p := AllBelow(traces, 0, us, i);
    Apart(traces, 0, c, us[p], z);
  }

  lemma RootPart(traces: seq<Trace>, us: seq<nat>, u: nat, p: nat, i: nat, z: nat) returns (off: nat)
    requires Siblings(traces, 0, us) && p < |us| && Below(traces, us[p], u) && AtAll(traces, us, i, z) && Below(traces, u, z)
    ensures Between(us[..p], 0, |traces|) && off == |WalkAll(traces, 0, us[..p])| <= i && At(traces, us[p], i - off, z)
  {
    BelowThrough(traces, us[p], u, z);
    off := SegmentOf(traces, 0, 0, us, p, i);
  }

  lemma RootOfBoth(traces: seq<Trace>, us: seq<nat>, u: nat, i: nat, z: nat, j: nat, z': nat) returns (c: nat, off: nat)
    requires Forest(traces) && Siblings(traces, 0, us) && 0 < u <= |traces|
    requires AtAll(traces, us, i, z) && Below(traces, u, z) && AtAll(traces, us, j, z') && Below(traces, u, z')
    ensures Below(traces, c, u) && off <= i && At(traces, c, i - off, z) && off <= j && At(traces, c, j - off, z')
  {
    var p := RootOf(traces, us, u, i, z);
    off := RootPart(traces, us, u, p, i, z);
    var again := RootPart(traces, us, u, p, j, z');
    c := us[p];
  }

  lemma RootsInOrder(contextFreeActions: seq<Action>, actions: seq<Action>, traces: seq<Trace>, x: nat, y: nat)
    requires var roots := RootTraces(contextFreeActions, true) + RootTraces(actions, false);
             |roots| <= |traces| && traces[..|roots|] == roots && 0 < x <= |roots| && 0 < y <= |roots|
    requires Sooner(traces[x - 1], x, traces[y - 1], y)
    ensures x < y
  {
    var roots := RootTraces(contextFreeActions, true) + RootTraces(actions, false);
    assert traces[x - 1] == roots[x - 1] && traces[y - 1] == roots[y - 1];
  }

  /** The order of a transaction. Of two actions with one ancestor, the transaction itself
    * among these, everything below the first is executed before everything below the
    * second: notifications are before sent actions, context-free actions among these before
    * the others, and otherwise what was scheduled first is first. */
  lemma ExecutionOrder(rules: Rules, contextFreeActions: seq<Action>, actions: seq<Action>, traces: seq<Trace>, executed: seq<nat>, r: Status,
                       x: nat, y: nat, i: nat, j: nat)
    requires WellFormed(traces) && Complete(rules, RootTraces(contextFreeActions, true) + RootTraces(actions, false), traces, executed, r)
    requires 0 < x <= |traces| && 0 < y <= |traces| && traces[x - 1].ancestor == traces[y - 1].ancestor
    requires var s, t := traces[x - 1], traces[y - 1];
             if (s.receiver == s.action.account) != (t.receiver == t.action.account) then t.receiver == t.action.account
             else if s.receiver == s.action.account && s.contextFree != t.contextFree then s.contextFree
             else x < y
    requires i < |executed| && Below(traces, x, executed[i]) && j < |executed| && Below(traces, y, executed[j])
    ensures i < j
  {
    var roots := RootTraces(contextFreeActions, true) + RootTraces(actions, false);
    var us, u := UpTo(|roots|), traces[x - 1].ancestor;
    ForestOf(traces);
    ExecutedWalk(rules, roots, traces, executed, r);
    RootsAreSiblings(roots, traces);
    var walk := WalkAll(traces, 0, us);
    assert executed[i] == walk[i] && executed[j] == walk[j];
    if u == 0 {
      var p := RootOf(traces, us, x, i, executed[i]);
      var q := RootOf(traces, us, y, j, executed[j]);
      Apart(traces, 0, us[p], x, x);
      Apart(traces, 0, us[q], y, y);
      RootsInOrder(contextFreeActions, actions, traces, x, y);
      SiblingsInOrder(traces, 0, 0, us, x, y, i, j);
    } else {
      SentOrder(traces, us, u, x, y, i, executed[i], j, executed[j]);
    }
  }

  lemma SentOrder(traces: seq<Trace>, us: seq<nat>, u: nat, x: nat, y: nat, i: nat, z: nat, j: nat, z': nat)
    requires Forest(traces) && Siblings(traces, 0, us) && u > 0
    requires Child(traces, u, x) && Child(traces, u, y) && Sooner(traces[x - 1], x, traces[y - 1], y)
    requires AtAll(traces, us, i, z) && Below(traces, x, z) && AtAll(traces, us, j, z') && Below(traces, y, z')
    ensures i < j
  {
    BelowThrough(traces, u, x, z);
    BelowThrough(traces, u, y, z');
    var c, off := RootOfBoth(traces, us, u, i, z, j, z');
    WalkInOrder(traces, c, u, x, y, i - off, z, j - off, z');
  }

  /** No action is executed before the one it was sent or notified by way of. */
  lemma TopDown(rules: Rules, roots: seq<Trace>, traces: seq<Trace>, executed: seq<nat>, r: Status, i: nat, j: nat)
    requires WellFormed(traces) && Complete(rules, roots, traces, executed, r) && Roots(roots)
    requires i < |executed| && j < |executed| && 0 < executed[i] <= |traces|
    requires Below(traces, executed[i], executed[j]) && executed[i] != executed[j]
    ensures i < j
  {
    var us := UpTo(|roots|);
    ForestOf(traces);
    ExecutedWalk(rules, roots, traces, executed, r);
    RootsAreSiblings(roots, traces);
    assert executed[i] == WalkAll(traces, 0, us)[i] && executed[j] == WalkAll(traces, 0, us)[j];
    TopDownIn(traces, us, executed[i], i, j, executed[j]);
  }

  lemma TopDownIn(traces: seq<Trace>, us: seq<nat>, x: nat, i: nat, j: nat, z: nat)
    requires Forest(traces) && Siblings(traces, 0, us) && 0 < x <= |traces|
    requires AtAll(traces, us, i, x) && AtAll(traces, us, j, z) && Below(traces, x, z) && z != x
    ensures i < j
  {
    var c, off := RootOfBoth(traces, us, x, i, x, j, z);
    WalkTopDown(traces, c, x, i - off, j - off, z);
  }

  // ------------------------------------------------------------------- what was scheduled

  /** The action that is being run: the one a notification tells of, or x itself. */
  function About(traces: seq<Trace>, x: nat): nat
    requires 0 < x <= |traces|
  {
    if Notified(traces[x - 1]) then traces[x - 1].ancestor else x
  }

  /** Somebody who received action u, or was notified of it, among the first `top`. */
  predicate Knows(traces: seq<Trace>, u: nat, top: nat, name: nat) {
    || (0 < u <= |traces| && traces[u - 1].receiver == name)
    || exists i :: 0 <= i < top && i < |traces| && traces[i].ancestor == u && Notified(traces[i]) && traces[i].receiver == name
  }

  /** One call when n actions are scheduled: an action that is sent, or a notification of an
    * account that does not know yet, is the next one; its creator is x. */
  predicate CallMade(traces: seq<Trace>, x: nat, call: Call, n: nat, n': nat)
    requires 0 < x <= |traces|
  {
    match call
    case SendInline(a) => n < n' == n + 1 <= |traces| && traces[n] == Trace(a, a.account, false, x, About(traces, x))
    case SendContextFree(a) => n < n' == n + 1 <= |traces| && traces[n] == Trace(a, a.account, true, x, About(traces, x))
    case Notify(name) =>
      if Knows(traces, About(traces, x), n, name) then n' == n
      else n < n' == n + 1 <= |traces| && traces[n] == Trace(traces[x - 1].action, name, false, x, About(traces, x))
  }

  lemma ToldIsKnows(t: seq<Trace>, traces: seq<Trace>, u: nat, name: nat)
    requires |t| <= |traces| && traces[..|t|] == t && 0 < u <= |t|
    ensures Told(t, u, name) <==> Knows(traces, u, |t|, name)
  {
    assert forall i :: 0 <= i < |t| ==> t[i] == traces[i];
  }

  /** The calls of one receiver, one after the other. */
  lemma {:induction false} CallsMade(t: seq<Trace>, traces: seq<Trace>, x: nat, calls: seq<Call>) returns (tops: seq<nat>)
    requires 0 < x <= |t| <= |traces| && 0 < About(traces, x) <= |t|
    requires var next := t + CallTraces(t, About(traces, x), x, calls); |next| <= |traces| && traces[..|next|] == next
    ensures |tops| == |calls| + 1 && tops[0] == |t| && tops[|calls|] == |t| + |CallTraces(t, About(traces, x), x, calls)|
    ensures forall c :: 0 <= c < |calls| ==> CallMade(traces, x, calls[c], tops[c], tops[c + 1])
    decreases |calls|
  {
    if calls == [] {
      tops := [|t|];
    } else {
      var u := About(traces, x);
      var made := CallTrace(t, u, x, calls[0]);
      var next := t + CallTraces(t, u, x, calls);
      assert next == (t + made) + CallTraces(t + made, u, x, calls[1..]);
      assert traces[..|t + made|] == traces[..|next|][..|t + made|] == t + made;
      var more := CallsMade(t + made, traces, x, calls[1..]);
      tops := [|t|] + more;
      FirstCallMade(t, traces, x, calls[0]);
      assert forall c :: 0 < c < |calls| ==> calls[c] == calls[1..][c - 1] && tops[c] == more[c - 1];
    }
  }

  lemma FirstCallMade(t: seq<Trace>, traces: seq<Trace>, x: nat, call: Call)
    requires 0 < x <= |t| <= |traces| && 0 < About(traces, x) <= |t|
    requires var next := t + CallTrace(t, About(traces, x), x, call); |next| <= |traces| && traces[..|next|] == next
    ensures CallMade(traces, x, call, |t|, |t| + |CallTrace(t, About(traces, x), x, call)|)
  {
    var u := About(traces, x);
    var next := t + CallTrace(t, u, x, call);
    assert traces[..|t|] == traces[..|next|][..|t|] == t;
    assert forall i :: 0 <= i < |next| ==> traces[i] == next[i];
    if call.Notify? {
      ToldIsKnows(t, traces, u, call.recipient);
    }
  }

  /** The code of the receiver of x, run when i actions were executed before, schedules what
    * its calls say, one after the other; without an account nothing is scheduled. */
  ghost predicate RunMade(rules: Rules, traces: seq<Trace>, x: nat, i: nat, n: nat, n': nat) {
    && 0 < x <= n <= |traces|
    && if traces[x - 1].receiver !in rules.accounts then n' == n
       else
         var calls := rules.handler(i, traces[x - 1].receiver, traces[x - 1].action).calls;
         exists tops: seq<nat> ::
           && |tops| == |calls| + 1 && tops[0] == n && tops[|calls|] == n'
           && forall c :: 0 <= c < |calls| ==> CallMade(traces, x, calls[c], tops[c], tops[c + 1])
  }

  lemma SegmentMade(rules: Rules, t: seq<Trace>, traces: seq<Trace>, x: nat, i: nat)
    requires WellFormed(traces) && 0 < x <= |t|
    requires var next := t + Segment(rules, t, x, i); |next| <= |traces| && traces[..|next|] == next
    ensures RunMade(rules, traces, x, i, |t|, |t| + |Segment(rules, t, x, i)|)
  {
    var next := t + Segment(rules, t, x, i);
    assert traces[..|t|] == traces[..|next|][..|t|] == t;
    assert traces[x - 1] == t[x - 1];
    assert Linked(traces, x - 1);
    if traces[x - 1].receiver in rules.accounts {
      var calls := rules.handler(i, traces[x - 1].receiver, traces[x - 1].action).calls;
      var tops := CallsMade(t, traces, x, calls);
    }
  }

  ghost predicate AllMade(rules: Rules, traces: seq<Trace>, run: seq<nat>, i: nat, starts: seq<nat>) {
    && |starts| == |run| + 1 && starts[|run|] == |traces|
    && forall k :: 0 <= k < |run| ==> RunMade(rules, traces, run[k], i + k, starts[k], starts[k + 1])
  }

  lemma MadeFront(rules: Rules, traces: seq<Trace>, x: nat, run: seq<nat>, i: nat, n: nat, more: seq<nat>)
    requires AllMade(rules, traces, run, i + 1, more) && RunMade(rules, traces, x, i, n, more[0])
    ensures AllMade(rules, traces, [x] + run, i, [n] + more)
  {
    forall k | 0 <= k < |run| + 1 ensures RunMade(rules, traces, ([x] + run)[k], i + k, ([n] + more)[k], ([n] + more)[k + 1]) {
      if k > 0 {
        assert RunMade(rules, traces, run[k - 1], i + 1 + (k - 1), more[k - 1], more[k]);
      }
    }
  }

  lemma {:induction false} ReplayMade(rules: Rules, t0: seq<Trace>, order: seq<nat>, i: nat, traces: seq<Trace>, r: Status) returns (starts: seq<nat>)
    requires WellFormed(traces) && Replays(rules, t0, order, i, traces, r)
    ensures AllMade(rules, traces, AllRun(order, r), i, starts) && starts[0] == |t0|
    decreases |order|
  {
    if order != [] {
      var next := FirstMade(rules, t0, order, i, traces, r);
      var more := ReplayMade(rules, next, order[1..], i + 1, traces, r);
      MadeFront(rules, traces, order[0], AllRun(order[1..], r), i, |t0|, more);
      starts := [|t0|] + more;
      assert AllRun(order, r) == [order[0]] + AllRun(order[1..], r);
    } else {
      starts := LastMade(rules, t0, i, traces, r);
    }
  }

  lemma FirstMade(rules: Rules, t0: seq<Trace>, order: seq<nat>, i: nat, traces: seq<Trace>, r: Status) returns (next: seq<Trace>)
    requires WellFormed(traces) && Replays(rules, t0, order, i, traces, r) && order != []
    ensures Replays(rules, next, order[1..], i + 1, traces, r) && RunMade(rules, traces, order[0], i, |t0|, |next|)
  {
    next := t0 + Segment(rules, t0, order[0], i);
    ReplaysExtends(rules, next, order[1..], i + 1, traces, r);
    SegmentMade(rules, t0, traces, order[0], i);
  }

  lemma LastMade(rules: Rules, t0: seq<Trace>, i: nat, traces: seq<Trace>, r: Status) returns (starts: seq<nat>)
    requires WellFormed(traces) && Replays(rules, t0, [], i, traces, r)
    ensures AllMade(rules, traces, AllRun([], r), i, starts) && starts[0] == |t0|
  {
    starts := [|t0|];
    if r.Failed? {
      assert traces[..|traces|] == traces;
      SegmentMade(rules, t0, traces, r.at, i);
      starts := [|t0|, |traces|];
    }
  }

  /** All that a transaction schedules besides its own actions: what the code of the
    * executed actions calls for, action by action in the order of execution, the one that
    * failed last, and call by call. */
  lemma ScheduledInOrder(rules: Rules, roots: seq<Trace>, traces: seq<Trace>, executed: seq<nat>, r: Status) returns (starts: seq<nat>)
    requires WellFormed(traces) && Complete(rules, roots, traces, executed, r)
    ensures var run := executed + if r.Failed? then [r.at] else [];
            && |starts| == |run| + 1 && starts[0] == |roots| && starts[|run|] == |traces|
            && forall k :: 0 <= k < |run| ==> RunMade(rules, traces, run[k], k, starts[k], starts[k + 1])
  {
    assert executed[0..] == executed;
    starts := ReplayMade(rules, roots, executed, 0, traces, r);
  }

  /** Each action that counts as executed has a receiver that is an account and code that
    * went well; the one a run fails at has not; a run without failure executed everything. */
  lemma EndsWhere(rules: Rules, roots: seq<Trace>, traces: seq<Trace>, executed: seq<nat>, r: Status)
    requires Complete(rules, roots, traces, executed, r)
    ensures forall i :: 0 <= i < |executed| ==> WentWell(rules, traces, executed[i], i)
    ensures r.Failed? ==> 0 < r.at <= |traces| && !WentWell(rules, traces, r.at, |executed|)
    ensures r.Done? ==> |executed| == |traces| && forall v :: 0 < v <= |traces| ==> v in executed
  {
    assert executed[0..] == executed;
    EndsBy(rules, roots, traces, executed, r);
  }

  /** The receiver of action v is an account whose code ends without an error. */
  predicate WentWell(rules: Rules, traces: seq<Trace>, v: nat, before: nat) {
    && 0 < v <= |traces| && traces[v - 1].receiver in rules.accounts
    && rules.handler(before, traces[v - 1].receiver, traces[v - 1].action).ok
  }

  lemma EndsBy(rules: Rules, roots: seq<Trace>, traces: seq<Trace>, executed: seq<nat>, r: Status)
    requires Replays(rules, roots, executed, 0, traces, r)
    ensures forall i :: 0 <= i < |executed| ==> WentWell(rules, traces, executed[i], i)
    ensures r.Failed? ==> 0 < r.at <= |traces| && !WentWell(rules, traces, r.at, |executed|)
  {
    ReplaysMeans(rules, roots, executed, 0, traces, r);
    forall i | 0 <= i < |executed| ensures WentWell(rules, traces, executed[i], i) {
      assert Succeeds(rules, traces, executed[i], 0 + i);
    }
  }

  /** How deep an action is nested: as many sent actions lead to it from one of the
    * transaction's own. */
  lemma {:induction false} DepthOfPath(traces: seq<Trace>, path: seq<nat>)
    requires path != [] && forall k :: 0 <= k < |path| ==> 0 < path[k] <= |traces| && !Notified(traces[path[k] - 1])
    requires traces[path[0] - 1].ancestor == 0
    requires forall k :: 0 < k < |path| ==> path[k - 1] < path[k] && traces[path[k] - 1].ancestor == path[k - 1]
    ensures Depth(traces, path[|path| - 1]) == |path| - 1
    decreases |path|
  {
    if |path| > 1 {
      DepthOfPath(traces, path[..|path| - 1]);
    }
  }
}
