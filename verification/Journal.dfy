/** The undo journal of the permission visitor: a list with saved sizes. */
module Journal {

  class PermissionVisitor<P> {
    var permissions: seq<P>
    var sizeStack: seq<nat>
    /** The list as it was at each open push. */
    ghost var saved: seq<seq<P>>

    /** Saved sizes are ordered and within the list, and the list up to a saved size
      * is the list of that time: nothing below a saved size ever changes. */
    ghost predicate Valid()
      reads this
    {
      && |saved| == |sizeStack|
      && (forall i :: 0 <= i < |sizeStack| ==> sizeStack[i] <= |permissions| && saved[i] == permissions[..sizeStack[i]])
      && (forall i, j :: 0 <= i < j < |sizeStack| ==> sizeStack[i] <= sizeStack[j])
    }

    constructor ()
      ensures Valid() && permissions == [] && saved == []
    {
      permissions := [];
      sizeStack := [];
      saved := [];
    }

    method Visit(p: P)
      requires Valid()
      modifies this`permissions
      ensures Valid() && permissions == old(permissions) + [p]
    {
      permissions := permissions + [p];
      assert forall i :: 0 <= i < |sizeStack| ==> permissions[..sizeStack[i]] == old(permissions)[..sizeStack[i]];
    }

    method PushUndo()
      requires Valid()
      modifies this
      ensures Valid() && permissions == old(permissions) && saved == old(saved) + [old(permissions)]
    {
      sizeStack := sizeStack + [|permissions|];
      saved := saved + [permissions];
    }

    /** Restores the list of the matching push; the internal test does not fail. */
    method PopUndo() returns (ok: bool)
      requires Valid() && sizeStack != []
      modifies this
      ensures ok && Valid()
      ensures permissions == old(saved)[|old(saved)| - 1] && saved == old(saved)[..|old(saved)| - 1]
    {
      var n := |sizeStack| - 1;
      if !(sizeStack[n] <= |permissions| && |sizeStack| >= 1) {
        return false;
      }
      ghost var before := permissions;
      permissions := permissions[..sizeStack[n]];
      assert forall i :: 0 <= i < n ==> permissions[..sizeStack[i]] == before[..sizeStack[i]];
      sizeStack := sizeStack[..n];
      saved := saved[..n];
      ok := true;
    }

    /** Forgets the matching push: what was added since belongs to the one below. */
    method SquashUndo() returns (ok: bool)
      requires Valid()
      modifies this
      ensures Valid() && permissions == old(permissions)
      ensures ok <==> old(saved) != []
      ensures saved == if ok then old(saved)[..|old(saved)| - 1] else old(saved)
    {
      if |sizeStack| < 1 {
        return false;
      }
      sizeStack := sizeStack[..|sizeStack| - 1];
      saved := saved[..|saved| - 1];
      ok := true;
    }
  }

  // ------------------------------------------------------------- well-nested runs

  /** A run between a push and its pop or squash, with the runs nested in it. */
  datatype Step<P> =
    | Visited(p: P)
    | Undone(inner: seq<Step<P>>)
    | Squashed(inner: seq<Step<P>>)

  /** The additions of a run that survive it. */
  function Survivors<P>(steps: seq<Step<P>>): seq<P>
    decreases steps, 0
  {
    if steps == [] then [] else Survivors(steps[..|steps| - 1]) + SurvivorsOf(steps[|steps| - 1])
  }

  function SurvivorsOf<P>(step: Step<P>): seq<P>
    decreases step, 1
  {
    match step
    case Visited(p) => [p]
    case Undone(_) => []
    case Squashed(inner) => Survivors(inner)
  }

  /** Whatever the nesting, the journal ends with exactly the surviving additions,
    * no test fails, and the saved lists are those it started with. */
  method Run<P>(v: PermissionVisitor<P>, steps: seq<Step<P>>)
    requires v.Valid()
    modifies v
    ensures v.Valid() && v.permissions == old(v.permissions) + Survivors(steps) && v.saved == old(v.saved)
    decreases steps, 0
  {
    var i := 0;
    while i < |steps|
      invariant 0 <= i <= |steps| && v.Valid() && v.saved == old(v.saved)
      invariant v.permissions == old(v.permissions) + Survivors(steps[..i])
    {
      assert steps[..i + 1][..i] == steps[..i];
      RunOne(v, steps[i]);
      i := i + 1;
    }
    assert steps[..i] == steps;
  }

  method RunOne<P>(v: PermissionVisitor<P>, step: Step<P>)
    requires v.Valid()
    modifies v
    ensures v.Valid() && v.permissions == old(v.permissions) + SurvivorsOf(step) && v.saved == old(v.saved)
    decreases step, 1
  {
    match step {
      case Visited(p) =>
        v.Visit(p);
      case Undone(inner) =>
        v.PushUndo();
        Run(v, inner);
        var ok := v.PopUndo();
        assert ok;
      case Squashed(inner) =>
        v.PushUndo();
        Run(v, inner);
        var ok := v.SquashUndo();
        assert ok;
    }
  }
}
