/** What migrating keeps, and that it is done once. */
module MigrationLaws {
  import opened Wrappers
  import opened FileTrees
  import opened Migration

  /** No two paths of the layout are the same. */
  predicate Separate(moves: seq<Move>) {
    && (forall i, j :: 0 <= i < j < |moves| ==> moves[i].original != moves[j].original)
    && (forall i, j :: 0 <= i < j < |moves| ==> moves[i].target != moves[j].target)
    && (forall i, j :: 0 <= i < |moves| && 0 <= j < |moves| ==> moves[i].original != moves[j].target)
  }

  /** Nothing but a directory stands where a target goes. */
  predicate Clear(t: Tree, moves: seq<Move>) {
    forall i :: 0 <= i < |moves| ==> TargetClear(t, moves[i])
  }

  predicate TargetClear(t: Tree, m: Move) {
    m.target in t ==> t[m.target].Dir?
  }

  function Planned(t: Tree, m: Move): Relink {
    Relink(m.original, m.target, IsDir(t, m.original))
  }

  /** The target after the move. */
  function Settled(t: Tree, m: Move): Node
    requires TargetClear(t, m)
  {
    Opened(Migrated(t, Planned(t, m)))
  }

  predicate Same(t: Tree, t': Tree, p: Path) {
    (p in t <==> p in t') && (p in t ==> t[p] == t'[p])
  }

  predicate Touches(moves: seq<Move>, p: Path) {
    exists i :: 0 <= i < |moves| && (p == moves[i].original || p == moves[i].target)
  }

  predicate MovedBy(t: Tree, t': Tree, m: Move)
    requires TargetClear(t, m)
  {
    && m.original in t' && t'[m.original] == Link(m.target, ROOT)
    && m.target in t' && t'[m.target] == Settled(t, m)
  }

  /** Every move is made, and nothing else is touched. */
  ghost predicate Done(t: Tree, t': Tree, moves: seq<Move>)
    requires Clear(t, moves)
  {
    && (forall i :: 0 <= i < |moves| ==> MovedBy(t, t', moves[i]))
    && (forall p :: !Touches(moves, p) ==> Same(t, t', p))
  }

  // --- what a settled target holds ------------------------------------------------

  function EntriesAt(t: Tree, p: Path): Entries {
    if IsDir(t, p) then t[p].entries else map[]
  }

  /** What the target had stays as it was, what only the original had comes over with its owners at every depth, and
      there is nothing else. A new target is owned like the directory whose place it takes. */
  lemma SettledConserves(t: Tree, m: Move)
    requires TargetClear(t, m)
    ensures
      var d := Settled(t, m);
      && d.Dir? && d.mode == TARGET_MODE
      && d.entries == EachUnprivileged(EntriesAt(t, m.original)) + EntriesAt(t, m.target)
      && d.owner == (if m.target in t then t[m.target].owner
                     else if IsDir(t, m.original) then t[m.original].owner else ROOT)
      && (m.target in t ==> d.meta == t[m.target].meta)
  {
    CopiedOverIsUnion(EntriesAt(t, m.original), EntriesAt(t, m.target));
    hide CopiedOver;
    if !IsDir(t, m.original) {
      assert EachUnprivileged(EntriesAt(t, m.original)) + EntriesAt(t, m.target) == EntriesAt(t, m.target);
    }
  }

  // --- a whole run ----------------------------------------------------------------

  lemma PlanPrefix(t: Tree, moves: seq<Move>)
    requires moves != []
    ensures
      var n := |moves| - 1;
      PlanOf(t, moves) == PlanOf(t, moves[..n]) + [Planned(t, moves[n])]
  {
  }

  lemma AppliedNext(t: Tree, plans: seq<Relink>, r: Relink)
    ensures Applied(t, plans + [r]) ==
            var (t', failure) := Applied(t, plans); if failure.Some? then (t', failure) else Relinked(t', r)
  {
    hide Relinked;
    assert (plans + [r])[..|plans|] == plans;
  }

  lemma LastIsApart(moves: seq<Move>)
    requires moves != [] && Separate(moves)
    ensures
      var n := |moves| - 1;
      && Separate(moves[..n])
      && !Touches(moves[..n], moves[n].original) && !Touches(moves[..n], moves[n].target)
      && moves[n].original != moves[n].target
  {
  }

  /** A move looks at its own two paths only, and changes nothing else. */
  lemma RelinkedIs(t: Tree, t': Tree, m: Move)
    requires Same(t, t', m.original) && Same(t, t', m.target) && m.original != m.target
    ensures
      var (t'', failure) := Relinked(t', Planned(t, m));
      && (failure == None <==> TargetClear(t, m))
      && (failure == None ==> MovedBy(t, t'', m))
      && forall p :: p != m.original && p != m.target ==> Same(t', t'', p)
  {
    hide Filled;
  }

  lemma StaysMoved(t: Tree, t': Tree, t'': Tree, m: Move)
    requires TargetClear(t, m) && MovedBy(t, t', m)
    requires Same(t', t'', m.original) && Same(t', t'', m.target)
    ensures MovedBy(t, t'', m)
  {
    hide Settled;
  }

  /** Planning and applying fails only over a target that is no directory; otherwise every move is made, and nothing
      else is touched. */
  lemma {:induction false} AppliesIff(t: Tree, moves: seq<Move>)
    requires Separate(moves)
    ensures
      var (t', failure) := Applied(t, PlanOf(t, moves));
      && (failure == None <==> Clear(t, moves))
      && (Clear(t, moves) ==> Done(t, t', moves))
    decreases |moves|
  {
    if moves == [] {
    } else {
      var n := |moves| - 1;
      LastIsApart(moves);
      PlanPrefix(t, moves);
      AppliedNext(t, PlanOf(t, moves[..n]), Planned(t, moves[n]));
      AppliesIff(t, moves[..n]);
      ClearSplits(t, moves);
      hide PlanOf, Applied, Planned, Relinked, Clear, Separate, TargetClear, MovedBy, Touches, Same;
      if Clear(t, moves[..n]) {
        var (t', _) := Applied(t, PlanOf(t, moves[..n]));
        RelinkedIs(t, t', moves[n]);
        if TargetClear(t, moves[n]) {
          DoneNext(t, t', Relinked(t', Planned(t, moves[n])).0, moves);
        }
      }
    }
  }

  lemma ClearSplits(t: Tree, moves: seq<Move>)
    requires moves != []
    ensures Clear(t, moves) <==> Clear(t, moves[..|moves| - 1]) && TargetClear(t, moves[|moves| - 1])
  {
    hide TargetClear;
  }

  lemma DoneNext(t: Tree, t': Tree, t'': Tree, moves: seq<Move>)
    requires moves != [] && Separate(moves) && Clear(t, moves) && Clear(t, moves[..|moves| - 1])
    requires Done(t, t', moves[..|moves| - 1]) && MovedBy(t, t'', moves[|moves| - 1])
    requires
      var m := moves[|moves| - 1];
      forall p :: p != m.original && p != m.target ==> Same(t', t'', p)
    ensures Done(t, t'', moves)
  {
    var n := |moves| - 1;
    hide Settled, MovedBy, Touches, Same;
    forall i | 0 <= i < n
      ensures MovedBy(t, t'', moves[i])
    {
      assert MovedBy(t, t', moves[..n][i]);
      StaysMoved(t, t', t'', moves[i]);
    }
    forall p | !Touches(moves, p)
      ensures Same(t, t'', p)
    {
      NotTouched(moves, p);
      assert Same(t, t', p) && Same(t', t'', p);
      SameOn(t, t', t'', p);
    }
  }

  lemma SameOn(t: Tree, t': Tree, t'': Tree, p: Path)
    requires Same(t, t', p) && Same(t', t'', p)
    ensures Same(t, t'', p)
  {
  }

  lemma NotTouched(moves: seq<Move>, p: Path)
    requires moves != [] && !Touches(moves, p)
    ensures !Touches(moves[..|moves| - 1], p)
    ensures p != moves[|moves| - 1].original && p != moves[|moves| - 1].target
  {
  }

  /** A second boot plans nothing and changes nothing. */
  lemma SecondRunIsNoOp(t: Tree, moves: seq<Move>)
    requires Separate(moves) && Clear(t, moves)
    ensures
      var t' := Applied(t, PlanOf(t, moves)).0;
      Applied(t', PlanOf(t', moves)) == (t', None)
  {
    AppliesIff(t, moves);
    var t' := Applied(t, PlanOf(t, moves)).0;
    hide Applied, PlanOf, Separate;
    forall i | 0 <= i < |moves|
      ensures TargetClear(t', moves[i])
    {
      assert MovedBy(t, t', moves[i]);
    }
    AppliesIff(t', moves);
    var t'' := Applied(t', PlanOf(t', moves)).0;
    hide Same, Touches;
    forall p
      ensures Same(t', t'', p)
    {
      if Touches(moves, p) {
        var i := TouchedAt(moves, p);
        SettledStays(t, t', t'', moves[i]);
      }
    }
    SameIsEqual(t', t'');
  }

  lemma TouchedAt(moves: seq<Move>, p: Path) returns (i: nat)
    requires Touches(moves, p)
    ensures i < |moves| && (p == moves[i].original || p == moves[i].target)
  {
    i :| 0 <= i < |moves| && (p == moves[i].original || p == moves[i].target);
  }

  lemma SettledStays(t: Tree, t': Tree, t'': Tree, m: Move)
    requires TargetClear(t, m) && MovedBy(t, t', m) && TargetClear(t', m) && MovedBy(t', t'', m)
    ensures Same(t', t'', m.original) && Same(t', t'', m.target)
  {
    hide Filled;
  }

  lemma SameIsEqual(t: Tree, t': Tree)
    requires forall p :: Same(t, t', p)
    ensures t == t'
  {
    assert forall p :: Same(t, t', p) ==> (p in t <==> p in t');
    assert t.Keys == t'.Keys;
    assert forall p :: Same(t, t', p) && p in t ==> t[p] == t'[p];
  }

  lemma DifferInside(p: Path, q: Path, k: nat)
    requires k < |p| && k < |q| && p[k] != q[k]
    ensures p != q
  {
  }

  lemma OriginalsDiffer(i: nat, j: nat)
    requires i < j < |LAYOUT|
    ensures LAYOUT[i].original != LAYOUT[j].original
  {
    if |LAYOUT[i].original| == |LAYOUT[j].original| {
      DifferInside(LAYOUT[i].original, LAYOUT[j].original, 1);
    }
  }

  lemma TargetsDiffer(i: nat, j: nat)
    requires i < j < |LAYOUT|
    ensures LAYOUT[i].target != LAYOUT[j].target
  {
    if |LAYOUT[i].target| == |LAYOUT[j].target| {
      DifferInside(LAYOUT[i].target, LAYOUT[j].target, 7);
    }
  }

  lemma NoOriginalIsTarget(i: nat, j: nat)
    requires i < |LAYOUT| && j < |LAYOUT|
    ensures LAYOUT[i].original != LAYOUT[j].target
  {
    assert LAYOUT[j].target[1] == 'u' && LAYOUT[j].target[2] == 'n';
    assert LAYOUT[i].original[1] != 'u' || LAYOUT[i].original[2] != 'n';
  }

  /** The layout of the image is one the theorems are about. */
  lemma LayoutIsSeparate()
    ensures Separate(LAYOUT)
  {
    var moves := LAYOUT;
    forall i: nat, j: nat | i < j < |moves|
      ensures moves[i].original != moves[j].original && moves[i].target != moves[j].target
    {
      OriginalsDiffer(i, j);
      TargetsDiffer(i, j);
    }
    forall i: nat, j: nat | i < |moves| && j < |moves|
      ensures moves[i].original != moves[j].target
    {
      NoOriginalIsTarget(i, j);
    }
  }

  /** A path that lies inside another, at any depth. */
  predicate Inside(inner: Path, outer: Path) {
    outer + "/" <= inner
  }

  lemma NotInsideShort(inner: Path, outer: Path)
    requires |inner| <= |outer|
    ensures !Inside(inner, outer)
  {
  }

  lemma NotInsideNoSlash(inner: Path, outer: Path)
    requires |outer| < |inner| && inner[|outer|] != '/'
    ensures !Inside(inner, outer)
  {
    assert (outer + "/")[|outer|] == '/';
  }

  lemma NotInsideDiffers(inner: Path, outer: Path, k: nat)
    requires k < |outer| && k < |inner| && inner[k] != outer[k]
    ensures !Inside(inner, outer)
  {
    assert (outer + "/")[k] == outer[k];
  }

  /** And its paths lie side by side, as the tree here has them: no move reaches into what another moved. */
  lemma LayoutLiesSideBySide(i: nat, j: nat)
    requires i < |LAYOUT| && j < |LAYOUT|
    ensures !Inside(LAYOUT[i].original, LAYOUT[j].original) && !Inside(LAYOUT[i].target, LAYOUT[j].target)
    ensures !Inside(LAYOUT[i].original, LAYOUT[j].target) && !Inside(LAYOUT[i].target, LAYOUT[j].original)
  {
    hide Inside;
    OriginalsApart(i, j);
    TargetsApart(i, j);
    SidesApart(i, j);
    SidesApart(j, i);
  }

  lemma OriginalsApart(i: nat, j: nat)
    requires i < |LAYOUT| && j < |LAYOUT|
    ensures !Inside(LAYOUT[i].original, LAYOUT[j].original)
  {
    hide Inside;
    var inner, outer := LAYOUT[i].original, LAYOUT[j].original;
    if |inner| <= |outer| {
      NotInsideShort(inner, outer);
    } else if inner[|outer|] != '/' {
      NotInsideNoSlash(inner, outer);
    } else {
      NotInsideDiffers(inner, outer, if inner[1] != outer[1] then 1 else 6);
    }
  }

  lemma TargetsApart(i: nat, j: nat)
    requires i < |LAYOUT| && j < |LAYOUT|
    ensures !Inside(LAYOUT[i].target, LAYOUT[j].target)
  {
    hide Inside;
    var inner, outer := LAYOUT[i].target, LAYOUT[j].target;
    if |inner| <= |outer| {
      NotInsideShort(inner, outer);
    } else {
      NotInsideNoSlash(inner, outer);
    }
  }

  lemma SidesApart(i: nat, j: nat)
    requires i < |LAYOUT| && j < |LAYOUT|
    ensures !Inside(LAYOUT[i].original, LAYOUT[j].target) && !Inside(LAYOUT[j].target, LAYOUT[i].original)
  {
    hide Inside;
    var o, t := LAYOUT[i].original, LAYOUT[j].target;
    var k := if o[1] != t[1] then 1 else 2;
    NotInsideDiffers(o, t, k);
    NotInsideDiffers(t, o, k);
  }

  // --- every boot -----------------------------------------------------------------

  lemma {:induction false} PlannedOf(t: Tree, moves: seq<Move>, r: Relink)
    requires r in PlanOf(t, moves)
    ensures exists m :: m in moves && r == Planned(t, m)
  {
    if moves != [] {
      var n := |moves| - 1;
      PlanPrefix(t, moves);
      if r in PlanOf(t, moves[..n]) {
        PlannedOf(t, moves[..n], r);
        var m :| m in moves[..n] && r == Planned(t, m);
        assert m in moves;
      } else {
        assert r == Planned(t, moves[n]) && moves[n] in moves;
      }
    }
  }

  /** What the entrypoint does at every boot: plan, then apply. It fails exactly over a target that is no directory, and
      otherwise makes every move of the layout and touches nothing else. */
  method LayOut(v: Volume) returns (failure: Option<Failure>)
    modifies v
    ensures (v.tree, failure) == Applied(old(v.tree), PlanOf(old(v.tree), LAYOUT))
    ensures failure == None <==> Clear(old(v.tree), LAYOUT)
    ensures Clear(old(v.tree), LAYOUT) ==> Done(old(v.tree), v.tree, LAYOUT)
  {
    hide PlanOf, Applied, Done;
    ghost var before := v.tree;
    LayoutIsSeparate();
    var plans := v.PlanSymlinks(LAYOUT);
    forall r | r in plans
      ensures r.original != r.target
    {
      PlannedOf(before, LAYOUT, r);
    }
    failure := v.ApplySymlinks(plans);
    AppliesIff(before, LAYOUT);
  }

  /** The next boot plans the same layout and changes nothing. */
  lemma NextBootIsNoOp(t: Tree)
    requires Clear(t, LAYOUT)
    ensures
      var t' := Applied(t, PlanOf(t, LAYOUT)).0;
      Applied(t', PlanOf(t', LAYOUT)) == (t', None)
  {
    LayoutIsSeparate();
    SecondRunIsNoOp(t, LAYOUT);
  }
}
