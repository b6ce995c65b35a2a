/** The single-volume layout: service state moves under one directory, and a link takes its old place
    (`plan_symlinks`, `apply_symlinks`). */
module Migration {
  import opened Wrappers
  import opened FileTrees

  type Path = string

  /** What stands at the paths the layout is about. They lie side by side: none is inside another. */
  type Tree = map<Path, Node>

  datatype Move = Move(original: Path, target: Path)

  /** One planned move: `migrate` where the original still is a directory with content of its own. */
  datatype Relink = Relink(original: Path, target: Path, migrate: bool)

  /** `0o755` */
  const TARGET_MODE := 0x1ED

  const LAYOUT: seq<Move> := [
    Move("/data", "/unifi/data"),
    Move("/var/lib/mongodb", "/unifi/db"),
    Move("/var/lib/unifi", "/unifi/config"),
    Move("/var/log", "/unifi/logs"),
    Move("/srv", "/unifi/srv"),
    Move("/persistent", "/unifi/persistent"),
    Move("/etc/rabbitmq/ssl", "/unifi/rabbitmq-ssl"),
    Move("/usr/lib/unifi", "/unifi/app")]

  predicate IsDir(t: Tree, p: Path) {
    p in t && t[p].Dir?
  }

  /** `plan_symlinks` */
  function PlanOf(t: Tree, moves: seq<Move>): seq<Relink> {
    if moves == [] then []
    else
      var n := |moves| - 1;
      PlanOf(t, moves[..n]) + [Relink(moves[n].original, moves[n].target, IsDir(t, moves[n].original))]
  }

  // --- one move -------------------------------------------------------------

  /** The errors that `apply_symlinks` lets through. */
  datatype Failure = TargetIsNoDirectory(path: Path) | OriginalIsDirectory(path: Path)

  /** The target as it is before anything moves into it: what is there, or a new directory, owned like the directory
      whose place it takes. */
  function Made(t: Tree, r: Relink): (d: Node)
    requires r.target in t ==> t[r.target].Dir?
    ensures d.Dir?
  {
    if r.target in t then t[r.target]
    else Dir(TARGET_MODE, 0, if r.migrate && r.original in t then t[r.original].owner else ROOT, map[])
  }

  /** What `_copy_no_clobber` makes of a directory. */
  function Filled(target: Node, source: Entries): (d: Node)
    requires target.Dir?
    ensures d.Dir?
  {
    Dir(target.mode, target.meta, target.owner, CopiedOver(source, target.entries))
  }

  function Migrated(t: Tree, r: Relink): (d: Node)
    requires r.target in t ==> t[r.target].Dir?
    ensures d.Dir?
  {
    var made := Made(t, r);
    if r.migrate && IsDir(t, r.original) then Filled(made, t[r.original].entries) else made
  }

  /** `chmod` of a target. */
  function Opened(d: Node): Node
    requires d.Dir?
  {
    Dir(TARGET_MODE, d.meta, d.owner, d.entries)
  }

  /** One turn of the loop of `apply_symlinks`, and the error it raises, if any. */
  function Relinked(t: Tree, r: Relink): (Tree, Option<Failure>) {
    if r.target in t && !t[r.target].Dir? then (t, Some(TargetIsNoDirectory(r.target)))
    else if !r.migrate && IsDir(t, r.original) then (t[r.target := Made(t, r)], Some(OriginalIsDirectory(r.original)))
    else (t[r.original := Link(r.target, ROOT)][r.target := Opened(Migrated(t, r))], None)
  }

  function Applied(t: Tree, plans: seq<Relink>): (Tree, Option<Failure>) {
    if plans == [] then (t, None)
    else
      var n := |plans| - 1;
      var (t', failure) := Applied(t, plans[..n]);
      if failure.Some? then (t', failure) else Relinked(t', plans[n])
  }

  // --- step by step ---------------------------------------------------------

  class Volume {
    var tree: Tree

    constructor (tree: Tree)
      ensures this.tree == tree
    {
      this.tree := tree;
    }

    method PlanSymlinks(moves: seq<Move>) returns (plans: seq<Relink>)
      ensures plans == PlanOf(tree, moves)
    {
      plans := [];
      for i := 0 to |moves|
        invariant plans == PlanOf(tree, moves[..i])
      {
        assert moves[..i + 1][..i] == moves[..i];
        plans := plans + [Relink(moves[i].original, moves[i].target, IsDir(tree, moves[i].original))];
      }
      assert moves[..|moves|] == moves;
    }

    /** The entries come in any order the system lists them. */
    method CopyNoClobber(original: Path, target: Path)
      requires original != target && IsDir(tree, original) && IsDir(tree, target)
      modifies this
      ensures tree == old(tree)[target := Filled(old(tree)[target], old(tree)[original].entries)]
    {
      hide FilledPart, Filled, Put, Mirrored, Copied;
      var source := tree[original].entries;
      ghost var before := tree[target];
      ghost var done: set<string> := {};
      var left := source.Keys;
      NothingFilled(before, source);
      while left != {}
        invariant left !! done && left + done == source.Keys
        invariant tree == old(tree)[target := FilledPart(before, source, done)]
        decreases |left|
      {
        var name :| name in left;
        left := left - {name};
        FilledPartNext(before, source, done, name);
        if name !in tree[target].entries {
          var copy := Copied(source[name]);
          tree := tree[target := Put(tree[target], name, copy)];
          tree := tree[target := Put(tree[target], name, Mirrored(source[name], copy))];
        }
        done := done + {name};
      }
      assert done == source.Keys;
      AllFilled(before, source);
    }

    /** `makedirs`, and the owner of the directory whose place it takes. */
    method MakeTarget(plan: Relink)
      requires plan.original != plan.target
      requires plan.target in tree ==> tree[plan.target].Dir?
      modifies this
      ensures tree == old(tree)[plan.target := Made(old(tree), plan)]
    {
      var existed := plan.target in tree;
      if !existed {
        tree := tree[plan.target := Dir(TARGET_MODE, 0, ROOT, map[])];
        if plan.migrate && plan.original in tree {
          tree := tree[plan.target := Chowned(tree[plan.target], tree[plan.original].owner)];
        }
      }
    }

    /** What the original still holds is copied, and the original is removed. */
    method Migrate(plan: Relink)
      requires plan.original != plan.target && IsDir(tree, plan.target)
      modifies this
      ensures tree ==
              if plan.migrate && IsDir(old(tree), plan.original) then
                old(tree)[plan.target := Filled(old(tree)[plan.target], old(tree)[plan.original].entries)]
                - {plan.original}
              else old(tree)
    {
      if plan.migrate && IsDir(tree, plan.original) {
        CopyNoClobber(plan.original, plan.target);
        tree := tree - {plan.original};
      }
    }

    method MoveAndLink(plan: Relink) returns (failure: Option<Failure>)
      requires plan.original != plan.target
      modifies this
      ensures (tree, failure) == Relinked(old(tree), plan)
    {
      hide Filled;
      if plan.target in tree && !tree[plan.target].Dir? {
        return Some(TargetIsNoDirectory(plan.target));
      }
      MakeTarget(plan);
      Migrate(plan);
      if IsDir(tree, plan.original) {
        return Some(OriginalIsDirectory(plan.original));
      }
      ghost var filled := tree[plan.target];
      Rewritten(old(tree), plan, Made(old(tree), plan), filled, tree);
      tree := tree - {plan.original};
      tree := tree[plan.original := Link(plan.target, ROOT)];
      tree := tree[plan.target := Opened(tree[plan.target])];
      return None;
    }

    method ApplySymlinks(plans: seq<Relink>) returns (failure: Option<Failure>)
      requires forall r :: r in plans ==> r.original != r.target
      modifies this
      ensures (tree, failure) == Applied(old(tree), plans)
    {
      for i := 0 to |plans|
        invariant (tree, None) == Applied(old(tree), plans[..i])
      {
        assert plans[..i + 1][..i] == plans[..i];
        AppliedStops(old(tree), plans, i + 1);
        failure := MoveAndLink(plans[i]);
        if failure.Some? {
          return;
        }
      }
      assert plans[..|plans|] == plans;
      return None;
    }
  }

  /** What the steps of a move come to, where only the target and the original changed on the way. */
  lemma Rewritten(t: Tree, r: Relink, made: Node, filled: Node, t': Tree)
    requires r.original != r.target && filled.Dir?
    requires t' == t[r.target := made] || t' == t[r.target := made][r.target := filled] - {r.original}
    ensures (t' - {r.original})[r.original := Link(r.target, ROOT)][r.target := Opened(filled)] ==
            t[r.original := Link(r.target, ROOT)][r.target := Opened(filled)]
  {
  }

  function Put(d: Node, name: string, n: Node): (d': Node)
    requires d.Dir?
    ensures d'.Dir?
  {
    Dir(d.mode, d.meta, d.owner, d.entries[name := n])
  }

  /** The directory with the entries named in `done` copied. */
  function FilledPart(target: Node, source: Entries, done: set<string>): (d: Node)
    requires target.Dir?
    ensures d.Dir?
  {
    Filled(target, map name | name in source && name in done :: source[name])
  }

  lemma NothingFilled(target: Node, source: Entries)
    requires target.Dir?
    ensures FilledPart(target, source, {}) == target
  {
    hide Mirrored, Copied;
    assert FilledPart(target, source, {}).entries == target.entries;
  }

  lemma AllFilled(target: Node, source: Entries)
    requires target.Dir?
    ensures FilledPart(target, source, source.Keys) == Filled(target, source)
  {
    assert (map name | name in source && name in source.Keys :: source[name]) == source;
  }

  lemma FilledPartNext(target: Node, source: Entries, done: set<string>, name: string)
    requires target.Dir? && name in source && name !in done
    ensures
      var d, copy := FilledPart(target, source, done), Copied(source[name]);
      FilledPart(target, source, done + {name}) ==
        if name in d.entries then d else Put(Put(d, name, copy), name, Mirrored(source[name], copy))
  {
    hide Mirrored, Copied, CopiedOver;
    EntriesNext(target.entries, source, done, name);
    TwicePut(FilledPart(target, source, done).entries, name, Copied(source[name]),
             Mirrored(source[name], Copied(source[name])));
  }

  lemma TwicePut(entries: Entries, name: string, x: Node, y: Node)
    ensures entries[name := x][name := y] == entries[name := y]
  {
  }

  lemma EntriesNext(target: Entries, source: Entries, done: set<string>, name: string)
    requires name in source && name !in done
    ensures
      var part := CopiedOver(map n | n in source && n in done :: source[n], target);
      CopiedOver(map n | n in source && n in done + {name} :: source[n], target) ==
        if name in part then part else part[name := Mirrored(source[name], Copied(source[name]))]
  {
    hide Mirrored, Copied;
  }

  lemma {:induction false} AppliedStops(t: Tree, plans: seq<Relink>, n: nat)
    requires n <= |plans|
    ensures Applied(t, plans[..n]).1.Some? ==> Applied(t, plans) == Applied(t, plans[..n])
    decreases |plans|
  {
    hide Relinked;
    if n == |plans| {
      assert plans[..n] == plans;
    } else {
      assert plans[..|plans| - 1][..n] == plans[..n];
      AppliedStops(t, plans[..|plans| - 1], n);
    }
  }
}
