/** File trees as values: copying without ownership, and giving it back (`entrypoint/uos.py`). */
module FileTrees {

  datatype Owner = Owner(uid: nat, gid: nat)

  /** Whose files a process of the entrypoint makes. */
  const ROOT := Owner(0, 0)

  /** A file's contents, a link's destination, or a directory's entries, with the owner. `mode` and `meta` are what
      else a copy keeps: permissions, and times and extended attributes. `privileged` stands for what a copy keeps too
      and a change of owner clears: the set-user-ID bit, the set-group-ID bit where the group may execute, and
      capabilities. Those are not part of `mode` and `meta`; a set-group-ID bit without group execution stays, and is
      part of `mode`. */
  datatype Node =
    | File(data: int, mode: nat, meta: int, privileged: bool, owner: Owner)
    | Link(to: string, owner: Owner)
    | Dir(mode: nat, meta: int, owner: Owner, entries: map<string, Node>)

  type Entries = map<string, Node>

  /** `copytree`, `copy2` or `symlink`: all but the ownership. */
  function Copied(n: Node): Node {
    match n
    case File(data, mode, meta, privileged, _) => File(data, mode, meta, privileged, ROOT)
    case Link(to, _) => Link(to, ROOT)
    case Dir(mode, meta, _, entries) => Dir(mode, meta, ROOT, map name | name in entries :: Copied(entries[name]))
  }

  /** `_chown_like`: on Linux a file loses its privileges by it, whoever changes the owner and even to the same. */
  function Chowned(n: Node, owner: Owner): Node {
    match n
    case File(data, mode, meta, _, _) => File(data, mode, meta, false, owner)
    case Link(to, _) => Link(to, owner)
    case Dir(mode, meta, _, entries) => Dir(mode, meta, owner, entries)
  }

  /** `_mirror_ownership`: the target with the owners of its counterparts in the source. A counterpart that is missing
      from the target is skipped. */
  function Mirrored(source: Node, target: Node): Node
    decreases source
  {
    if source.Dir? && target.Dir? then
      Dir(target.mode, target.meta, source.owner,
          map name | name in target.entries ::
            if name in source.entries then Mirrored(source.entries[name], target.entries[name])
            else target.entries[name])
    else Chowned(target, source.owner)
  }

  /** `_copy_no_clobber`: every entry the target has not got, copied and given its owners back. */
  function CopiedOver(source: Entries, target: Entries): Entries {
    map name | name in source.Keys + target.Keys ::
      if name in target then target[name] else Mirrored(source[name], Copied(source[name]))
  }

  /** The tree with no file privileged. */
  function Unprivileged(n: Node): Node {
    match n
    case File(data, mode, meta, _, owner) => File(data, mode, meta, false, owner)
    case Link(_, _) => n
    case Dir(mode, meta, owner, entries) =>
      Dir(mode, meta, owner, map name | name in entries :: Unprivileged(entries[name]))
  }

  predicate Ordinary(n: Node) {
    match n
    case File(_, _, _, privileged, _) => !privileged
    case Link(_, _) => true
    case Dir(_, _, _, entries) => forall name :: name in entries ==> Ordinary(entries[name])
  }

  /** A copy given its owners back is the original at every depth, but for the privileges of its files. */
  lemma {:induction false} MirrorUndoesCopy(n: Node)
    ensures Mirrored(n, Copied(n)) == Unprivileged(n)
  {
    if n.Dir? {
      forall name | name in n.entries
        ensures Mirrored(n.entries[name], Copied(n.entries[name])) == Unprivileged(n.entries[name])
      {
        MirrorUndoesCopy(n.entries[name]);
      }
    }
  }

  lemma {:induction false} UnprivilegedIff(n: Node)
    ensures Unprivileged(n) == n <==> Ordinary(n)
  {
    if n.Dir? {
      forall name | name in n.entries
        ensures Unprivileged(n.entries[name]) == n.entries[name] <==> Ordinary(n.entries[name])
      {
        UnprivilegedIff(n.entries[name]);
      }
      if Unprivileged(n) == n {
        forall name | name in n.entries
          ensures Ordinary(n.entries[name])
        {
          assert Unprivileged(n).entries[name] == Unprivileged(n.entries[name]);
        }
      }
    }
  }

  /** Copying and then changing owners gives a tree back as it was exactly when no file in it is privileged. */
  lemma {:induction false} MirrorUndoesCopyIff(n: Node)
    ensures Mirrored(n, Copied(n)) == n <==> Ordinary(n)
  {
    MirrorUndoesCopy(n);
    UnprivilegedIff(n);
  }

  /** One that is not: a program of root's with its set-user-ID bit. */
  lemma ProgramLosesPrivileges()
    ensures
      var program := File(0, 0x1ED, 0, true, ROOT);
      Mirrored(program, Copied(program)) == program.(privileged := false) != program
  {
    MirrorUndoesCopy(File(0, 0x1ED, 0, true, ROOT));
  }

  function EachUnprivileged(entries: Entries): Entries {
    map name | name in entries :: Unprivileged(entries[name])
  }

  /** Migration conserves: what the target has wins, and everything else the source has is carried over, with its owners
      at every depth. */
  lemma CopiedOverIsUnion(source: Entries, target: Entries)
    ensures CopiedOver(source, target) == EachUnprivileged(source) + target
  {
    forall name | name in source
      ensures Mirrored(source[name], Copied(source[name])) == Unprivileged(source[name])
    {
      MirrorUndoesCopy(source[name]);
    }
    hide Mirrored, Copied, Unprivileged;
  }

  /** And it is carried over exactly as it was, if and only if no file carried over is privileged. */
  lemma CopiedOverExactIff(source: Entries, target: Entries)
    ensures CopiedOver(source, target) == source + target <==>
              forall name :: name in source && name !in target ==> Ordinary(source[name])
  {
    CopiedOverIsUnion(source, target);
    forall name | name in source
      ensures Unprivileged(source[name]) == source[name] <==> Ordinary(source[name])
    {
      UnprivilegedIff(source[name]);
    }
    hide CopiedOver, Unprivileged, Ordinary;
    if EachUnprivileged(source) + target == source + target {
      forall name | name in source && name !in target
        ensures Ordinary(source[name])
      {
        assert (EachUnprivileged(source) + target)[name] == Unprivileged(source[name]);
      }
    }
  }

  /** Without the ownership pass, exactly the trees that root owned throughout would have come over as they were. */
  lemma {:induction false} CopyAloneIff(n: Node)
    ensures Copied(n) == n <==> OwnedThroughout(n, ROOT)
  {
    if n.Dir? {
      forall name | name in n.entries
        ensures Copied(n.entries[name]) == n.entries[name] <==> OwnedThroughout(n.entries[name], ROOT)
      {
        CopyAloneIff(n.entries[name]);
      }
      if Copied(n) == n {
        forall name | name in n.entries
          ensures OwnedThroughout(n.entries[name], ROOT)
        {
          assert Copied(n).entries[name] == Copied(n.entries[name]);
        }
      }
    }
  }

  predicate OwnedThroughout(n: Node, owner: Owner) {
    n.owner == owner && (n.Dir? ==> forall name :: name in n.entries ==> OwnedThroughout(n.entries[name], owner))
  }
}
