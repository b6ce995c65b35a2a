/** `release_plan` and `slide_tags`: which names a release may move, and moving them. */
module ReleasePlans {
  import opened Wrappers
  import opened Releases
  import opened ReleaseLaws
  import opened ReleaseOrder

  // --- the plan -------------------------------------------------------------

  datatype Plan = Plan(release: Release, pinned: string, newestBuild: bool, top: bool)

  /** `plan` */
  function PlanOf(tag: string, tags: seq<string>, pinned: string): Result<Plan, ReleaseError> {
    var parsed := Parse(tag);
    if parsed.None? then Err(NotARelease)
    else
      var r := parsed.value;
      if pinned != r.upstream then Err(PinsDisagree)
      else
        match IsHighestStable(tags, r)
        case Err(e) => Err(e)
        case Ok(top) => Ok(Plan(r, pinned, IsHighestBuild(tags, r), top))
  }

  // --- the names ------------------------------------------------------------

  datatype Variant = Base | Sim | Seeded

  function VariantEnd(v: Variant): string {
    match v
    case Base => ""
    case Sim => "-sim"
    case Seeded => "-seeded"
  }

  function VersionTag(r: Release, v: Variant): string {
    r.upstream + VariantEnd(v)
  }

  function GlobalTag(v: Variant): string {
    match v
    case Base => "latest"
    case Sim => "sim"
    case Seeded => "seeded"
  }

  function VersionTags(r: Release): seq<string> {
    [VersionTag(r, Base), VersionTag(r, Sim), VersionTag(r, Seeded)]
  }

  function GlobalTags(top: bool): seq<string> {
    if top then [GlobalTag(Base), GlobalTag(Sim), GlobalTag(Seeded)] else []
  }

  /** Every name that ends up pointing at the release: none unless it is the newest build of its version. */
  function SlidingTags(p: Plan): seq<string> {
    if p.newestBuild then VersionTags(p.release) + GlobalTags(p.top) else []
  }

  function EndsWith(s: string, end: string): bool {
    |end| <= |s| && s[|s| - |end|..] == end
  }

  /** `variant_for`: which pushed digest a name follows; `None` where it raises. */
  function VariantFor(name: string): Option<Variant> {
    if name == "latest" then Some(Base)
    else if name == "sim" then Some(Sim)
    else if name == "seeded" then Some(Seeded)
    else
      match TakeParts(name)
      case None => None
      case Some(Parts(_, _, _, rest)) =>
        if !IsVariantEnd(rest) then None
        else if EndsWith(name, "-sim") then Some(Sim)
        else if EndsWith(name, "-seeded") then Some(Seeded)
        else Some(Base)
  }

  /** `(?:-(?:sim|seeded))?$` */
  predicate IsVariantEnd(s: string) {
    IsEnd(s) || ("-sim" <= s && IsEnd(s[4..])) || ("-seeded" <= s && IsEnd(s[7..]))
  }

  lemma EndsInDigit(a: string, b: string, c: string)
    requires IsNumber(a) && IsNumber(b) && IsNumber(c)
    ensures var s := Dotted(a, b, c); s != "" && IsDigit(s[|s| - 1]) && IsDigit(s[0])
  {
    var s := Dotted(a, b, c);
    assert s[0] == a[0];
    assert s[|s| - 1] == c[|c| - 1];
  }

  lemma NotGlobal(name: string)
    requires name != "" && IsDigit(name[0])
    ensures name != "latest" && name != "sim" && name != "seeded"
  {
  }

  lemma LastOfEnd(s: string, end: string)
    requires end != "" && EndsWith(s, end)
    ensures s[|s| - 1] == end[|end| - 1]
  {
  }

  lemma VariantOfGlobalTag(v: Variant)
    ensures VariantFor(GlobalTag(v)) == Some(v)
  {
  }

  /** The ends a version-level name may have, and the variant each stands for: `$` lets a newline through, and what it
      ends is taken for the base variant. */
  predicate EndNames(end: string, v: Variant) {
    match v
    case Base => end == "" || end == "\n" || end == "-sim\n" || end == "-seeded\n"
    case Sim => end == "-sim"
    case Seeded => end == "-seeded"
  }

  ghost predicate NamesVersion(name: string, v: Variant) {
    exists upstream, end :: IsUpstream(upstream) && EndNames(end, v) && name == upstream + end
  }

  /** The names that follow a variant: its global name, and three numbers with its ending. Any other name is refused. */
  lemma VariantForIff(name: string, v: Variant)
    ensures VariantFor(name) == Some(v) <==>
              || (v == Base && name == "latest") || (v == Sim && name == "sim") || (v == Seeded && name == "seeded")
              || NamesVersion(name, v)
  {
    if NamesVersion(name, v) {
      var upstream, end :| IsUpstream(upstream) && EndNames(end, v) && name == upstream + end;
      NamedIsVariant(upstream, end, v);
    }
    if VariantFor(name) == Some(v) && !(name == "latest" || name == "sim" || name == "seeded") {
      var p := TakeParts(name).value;
      TakePartsIff(name, p.a, p.b, p.c, p.rest);
      hide TakeParts;
      WrittenUpstream(p.a, p.b, p.c);
      VariantEnds(p.rest);
      EndDecides(Dotted(p.a, p.b, p.c), p.rest);
    }
  }

  lemma WrittenUpstream(a: string, b: string, c: string)
    requires IsNumber(a) && IsNumber(b) && IsNumber(c)
    ensures var s := Dotted(a, b, c); IsUpstream(s) && s != "" && IsDigit(s[0]) && IsDigit(s[|s| - 1])
  {
    hide IsDigit, IsUpstream;
    assert UpstreamIs(Dotted(a, b, c), a, b, c);
    UpstreamIff(Dotted(a, b, c));
    EndsInDigit(a, b, c);
  }

  lemma VariantEnds(end: string)
    ensures IsVariantEnd(end) <==>
              || end == "" || end == "\n" || end == "-sim" || end == "-sim\n" || end == "-seeded" || end == "-seeded\n"
  {
    if "-sim" <= end {
      assert end == "-sim" + end[4..];
    }
    if "-seeded" <= end {
      assert end == "-seeded" + end[7..];
    }
    assert "-sim"[4..] == "" && "-seeded"[7..] == "";
    assert "-sim\n"[4..] == "\n" && "-seeded\n"[7..] == "\n";
  }

  /** What a name behind a digit ends in tells the variant. */
  lemma EndDecides(upstream: string, end: string)
    requires upstream != "" && IsDigit(upstream[|upstream| - 1]) && IsVariantEnd(end)
    ensures EndsWith(upstream + end, "-sim") <==> end == "-sim"
    ensures EndsWith(upstream + end, "-seeded") <==> end == "-seeded"
  {
    VariantEnds(end);
    var name := upstream + end;
    var last := name[|name| - 1];
    assert last == if end == "" then upstream[|upstream| - 1] else end[|end| - 1];
    if EndsWith(name, "-sim") {
      LastOfEnd(name, "-sim");
    }
    if EndsWith(name, "-seeded") {
      LastOfEnd(name, "-seeded");
    }
    if end == "-sim" {
      assert name[|name| - 4..] == "-sim";
    }
    if end == "-seeded" {
      assert name[|name| - 7..] == "-seeded";
    }
  }

  lemma NamedIsVariant(upstream: string, end: string, v: Variant)
    requires IsUpstream(upstream) && EndNames(end, v)
    ensures VariantFor(upstream + end) == Some(v)
  {
    var name := upstream + end;
    UpstreamIff(upstream);
    var a, b, c :| UpstreamIs(upstream, a, b, c);
    WrittenUpstream(a, b, c);
    VariantEnds(end);
    EndDecides(upstream, end);
    TakePartsIff(name, a, b, c, end);
    hide TakeParts, IsVariantEnd, EndsWith, IsUpstream;
    assert name[0] == upstream[0];
    NotGlobal(name);
  }

  /** Every name a release is pushed to is read back as the variant pushed there. */
  lemma VariantOfVersionTag(r: Release, v: Variant)
    requires IsUpstream(r.upstream)
    ensures VariantFor(VersionTag(r, v)) == Some(v)
  {
    hide VariantFor, IsUpstream;
    NamedIsVariant(r.upstream, VariantEnd(v), v);
  }

  // --- what the workflow reads -----------------------------------------------------

  /** The values `emit` writes. An empty name is a push that does not happen. */
  datatype Outputs = Outputs(publish: bool, pushes: map<Variant, string>, globals: seq<string>)

  function Emit(p: Plan): Outputs {
    Outputs(
      p.newestBuild,
      map[Base := if p.newestBuild then VersionTag(p.release, Base) else "",
          Sim := if p.newestBuild then VersionTag(p.release, Sim) else "",
          Seeded := if p.newestBuild then VersionTag(p.release, Seeded) else ""],
      if p.newestBuild then GlobalTags(p.top) else [])
  }

  /** What is pushed and what is slid, together, is exactly what is reported, and a superseded build moves nothing. */
  lemma EmittedIsReported(p: Plan, name: string)
    requires IsUpstream(p.release.upstream)
    ensures name in SlidingTags(p) <==>
              (exists v :: v in Emit(p).pushes && Emit(p).pushes[v] != "" && Emit(p).pushes[v] == name) ||
              name in Emit(p).globals
  {
    var pushes := Emit(p).pushes;
    assert p.release.upstream != "";
    assert Base in pushes && Sim in pushes && Seeded in pushes;
    if p.newestBuild {
      assert pushes[Base] == VersionTag(p.release, Base);
      assert pushes[Sim] == VersionTag(p.release, Sim);
      assert pushes[Seeded] == VersionTag(p.release, Seeded);
    }
  }

  // --- sliding ----------------------------------------------------------------

  datatype SlideError = UnknownName(name: string) | NoDigest(variant: Variant) | CreateFailed(name: string)

  /** The names moved one after the other, up to the first that has no variant or no digest, or whose call to the
      registry fails; `failing` are the names for which it would. */
  function Slide(names: map<string, string>, moving: seq<string>, digests: map<Variant, string>, failing: set<string>):
    (map<string, string>, Result<seq<string>, SlideError>)
  {
    if moving == [] then (names, Ok([]))
    else
      var n := |moving| - 1;
      var (names', done) := Slide(names, moving[..n], digests, failing);
      if done.Err? then (names', done)
      else
        var v := VariantFor(moving[n]);
        if v.None? then (names', Err(UnknownName(moving[n])))
        else if v.value !in digests || digests[v.value] == "" then (names', Err(NoDigest(v.value)))
        else if moving[n] in failing then (names', Err(CreateFailed(moving[n])))
        else (names'[moving[n] := digests[v.value]], Ok(moving))
  }

  /** The names of one image in the registry. */
  class ImageNames {
    var names: map<string, string>

    /** A call that fails leaves the name where it was. */
    method Create(name: string, digest: string, fails: bool) returns (ok: bool)
      modifies this
      ensures ok == !fails
      ensures names == if ok then old(names)[name := digest] else old(names)
    {
      ok := !fails;
      if ok {
        names := names[name := digest];
      }
    }

    method SlideAll(moving: seq<string>, digests: map<Variant, string>, failing: set<string>)
      returns (moved: Result<seq<string>, SlideError>)
      modifies this
      ensures (names, moved) == Slide(old(names), moving, digests, failing)
    {
      var done := [];
      for i := 0 to |moving|
        invariant done == moving[..i]
        invariant (names, Ok(done)) == Slide(old(names), moving[..i], digests, failing)
      {
        assert moving[..i + 1][..i] == moving[..i];
        SlideStops(old(names), moving, i + 1, digests, failing);
        var v := VariantFor(moving[i]);
        if v.None? {
          return Err(UnknownName(moving[i]));
        }
        if v.value !in digests || digests[v.value] == "" {
          return Err(NoDigest(v.value));
        }
        var ok := Create(moving[i], digests[v.value], moving[i] in failing);
        if !ok {
          return Err(CreateFailed(moving[i]));
        }
        done := done + [moving[i]];
      }
      assert moving[..|moving|] == moving;
      return Ok(done);
    }
  }

  /** The first failure is the last thing that happens. */
  lemma {:induction false} SlideStops(names: map<string, string>, moving: seq<string>, n: nat,
                                      digests: map<Variant, string>, failing: set<string>)
    requires n <= |moving|
    ensures Slide(names, moving[..n], digests, failing).1.Err? ==>
              Slide(names, moving, digests, failing) == Slide(names, moving[..n], digests, failing)
    decreases |moving|
  {
    hide VariantFor;
    if n == |moving| {
      assert moving[..n] == moving;
    } else {
      assert moving[..|moving| - 1][..n] == moving[..n];
      SlideStops(names, moving[..|moving| - 1], n, digests, failing);
    }
  }

  /** A slide that succeeds leaves every name asked for at the digest of its own variant, and no other name touched. */
  lemma {:induction false} SlideMovesEach(names: map<string, string>, moving: seq<string>,
                                          digests: map<Variant, string>, failing: set<string>)
    requires Slide(names, moving, digests, failing).1.Ok?
    ensures
      var (after, done) := Slide(names, moving, digests, failing);
      && done.value == moving
      && (forall name :: name in moving ==> Follows(name, after, digests))
      && (forall name :: name !in moving ==> SameAt(name, names, after))
  {
    hide VariantFor;
    if moving != [] {
      var n := |moving| - 1;
      SlideMovesEach(names, moving[..n], digests, failing);
      assert moving == moving[..n] + [moving[n]];
    }
  }

  /** The name points at the digest of the variant it stands for. */
  predicate Follows(name: string, names: map<string, string>, digests: map<Variant, string>) {
    && VariantFor(name).Some? && VariantFor(name).value in digests
    && digests[VariantFor(name).value] != ""
    && name in names && names[name] == digests[VariantFor(name).value]
  }

  predicate SameAt(name: string, before: map<string, string>, after: map<string, string>) {
    (name in before <==> name in after) && (name in before ==> before[name] == after[name])
  }

  /** It fails exactly when some name asked for has no variant or no digest, or cannot be moved; it never skips one and
      reports success. */
  lemma {:induction false} SlideFailsIff(names: map<string, string>, moving: seq<string>, digests: map<Variant, string>,
                                         failing: set<string>)
    ensures Slide(names, moving, digests, failing).1.Err? <==>
              exists i :: 0 <= i < |moving| && !CanMove(moving[i], digests, failing)
  {
    hide VariantFor;
    if moving != [] {
      var n := |moving| - 1;
      SlideFailsIff(names, moving[..n], digests, failing);
      forall i | 0 <= i < n
        ensures moving[..n][i] == moving[i]
      {
      }
      if Slide(names, moving[..n], digests, failing).1.Err? {
        var i :| 0 <= i < n && !CanMove(moving[..n][i], digests, failing);
        assert !CanMove(moving[i], digests, failing);
      }
    }
  }

  predicate CanMove(name: string, digests: map<Variant, string>, failing: set<string>) {
    var v := VariantFor(name);
    v.Some? && v.value in digests && digests[v.value] != "" && name !in failing
  }
}
