/** The registry over any order of cutting tags and running, or running again, their release workflows. */
module Registry {
  import opened Wrappers
  import opened Releases
  import opened ReleaseLaws
  import opened ReleaseOrder
  import opened ReleasePlans

  /** A pushed digest: the release and the variant it was built from, and the run that built it. */
  datatype Image = Image(release: Release, variant: Variant, run: nat)

  datatype Place = Place(product: Product, name: string)

  datatype State = State(tags: seq<string>, registry: map<Place, Image>)

  /** Something happens: a tag is pushed, whatever it says; or a tag's workflow runs, with these pins, and gets as far
      as to move the names in `reached`. */
  datatype Step =
    | TagPushed(tag: string)
    | Ran(tag: string, pinned: string, run: nat, reached: set<string>)

  /** The variant whose digest ends up at a name: pushed there, or slid there. */
  function VariantAt(p: Plan, name: string): Option<Variant> {
    if name == VersionTag(p.release, Base) then Some(Base)
    else if name == VersionTag(p.release, Sim) then Some(Sim)
    else if name == VersionTag(p.release, Seeded) then Some(Seeded)
    else VariantFor(name)
  }

  function Moved(p: Plan, run: nat, reached: set<string>): map<Place, Image> {
    map name | name in reached && name in SlidingTags(p) && VariantAt(p, name).Some? ::
      Place(p.release.product, name) := Image(p.release, VariantAt(p, name).value, run)
  }

  /** Planning and sliding are one step, and only a tag that was pushed has a workflow. */
  function Next(s: State, step: Step): State {
    match step
    case TagPushed(tag) => s.(tags := s.tags + [tag])
    case Ran(tag, pinned, run, reached) =>
      if tag !in s.tags then s
      else
        match PlanOf(tag, s.tags, pinned)
        case Err(_) => s
        case Ok(p) => s.(registry := s.registry + Moved(p, run, reached))
  }

  function Execute(steps: seq<Step>): State {
    if steps == [] then State([], map[]) else Next(Execute(steps[..|steps| - 1]), steps[|steps| - 1])
  }

  // --- what is at a name --------------------------------------------------------

  predicate IsGlobal(name: string) {
    name == "latest" || name == "sim" || name == "seeded"
  }

  /** A name's image is of its own product and variant, built from a release some tag names; a version-level name is
      that version's. */
  predicate Placed(tags: seq<string>, place: Place, image: Image) {
    && image.release.product == place.product
    && VariantFor(place.name) == Some(image.variant)
    && (!IsGlobal(place.name) ==> place.name == VersionTag(image.release, image.variant))
    && Named(tags, image.release) && IsVersion(image.release.upstream)
  }

  predicate Named(tags: seq<string>, r: Release) {
    exists tag :: tag in tags && Parse(tag) == Some(r)
  }

  predicate Inv(s: State) {
    forall place :: place in s.registry ==> Placed(s.tags, place, s.registry[place])
  }

  /** A name's digest is that of the variant the name stands for, whether pushed there or slid there. */
  lemma VariantAtIs(p: Plan, name: string)
    requires IsUpstream(p.release.upstream)
    ensures VariantAt(p, name) == VariantFor(name)
  {
    hide VersionTag, VariantFor, IsUpstream;
    VariantOfVersionTag(p.release, Base);
    VariantOfVersionTag(p.release, Sim);
    VariantOfVersionTag(p.release, Seeded);
  }

  lemma MovedAt(p: Plan, run: nat, reached: set<string>, place: Place)
    requires IsUpstream(p.release.upstream) && place in Moved(p, run, reached)
    ensures
      && place.product == p.release.product && place.name in reached && place.name in SlidingTags(p)
      && VariantFor(place.name).Some?
      && Moved(p, run, reached)[place] == Image(p.release, VariantFor(place.name).value, run)
  {
    VariantAtIs(p, place.name);
    hide VariantAt, VariantFor, SlidingTags, IsUpstream;
  }

  lemma SlidingIsVersioned(p: Plan, name: string)
    requires IsUpstream(p.release.upstream) && name in SlidingTags(p) && !IsGlobal(name)
    ensures VariantFor(name).Some? && name == VersionTag(p.release, VariantFor(name).value)
  {
    VariantOfVersionTag(p.release, Base);
    VariantOfVersionTag(p.release, Sim);
    VariantOfVersionTag(p.release, Seeded);
    SlidingIs(p, name);
    hide VersionTag, VariantFor, IsUpstream, SlidingTags, IsGlobal;
  }

  lemma SlidingIs(p: Plan, name: string)
    requires name in SlidingTags(p)
    ensures
      || name == VersionTag(p.release, Base) || name == VersionTag(p.release, Sim)
      || name == VersionTag(p.release, Seeded) || IsGlobal(name)
  {
    hide VersionTag;
    assert name in VersionTags(p.release) || name in GlobalTags(p.top);
  }

  /** What is moved is placed. */
  lemma MovedIsPlaced(tags: seq<string>, tag: string, pinned: string, run: nat, reached: set<string>, place: Place)
    requires tag in tags && PlanOf(tag, tags, pinned).Ok?
    requires place in Moved(PlanOf(tag, tags, pinned).value, run, reached)
    ensures
      var p := PlanOf(tag, tags, pinned).value;
      && Placed(tags, place, Moved(p, run, reached)[place])
      && place.name in SlidingTags(p)
      && Moved(p, run, reached)[place].release == p.release
  {
    var p := PlanOf(tag, tags, pinned).value;
    PlanIsOfTag(tag, tags, pinned);
    PlanIsOfVersion(tag, tags, pinned);
    hide *;
    MovedAt(p, run, reached, place);
    if !IsGlobal(place.name) {
      SlidingIsVersioned(p, place.name);
    }
    PlacedIf(tags, tag, place, Moved(p, run, reached)[place]);
  }

  lemma PlacedIf(tags: seq<string>, tag: string, place: Place, image: Image)
    requires tag in tags && Parse(tag) == Some(image.release) && IsVersion(image.release.upstream)
    requires image.release.product == place.product && VariantFor(place.name) == Some(image.variant)
    requires !IsGlobal(place.name) ==> place.name == VersionTag(image.release, image.variant)
    ensures Placed(tags, place, image)
  {
    hide Parse, IsVersion, VariantFor, IsGlobal, VersionTag;
  }

  lemma PlanIsOfVersion(tag: string, tags: seq<string>, pinned: string)
    requires PlanOf(tag, tags, pinned).Ok?
    ensures IsVersion(PlanOf(tag, tags, pinned).value.release.upstream)
  {
    PlanOfIff(tag, tags, pinned);
    hide PlanOf, Parse, IsVersion, NoneNewer, NoneAbove;
  }

  lemma PlanIsOfTag(tag: string, tags: seq<string>, pinned: string)
    requires PlanOf(tag, tags, pinned).Ok?
    ensures
      var p := PlanOf(tag, tags, pinned).value;
      && Parse(tag) == Some(p.release) && IsUpstream(p.release.upstream)
      && p.newestBuild == IsHighestBuild(tags, p.release) && IsHighestStable(tags, p.release) == Ok(p.top)
  {
    ParsedIsUpstream(tag);
    hide Parse, IsUpstream, IsHighestBuild, IsHighestStable;
  }

  /** Exactly which tags get a plan: releases whose version the pins name, where every release of the product that a tag
      names can be compared. */
  lemma PlanOfIff(tag: string, tags: seq<string>, pinned: string)
    ensures
      var parsed := Parse(tag);
      PlanOf(tag, tags, pinned) ==
      if parsed.None? then Err(NotARelease)
      else if pinned != parsed.value.upstream then Err(PinsDisagree)
      else if !Comparable(tags, parsed.value) then Err(InvalidVersion)
      else Ok(Plan(parsed.value, pinned, NoneNewer(tags, parsed.value), NoneAbove(tags, parsed.value)))
  {
    if Parse(tag).Some? {
      ParsedIsUpstream(tag);
      IsHighestBuildIff(tags, Parse(tag).value);
      IsHighestStableIff(tags, Parse(tag).value);
    }
    hide Parse, IsUpstream, IsHighestBuild, IsHighestStable, Comparable, NoneNewer, NoneAbove;
  }

  lemma PlacedStays(tags: seq<string>, tag: string, place: Place, image: Image)
    requires Placed(tags, place, image)
    ensures Placed(tags + [tag], place, image)
  {
    hide Parse, VariantFor, VersionTag;
    var t :| t in tags && Parse(t) == Some(image.release);
    assert t in tags + [tag];
  }

  lemma NextKeepsInv(s: State, step: Step)
    requires Inv(s)
    ensures Inv(Next(s, step))
  {
    hide Placed, PlanOf, Moved;
    match step
    case TagPushed(tag) =>
      forall place | place in s.registry
        ensures Placed(s.tags + [tag], place, s.registry[place])
      {
        PlacedStays(s.tags, tag, place, s.registry[place]);
      }
    case Ran(tag, pinned, run, reached) =>
      if tag in s.tags && PlanOf(tag, s.tags, pinned).Ok? {
        var p := PlanOf(tag, s.tags, pinned).value;
        forall place | place in Moved(p, run, reached)
          ensures Placed(s.tags, place, Moved(p, run, reached)[place])
        {
          MovedIsPlaced(s.tags, tag, pinned, run, reached, place);
        }
      }
  }

  lemma {:induction false} ExecuteKeepsInv(steps: seq<Step>)
    ensures Inv(Execute(steps))
  {
    hide Inv, Next;
    if steps == [] {
      assert Inv(State([], map[])) by {
        EmptyInv();
      }
    } else {
      ExecuteKeepsInv(steps[..|steps| - 1]);
      NextKeepsInv(Execute(steps[..|steps| - 1]), steps[|steps| - 1]);
    }
  }

  lemma EmptyInv()
    ensures Inv(State([], map[]))
  {
  }

  /** Each name points at an image of its own variant, and each version-level name at one of its own version. */
  lemma NamesFollowTheirVariants(steps: seq<Step>, place: Place)
    requires place in Execute(steps).registry
    ensures
      var image := Execute(steps).registry[place];
      && image.release.product == place.product
      && VariantFor(place.name) == Some(image.variant)
      && (!IsGlobal(place.name) ==> place.name == VersionTag(image.release, image.variant))
  {
    ExecuteKeepsInv(steps);
    hide Execute, VariantFor, VersionTag;
  }

  // --- nothing moves backwards -----------------------------------------------------

  /** A name moves on to a later build of its version, or a global name to a later version; or stays where it is. */
  ghost predicate Advances(name: string, old_: Image, new_: Image) {
    && old_.release.product == new_.release.product
    && (if IsGlobal(name) then Reaches(old_.release, new_.release)
        else old_.release.upstream == new_.release.upstream && old_.release.revision <= new_.release.revision)
  }

  lemma AdvancesTransitively(name: string, x: Image, y: Image, z: Image)
    requires Advances(name, x, y) && Advances(name, y, z)
    ensures Advances(name, x, z)
  {
    ReachesIff(x.release, y.release);
    ReachesIff(y.release, z.release);
    ReachesIff(x.release, z.release);
    hide IsVersion, Rank, Reaches;
  }

  lemma StayingAdvances(tags: seq<string>, place: Place, image: Image)
    requires Placed(tags, place, image)
    ensures Advances(place.name, image, image)
  {
    ReachesIff(image.release, image.release);
    hide Parse, IsVersion, Rank, Reaches, VariantFor, VersionTag;
  }

  lemma SameVersionTag(q: Release, r: Release, v: Variant)
    requires VersionTag(q, v) == VersionTag(r, v)
    ensures q.upstream == r.upstream
  {
    var end := VariantEnd(v);
    assert (q.upstream + end)[..|q.upstream|] == q.upstream;
    assert (r.upstream + end)[..|r.upstream|] == r.upstream;
  }

  /** A run only ever moves a name on. */
  lemma MovedAdvances(tags: seq<string>, tag: string, pinned: string, run: nat, reached: set<string>, place: Place,
                      before: Image)
    requires tag in tags && PlanOf(tag, tags, pinned).Ok?
    requires place in Moved(PlanOf(tag, tags, pinned).value, run, reached)
    requires Placed(tags, place, before)
    ensures Advances(place.name, before, Moved(PlanOf(tag, tags, pinned).value, run, reached)[place])
  {
    MovedIsPlaced(tags, tag, pinned, run, reached, place);
    var p := PlanOf(tag, tags, pinned).value;
    PlanIsOfTag(tag, tags, pinned);
    hide PlanOf, Parse, IsUpstream, IsHighestBuild, IsHighestStable, VersionTag, VariantFor, Moved;
    var t :| t in tags && Parse(t) == Some(before.release);
    IsHighestBuildIff(tags, p.release);
    if IsGlobal(place.name) {
      GlobalsNeedTop(p, place.name);
      IsHighestStableIff(tags, p.release);
      assert Reaches(Parse(t).value, p.release);
    } else {
      SameVersionTag(before.release, p.release, before.variant);
      assert IsBuildOf(Parse(t).value, p.release);
    }
  }

  lemma GlobalsNeedTop(p: Plan, name: string)
    requires name in SlidingTags(p) && IsGlobal(name) && IsUpstream(p.release.upstream)
    ensures p.newestBuild && p.top
  {
    UpstreamIff(p.release.upstream);
    var a, b, c :| UpstreamIs(p.release.upstream, a, b, c);
    EndsInDigit(a, b, c);
    hide IsUpstream, VariantEnd;
    NotGlobal(VersionTag(p.release, Base));
    NotGlobal(VersionTag(p.release, Sim));
    NotGlobal(VersionTag(p.release, Seeded));
  }

  /** A place that points somewhere still does, and it has advanced. */
  ghost predicate AdvancesAt(s: State, s': State, place: Place) {
    && place in s.registry && place in s'.registry
    && Advances(place.name, s.registry[place], s'.registry[place])
  }

  lemma StaysAt(s: State, place: Place)
    requires Inv(s) && place in s.registry
    ensures AdvancesAt(s, s, place)
  {
    assert Placed(s.tags, place, s.registry[place]);
    hide Placed, Advances;
    StayingAdvances(s.tags, place, s.registry[place]);
  }

  lemma NextAdvances(s: State, step: Step, place: Place)
    requires Inv(s) && place in s.registry
    ensures AdvancesAt(s, Next(s, step), place)
  {
    assert Placed(s.tags, place, s.registry[place]);
    hide Placed, PlanOf, Moved, Advances;
    StayingAdvances(s.tags, place, s.registry[place]);
    match step
    case TagPushed(_) =>
    case Ran(tag, pinned, run, reached) =>
      if tag in s.tags && PlanOf(tag, s.tags, pinned).Ok? {
        if place in Moved(PlanOf(tag, s.tags, pinned).value, run, reached) {
          MovedAdvances(s.tags, tag, pinned, run, reached, place, s.registry[place]);
        }
      }
  }

  lemma AdvancesOn(x: State, y: State, z: State, place: Place)
    requires AdvancesAt(x, y, place) && AdvancesAt(y, z, place)
    ensures AdvancesAt(x, z, place)
  {
    AdvancesTransitively(place.name, x.registry[place], y.registry[place], z.registry[place]);
    hide Advances;
  }

  /** Between any two moments of any history, a name keeps its place or moves on: a version-level name to a later build
      of that version, a global name to a later version. Runs may come in any order, again, and stop half-way. */
  lemma {:induction false} NamesOnlyAdvance(steps: seq<Step>, i: nat, j: nat, place: Place)
    requires i <= j <= |steps| && place in Execute(steps[..i]).registry
    ensures AdvancesAt(Execute(steps[..i]), Execute(steps[..j]), place)
    decreases j
  {
    hide Inv, Next, Execute, AdvancesAt;
    if i == j {
      ExecuteKeepsInv(steps[..i]);
      StaysAt(Execute(steps[..i]), place);
    } else {
      NamesOnlyAdvance(steps, i, j - 1, place);
      ExecuteKeepsInv(steps[..j - 1]);
      ExecuteNext(steps, j - 1);
      StillPlaced(Execute(steps[..i]), Execute(steps[..j - 1]), place);
      NextAdvances(Execute(steps[..j - 1]), steps[j - 1], place);
      AdvancesOn(Execute(steps[..i]), Execute(steps[..j - 1]), Execute(steps[..j]), place);
    }
  }

  lemma StillPlaced(s: State, s': State, place: Place)
    requires AdvancesAt(s, s', place)
    ensures place in s'.registry
  {
  }

  lemma ExecuteNext(steps: seq<Step>, n: nat)
    requires n < |steps|
    ensures Execute(steps[..n + 1]) == Next(Execute(steps[..n]), steps[n])
  {
    hide Next;
    assert steps[..n + 1][..n] == steps[..n];
  }

  // --- what a run does ------------------------------------------------------------

  /** A run that gets all the way, where all releases of its product can be compared: the newest build of its version
      takes that version's names, the highest release the global ones too, each with the image of its own variant; a
      superseded build takes none, and where some release cannot be compared no run takes any. */
  lemma RunTakes(s: State, tag: string, r: Release, run: nat, reached: set<string>, v: Variant)
    requires tag in s.tags && Parse(tag) == Some(r)
    requires VersionTag(r, v) in reached && GlobalTag(v) in reached
    ensures
      var s' := Next(s, Ran(tag, r.upstream, run, reached));
      var image := Image(r, v, run);
      && (if Comparable(s.tags, r) && NoneNewer(s.tags, r) then PointsAt(s', Place(r.product, VersionTag(r, v)), image)
          else s' == s)
      && (if Comparable(s.tags, r) && NoneAbove(s.tags, r) then PointsAt(s', Place(r.product, GlobalTag(v)), image)
          else SameAt(s, s', Place(r.product, GlobalTag(v))))
  {
    hide *;
    PlanOfIff(tag, s.tags, r.upstream);
    if !Comparable(s.tags, r) {
      NoPlanNoRun(s, tag, r.upstream, run, reached);
      SameAtItself(s, Place(r.product, GlobalTag(v)));
      return;
    }
    var p := PlanFor(s.tags, tag, r);
    RunIs(s, tag, r.upstream, p, run, reached);
    PlannedMoves(p, run, reached, v);
    Added(s, Moved(p, run, reached), Place(r.product, VersionTag(r, v)));
    Added(s, Moved(p, run, reached), Place(r.product, GlobalTag(v)));
    if !p.newestBuild {
      NothingSuperseded(p, run, reached);
      NothingAdded(s);
    }
  }

  lemma Added(s: State, m: map<Place, Image>, place: Place)
    ensures
      var s' := s.(registry := s.registry + m);
      if place in m then PointsAt(s', place, m[place]) else SameAt(s, s', place)
  {
  }

  lemma NothingAdded(s: State)
    ensures s.(registry := s.registry + map[]) == s
  {
    assert s.registry + map[] == s.registry;
  }

  lemma NoPlanNoRun(s: State, tag: string, pinned: string, run: nat, reached: set<string>)
    requires PlanOf(tag, s.tags, pinned).Err?
    ensures Next(s, Ran(tag, pinned, run, reached)) == s
  {
    hide PlanOf, Moved;
  }

  lemma SameAtItself(s: State, place: Place)
    ensures SameAt(s, s, place)
  {
  }

  /** The plan, in terms of what the tags say. */
  lemma PlanFor(tags: seq<string>, tag: string, r: Release) returns (p: Plan)
    requires Parse(tag) == Some(r) && Comparable(tags, r)
    ensures PlanOf(tag, tags, r.upstream) == Ok(p) && p.release == r && IsUpstream(r.upstream)
    ensures p.newestBuild == NoneNewer(tags, r) && p.top == NoneAbove(tags, r) && (p.top ==> p.newestBuild)
  {
    PlanOfIff(tag, tags, r.upstream);
    ParsedIsUpstream(tag);
    IsHighestBuildIff(tags, r);
    IsHighestStableIff(tags, r);
    if IsHighestStable(tags, r) == Ok(true) {
      HighestIsNewest(tags, r);
    }
    hide Parse, IsUpstream, IsHighestBuild, IsHighestStable, NoneNewer, NoneAbove, Comparable, PlanOf;
    p := Plan(r, r.upstream, NoneNewer(tags, r), NoneAbove(tags, r));
  }

  lemma RunIs(s: State, tag: string, pinned: string, p: Plan, run: nat, reached: set<string>)
    requires tag in s.tags && PlanOf(tag, s.tags, pinned) == Ok(p)
    ensures Next(s, Ran(tag, pinned, run, reached)) == s.(registry := s.registry + Moved(p, run, reached))
  {
    hide PlanOf, Moved;
  }

  predicate PointsAt(s: State, place: Place, image: Image) {
    place in s.registry && s.registry[place] == image
  }

  predicate SameAt(s: State, s': State, place: Place) {
    (place in s.registry <==> place in s'.registry) &&
    (place in s.registry ==> s.registry[place] == s'.registry[place])
  }

  lemma NothingSuperseded(p: Plan, run: nat, reached: set<string>)
    requires !p.newestBuild
    ensures Moved(p, run, reached) == map[]
  {
  }

  lemma VersionTagSlides(p: Plan, v: Variant)
    requires p.newestBuild
    ensures VersionTag(p.release, v) in SlidingTags(p)
  {
    hide VersionTag;
    var i := match v case Base => 0 case Sim => 1 case Seeded => 2;
    assert SlidingTags(p)[i] == VersionTag(p.release, v);
  }

  lemma GlobalTagSlides(p: Plan, v: Variant)
    requires p.newestBuild && p.top
    ensures GlobalTag(v) in SlidingTags(p)
  {
    hide GlobalTag, VersionTag;
    var i := match v case Base => 3 case Sim => 4 case Seeded => 5;
    assert SlidingTags(p)[i] == GlobalTag(v);
  }

  lemma Reaching(p: Plan, run: nat, reached: set<string>, name: string, v: Variant)
    requires IsUpstream(p.release.upstream) && VariantFor(name) == Some(v)
    requires name in reached && name in SlidingTags(p)
    ensures
      var place := Place(p.release.product, name);
      place in Moved(p, run, reached) && Moved(p, run, reached)[place] == Image(p.release, v, run)
  {
    VariantAtIs(p, name);
    hide VariantAt, VariantFor, SlidingTags, IsUpstream;
    assert Place(p.release.product, name) in Moved(p, run, reached);
  }

  lemma PlannedMoves(p: Plan, run: nat, reached: set<string>, v: Variant)
    requires IsUpstream(p.release.upstream) && (p.top ==> p.newestBuild)
    requires VersionTag(p.release, v) in reached && GlobalTag(v) in reached
    ensures
      var moved, image := Moved(p, run, reached), Image(p.release, v, run);
      var versioned, global := Place(p.release.product, VersionTag(p.release, v)),
                               Place(p.release.product, GlobalTag(v));
      && (p.newestBuild ==> versioned in moved && moved[versioned] == image)
      && (p.top ==> global in moved && moved[global] == image)
      && (!p.top ==> global !in moved)
  {
    VariantOfVersionTag(p.release, v);
    VariantOfGlobalTag(v);
    GlobalTagIsGlobal(v);
    hide VersionTag, GlobalTag, VariantFor, SlidingTags, IsUpstream, Moved;
    if p.newestBuild {
      VersionTagSlides(p, v);
      Reaching(p, run, reached, VersionTag(p.release, v), v);
      if p.top {
        GlobalTagSlides(p, v);
        Reaching(p, run, reached, GlobalTag(v), v);
      }
    }
    var global := Place(p.release.product, GlobalTag(v));
    if !p.top && global in Moved(p, run, reached) {
      MovedAt(p, run, reached, global);
      GlobalsNeedTop(p, GlobalTag(v));
    }
  }

  lemma GlobalTagIsGlobal(v: Variant)
    ensures IsGlobal(GlobalTag(v))
  {
  }

  /** The registry only ever changes for a tag that was pushed, whose version is the one the pins name, that no later
      build supersedes, and all of whose product's releases can be compared. */
  lemma ChangesAreWarranted(s: State, step: Step)
    requires Next(s, step).registry != s.registry
    ensures step.Ran? && step.tag in s.tags && Parse(step.tag).Some?
    ensures step.pinned == Parse(step.tag).value.upstream && NoneNewer(s.tags, Parse(step.tag).value)
    ensures Comparable(s.tags, Parse(step.tag).value)
  {
    hide Parse, PlanOf, NoneNewer, NoneAbove, Comparable, Moved;
    assert step.Ran?;
    PlanOfIff(step.tag, s.tags, step.pinned);
    var p := PlanOf(step.tag, s.tags, step.pinned).value;
    if !p.newestBuild {
      NothingSuperseded(p, step.run, step.reached);
      NothingAdded(s);
    }
  }

  // --- one tag may stop a product ---------------------------------------------------

  /** A tag that the pattern takes for a release of the product, and whose version cannot be compared. */
  predicate IsStray(tag: string, product: Product) {
    Concerns(tag, product) && !IsVersion(Parse(tag).value.upstream)
  }

  /** A tag of Arabic-Indic digits is one. */
  lemma StrayTag()
    ensures IsStray("network/\U{0663}.0.0-1", Network)
  {
    hide IsVersion, TakeProduct, TakeParts, TakeRevision;
    var a, b, c, digits := "\U{0663}", "0", "0", "1";
    assert OTHER_ZEROS[0] == 0x660;
    assert DigitOf(a[0]) == Some(3);
    assert IsDigit(a[0]);
    TagParses(Network, a, b, c, digits, "");
    assert Dotted(a, b, c) == "\U{0663}.0.0";
    assert TagOf(Network, a, b, c, digits, "") == "network/\U{0663}.0.0-1";
    OtherDigitsAreNoVersion(Dotted(a, b, c));
  }

  lemma OtherDigitsAreNoVersion(upstream: string)
    requires upstream != "" && upstream[0] >= '\U{0080}'
    ensures !IsVersion(upstream)
  {
    hide IsUpstream;
  }

  lemma TagsStay(s: State, step: Step, tag: string)
    requires tag in s.tags
    ensures tag in Next(s, step).tags
  {
    hide PlanOf, Moved;
  }

  lemma StrayStopsNext(s: State, step: Step, stray: string, place: Place)
    requires stray in s.tags && IsStray(stray, place.product)
    ensures SameAt(s, Next(s, step), place)
  {
    hide PlanOf, Moved, IsStray;
    match step
    case TagPushed(_) =>
    case Ran(tag, pinned, run, reached) =>
      if tag in s.tags && PlanOf(tag, s.tags, pinned).Ok? {
        StrayNotMoved(s.tags, tag, pinned, run, reached, stray, place);
      }
  }

  lemma StrayNotMoved(tags: seq<string>, tag: string, pinned: string, run: nat, reached: set<string>, stray: string,
                      place: Place)
    requires stray in tags && IsStray(stray, place.product) && PlanOf(tag, tags, pinned).Ok?
    ensures place !in Moved(PlanOf(tag, tags, pinned).value, run, reached)
  {
    PlanOfIff(tag, tags, pinned);
    hide PlanOf, Parse, Comparable, NoneNewer, NoneAbove, IsStray;
    if Parse(tag).value.product == place.product {
      NotComparable(tags, Parse(tag).value, stray);
    }
    hide SlidingTags, VariantAt;
  }

  lemma NotComparable(tags: seq<string>, r: Release, stray: string)
    requires stray in tags && IsStray(stray, r.product)
    ensures !Comparable(tags, r)
  {
    hide Parse, IsVersion;
  }

  /** Once such a tag was pushed, nothing a product's names point at ever changes again, whatever is tagged and run. */
  lemma {:induction false} StrayTagStops(steps: seq<Step>, i: nat, j: nat, stray: string, place: Place)
    requires i <= j <= |steps| && stray in Execute(steps[..i]).tags && IsStray(stray, place.product)
    ensures stray in Execute(steps[..j]).tags
    ensures SameAt(Execute(steps[..i]), Execute(steps[..j]), place)
    decreases j
  {
    hide Next, Execute, IsStray;
    if i < j {
      StrayTagStops(steps, i, j - 1, stray, place);
      ExecuteNext(steps, j - 1);
      StrayStopsNext(Execute(steps[..j - 1]), steps[j - 1], stray, place);
      TagsStay(Execute(steps[..j - 1]), steps[j - 1], stray);
    }
  }

  // --- products do not affect each other --------------------------------------------

  predicate Concerns(tag: string, product: Product) {
    Parse(tag).Some? && Parse(tag).value.product == product
  }

  function Filtered(steps: seq<Step>, product: Product): seq<Step> {
    if steps == [] then []
    else
      var n := |steps| - 1;
      Filtered(steps[..n], product) + (if Concerns(steps[n].tag, product) then [steps[n]] else [])
  }

  /** Two lists of tags name the same releases of a product. */
  ghost predicate Agree(tags: seq<string>, tags': seq<string>, product: Product) {
    forall tag :: Concerns(tag, product) ==> (tag in tags <==> tag in tags')
  }

  /** A plan looks at the tags of its own product only. */
  lemma PlansAgree(tag: string, tags: seq<string>, tags': seq<string>, pinned: string, product: Product)
    requires Concerns(tag, product) && Agree(tags, tags', product)
    ensures PlanOf(tag, tags, pinned) == PlanOf(tag, tags', pinned)
  {
    var r := Parse(tag).value;
    PlanOfIff(tag, tags, pinned);
    PlanOfIff(tag, tags', pinned);
    NewerAgree(tags, tags', r);
    NewerAgree(tags', tags, r);
    AboveAgree(tags, tags', r);
    AboveAgree(tags', tags, r);
    ComparableAgree(tags, tags', r);
    ComparableAgree(tags', tags, r);
    hide Parse, PlanOf, NoneNewer, NoneAbove, Comparable;
  }

  lemma ComparableAgree(tags: seq<string>, tags': seq<string>, r: Release)
    requires Agree(tags, tags', r.product)
    ensures Comparable(tags, r) ==> Comparable(tags', r)
  {
    hide Parse, IsVersion;
    if Comparable(tags, r) {
      forall tag | tag in tags' && Parse(tag).Some? && Parse(tag).value.product == r.product
        ensures IsVersion(Parse(tag).value.upstream)
      {
        assert Concerns(tag, r.product);
        assert tag in tags;
      }
    }
  }

  lemma NewerAgree(tags: seq<string>, tags': seq<string>, r: Release)
    requires Agree(tags, tags', r.product)
    ensures NoneNewer(tags, r) ==> NoneNewer(tags', r)
  {
    hide Parse;
    if NoneNewer(tags, r) {
      forall tag | tag in tags' && Parse(tag).Some? && IsBuildOf(Parse(tag).value, r)
        ensures Parse(tag).value.revision <= r.revision
      {
        assert Concerns(tag, r.product);
        assert tag in tags;
      }
    }
  }

  lemma AboveAgree(tags: seq<string>, tags': seq<string>, r: Release)
    requires Agree(tags, tags', r.product)
    ensures NoneAbove(tags, r) ==> NoneAbove(tags', r)
  {
    hide Parse, Reaches;
    if NoneAbove(tags, r) {
      forall tag | tag in tags' && Parse(tag).Some? && Parse(tag).value.product == r.product
        ensures Reaches(Parse(tag).value, r)
      {
        assert Concerns(tag, r.product);
        assert tag in tags;
      }
    }
  }

  /** Two states are the same to a product. */
  ghost predicate SameFor(s: State, s': State, product: Product) {
    && Agree(s.tags, s'.tags, product)
    && forall place: Place :: place.product == product ==> SameAt(s, s', place)
  }

  lemma OtherStepKeeps(s: State, s': State, step: Step, product: Product)
    requires SameFor(s, s', product) && !Concerns(step.tag, product)
    ensures SameFor(Next(s, step), s', product)
  {
    hide Parse, PlanOf, Moved, Concerns;
    match step
    case TagPushed(tag) =>
      AgreeOther(s.tags, s'.tags, tag, product);
    case Ran(tag, pinned, run, reached) =>
      if tag in s.tags && PlanOf(tag, s.tags, pinned).Ok? {
        hide Agree;
        forall place: Place | place.product == product
          ensures place !in Moved(PlanOf(tag, s.tags, pinned).value, run, reached)
        {
          OthersNotMoved(tag, s.tags, pinned, run, reached, place);
        }
      }
  }

  lemma OthersNotMoved(tag: string, tags: seq<string>, pinned: string, run: nat, reached: set<string>, place: Place)
    requires PlanOf(tag, tags, pinned).Ok? && !Concerns(tag, place.product)
    ensures place !in Moved(PlanOf(tag, tags, pinned).value, run, reached)
  {
    PlanIsOfTag(tag, tags, pinned);
    hide Parse, PlanOf, SlidingTags, VariantAt, IsUpstream;
  }

  lemma AgreeOther(tags: seq<string>, tags': seq<string>, tag: string, product: Product)
    requires Agree(tags, tags', product) && !Concerns(tag, product)
    ensures Agree(tags + [tag], tags', product)
  {
    hide Concerns;
  }

  lemma AgreeOwn(tags: seq<string>, tags': seq<string>, tag: string, product: Product)
    requires Agree(tags, tags', product)
    ensures Agree(tags + [tag], tags' + [tag], product)
  {
    hide Concerns;
  }

  lemma OwnStepAgrees(s: State, s': State, step: Step, product: Product)
    requires SameFor(s, s', product) && Concerns(step.tag, product)
    ensures SameFor(Next(s, step), Next(s', step), product)
  {
    hide PlanOf, Moved, Concerns;
    match step
    case TagPushed(tag) =>
      AgreeOwn(s.tags, s'.tags, tag, product);
    case Ran(tag, pinned, run, reached) =>
      assert tag in s.tags <==> tag in s'.tags;
      PlansAgree(tag, s.tags, s'.tags, pinned, product);
      hide SameFor;
      if tag in s.tags && PlanOf(tag, s.tags, pinned).Ok? {
        var p := PlanOf(tag, s.tags, pinned).value;
        RunIs(s, tag, pinned, p, run, reached);
        RunIs(s', tag, pinned, p, run, reached);
        SameAdded(s, s', Moved(p, run, reached), product);
      }
  }

  lemma SameAdded(s: State, s': State, m: map<Place, Image>, product: Product)
    requires SameFor(s, s', product)
    ensures SameFor(s.(registry := s.registry + m), s'.(registry := s'.registry + m), product)
  {
    hide Agree;
  }

  /** What a product's names point at after any history is what they would point at had nothing else happened: neither
      the other product's tags and runs, nor tags that name no release. */
  lemma {:induction false} ProductsAreIndependent(steps: seq<Step>, product: Product)
    ensures SameFor(Execute(steps), Execute(Filtered(steps, product)), product)
  {
    hide SameFor, Next, Concerns;
    if steps == [] {
      SameForItself(Execute(steps), product);
    } else {
      var n := |steps| - 1;
      var own := Filtered(steps[..n], product);
      ProductsAreIndependent(steps[..n], product);
      if Concerns(steps[n].tag, product) {
        OwnStepAgrees(Execute(steps[..n]), Execute(own), steps[n], product);
        assert (own + [steps[n]])[..|own|] == own;
      } else {
        assert Filtered(steps, product) == own;
        OtherStepKeeps(Execute(steps[..n]), Execute(own), steps[n], product);
      }
    }
  }

  lemma SameForItself(s: State, product: Product)
    ensures SameFor(s, s, product)
  {
  }
}
