/** A release workflow's run, call by call: what it pushes and slides, and that this is the step `Registry` takes for
    it. */
module Publishing {
  import opened Wrappers
  import opened Releases
  import opened ReleaseLaws
  import opened ReleaseOrder
  import opened ReleasePlans
  import Registry

  /** The calls that fail: creating a name's image, reading back the digest of a variant, sliding a name. */
  datatype Failures = Failures(creating: set<string>, reading: set<Variant>, sliding: set<string>)

  /** How far a run gets: what the names point at, the names it moved, in order, and whether it is through. */
  datatype Progress = Progress(names: map<string, string>, moved: seq<string>, through: bool)

  // --- the step that pushes -------------------------------------------------------

  /** `stitch`, of one variant after the other: the image is created under its name, then its digest is read back. The
      first call that fails ends the step. */
  function Stitch(names: map<string, string>, pushes: map<Variant, string>, variants: seq<Variant>,
                  digests: map<Variant, string>, failures: Failures): Progress
    requires forall v :: v in variants ==> v in pushes && v in digests
  {
    if variants == [] then Progress(names, [], true)
    else
      var n := |variants| - 1;
      var v := variants[n];
      var before := Stitch(names, pushes, variants[..n], digests, failures);
      if !before.through || pushes[v] in failures.creating then before.(through := false)
      else Progress(before.names[pushes[v] := digests[v]], before.moved + [pushes[v]], v !in failures.reading)
  }

  /** The names `Slide` moves before it stops. */
  function Slid(moving: seq<string>, digests: map<Variant, string>, failing: set<string>): seq<string> {
    if moving == [] then []
    else
      var n := |moving| - 1;
      var before := Slid(moving[..n], digests, failing);
      if |before| == n && CanMove(moving[n], digests, failing) then before + [moving[n]] else before
  }

  const VARIANTS: seq<Variant> := [Base, Sim, Seeded]

  /** A run of the workflow: nothing for a superseded build; else the pushes, and behind them the slides. */
  function Publish(p: Plan, names: map<string, string>, digests: map<Variant, string>, failures: Failures): Progress
    requires forall v: Variant :: v in digests
  {
    var outputs := Emit(p);
    if !outputs.publish then Progress(names, [], true)
    else
      var pushed := Stitch(names, outputs.pushes, VARIANTS, digests, failures);
      if !pushed.through then pushed
      else
        var (after, done) := Slide(pushed.names, outputs.globals, digests, failures.sliding);
        Progress(after, pushed.moved + Slid(outputs.globals, digests, failures.sliding), done.Ok?)
  }

  // --- what it comes to -------------------------------------------------------------

  /** The names, with those of `moved` at the digests of their variants. */
  function Repointed(names: map<string, string>, moved: seq<string>, digests: map<Variant, string>): map<string, string>
  {
    names + map name | name in moved && VariantFor(name).Some? && VariantFor(name).value in digests ::
      name := digests[VariantFor(name).value]
  }

  lemma RepointedNone(names: map<string, string>, digests: map<Variant, string>)
    ensures Repointed(names, [], digests) == names
  {
    hide VariantFor;
    assert Repointed(names, [], digests) == names + map[];
  }

  lemma RepointedOneMore(names: map<string, string>, moved: seq<string>, name: string, digests: map<Variant, string>)
    requires VariantFor(name).Some? && VariantFor(name).value in digests
    ensures Repointed(names, moved + [name], digests) ==
            Repointed(names, moved, digests)[name := digests[VariantFor(name).value]]
  {
    hide VariantFor;
  }

  /** What a name points at after a list of names was repointed. */
  lemma RepointedAt(names: map<string, string>, moved: seq<string>, digests: map<Variant, string>, name: string)
    ensures
      var after := Repointed(names, moved, digests);
      if name in moved && VariantFor(name).Some? && VariantFor(name).value in digests
      then name in after && after[name] == digests[VariantFor(name).value]
      else SameAt(name, names, after)
  {
    hide VariantFor;
  }

  lemma RepointedTwice(names: map<string, string>, first: seq<string>, second: seq<string>,
                       digests: map<Variant, string>)
    ensures Repointed(Repointed(names, first, digests), second, digests) == Repointed(names, first + second, digests)
  {
    hide VariantFor, Repointed;
    var once := Repointed(names, first, digests);
    var twice, both := Repointed(once, second, digests), Repointed(names, first + second, digests);
    forall name: string
      ensures SameAt(name, twice, both)
    {
      RepointedAt(names, first, digests, name);
      RepointedAt(once, second, digests, name);
      RepointedAt(names, first + second, digests, name);
    }
    SameEverywhere(twice, both);
  }

  lemma SameEverywhere(names: map<string, string>, names': map<string, string>)
    requires forall name: string :: SameAt(name, names, names')
    ensures names == names'
  {
    forall name: string
      ensures name in names <==> name in names'
      ensures name in names ==> names[name] == names'[name]
    {
      assert SameAt(name, names, names');
    }
  }

  lemma SlideOneMore(names: map<string, string>, moving: seq<string>, name: string, digests: map<Variant, string>,
                     failing: set<string>)
    ensures
      var (before, done) := Slide(names, moving, digests, failing);
      var (after, all) := Slide(names, moving + [name], digests, failing);
      if done.Ok? && CanMove(name, digests, failing)
      then all.Ok? && after == before[name := digests[VariantFor(name).value]]
      else all.Err? && after == before
  {
    hide VariantFor;
    assert (moving + [name])[..|moving|] == moving;
  }

  lemma SlidOneMore(moving: seq<string>, name: string, digests: map<Variant, string>, failing: set<string>)
    ensures
      var before := Slid(moving, digests, failing);
      Slid(moving + [name], digests, failing) ==
      if |before| == |moving| && CanMove(name, digests, failing) then before + [name] else before
  {
    hide CanMove;
    assert (moving + [name])[..|moving|] == moving;
  }

  lemma {:induction false} SlideRepoints(names: map<string, string>, moving: seq<string>,
                                         digests: map<Variant, string>, failing: set<string>)
    ensures
      var (after, done) := Slide(names, moving, digests, failing);
      var moved := Slid(moving, digests, failing);
      && after == Repointed(names, moved, digests) && moved <= moving && (done.Ok? <==> moved == moving)
  {
    if moving == [] {
      hide VariantFor, Repointed;
      RepointedNone(names, digests);
    } else {
      var n := |moving| - 1;
      hide Slide, Slid, VariantFor, Repointed;
      SlideRepoints(names, moving[..n], digests, failing);
      SlideOneMore(names, moving[..n], moving[n], digests, failing);
      SlidOneMore(moving[..n], moving[n], digests, failing);
      var moved := Slid(moving[..n], digests, failing);
      if CanMove(moving[n], digests, failing) {
        RepointedOneMore(names, moved, moving[n], digests);
      }
      hide CanMove;
      WholePrefix(moving, moved);
    }
  }

  lemma WholePrefix(moving: seq<string>, moved: seq<string>)
    requires moving != [] && moved <= moving[..|moving| - 1]
    ensures moving == moving[..|moving| - 1] + [moving[|moving| - 1]]
    ensures moved <= moving && moved != moving
    ensures |moved| == |moving| - 1 ==> moved == moving[..|moving| - 1]
  {
  }

  /** The names a list of variants is pushed to. */
  function NamesFor(p: Plan, variants: seq<Variant>): (names: seq<string>)
    ensures |names| == |variants|
    ensures forall i :: 0 <= i < |variants| ==> names[i] == VersionTag(p.release, variants[i])
  {
    seq(|variants|, i requires 0 <= i < |variants| => VersionTag(p.release, variants[i]))
  }

  lemma PushesAre(p: Plan, v: Variant)
    requires p.newestBuild
    ensures v in Emit(p).pushes && Emit(p).pushes[v] == VersionTag(p.release, v)
  {
    hide VersionTag;
  }

  /** No call to push one of these variants fails. */
  predicate Pushable(p: Plan, variants: seq<Variant>, failures: Failures) {
    forall v :: v in variants ==> CanPush(p, v, failures)
  }

  predicate CanPush(p: Plan, v: Variant, failures: Failures) {
    VersionTag(p.release, v) !in failures.creating && v !in failures.reading
  }

  lemma OneMoreVariant(p: Plan, variants: seq<Variant>, v: Variant, failures: Failures)
    ensures NamesFor(p, variants + [v]) == NamesFor(p, variants) + [VersionTag(p.release, v)]
    ensures Pushable(p, variants + [v], failures) <==> Pushable(p, variants, failures) && CanPush(p, v, failures)
  {
    hide VersionTag, CanPush;
    if Pushable(p, variants + [v], failures) {
      assert forall w :: w in variants ==> w in variants + [v];
      assert v in variants + [v];
    }
  }

  lemma {:induction false} StitchRepoints(p: Plan, names: map<string, string>, variants: seq<Variant>,
                                          digests: map<Variant, string>, failures: Failures)
    requires p.newestBuild && IsUpstream(p.release.upstream)
    requires forall v: Variant :: v in digests && v in Emit(p).pushes
    ensures
      var pushed := Stitch(names, Emit(p).pushes, variants, digests, failures);
      && pushed.names == Repointed(names, pushed.moved, digests)
      && pushed.moved <= NamesFor(p, variants)
      && (pushed.through ==> pushed.moved == NamesFor(p, variants))
      && (pushed.through <==> Pushable(p, variants, failures))
  {
    hide VariantFor, Repointed, VersionTag, IsUpstream, Emit, NamesFor, Pushable;
    if variants == [] {
      RepointedNone(names, digests);
      NothingToPush(p, failures);
    } else {
      var n := |variants| - 1;
      var before := Stitch(names, Emit(p).pushes, variants[..n], digests, failures);
      StitchRepoints(p, names, variants[..n], digests, failures);
      PushesAre(p, variants[n]);
      VariantOfVersionTag(p.release, variants[n]);
      RepointedOneMore(names, before.moved, VersionTag(p.release, variants[n]), digests);
      OneMoreVariant(p, variants[..n], variants[n], failures);
      assert variants == variants[..n] + [variants[n]];
    }
  }

  lemma NothingToPush(p: Plan, failures: Failures)
    ensures NamesFor(p, []) == [] && Pushable(p, [], failures)
  {
  }

  /** Nothing stands in the way of a run. */
  predicate Unhindered(p: Plan, digests: map<Variant, string>, failures: Failures) {
    p.newestBuild ==>
      && Pushable(p, VARIANTS, failures)
      && forall name :: name in GlobalTags(p.top) ==> CanMove(name, digests, failures.sliding)
  }

  lemma SlidingInOrder(p: Plan)
    ensures SlidingTags(p) == if p.newestBuild then NamesFor(p, VARIANTS) + GlobalTags(p.top) else []
  {
    hide VersionTag;
  }

  /** A run moves the reported names in their order, each to the digest of its variant, up to the first call that fails;
      and it is through, all of them moved, exactly when none fails. */
  lemma PublishIff(p: Plan, names: map<string, string>, digests: map<Variant, string>, failures: Failures)
    requires IsUpstream(p.release.upstream) && forall v: Variant :: v in digests
    ensures
      var run := Publish(p, names, digests, failures);
      && run.names == Repointed(names, run.moved, digests)
      && run.moved <= SlidingTags(p)
      && (run.through <==> Unhindered(p, digests, failures))
      && (run.through ==> run.moved == SlidingTags(p))
  {
    hide IsUpstream, VersionTag, VariantFor, Repointed, Pushable, CanMove, GlobalTags;
    SlidingInOrder(p);
    RepointedNone(names, digests);
    if p.newestBuild {
      PublishNewest(p, names, digests, failures);
    }
  }

  lemma PublishNewest(p: Plan, names: map<string, string>, digests: map<Variant, string>, failures: Failures)
    requires p.newestBuild && IsUpstream(p.release.upstream) && forall v: Variant :: v in digests
    ensures
      var run := Publish(p, names, digests, failures);
      var reported := NamesFor(p, VARIANTS) + GlobalTags(p.top);
      && run.names == Repointed(names, run.moved, digests)
      && run.moved <= reported
      && (run.through <==> Unhindered(p, digests, failures))
      && (run.through ==> run.moved == reported)
  {
    forall v: Variant
      ensures v in Emit(p).pushes
    {
      PushesAre(p, v);
    }
    StitchRepoints(p, names, VARIANTS, digests, failures);
    var pushed := Stitch(names, Emit(p).pushes, VARIANTS, digests, failures);
    var globals := Emit(p).globals;
    assert globals == GlobalTags(p.top);
    hide Emit, Stitch, Slide, Slid, NamesFor, IsUpstream, VariantFor, Repointed, Pushable, CanMove, GlobalTags;
    if pushed.through {
      var slid := Slid(globals, digests, failures.sliding);
      SlideRepoints(pushed.names, globals, digests, failures.sliding);
      SlideFailsIff(pushed.names, globals, digests, failures.sliding);
      RepointedTwice(names, pushed.moved, slid, digests);
      PrefixBehind(pushed.moved, slid, globals);
    } else {
      PrefixBefore(pushed.moved, NamesFor(p, VARIANTS), globals);
    }
  }

  lemma PrefixBehind(first: seq<string>, some: seq<string>, all: seq<string>)
    requires some <= all
    ensures first + some <= first + all
  {
  }

  lemma PrefixBefore(some: seq<string>, all: seq<string>, more: seq<string>)
    requires some <= all
    ensures some <= all + more
  {
  }

  // --- the step of the registry -------------------------------------------------------

  /** What a product's names point at, where `digest` is the digest of an image. */
  function NamesOf(registry: map<Registry.Place, Registry.Image>, product: Product,
                   digest: Registry.Image -> string): map<string, string>
  {
    map place | place in registry && place.product == product :: place.name := digest(registry[place])
  }

  /** The digests of the images a run builds. */
  function DigestsOf(p: Plan, run: nat, digest: Registry.Image -> string): (digests: map<Variant, string>)
    ensures forall v: Variant :: v in digests
  {
    map v: Variant | v.Base? || v.Sim? || v.Seeded? :: digest(Registry.Image(p.release, v, run))
  }

  function Names(moved: seq<string>): set<string> {
    set name | name in moved
  }

  lemma DigestsAre(p: Plan, run: nat, digest: Registry.Image -> string, v: Variant)
    ensures v in DigestsOf(p, run, digest)
    ensures DigestsOf(p, run, digest)[v] == digest(Registry.Image(p.release, v, run))
  {
  }

  /** What is moved to, name by name, when the names reached are some of the reported ones. */
  lemma MovedIff(p: Plan, run: nat, moved: seq<string>, name: string, digest: Registry.Image -> string)
    requires IsUpstream(p.release.upstream) && moved <= SlidingTags(p)
    ensures
      var images := Registry.Moved(p, run, Names(moved));
      var place := Registry.Place(p.release.product, name);
      var names := Repointed(map[], moved, DigestsOf(p, run, digest));
      && (place in images <==> name in names)
      && (place in images ==> digest(images[place]) == names[name])
  {
    Registry.VariantAtIs(p, name);
    if VariantFor(name).Some? {
      DigestsAre(p, run, digest, VariantFor(name).value);
    }
    hide IsUpstream, VariantFor, Registry.VariantAt, SlidingTags, DigestsOf;
    assert name in moved ==> name in SlidingTags(p);
    var reached := Names(moved);
    assert Registry.Place(p.release.product, name) in Registry.Moved(p, run, reached) <==>
        name in moved && VariantFor(name).Some?;
  }

  lemma RepointedIsUnion(names: map<string, string>, moved: seq<string>, digests: map<Variant, string>)
    ensures Repointed(names, moved, digests) == names + Repointed(map[], moved, digests)
  {
    hide VariantFor;
  }

  lemma NamesOfUnion(registry: map<Registry.Place, Registry.Image>, images: map<Registry.Place, Registry.Image>,
                     product: Product, digest: Registry.Image -> string)
    ensures NamesOf(registry + images, product, digest) ==
            NamesOf(registry, product, digest) + NamesOf(images, product, digest)
  {
    var all := NamesOf(registry + images, product, digest);
    var both := NamesOf(registry, product, digest) + NamesOf(images, product, digest);
    forall name: string
      ensures name in all <==> name in both
      ensures name in all ==> all[name] == both[name]
    {
      NameAt(registry + images, product, digest, name);
      NameAt(registry, product, digest, name);
      NameAt(images, product, digest, name);
      hide NamesOf;
    }
  }

  lemma NameAt(registry: map<Registry.Place, Registry.Image>, product: Product, digest: Registry.Image -> string,
               name: string)
    ensures
      var place := Registry.Place(product, name);
      && (name in NamesOf(registry, product, digest) <==> place in registry)
      && (place in registry ==> NamesOf(registry, product, digest)[name] == digest(registry[place]))
  {
    assert Registry.Place(product, name) in registry ==> Registry.Place(product, name).name == name;
  }

  lemma MovedNames(p: Plan, run: nat, moved: seq<string>, digest: Registry.Image -> string)
    requires IsUpstream(p.release.upstream) && moved <= SlidingTags(p)
    ensures NamesOf(Registry.Moved(p, run, Names(moved)), p.release.product, digest) ==
            Repointed(map[], moved, DigestsOf(p, run, digest))
  {
    var images := Registry.Moved(p, run, Names(moved));
    var product := p.release.product;
    var names := Repointed(map[], moved, DigestsOf(p, run, digest));
    hide *;
    forall name: string
      ensures name in NamesOf(images, product, digest) <==> name in names
      ensures name in names ==> NamesOf(images, product, digest)[name] == names[name]
    {
      NameAt(images, product, digest, name);
      MovedIff(p, run, moved, name, digest);
    }
  }

  lemma OthersNotMoved(p: Plan, run: nat, reached: set<string>, other: Product, digest: Registry.Image -> string)
    requires other != p.release.product
    ensures NamesOf(Registry.Moved(p, run, reached), other, digest) == map[]
  {
    hide SlidingTags, Registry.VariantAt;
  }

  /** A run that gets as far as it does, call by call, makes the registry what the step for the names it moved makes
      it. */
  lemma RunIsStep(s: Registry.State, tag: string, pinned: string, run: nat, failures: Failures,
                  digest: Registry.Image -> string, product: Product)
    requires tag in s.tags && PlanOf(tag, s.tags, pinned).Ok?
    ensures
      var p := PlanOf(tag, s.tags, pinned).value;
      var own := p.release.product;
      var published := Publish(p, NamesOf(s.registry, own, digest), DigestsOf(p, run, digest), failures);
      var s' := Registry.Next(s, Registry.Ran(tag, pinned, run, Names(published.moved)));
      NamesOf(s'.registry, product, digest) ==
      if product == own then published.names else NamesOf(s.registry, product, digest)
  {
    Registry.PlanIsOfTag(tag, s.tags, pinned);
    var p := PlanOf(tag, s.tags, pinned).value;
    var own := p.release.product;
    var before, digests := NamesOf(s.registry, own, digest), DigestsOf(p, run, digest);
    var published := Publish(p, before, digests, failures);
    hide *;
    PublishIff(p, before, digests, failures);
    var images := Registry.Moved(p, run, Names(published.moved));
    Registry.RunIs(s, tag, pinned, p, run, Names(published.moved));
    NamesOfUnion(s.registry, images, product, digest);
    if product == own {
      MovedNames(p, run, published.moved, digest);
      RepointedIsUnion(before, published.moved, digests);
    } else {
      OthersNotMoved(p, run, Names(published.moved), product, digest);
      NothingMore(NamesOf(s.registry, product, digest));
    }
  }

  lemma NothingMore(names: map<string, string>)
    ensures names + map[] == names
  {
  }

  // --- every history, call by call -------------------------------------------------------

  /** What happens: a tag is pushed, or its workflow runs, and these calls of it fail. */
  datatype Event =
    | Tagged(tag: string)
    | Released(tag: string, pinned: string, run: nat, failures: Failures)

  datatype World = World(tags: seq<string>, names: map<Product, map<string, string>>)

  ghost predicate HasBoth(w: World) {
    forall product: Product :: product in w.names
  }

  function Act(w: World, event: Event, digest: Registry.Image -> string): (w': World)
    requires HasBoth(w)
    ensures HasBoth(w')
  {
    match event
    case Tagged(tag) => w.(tags := w.tags + [tag])
    case Released(tag, pinned, run, failures) =>
      if tag !in w.tags then w
      else
        match PlanOf(tag, w.tags, pinned)
        case Err(_) => w
        case Ok(p) =>
          var own := p.release.product;
          var published := Publish(p, w.names[own], DigestsOf(p, run, digest), failures);
          w.(names := w.names[own := published.names])
  }

  function Unpublished(): (w: World)
    ensures HasBoth(w)
  {
    var none := map[Network := map[], UnifiOs := map[]];
    BothThere(none);
    World([], none)
  }

  lemma BothThere(names: map<Product, map<string, string>>)
    requires Network in names && UnifiOs in names
    ensures forall product: Product :: product in names
  {
    forall product: Product
      ensures product in names
    {
      match product
      case Network =>
      case UnifiOs =>
    }
  }

  function After(events: seq<Event>, digest: Registry.Image -> string): (w: World)
    ensures HasBoth(w)
  {
    if events == [] then Unpublished()
    else Act(After(events[..|events| - 1], digest), events[|events| - 1], digest)
  }

  /** The step of the registry that an event is, in the world it finds. */
  function StepOf(w: World, event: Event, digest: Registry.Image -> string): Registry.Step
    requires HasBoth(w)
  {
    match event
    case Tagged(tag) => Registry.TagPushed(tag)
    case Released(tag, pinned, run, failures) =>
      match PlanOf(tag, w.tags, pinned)
      case Err(_) => Registry.Ran(tag, pinned, run, {})
      case Ok(p) =>
        var published := Publish(p, w.names[p.release.product], DigestsOf(p, run, digest), failures);
        Registry.Ran(tag, pinned, run, Names(published.moved))
  }

  function StepsOf(events: seq<Event>, digest: Registry.Image -> string): (steps: seq<Registry.Step>)
    ensures |steps| == |events|
  {
    if events == [] then []
    else
      var n := |events| - 1;
      StepsOf(events[..n], digest) + [StepOf(After(events[..n], digest), events[n], digest)]
  }

  /** The world looks like the registry: the same tags, and each name at the digest of the image it points at. */
  ghost predicate Shows(w: World, s: Registry.State, digest: Registry.Image -> string) {
    && HasBoth(w)
    && w.tags == s.tags
    && forall product: Product :: w.names[product] == NamesOf(s.registry, product, digest)
  }

  lemma ActShows(w: World, s: Registry.State, event: Event, digest: Registry.Image -> string)
    requires Shows(w, s, digest)
    ensures Shows(Act(w, event, digest), Registry.Next(s, StepOf(w, event, digest)), digest)
  {
    hide PlanOf, Publish, DigestsOf, NamesOf, Registry.Moved;
    match event
    case Tagged(_) =>
    case Released(tag, pinned, run, failures) =>
      if tag in w.tags && PlanOf(tag, w.tags, pinned).Ok? {
        forall product: Product
          ensures Act(w, event, digest).names[product] ==
                  NamesOf(Registry.Next(s, StepOf(w, event, digest)).registry, product, digest)
        {
          RunIsStep(s, tag, pinned, run, failures, digest, product);
        }
      }
  }

  /** Every history, call by call and with any calls failing, is a history of the registry's steps. */
  lemma {:induction false} HistoryIsExecution(events: seq<Event>, digest: Registry.Image -> string)
    ensures Shows(After(events, digest), Registry.Execute(StepsOf(events, digest)), digest)
  {
    hide Shows, Act, StepOf, Registry.Next;
    if events == [] {
      EmptyShows(digest);
    } else {
      var n := |events| - 1;
      HistoryIsExecution(events[..n], digest);
      var before := StepsOf(events[..n], digest);
      var step := StepOf(After(events[..n], digest), events[n], digest);
      ActShows(After(events[..n], digest), Registry.Execute(before), events[n], digest);
      assert (before + [step])[..n] == before;
    }
  }

  lemma EmptyShows(digest: Registry.Image -> string)
    ensures Shows(After([], digest), Registry.Execute([]), digest)
  {
    assert After([], digest) == Unpublished();
    forall product: Product
      ensures NamesOf(map[], product, digest) == map[]
    {
    }
  }

  lemma {:induction false} StepsOfPrefix(events: seq<Event>, digest: Registry.Image -> string, n: nat)
    requires n <= |events|
    ensures StepsOf(events, digest)[..n] == StepsOf(events[..n], digest)
    decreases |events|
  {
    hide StepOf, After;
    if n < |events| {
      var m := |events| - 1;
      StepsOfPrefix(events[..m], digest, n);
      assert events[..m][..n] == events[..n];
      assert StepsOf(events, digest)[..n] == StepsOf(events[..m], digest)[..n];
    } else {
      assert events[..n] == events;
    }
  }

  /** Between any two moments of any history, call by call, a name that points at the digest of an image points at the
      digest of one it has advanced to. */
  lemma NamesOnlyAdvance(events: seq<Event>, i: nat, j: nat, product: Product, name: string,
                         digest: Registry.Image -> string)
    returns (earlier: Registry.Image, later: Registry.Image)
    requires i <= j <= |events| && name in After(events[..i], digest).names[product]
    ensures name in After(events[..j], digest).names[product]
    ensures After(events[..i], digest).names[product][name] == digest(earlier)
    ensures After(events[..j], digest).names[product][name] == digest(later)
    ensures Registry.Advances(name, earlier, later)
  {
    var steps := StepsOf(events, digest);
    var place := Registry.Place(product, name);
    StepsOfPrefix(events, digest, i);
    StepsOfPrefix(events, digest, j);
    HistoryIsExecution(events[..i], digest);
    HistoryIsExecution(events[..j], digest);
    var s, s' := Registry.Execute(steps[..i]), Registry.Execute(steps[..j]);
    NameAt(s.registry, product, digest, name);
    NameAt(s'.registry, product, digest, name);
    hide After, StepsOf, NamesOf, Registry.Execute, Registry.Advances;
    Registry.NamesOnlyAdvance(steps, i, j, place);
    earlier, later := s.registry[place], s'.registry[place];
  }
}
