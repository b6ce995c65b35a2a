/** Which release is the greatest, and what to cut next. */
module ReleaseOrder {
  import opened Wrappers
  import opened Releases
  import opened ReleaseLaws

  predicate AllVersions(rs: seq<Release>) {
    forall i :: 0 <= i < |rs| ==> IsVersion(rs[i].upstream)
  }

  /** `max(pool, key=Version)`: the first of the greatest. */
  function Top(pool: seq<Release>): (r: Release)
    requires pool != [] && AllVersions(pool)
    ensures r in pool
  {
    var n := |pool| - 1;
    if n == 0 then pool[0]
    else
      var m := Top(pool[..n]);
      if Rank(m).Before(Rank(pool[n])) then pool[n] else m
  }

  /** `highest`. One release that is no version, anywhere among the tags, makes it raise. */
  function Highest(tags: seq<string>, product: Product): Result<Option<Release>, ReleaseError> {
    var pool := ReleasesFor(tags, product);
    if !AllVersions(pool) then Err(InvalidVersion)
    else if pool == [] then Ok(None)
    else Ok(Some(Top(pool)))
  }

  /** `is_highest_stable` */
  function IsHighestStable(tags: seq<string>, r: Release): Result<bool, ReleaseError> {
    match Highest(tags + [GitTag(r)], r.product)
    case Err(e) => Err(e)
    case Ok(None) => Ok(false)
    case Ok(Some(top)) =>
      if !IsVersion(top.upstream) || !IsVersion(r.upstream) then Err(InvalidVersion)
      else Ok(Rank(top) == Rank(r))
  }

  /** A version is before or at another. */
  predicate UpTo(v: Version, w: Version) {
    v == w || v.Before(w)
  }

  lemma {:induction false} TopIsTop(pool: seq<Release>, r: Release)
    requires pool != [] && AllVersions(pool) && r in pool && IsVersion(r.upstream)
    requires IsVersion(Top(pool).upstream)
    ensures UpTo(Rank(r), Rank(Top(pool)))
  {
    hide IsVersion, Rank;
    var n := |pool| - 1;
    if n > 0 {
      TopStep(pool);
      if r == pool[n] {
      } else {
        assert pool == pool[..n] + [pool[n]];
        assert r in pool[..n];
        TopIsTop(pool[..n], r);
      }
    }
  }

  lemma TopStep(pool: seq<Release>)
    requires |pool| > 1 && AllVersions(pool)
    ensures AllVersions(pool[..|pool| - 1]) && IsVersion(Top(pool[..|pool| - 1]).upstream)
    ensures IsVersion(Top(pool).upstream)
    ensures UpTo(Rank(Top(pool[..|pool| - 1])), Rank(Top(pool)))
    ensures UpTo(Rank(pool[|pool| - 1]), Rank(Top(pool)))
  {
    hide IsVersion, Rank;
    var n := |pool| - 1;
    var i :| 0 <= i < n && pool[..n][i] == Top(pool[..n]);
    assert IsVersion(pool[i].upstream);
  }

  // --- what a release workflow asks of the tags ------------------------------------

  /** An upstream version written with these digits, and the numbers they stand for. */
  predicate Spells(upstream: string, x: string, y: string, z: string, a: nat, b: nat, c: nat) {
    && IsNumber(x) && IsNumber(y) && IsNumber(z) && upstream == x + "." + y + "." + z
    && Value(x) == a && Value(y) == b && Value(z) == c
  }

  ghost predicate HasNumbers(upstream: string, a: nat, b: nat, c: nat) {
    exists x, y, z :: Spells(upstream, x, y, z, a, b, c)
  }

  /** The first number decides, then the second, then the third, then the build. */
  predicate AtOrBefore(a: nat, b: nat, c: nat, n: nat, a': nat, b': nat, c': nat, n': nat) {
    a < a' || (a == a' && (b < b' || (b == b' && (c < c' || (c == c' && n <= n')))))
  }

  ghost predicate InOrder(q: Release, r: Release, a: nat, b: nat, c: nat, a': nat, b': nat, c': nat) {
    && HasNumbers(q.upstream, a, b, c) && HasNumbers(r.upstream, a', b', c')
    && AtOrBefore(a, b, c, q.revision, a', b', c', r.revision)
  }

  /** Both are versions, and by their numbers the first is the second or comes before it. */
  ghost predicate Reaches(q: Release, r: Release) {
    && IsVersion(q.upstream) && IsVersion(r.upstream)
    && exists a, b, c, a', b', c' :: InOrder(q, r, a, b, c, a', b', c')
  }

  /** The numbers compared are the ones written, in their order. */
  lemma RankIs(r: Release, a: nat, b: nat, c: nat)
    requires IsVersion(r.upstream) && HasNumbers(r.upstream, a, b, c)
    ensures Rank(r) == Version(a, b, c, r.revision)
  {
    var x, y, z :| Spells(r.upstream, x, y, z, a, b, c);
    hide TakeParts, IsUpstream, IsNumber;
    assert r.upstream + "" == r.upstream;
    TakePartsIff(r.upstream, x, y, z, "");
  }

  lemma NumbersExist(r: Release) returns (a: nat, b: nat, c: nat)
    requires IsVersion(r.upstream)
    ensures HasNumbers(r.upstream, a, b, c)
  {
    VersionIsUpstream(r.upstream);
    UpstreamIff(r.upstream);
    hide IsVersion, IsUpstream;
    var x, y, z :| UpstreamIs(r.upstream, x, y, z);
    a, b, c := Value(x), Value(y), Value(z);
    assert Spells(r.upstream, x, y, z, a, b, c);
  }

  /** Comparing versions is comparing the numbers they are written with. */
  lemma ReachesIff(q: Release, r: Release)
    ensures Reaches(q, r) <==> IsVersion(q.upstream) && IsVersion(r.upstream) && UpTo(Rank(q), Rank(r))
  {
    hide IsVersion, HasNumbers, Rank;
    if IsVersion(q.upstream) && IsVersion(r.upstream) {
      if Reaches(q, r) {
        var a, b, c, a', b', c' :| InOrder(q, r, a, b, c, a', b', c');
        RankIs(q, a, b, c);
        RankIs(r, a', b', c');
      }
      if UpTo(Rank(q), Rank(r)) {
        var a, b, c := NumbersExist(q);
        var a', b', c' := NumbersExist(r);
        RankIs(q, a, b, c);
        RankIs(r, a', b', c');
        assert InOrder(q, r, a, b, c, a', b', c');
      }
    }
  }

  /** An upstream version as it is usually written. */
  function Written(a: nat, b: nat, c: nat): string {
    Decimal(a) + "." + Decimal(b) + "." + Decimal(c)
  }

  lemma {:induction false} DecimalIsPlain(n: nat)
    ensures forall i :: 0 <= i < |Decimal(n)| ==> Decimal(n)[i] < '\U{0080}'
  {
    if n >= 10 {
      DecimalIsPlain(n / 10);
    }
  }

  lemma WrittenIsVersion(a: nat, b: nat, c: nat)
    ensures IsVersion(Written(a, b, c)) && HasNumbers(Written(a, b, c), a, b, c)
  {
    DecimalIsNumber(a);
    DecimalIsNumber(b);
    DecimalIsNumber(c);
    DecimalIsPlain(a);
    DecimalIsPlain(b);
    DecimalIsPlain(c);
    hide Decimal, IsDigit, Value, IsUpstream;
    assert UpstreamIs(Written(a, b, c), Decimal(a), Decimal(b), Decimal(c));
    UpstreamIff(Written(a, b, c));
    assert Spells(Written(a, b, c), Decimal(a), Decimal(b), Decimal(c), a, b, c);
  }

  /** Releases come in the order of their numbers, not of their texts: 10.5.1 behind 10.4.57. */
  lemma WrittenInOrder(q: Release, r: Release, a: nat, b: nat, c: nat, a': nat, b': nat, c': nat)
    requires q.upstream == Written(a, b, c) && r.upstream == Written(a', b', c')
    ensures Reaches(q, r) <==> AtOrBefore(a, b, c, q.revision, a', b', c', r.revision)
  {
    WrittenIsVersion(a, b, c);
    WrittenIsVersion(a', b', c');
    RankIs(q, a, b, c);
    RankIs(r, a', b', c');
    ReachesIff(q, r);
    hide IsVersion, HasNumbers, Rank, Reaches, Written;
  }

  /** No tag names a later version of the product. */
  ghost predicate NoneAbove(tags: seq<string>, r: Release) {
    forall tag :: tag in tags && Parse(tag).Some? && Parse(tag).value.product == r.product ==>
      Reaches(Parse(tag).value, r)
  }

  /** The release is a version, and so is every release of its product that a tag names. */
  predicate Comparable(tags: seq<string>, r: Release) {
    && IsVersion(r.upstream)
    && forall tag :: tag in tags && Parse(tag).Some? && Parse(tag).value.product == r.product ==>
         IsVersion(Parse(tag).value.upstream)
  }

  predicate IsBuildOf(q: Release, r: Release) {
    q.product == r.product && q.upstream == r.upstream
  }

  /** No tag names a later build of the version. */
  predicate NoneNewer(tags: seq<string>, r: Release) {
    forall tag :: tag in tags && Parse(tag).Some? ==>
      IsBuildOf(Parse(tag).value, r) ==> Parse(tag).value.revision <= r.revision
  }

  lemma TopReaches(pool: seq<Release>, q: Release)
    requires pool != [] && AllVersions(pool) && q in pool
    ensures Reaches(q, Top(pool))
  {
    ReachesIff(q, Top(pool));
    hide IsVersion, Rank, Top, Reaches;
    var i :| 0 <= i < |pool| && pool[i] == Top(pool);
    var j :| 0 <= j < |pool| && pool[j] == q;
    TopIsTop(pool, q);
  }

  /** The releases compared are those the tags name and the one asked about. */
  lemma InPoolIff(tags: seq<string>, r: Release, q: Release)
    requires IsUpstream(r.upstream)
    ensures q in ReleasesFor(tags + [GitTag(r)], r.product) <==>
              q == r || (q.product == r.product && exists tag :: tag in tags && Parse(tag) == Some(q))
  {
    hide Parse, IsUpstream, ReleasesFor, GitTag;
    var all := tags + [GitTag(r)];
    ReleasesForIff(all, r.product, q);
    TagRoundTripIff(r);
    assert all[|tags|] == GitTag(r);
    assert forall tag :: tag in all <==> tag in tags || tag == GitTag(r);
  }

  lemma AllVersionsIff(tags: seq<string>, r: Release)
    requires IsUpstream(r.upstream)
    ensures AllVersions(ReleasesFor(tags + [GitTag(r)], r.product)) <==> Comparable(tags, r)
  {
    hide Parse, IsUpstream, IsVersion, ReleasesFor, GitTag;
    var pool := ReleasesFor(tags + [GitTag(r)], r.product);
    InPoolIff(tags, r, r);
    if AllVersions(pool) {
      forall tag | tag in tags && Parse(tag).Some? && Parse(tag).value.product == r.product
        ensures IsVersion(Parse(tag).value.upstream)
      {
        InPoolIff(tags, r, Parse(tag).value);
      }
    }
    if Comparable(tags, r) {
      forall i | 0 <= i < |pool|
        ensures IsVersion(pool[i].upstream)
      {
        InPoolIff(tags, r, pool[i]);
      }
    }
  }

  /** Whether a release carries the global names can be told exactly when everything compared is a version; and then it
      does exactly when no tag names a later one. */
  lemma IsHighestStableIff(tags: seq<string>, r: Release)
    requires IsUpstream(r.upstream)
    ensures IsHighestStable(tags, r) ==
            if Comparable(tags, r) then Ok(NoneAbove(tags, r)) else Err(InvalidVersion)
  {
    AllVersionsIff(tags, r);
    InPoolIff(tags, r, r);
    if Comparable(tags, r) {
      TopIffNoneAbove(tags, r);
    }
    hide Parse, IsUpstream, IsVersion, ReleasesFor, Top, Rank, GitTag, NoneAbove;
  }

  lemma TopIffNoneAbove(tags: seq<string>, r: Release)
    requires IsUpstream(r.upstream) && Comparable(tags, r)
    requires AllVersions(ReleasesFor(tags + [GitTag(r)], r.product))
    requires ReleasesFor(tags + [GitTag(r)], r.product) != []
    ensures
      var top := Top(ReleasesFor(tags + [GitTag(r)], r.product));
      IsVersion(top.upstream) && (Rank(top) == Rank(r) <==> NoneAbove(tags, r))
  {
    hide Parse, IsUpstream, IsVersion, ReleasesFor, Top, Rank, GitTag, Reaches;
    var pool := ReleasesFor(tags + [GitTag(r)], r.product);
    var top := Top(pool);
    InPoolIff(tags, r, r);
    InPoolIff(tags, r, top);
    TopReaches(pool, r);
    ReachesIff(r, top);
    ReachesIff(top, r);
    if Rank(top) == Rank(r) {
      forall tag | tag in tags && Parse(tag).Some? && Parse(tag).value.product == r.product
        ensures Reaches(Parse(tag).value, r)
      {
        InPoolIff(tags, r, Parse(tag).value);
        TopReaches(pool, Parse(tag).value);
        ReachesIff(Parse(tag).value, top);
        ReachesIff(Parse(tag).value, r);
      }
    }
    if NoneAbove(tags, r) {
      assert Reaches(top, r);
    }
  }

  /** A build is the newest exactly when no tag names a later one. */
  lemma IsHighestBuildIff(tags: seq<string>, r: Release)
    ensures IsHighestBuild(tags, r) <==> NoneNewer(tags, r)
  {
    hide Parse, BuildsOf;
    forall tag | tag in tags && Parse(tag).Some?
      ensures IsBuildOf(Parse(tag).value, r) <==> Parse(tag).value in BuildsOf(tags, r.product, r.upstream)
    {
      BuildsOfIff(tags, r.product, r.upstream, Parse(tag).value);
    }
    forall q | q in BuildsOf(tags, r.product, r.upstream)
      ensures exists tag :: tag in tags && Parse(tag) == Some(q)
      ensures IsBuildOf(q, r)
    {
      BuildsOfIff(tags, r.product, r.upstream, q);
    }
  }

  /** The highest release is the newest build of its version. */
  lemma HighestIsNewest(tags: seq<string>, r: Release)
    requires IsUpstream(r.upstream) && IsHighestStable(tags, r) == Ok(true)
    ensures IsHighestBuild(tags, r)
  {
    IsHighestStableIff(tags, r);
    IsHighestBuildIff(tags, r);
    hide Parse, IsHighestStable, IsHighestBuild, IsUpstream, Comparable, Reaches;
    forall tag | tag in tags && Parse(tag).Some? && IsBuildOf(Parse(tag).value, r)
      ensures Parse(tag).value.revision <= r.revision
    {
      assert Reaches(Parse(tag).value, r);
      BuildsByRevision(Parse(tag).value, r);
    }
  }

  lemma BuildsByRevision(q: Release, r: Release)
    requires IsBuildOf(q, r) && Reaches(q, r)
    ensures q.revision <= r.revision
  {
    ReachesIff(q, r);
    hide IsVersion, TakeParts, Reaches;
  }

  // --- cutting --------------------------------------------------------------

  /** The builds of one version are all versions or none of them is. */
  lemma BuildsAreVersionsIff(tags: seq<string>, product: Product, upstream: string)
    ensures AllVersions(BuildsOf(tags, product, upstream)) <==>
              BuildsOf(tags, product, upstream) == [] || IsVersion(upstream)
  {
    hide Parse, IsVersion, BuildsOf;
    var rs := BuildsOf(tags, product, upstream);
    forall i | 0 <= i < |rs|
      ensures rs[i].upstream == upstream
    {
      BuildsOfIff(tags, product, upstream, rs[i]);
    }
    assert rs != [] ==> rs[0].upstream == upstream;
  }

  /** `decide`: the release to cut, if one is due. `pinned` is empty when nothing is pinned, and `changed` says whether
      the pins differ from those a tag was cut from. */
  function Decide(product: Product, pinned: string, tags: seq<string>, changed: string -> bool):
    Result<Option<Release>, ReleaseError>
  {
    if pinned == "" then Ok(None)
    else
      var existing := BuildsOf(tags, product, pinned);
      if !AllVersions(existing) then Err(InvalidVersion)
      else if existing != [] && !changed(GitTag(Top(existing))) then Ok(None)
      else Ok(Some(NextRelease(tags, product, pinned)))
  }

  function DecideRebuild(product: Product, pinned: string, tags: seq<string>): Option<Release> {
    if pinned == "" || BuildsOf(tags, product, pinned) == [] then None
    else Some(NextRelease(tags, product, pinned))
  }

  /** The builds of one version differ in nothing but their number, so the greatest is the one with the greatest. */
  lemma TopBuild(tags: seq<string>, product: Product, upstream: string)
    requires BuildsOf(tags, product, upstream) != [] && AllVersions(BuildsOf(tags, product, upstream))
    ensures Top(BuildsOf(tags, product, upstream)) ==
            Release(product, upstream, MaxRevision(BuildsOf(tags, product, upstream)))
  {
    hide Parse, IsUpstream, BuildsOf, Top, MaxRevision, Reaches;
    var rs := BuildsOf(tags, product, upstream);
    var top := Top(rs);
    BuildsOfIff(tags, product, upstream, top);
    MaxRevisionIsMax(rs);
    var r :| r in rs && r.revision == MaxRevision(rs);
    BuildsOfIff(tags, product, upstream, r);
    TopReaches(rs, r);
    BuildsByRevision(r, top);
  }

  /** Once the release that was due is cut, and the pins stay what they were then, nothing is due: exactly when what is
      pinned is a version at all. A pin of three numbers in other digits can never be decided on again, and a pin of any
      other form would be cut again every time. */
  lemma CutSettlesIff(product: Product, pinned: string, tags: seq<string>, changed: string -> bool,
                      now: string -> bool, r: Release)
    requires Decide(product, pinned, tags, changed) == Ok(Some(r)) && !now(GitTag(r))
    ensures
      Decide(product, pinned, tags + [GitTag(r)], now) ==
      if IsVersion(pinned) then Ok(None)
      else if IsUpstream(pinned) then Err(InvalidVersion)
      else Ok(Some(Release(product, pinned, 1)))
  {
    hide Parse, IsUpstream, IsVersion, BuildsOf, Top, MaxRevision, GitTag;
    var after := tags + [GitTag(r)];
    var existing := BuildsOf(after, product, pinned);
    BuildsAreVersionsIff(after, product, pinned);
    VersionIsUpstream(pinned);
    if IsUpstream(pinned) {
      TagRoundTripIff(r);
      assert after[|tags|] == GitTag(r);
      BuildsOfIff(after, product, pinned, r);
      if IsVersion(pinned) {
        CutIsTop(product, pinned, tags);
      }
    } else {
      NoBuildsOfNonsense(after, product, pinned);
      MaxRevisionOfNothing();
    }
  }

  lemma VersionIsUpstream(s: string)
    ensures IsVersion(s) ==> IsUpstream(s)
  {
  }

  lemma MaxRevisionOfNothing()
    ensures MaxRevision([]) == 0
  {
  }

  /** What was cut is the greatest build there is. */
  lemma CutIsTop(product: Product, pinned: string, tags: seq<string>)
    requires IsVersion(pinned)
    ensures
      var r := NextRelease(tags, product, pinned);
      var existing := BuildsOf(tags + [GitTag(r)], product, pinned);
      existing != [] && AllVersions(existing) && Top(existing) == r
  {
    hide Parse, IsUpstream, IsVersion, BuildsOf, Top, MaxRevision, GitTag;
    var r := NextRelease(tags, product, pinned);
    var after := tags + [GitTag(r)];
    var existing := BuildsOf(after, product, pinned);
    VersionIsUpstream(pinned);
    TagRoundTripIff(r);
    assert after[|tags|] == GitTag(r);
    BuildsOfIff(after, product, pinned, r);
    BuildsAreVersionsIff(after, product, pinned);
    TopBuild(after, product, pinned);
    MaxRevisionIsMax(existing);
    forall q | q in existing
      ensures q.revision <= r.revision
    {
      BuildsOfIff(after, product, pinned, q);
      var tag :| tag in after && Parse(tag) == Some(q);
      if tag in tags {
        NextIsNewer(tags, product, pinned, tag);
      } else {
        assert tag == GitTag(r);
      }
    }
  }

  /** A version has three numbers and two dots. */
  lemma UpstreamIsLong(upstream: string)
    requires IsUpstream(upstream)
    ensures |upstream| >= 5
  {
    UpstreamIff(upstream);
    var a, b, c :| UpstreamIs(upstream, a, b, c);
    hide IsUpstream;
    assert |Dotted(a, b, c)| == |a| + |b| + |c| + 2;
  }

  /** A pin the UniFi OS pins file may well hold: `5.1`, once cut. Its tag is there already, and yet it is due, under
      the very tag that is taken, before and after it is cut again. */
  lemma ShortPinIsCutAgain(changed: string -> bool, now: string -> bool)
    ensures
      var pin, tags, r := "5.1", ["unifi-os/5.1-1"], Release(UnifiOs, "5.1", 1);
      && Decide(UnifiOs, pin, tags, changed) == Ok(Some(r)) && GitTag(r) in tags
      && Decide(UnifiOs, pin, tags + [GitTag(r)], now) == Ok(Some(r))
  {
    hide Parse, IsUpstream, BuildsOf, Top, GitTag;
    var pin, tags := "5.1", ["unifi-os/5.1-1"];
    if IsUpstream(pin) {
      UpstreamIsLong(pin);
    }
    var r := Release(UnifiOs, pin, 1);
    ShortPinTag();
    NoBuildsOfNonsense(tags, UnifiOs, pin);
    NoBuildsOfNonsense(tags + [GitTag(r)], UnifiOs, pin);
    assert tags[0] == GitTag(r);
  }

  lemma ShortPinTag()
    ensures GitTag(Release(UnifiOs, "5.1", 1)) == "unifi-os/5.1-1"
  {
    assert Decimal(1) == "1";
    assert VersionOf(Release(UnifiOs, "5.1", 1)) == "5.1-1";
  }

  /** What is due for one product. The network's pins live inside a larger file, so only UniFi OS is asked whether they
      changed. */
  function DueFor(product: Product, pinned: string, tags: seq<string>, changed: string -> bool, rebuild: bool):
    Result<Option<Release>, ReleaseError>
  {
    if rebuild then Ok(DecideRebuild(product, pinned, tags))
    else Decide(product, pinned, tags, if product == UnifiOs then changed else _ => false)
  }

  /** What is due for all of them, unless one of the decisions raises. */
  function DueOf(products: seq<Product>, pins: Product -> string, tags: seq<string>, changed: string -> bool,
                 rebuild: bool): Result<seq<Release>, ReleaseError>
  {
    if products == [] then Ok([])
    else
      var n := |products| - 1;
      match DueOf(products[..n], pins, tags, changed, rebuild)
      case Err(e) => Err(e)
      case Ok(due) =>
        match DueFor(products[n], pins(products[n]), tags, changed, rebuild)
        case Err(e) => Err(e)
        case Ok(None) => Ok(due)
        case Ok(Some(r)) => Ok(due + [r])
  }

  function GitTags(rs: seq<Release>): seq<string> {
    if rs == [] then [] else GitTags(rs[..|rs| - 1]) + [GitTag(rs[|rs| - 1])]
  }

  /** `cut`: every decision is taken on the tags as they were; then the tags are created one after the other. */
  method Cut(products: seq<Product>, pins: Product -> string, tags: seq<string>, changed: string -> bool,
             rebuild: bool, push: bool)
    returns (due: Result<seq<Release>, ReleaseError>, after: seq<string>)
    ensures due == DueOf(products, pins, tags, changed, rebuild)
    ensures after == tags + (if push && due.Ok? then GitTags(due.value) else [])
  {
    hide DueFor, GitTag;
    var cut := [];
    after := tags;
    for i := 0 to |products|
      invariant Ok(cut) == DueOf(products[..i], pins, tags, changed, rebuild)
    {
      assert products[..i + 1][..i] == products[..i];
      DueStops(products, pins, tags, changed, rebuild, i + 1);
      var next := DueFor(products[i], pins(products[i]), tags, changed, rebuild);
      if next.Err? {
        return Err(next.error), after;
      }
      if next.value.Some? {
        cut := cut + [next.value.value];
      }
    }
    assert products[..|products|] == products;
    if push {
      for i := 0 to |cut|
        invariant after == tags + GitTags(cut[..i])
      {
        assert cut[..i + 1][..i] == cut[..i];
        after := after + [GitTag(cut[i])];
      }
      assert cut[..|cut|] == cut;
    }
    due := Ok(cut);
  }

  /** The first decision that raises is the last that is taken. */
  lemma {:induction false} DueStops(products: seq<Product>, pins: Product -> string, tags: seq<string>,
                                    changed: string -> bool, rebuild: bool, n: nat)
    requires n <= |products|
    ensures DueOf(products[..n], pins, tags, changed, rebuild).Err? ==>
              DueOf(products, pins, tags, changed, rebuild) == DueOf(products[..n], pins, tags, changed, rebuild)
    decreases |products|
  {
    hide DueFor;
    if n == |products| {
      assert products[..n] == products;
    } else {
      assert products[..|products| - 1][..n] == products[..n];
      DueStops(products[..|products| - 1], pins, tags, changed, rebuild, n);
    }
  }

  lemma {:induction false} DueIsNext(products: seq<Product>, pins: Product -> string, tags: seq<string>,
                                     changed: string -> bool, rebuild: bool, due: seq<Release>, i: nat)
    requires DueOf(products, pins, tags, changed, rebuild) == Ok(due) && i < |due|
    ensures due[i] == NextRelease(tags, due[i].product, pins(due[i].product))
    ensures rebuild ==> BuildsOf(tags, due[i].product, pins(due[i].product)) != []
  {
    var n := |products| - 1;
    var before := DueOf(products[..n], pins, tags, changed, rebuild).value;
    if i < |before| {
      DueIsNext(products[..n], pins, tags, changed, rebuild, before, i);
    }
    hide NextRelease, BuildsOf, Top;
    assert NextRelease(tags, products[n], pins(products[n])).product == products[n] by {
      NextNames(tags, products[n], pins(products[n]));
    }
  }

  lemma NextNames(tags: seq<string>, product: Product, upstream: string)
    ensures NextRelease(tags, product, upstream).product == product
    ensures NextRelease(tags, product, upstream).upstream == upstream
  {
  }

  /** A tag that is cut was there already exactly for a pin that is not three numbers and whose first tag is there,
      never on a rebuild; and two tags cut together are the same exactly when they are for the same product, asked for
      twice. */
  lemma CutTagsAreNewIff(products: seq<Product>, pins: Product -> string, tags: seq<string>, changed: string -> bool,
                         rebuild: bool, due: seq<Release>, i: nat, j: nat)
    requires DueOf(products, pins, tags, changed, rebuild) == Ok(due) && i < |due| && j < |due|
    ensures
      var p := due[i].product;
      && (GitTag(due[i]) in tags <==> !IsUpstream(pins(p)) && GitTag(Release(p, pins(p), 1)) in tags)
      && (rebuild ==> GitTag(due[i]) !in tags)
      && (GitTag(due[i]) == GitTag(due[j]) <==> p == due[j].product)
  {
    hide NextRelease, DueOf, IsUpstream, Parse, GitTag, BuildsOf;
    var p := due[i].product;
    DueIsNext(products, pins, tags, changed, rebuild, due, i);
    DueIsNext(products, pins, tags, changed, rebuild, due, j);
    NextIsFreshIff(tags, p, pins(p));
    if !IsUpstream(pins(p)) {
      NoBuildsOfNonsense(tags, p, pins(p));
    }
    if GitTag(due[i]) == GitTag(due[j]) {
      ProductsShow(due[i], due[j]);
    }
  }

  lemma ProductsShow(q: Release, r: Release)
    requires GitTag(q) == GitTag(r)
    ensures q.product == r.product
  {
    assert GitTag(q)[0] == Name(q.product)[0] && GitTag(r)[0] == Name(r.product)[0];
  }
}
