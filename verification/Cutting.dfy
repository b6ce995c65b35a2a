/** When a release is due, and which one, told by the tags alone. */
module Cutting {
  import opened Wrappers
  import opened Releases
  import opened ReleaseLaws
  import opened ReleaseOrder

  // --- builds, as the tags name them ------------------------------------------

  predicate IsBuild(tags: seq<string>, product: Product, upstream: string, n: nat) {
    exists tag :: tag in tags && Parse(tag) == Some(Release(product, upstream, n))
  }

  ghost predicate NoBuild(tags: seq<string>, product: Product, upstream: string) {
    forall n: nat :: !IsBuild(tags, product, upstream, n)
  }

  ghost predicate GreatestBuild(tags: seq<string>, product: Product, upstream: string, n: nat) {
    IsBuild(tags, product, upstream, n) && forall m: nat :: IsBuild(tags, product, upstream, m) ==> m <= n
  }

  lemma IsBuildIff(tags: seq<string>, product: Product, upstream: string, n: nat)
    ensures IsBuild(tags, product, upstream, n) <==>
              Release(product, upstream, n) in BuildsOf(tags, product, upstream)
  {
    BuildsOfIff(tags, product, upstream, Release(product, upstream, n));
    hide Parse, BuildsOf;
  }

  lemma NoBuildIff(tags: seq<string>, product: Product, upstream: string)
    ensures NoBuild(tags, product, upstream) <==> BuildsOf(tags, product, upstream) == []
  {
    var rs := BuildsOf(tags, product, upstream);
    hide Parse, BuildsOf, IsBuild;
    if rs == [] {
      forall n: nat
        ensures !IsBuild(tags, product, upstream, n)
      {
        IsBuildIff(tags, product, upstream, n);
      }
    } else {
      BuildsOfIff(tags, product, upstream, rs[0]);
      IsBuildIff(tags, product, upstream, rs[0].revision);
      assert IsBuild(tags, product, upstream, rs[0].revision);
    }
  }

  lemma GreatestIff(tags: seq<string>, product: Product, upstream: string, n: nat)
    ensures GreatestBuild(tags, product, upstream, n) <==>
              BuildsOf(tags, product, upstream) != [] && n == MaxRevision(BuildsOf(tags, product, upstream))
  {
    var rs := BuildsOf(tags, product, upstream);
    hide Parse, BuildsOf, IsBuild, MaxRevision;
    MaxRevisionIsMax(rs);
    forall m: nat
      ensures IsBuild(tags, product, upstream, m) <==> Release(product, upstream, m) in rs
    {
      IsBuildIff(tags, product, upstream, m);
    }
    forall r | r in rs
      ensures r == Release(product, upstream, r.revision)
    {
      BuildsOfIff(tags, product, upstream, r);
    }
    if rs != [] {
      var r :| r in rs && r.revision == MaxRevision(rs);
      assert IsBuild(tags, product, upstream, r.revision);
    }
  }

  /** The next build is the first where no tag names one, and else one past the greatest that a tag names. */
  lemma NextRevisionIs(tags: seq<string>, product: Product, upstream: string)
    ensures
      var next := NextRelease(tags, product, upstream);
      && next.product == product && next.upstream == upstream
      && (NoBuild(tags, product, upstream) ==> next.revision == 1)
      && (forall n: nat :: GreatestBuild(tags, product, upstream, n) ==> next.revision == n + 1)
      && (NoBuild(tags, product, upstream) || exists n: nat :: GreatestBuild(tags, product, upstream, n))
  {
    NoBuildIff(tags, product, upstream);
    MaxRevisionOfNothing();
    var rs := BuildsOf(tags, product, upstream);
    GreatestIff(tags, product, upstream, MaxRevision(rs));
    forall n: nat
      ensures GreatestBuild(tags, product, upstream, n) ==> n == MaxRevision(rs)
    {
      GreatestIff(tags, product, upstream, n);
    }
    hide BuildsOf, MaxRevision, GreatestBuild, NoBuild;
  }

  // --- what is due -------------------------------------------------------------

  /** A product is due, with nothing pinned never; with no build named, at the first build; and else, if the pins
      differ from those of the greatest build named, at the one after it. A pin that is named by a build and cannot be
      compared is an error. */
  lemma DecideIs(product: Product, pinned: string, tags: seq<string>, changed: string -> bool)
    ensures pinned == "" ==> Decide(product, pinned, tags, changed) == Ok(None)
    ensures pinned != "" && NoBuild(tags, product, pinned) ==>
              Decide(product, pinned, tags, changed) == Ok(Some(Release(product, pinned, 1)))
    ensures forall n: nat :: pinned != "" && GreatestBuild(tags, product, pinned, n) ==>
              Decide(product, pinned, tags, changed) ==
              if !IsVersion(pinned) then Err(InvalidVersion)
              else if changed(GitTag(Release(product, pinned, n))) then Ok(Some(Release(product, pinned, n + 1)))
              else Ok(None)
  {
    hide Parse, BuildsOf, Top, MaxRevision, GitTag, IsVersion, NoBuild, GreatestBuild;
    NoBuildIff(tags, product, pinned);
    NextRevisionIs(tags, product, pinned);
    BuildsAreVersionsIff(tags, product, pinned);
    forall n: nat | pinned != "" && GreatestBuild(tags, product, pinned, n)
      ensures Decide(product, pinned, tags, changed) ==
              if !IsVersion(pinned) then Err(InvalidVersion)
              else if changed(GitTag(Release(product, pinned, n))) then Ok(Some(Release(product, pinned, n + 1)))
              else Ok(None)
    {
      GreatestIff(tags, product, pinned, n);
      if IsVersion(pinned) {
        TopBuild(tags, product, pinned);
      }
    }
  }

  /** When something is due: for UniFi OS, if nothing was released under the pin yet or the pins differ from those of
      its greatest build; for the network, whose pins are not asked about, only in the first case. A pin that was
      released and is no version raises. */
  lemma DueIff(product: Product, pinned: string, tags: seq<string>, changed: string -> bool)
    ensures
      var due := DueFor(product, pinned, tags, changed, false);
      && (due.Err? <==> pinned != "" && !NoBuild(tags, product, pinned) && !IsVersion(pinned))
      && (due.Ok? ==> (due.value.Some? <==>
          && pinned != ""
          && (NoBuild(tags, product, pinned) ||
              (product == UnifiOs &&
               exists n: nat :: GreatestBuild(tags, product, pinned, n) &&
                               changed(GitTag(Release(product, pinned, n)))))))
  {
    hide Parse, GitTag, IsVersion, NoBuild, GreatestBuild, Decide;
    NextRevisionIs(tags, product, pinned);
    DecideIs(product, pinned, tags, if product == UnifiOs then changed else _ => false);
    NotBoth(tags, product, pinned);
  }

  lemma NotBoth(tags: seq<string>, product: Product, pinned: string)
    ensures NoBuild(tags, product, pinned) ==> forall n: nat :: !GreatestBuild(tags, product, pinned, n)
    ensures forall m: nat, n: nat ::
              GreatestBuild(tags, product, pinned, m) && GreatestBuild(tags, product, pinned, n) ==> m == n
  {
    hide IsBuild;
  }

  /** A rebuild is due exactly where a build was released, and it is the one after the greatest. */
  lemma RebuildIff(product: Product, pinned: string, tags: seq<string>, changed: string -> bool)
    ensures
      var due := DueFor(product, pinned, tags, changed, true);
      && due.Ok?
      && (due.value == None <==> pinned == "" || NoBuild(tags, product, pinned))
      && (forall n: nat :: pinned != "" && GreatestBuild(tags, product, pinned, n) ==>
            due.value == Some(Release(product, pinned, n + 1)))
  {
    hide Parse, BuildsOf, MaxRevision, NoBuild, GreatestBuild;
    NoBuildIff(tags, product, pinned);
    NextRevisionIs(tags, product, pinned);
    NotBoth(tags, product, pinned);
  }

  // --- all products together ----------------------------------------------------

  /** The decision for the `k`th product asked for. */
  function DueAt(products: seq<Product>, pins: Product -> string, tags: seq<string>, changed: string -> bool,
                 rebuild: bool, k: nat): Result<Option<Release>, ReleaseError>
    requires k < |products|
  {
    DueFor(products[k], pins(products[k]), tags, changed, rebuild)
  }

  /** What is cut is all that is due, in the order in which the products were asked for, and nothing as soon as one
      decision raises. */
  lemma {:induction false} DueOfIff(products: seq<Product>, pins: Product -> string, tags: seq<string>,
                                    changed: string -> bool, rebuild: bool)
    ensures
      var due := DueOf(products, pins, tags, changed, rebuild);
      && (due.Err? <==> exists k :: 0 <= k < |products| && DueAt(products, pins, tags, changed, rebuild, k).Err?)
      && (due.Ok? ==>
            exists at: seq<nat> :: InOrderAt(products, pins, tags, changed, rebuild, due.value, at))
    decreases |products|
  {
    hide DueFor;
    if products == [] {
      assert InOrderAt(products, pins, tags, changed, rebuild, [], []);
    } else {
      var n := |products| - 1;
      var before := DueOf(products[..n], pins, tags, changed, rebuild);
      DueOfIff(products[..n], pins, tags, changed, rebuild);
      assert DueAt(products, pins, tags, changed, rebuild, n) ==
             DueFor(products[n], pins(products[n]), tags, changed, rebuild);
      if before.Err? {
        var k :| 0 <= k < n && DueAt(products[..n], pins, tags, changed, rebuild, k).Err?;
        assert DueAt(products, pins, tags, changed, rebuild, k).Err?;
      } else {
        var at: seq<nat> :| InOrderAt(products[..n], pins, tags, changed, rebuild, before.value, at);
        OneMoreProduct(products, pins, tags, changed, rebuild, before.value, at);
      }
    }
  }

  /** `due` lists what is due of the products at the places `at`, which are in order, and of no others. */
  ghost predicate InOrderAt(products: seq<Product>, pins: Product -> string, tags: seq<string>,
                            changed: string -> bool, rebuild: bool, due: seq<Release>, at: seq<nat>)
  {
    && |at| == |due|
    && (forall i, j :: 0 <= i < j < |at| ==> at[i] < at[j])
    && (forall i :: 0 <= i < |at| ==>
          at[i] < |products| && DueAt(products, pins, tags, changed, rebuild, at[i]) == Ok(Some(due[i])))
    && (forall k :: 0 <= k < |products| && k !in at ==> DueAt(products, pins, tags, changed, rebuild, k) == Ok(None))
  }

  lemma OneMoreProduct(products: seq<Product>, pins: Product -> string, tags: seq<string>, changed: string -> bool,
                       rebuild: bool, due: seq<Release>, at: seq<nat>)
    requires products != []
    requires InOrderAt(products[..|products| - 1], pins, tags, changed, rebuild, due, at)
    ensures
      var n := |products| - 1;
      var last := DueAt(products, pins, tags, changed, rebuild, n);
      && (last.Err? ==> exists k :: 0 <= k < |products| && DueAt(products, pins, tags, changed, rebuild, k).Err?)
      && (last == Ok(None) ==> InOrderAt(products, pins, tags, changed, rebuild, due, at))
      && (last.Ok? && last.value.Some? ==>
            InOrderAt(products, pins, tags, changed, rebuild, due + [last.value.value], at + [n]))
      && (last.Ok? ==> forall k :: 0 <= k < |products| ==> DueAt(products, pins, tags, changed, rebuild, k).Ok?)
  {
    hide DueFor;
    var n := |products| - 1;
    forall k: nat | k < n
      ensures DueAt(products, pins, tags, changed, rebuild, k) ==
              DueAt(products[..n], pins, tags, changed, rebuild, k)
    {
    }
    forall k: nat | k < n
      ensures DueAt(products, pins, tags, changed, rebuild, k).Ok?
    {
      if k in at {
        var i :| 0 <= i < |at| && at[i] == k;
      }
    }
  }

  /** The tags are created in that order too. */
  lemma {:induction false} GitTagsAt(rs: seq<Release>)
    ensures |GitTags(rs)| == |rs|
    ensures forall i :: 0 <= i < |rs| ==> GitTags(rs)[i] == GitTag(rs[i])
  {
    hide GitTag;
    if rs != [] {
      GitTagsAt(rs[..|rs| - 1]);
    }
  }
}
