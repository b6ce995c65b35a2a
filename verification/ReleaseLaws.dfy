/** What a tag says is what was printed, no new tag is taken, and the greatest release is the greatest. */
module ReleaseLaws {
  import opened Sequences
  import opened Wrappers
  import opened Releases

  // --- digits -------------------------------------------------------------------

  lemma {:induction false} DigitAmongIff(c: int, zeros: seq<int>)
    ensures DigitAmong(c, zeros).Some? <==> exists i :: 0 <= i < |zeros| && zeros[i] <= c < zeros[i] + 10
    ensures DigitAmong(c, zeros).Some? ==>
              DigitAmong(c, zeros).value < 10 && c - DigitAmong(c, zeros).value in zeros
  {
    if zeros != [] {
      DigitAmongIff(c, zeros[1..]);
      if i :| 0 < i < |zeros| && zeros[i] <= c < zeros[i] + 10 {
        assert zeros[1..][i - 1] == zeros[i];
      }
    }
  }

  /** A digit lies in the run of ten that some script's zero begins, and counts how far behind that zero it stands. */
  lemma DigitOfIff(c: char)
    ensures DigitOf(c).Some? <==>
              '0' <= c <= '9' ||
              (c >= '\U{0660}' &&
               exists i :: 0 <= i < |OTHER_ZEROS| && OTHER_ZEROS[i] <= c as int < OTHER_ZEROS[i] + 10)
    ensures DigitOf(c).Some? ==>
              && DigitOf(c).value < 10
              && (c as int - DigitOf(c).value == '0' as int || c as int - DigitOf(c).value in OTHER_ZEROS)
  {
    DigitAmongIff(c as int, OTHER_ZEROS);
  }

  // --- the pattern, piece by piece ----------------------------------------------

  lemma {:induction false} TakeNumberOf(digits: string, rest: string)
    requires forall i :: 0 <= i < |digits| ==> IsDigit(digits[i])
    requires rest == "" || !IsDigit(rest[0])
    ensures LeadingDigits(digits + rest) == |digits|
  {
    if digits == "" {
      assert digits + rest == rest;
    } else {
      assert (digits + rest)[1..] == digits[1..] + rest;
      TakeNumberOf(digits[1..], rest);
    }
  }

  /** The greedy match is the only one: digits, and something that does not go on with one. */
  lemma TakeNumberIff(s: string, digits: string, rest: string)
    ensures TakeNumber(s) == Some((digits, rest)) <==>
              s == digits + rest && IsNumber(digits) && (rest == "" || !IsDigit(rest[0]))
  {
    LeadingAreDigits(s);
    if s == digits + rest && IsNumber(digits) && (rest == "" || !IsDigit(rest[0])) {
      TakeNumberOf(digits, rest);
      assert s[..|digits|] == digits && s[|digits|..] == rest;
    }
  }

  lemma TakeCharIff(s: string, c: char, rest: string)
    ensures TakeChar(s, c) == Some(rest) <==> s == [c] + rest
  {
    if s == [c] + rest {
      assert s[1..] == rest;
    }
  }

  lemma TakeDottedNumberIff(s: string, digits: string, rest: string)
    ensures TakeDottedNumber(s) == Some((digits, rest)) <==> s == digits + "." + rest && IsNumber(digits)
  {
    hide TakeNumber, TakeChar;
    if s == digits + "." + rest && IsNumber(digits) {
      assert s == digits + ("." + rest);
      TakeNumberIff(s, digits, "." + rest);
      TakeCharIff("." + rest, '.', rest);
    }
    if TakeDottedNumber(s) == Some((digits, rest)) {
      var left := TakeNumber(s).value.1;
      TakeNumberIff(s, digits, left);
      TakeCharIff(left, '.', rest);
    }
  }

  lemma TakePartsIff(s: string, a: string, b: string, c: string, rest: string)
    ensures TakeParts(s) == Some(Parts(a, b, c, rest)) <==>
              && s == Dotted(a, b, c) + rest && IsNumber(a) && IsNumber(b) && IsNumber(c)
              && (rest == "" || !IsDigit(rest[0]))
  {
    hide TakeDottedNumber, TakeNumber, IsNumber;
    var s2 := c + rest;
    var s1 := b + "." + s2;
    TakeDottedNumberIff(s, a, s1);
    TakeDottedNumberIff(s1, b, s2);
    TakeNumberIff(s2, c, rest);
    assert Dotted(a, b, c) + rest == a + "." + s1;
    if TakeParts(s) == Some(Parts(a, b, c, rest)) {
      var left := TakeDottedNumber(s).value.1;
      TakeDottedNumberIff(s, a, left);
      var last := TakeDottedNumber(left).value.1;
      TakeDottedNumberIff(left, b, last);
      TakeNumberIff(last, c, rest);
    }
  }

  lemma TakeRevisionIff(s: string, digits: string)
    ensures TakeRevision(s) == Some(digits) <==>
              exists end :: IsEnd(end) && s == "-" + digits + end && IsNumber(digits)
  {
    hide TakeNumber, TakeChar, IsNumber;
    if TakeRevision(s) == Some(digits) {
      var s1 := TakeChar(s, '-').value;
      TakeCharIff(s, '-', s1);
      var end := TakeNumber(s1).value.1;
      TakeNumberIff(s1, digits, end);
      assert s == "-" + digits + end;
    }
    if end: string :| IsEnd(end) && s == "-" + digits + end && IsNumber(digits) {
      assert s == "-" + (digits + end);
      TakeCharIff(s, '-', digits + end);
      TakeNumberIff(digits + end, digits, end);
    }
  }

  lemma TakeProductIff(tag: string, product: Product, s: string)
    ensures TakeProduct(tag) == Some((product, s)) <==> tag == Name(product) + "/" + s
  {
    if TakeProduct(tag) == Some((product, s)) {
      assert tag == Name(product) + "/" + s;
    }
    if tag == Name(product) + "/" + s {
      var prefix := Name(product) + "/";
      assert prefix <= tag && tag[|prefix|..] == s;
      assert product.UnifiOs? ==> tag[0] == 'u';
    }
  }

  // --- parsing and printing ---------------------------------------------------

  /** The language of release tags: product, three numbers, a revision, and perhaps a newline. */
  ghost predicate IsTag(tag: string, r: Release) {
    exists a, b, c, digits, end :: IsTagOf(tag, r, a, b, c, digits, end)
  }

  predicate IsTagOf(tag: string, r: Release, a: string, b: string, c: string, digits: string, end: string) {
    && IsNumber(a) && IsNumber(b) && IsNumber(c) && IsNumber(digits) && (end == "" || end == "\n")
    && tag == TagOf(r.product, a, b, c, digits, end)
    && r.upstream == a + "." + b + "." + c && r.revision == Value(digits)
  }

  function TagOf(product: Product, a: string, b: string, c: string, digits: string, end: string): string {
    (if product == Network then "network/" else "unifi-os/") + a + "." + b + "." + c + "-" + digits + end
  }

  lemma TagOfIs(product: Product, a: string, b: string, c: string, digits: string, end: string)
    ensures TagOf(product, a, b, c, digits, end) == Name(product) + "/" + (Dotted(a, b, c) + ("-" + digits + end))
  {
    var head := if product == Network then "network/" else "unifi-os/";
    assert head == Name(product) + "/";
    var upstream := Dotted(a, b, c);
    Associates(head, a, ".");
    Associates(head, a + ".", b);
    Associates(head, a + "." + b, ".");
    Associates(head, a + "." + b + ".", c);
    Associates(head, upstream, "-");
    Associates(head, upstream + "-", digits);
    Associates(head, upstream + "-" + digits, end);
    Associates(upstream, "-", digits);
    Associates(upstream, "-" + digits, end);
  }

  /** A tag parses to a release exactly when the pattern says so: nothing else is taken for one, and nothing that is one
      is missed. */
  lemma ParseIff(tag: string, r: Release)
    ensures Parse(tag) == Some(r) <==> IsTag(tag, r)
  {
    if Parse(tag) == Some(r) {
      ParseIsTag(tag, r);
    }
    if IsTag(tag, r) {
      var a, b, c, digits, end :| IsTagOf(tag, r, a, b, c, digits, end);
      hide Parse, TagOf, IsDigit;
      TagParses(r.product, a, b, c, digits, end);
    }
  }

  lemma TagParses(product: Product, a: string, b: string, c: string, digits: string, end: string)
    requires IsNumber(a) && IsNumber(b) && IsNumber(c) && IsNumber(digits) && IsEnd(end)
    ensures Parse(TagOf(product, a, b, c, digits, end)) == Some(Release(product, Dotted(a, b, c), Value(digits)))
  {
    TagOfIs(product, a, b, c, digits, end);
    hide TakeProduct, TakeParts, TakeRevision, Dotted, IsNumber, TagOf;
    var rest := "-" + digits + end;
    TakeProductIff(TagOf(product, a, b, c, digits, end), product, Dotted(a, b, c) + rest);
    TakePartsIff(Dotted(a, b, c) + rest, a, b, c, rest);
    TakeRevisionIff(rest, digits);
  }

  lemma DottedIs(a: string, b: string, c: string)
    ensures Dotted(a, b, c) == a + "." + b + "." + c
  {
  }

  lemma ParseIsTag(tag: string, r: Release)
    requires Parse(tag) == Some(r)
    ensures IsTag(tag, r)
  {
    hide TakeProduct, TakeParts, TakeRevision, Dotted, IsNumber;
    var (product, s) := TakeProduct(tag).value;
    TakeProductIff(tag, product, s);
    var p := TakeParts(s).value;
    TakePartsIff(s, p.a, p.b, p.c, p.rest);
    var digits := TakeRevision(p.rest).value;
    TakeRevisionIff(p.rest, digits);
    var end: string :| IsEnd(end) && p.rest == "-" + digits + end && IsNumber(digits);
    TagOfIs(product, p.a, p.b, p.c, digits, end);
    hide TagOf;
    assert TagOf(product, p.a, p.b, p.c, digits, end) == tag;
    assert Dotted(p.a, p.b, p.c) == p.a + "." + p.b + "." + p.c by {
      DottedIs(p.a, p.b, p.c);
    }
    assert IsTagOf(tag, r, p.a, p.b, p.c, digits, end);
  }

  lemma {:induction false} DecimalIsNumber(n: nat)
    ensures IsNumber(Decimal(n)) && Value(Decimal(n)) == n
  {
    if n < 10 {
      OneDigit(n);
    } else {
      DecimalIsNumber(n / 10);
      assert Decimal(n)[..|Decimal(n)| - 1] == Decimal(n / 10);
    }
  }

  lemma OneDigit(n: nat)
    requires n < 10
    ensures IsNumber(Decimal(n)) && Value(Decimal(n)) == n
  {
    assert Decimal(n)[..0] == "";
  }

  lemma UpstreamIff(upstream: string)
    ensures IsUpstream(upstream) <==> exists a, b, c :: UpstreamIs(upstream, a, b, c)
  {
    hide TakeParts, Dotted, IsNumber;
    if IsUpstream(upstream) {
      var p := TakeParts(upstream).value;
      TakePartsIff(upstream, p.a, p.b, p.c, "");
      assert Dotted(p.a, p.b, p.c) + "" == Dotted(p.a, p.b, p.c);
      assert UpstreamIs(upstream, p.a, p.b, p.c);
    }
    if a, b, c :| UpstreamIs(upstream, a, b, c) {
      assert Dotted(a, b, c) + "" == Dotted(a, b, c);
      TakePartsIff(upstream, a, b, c, "");
    }
  }

  predicate UpstreamIs(upstream: string, a: string, b: string, c: string) {
    upstream == Dotted(a, b, c) && IsNumber(a) && IsNumber(b) && IsNumber(c)
  }

  predicate IsPlainNumber(s: string) {
    s != "" && forall i :: 0 <= i < |s| ==> '0' <= s[i] <= '9'
  }

  predicate PlainVersion(upstream: string, x: string, y: string, z: string) {
    upstream == x + "." + y + "." + z && IsPlainNumber(x) && IsPlainNumber(y) && IsPlainNumber(z)
  }

  /** `Version` takes exactly three numbers in the digits 0 to 9, leading zeros included. */
  lemma VersionIff(upstream: string)
    ensures IsVersion(upstream) <==> exists x, y, z :: PlainVersion(upstream, x, y, z)
  {
    UpstreamIff(upstream);
    hide IsUpstream;
    if IsVersion(upstream) {
      var x, y, z :| UpstreamIs(upstream, x, y, z);
      PlainIff(upstream, x, y, z);
      assert PlainVersion(upstream, x, y, z);
    }
    if x, y, z :| PlainVersion(upstream, x, y, z) {
      PlainIff(upstream, x, y, z);
      assert UpstreamIs(upstream, x, y, z);
    }
  }

  lemma PlainIff(upstream: string, x: string, y: string, z: string)
    requires upstream == x + "." + y + "." + z
    ensures UpstreamIs(upstream, x, y, z) && (forall i :: 0 <= i < |upstream| ==> upstream[i] < '\U{0080}') <==>
            PlainVersion(upstream, x, y, z)
  {
    PlainNumberIff(x);
    PlainNumberIff(y);
    PlainNumberIff(z);
    hide IsNumber, IsPlainNumber;
    forall i | 0 <= i < |upstream|
      ensures upstream[i] == '.' || upstream[i] in x || upstream[i] in y || upstream[i] in z
    {
    }
    AllIn(x, upstream, 0);
    AllIn(y, upstream, |x| + 1);
    AllIn(z, upstream, |x| + |y| + 2);
  }

  lemma AllIn(part: string, s: string, at: nat)
    requires at + |part| <= |s| && s[at..at + |part|] == part
    ensures forall c :: c in part ==> c in s
  {
    forall c | c in part
      ensures c in s
    {
      var i :| 0 <= i < |part| && part[i] == c;
      assert s[at..at + |part|][i] == s[at + i];
    }
  }

  lemma PlainNumberIff(s: string)
    ensures IsPlainNumber(s) <==> IsNumber(s) && forall c :: c in s ==> c < '\U{0080}'
  {
    if IsNumber(s) && forall c :: c in s ==> c < '\U{0080}' {
      forall i | 0 <= i < |s|
        ensures '0' <= s[i] <= '9'
      {
        assert s[i] in s && IsDigit(s[i]);
        DigitBelow(s[i]);
      }
    }
    forall i | 0 <= i < |s| && '0' <= s[i] <= '9'
      ensures IsDigit(s[i])
    {
    }
    hide IsDigit;
  }

  lemma DigitBelow(c: char)
    requires c < '\U{0080}' && IsDigit(c)
    ensures '0' <= c <= '9'
  {
  }

  lemma ParsedIsUpstream(tag: string)
    requires Parse(tag).Some?
    ensures IsUpstream(Parse(tag).value.upstream)
  {
    var r := Parse(tag).value;
    ParseIsTag(tag, r);
    hide Parse;
    var a, b, c, digits, end :| IsTagOf(tag, r, a, b, c, digits, end);
    DottedIs(a, b, c);
    assert UpstreamIs(r.upstream, a, b, c);
    UpstreamIff(r.upstream);
  }

  lemma GitTagIsTagOf(r: Release, a: string, b: string, c: string)
    requires r.upstream == Dotted(a, b, c)
    ensures TagOf(r.product, a, b, c, Decimal(r.revision), "") == GitTag(r)
  {
    TagOfIs(r.product, a, b, c, Decimal(r.revision), "");
    hide Dotted, Decimal, Name, TagOf;
    Regroup(Name(r.product) + "/", r.upstream, "-", Decimal(r.revision));
  }

  lemma Regroup(head: string, upstream: string, dash: string, digits: string)
    ensures head + (upstream + (dash + digits + "")) == head + (upstream + dash + digits)
  {
    assert upstream + (dash + digits + "") == upstream + dash + digits;
  }

  /** A release's tag parses back to it exactly when its upstream version is three numbers. */
  lemma TagRoundTripIff(r: Release)
    ensures Parse(GitTag(r)) == Some(r) <==> IsUpstream(r.upstream)
  {
    if Parse(GitTag(r)) == Some(r) {
      ParsedIsUpstream(GitTag(r));
    }
    if IsUpstream(r.upstream) {
      hide Parse, IsNumber, Dotted, Decimal, Value, GitTag, TagOf;
      UpstreamIff(r.upstream);
      var a, b, c :| UpstreamIs(r.upstream, a, b, c);
      DecimalIsNumber(r.revision);
      TagParses(r.product, a, b, c, Decimal(r.revision), "");
      GitTagIsTagOf(r, a, b, c);
    }
  }

  // --- what is in a list of tags ----------------------------------------------

  lemma {:induction false} ReleasesForIff(tags: seq<string>, product: Product, r: Release)
    ensures r in ReleasesFor(tags, product) <==>
              r.product == product && exists tag :: tag in tags && Parse(tag) == Some(r)
  {
    hide Parse;
    if tags != [] {
      var n := |tags| - 1;
      ReleasesForIff(tags[..n], product, r);
      assert tags == tags[..n] + [tags[n]];
    }
  }

  lemma {:induction false} OfUpstreamIff(rs: seq<Release>, upstream: string, r: Release)
    ensures r in OfUpstream(rs, upstream) <==> r in rs && r.upstream == upstream
  {
    if rs != [] {
      var n := |rs| - 1;
      OfUpstreamIff(rs[..n], upstream, r);
      assert rs == rs[..n] + [rs[n]];
    }
  }

  /** The builds of a version are exactly the releases of it that some tag names. */
  lemma BuildsOfIff(tags: seq<string>, product: Product, upstream: string, r: Release)
    ensures r in BuildsOf(tags, product, upstream) <==>
              r.product == product && r.upstream == upstream && exists tag :: tag in tags && Parse(tag) == Some(r)
  {
    ReleasesForIff(tags, product, r);
    OfUpstreamIff(ReleasesFor(tags, product), upstream, r);
    hide Parse, ReleasesFor, OfUpstream;
  }

  lemma {:induction false} MaxRevisionIsMax(rs: seq<Release>)
    ensures forall r :: r in rs ==> r.revision <= MaxRevision(rs)
    ensures rs != [] ==> exists r :: r in rs && r.revision == MaxRevision(rs)
  {
    if rs != [] {
      var n := |rs| - 1;
      MaxRevisionIsMax(rs[..n]);
      assert rs == rs[..n] + [rs[n]];
      assert rs[n] in rs;
    }
  }

  /** The next build's number is greater than every build's, whatever else the list of tags holds. */
  lemma NextIsNewer(tags: seq<string>, product: Product, upstream: string, tag: string)
    requires tag in tags && Parse(tag).Some?
    requires Parse(tag).value.product == product && Parse(tag).value.upstream == upstream
    ensures Parse(tag).value.revision < NextRelease(tags, product, upstream).revision
  {
    var r := Parse(tag).value;
    BuildsOfIff(tags, product, upstream, r);
    MaxRevisionIsMax(BuildsOf(tags, product, upstream));
  }

  /** The next build's tag is not taken, unless what is pinned is no version and that very tag is there. */
  lemma NextIsFreshIff(tags: seq<string>, product: Product, upstream: string)
    ensures
      var tag := GitTag(NextRelease(tags, product, upstream));
      tag !in tags <==> (IsUpstream(upstream) || GitTag(Release(product, upstream, 1)) !in tags)
  {
    hide Parse, IsUpstream, GitTag, BuildsOf;
    var next := NextRelease(tags, product, upstream);
    if IsUpstream(upstream) {
      TagRoundTripIff(next);
      if GitTag(next) in tags {
        NextIsNewer(tags, product, upstream, GitTag(next));
      }
    } else {
      NoBuildsOfNonsense(tags, product, upstream);
    }
  }

  lemma NoBuildsOfNonsense(tags: seq<string>, product: Product, upstream: string)
    requires !IsUpstream(upstream)
    ensures BuildsOf(tags, product, upstream) == []
  {
    hide Parse, IsUpstream, BuildsOf;
    var rs := BuildsOf(tags, product, upstream);
    if rs != [] {
      BuildsOfIff(tags, product, upstream, rs[0]);
      var tag :| tag in tags && Parse(tag) == Some(rs[0]);
      ParsedIsUpstream(tag);
    }
  }
}
