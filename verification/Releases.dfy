/** `release.py`: a git tag names a release completely. */
module Releases {
  import opened Wrappers

  datatype Product = Network | UnifiOs

  function Name(p: Product): string {
    match p
    case Network => "network"
    case UnifiOs => "unifi-os"
  }

  datatype Release = Release(product: Product, upstream: string, revision: nat)

  // --- decimal numbers ----------------------------------------------------

  /** The digit zero of every other script: each begins a run of ten decimal digits (category Nd of Unicode 15.1). */
  const OTHER_ZEROS: seq<int> :=
    [0x660, 0x6F0, 0x7C0, 0x966, 0x9E6, 0xA66, 0xAE6, 0xB66, 0xBE6, 0xC66, 0xCE6, 0xD66] +
    [0xDE6, 0xE50, 0xED0, 0xF20, 0x1040, 0x1090, 0x17E0, 0x1810, 0x1946, 0x19D0, 0x1A80, 0x1A90] +
    [0x1B50, 0x1BB0, 0x1C40, 0x1C50, 0xA620, 0xA8D0, 0xA900, 0xA9D0, 0xA9F0, 0xAA50, 0xABF0, 0xFF10] +
    [0x104A0, 0x10D30, 0x11066, 0x110F0, 0x11136, 0x111D0, 0x112F0, 0x11450, 0x114D0, 0x11650, 0x116C0, 0x11730] +
    [0x118E0, 0x11950, 0x11C50, 0x11D50, 0x11DA0, 0x11F50, 0x16A60, 0x16AC0, 0x16B50, 0x1D7CE] +
    [0x1D7D8, 0x1D7E2, 0x1D7EC, 0x1D7F6, 0x1E140, 0x1E2F0, 0x1E4F0, 0x1E950, 0x1FBF0]

  function DigitAmong(c: int, zeros: seq<int>): Option<nat> {
    if zeros == [] then None
    else if zeros[0] <= c < zeros[0] + 10 then Some(c - zeros[0])
    else DigitAmong(c, zeros[1..])
  }

  /** What a character counts as a decimal digit: `\d` and `int` take those of every script. */
  function DigitOf(c: char): Option<nat> {
    if '0' <= c <= '9' then Some(c as int - '0' as int)
    else if c < '\U{0660}' then None
    else DigitAmong(c as int, OTHER_ZEROS)
  }

  predicate IsDigit(c: char) {
    DigitOf(c).Some?
  }

  predicate IsNumber(s: string) {
    s != "" && forall i :: 0 <= i < |s| ==> IsDigit(s[i])
  }

  /** What `int` makes of a run of digits. */
  function Value(digits: string): nat
    requires forall i :: 0 <= i < |digits| ==> IsDigit(digits[i])
  {
    if digits == "" then 0
    else
      var n := |digits| - 1;
      assert IsDigit(digits[n]);
      10 * Value(digits[..n]) + DigitOf(digits[n]).value
  }

  /** What `str` makes of a number. */
  function Decimal(n: nat): string {
    if n < 10 then [('0' as int + n) as char] else Decimal(n / 10) + [('0' as int + n % 10) as char]
  }

  // --- the tag pattern -----------------------------------------------------

  function LeadingDigits(s: string): (n: nat)
    ensures n <= |s|
  {
    if s != "" && IsDigit(s[0]) then 1 + LeadingDigits(s[1..]) else 0
  }

  /** `\d+` and what is left. */
  function TakeNumber(s: string): Option<(string, string)> {
    var n := LeadingDigits(s);
    if n == 0 then None else Some((s[..n], s[n..]))
  }

  function TakeChar(s: string, c: char): Option<string> {
    if s != "" && s[0] == c then Some(s[1..]) else None
  }

  datatype Parts = Parts(a: string, b: string, c: string, rest: string)

  function Dotted(a: string, b: string, c: string): string {
    a + "." + b + "." + c
  }

  /** `\d+` and the dot after it. */
  function TakeDottedNumber(s: string): Option<(string, string)> {
    match TakeNumber(s)
    case None => None
    case Some((digits, rest)) =>
      match TakeChar(rest, '.')
      case None => None
      case Some(left) => Some((digits, left))
  }

  /** `\d+\.\d+\.\d+` and what is left. */
  function TakeParts(s: string): Option<Parts> {
    match TakeDottedNumber(s)
    case None => None
    case Some((a, s1)) =>
      match TakeDottedNumber(s1)
      case None => None
      case Some((b, s2)) =>
        match TakeNumber(s2)
        case None => None
        case Some((c, rest)) => Some(Parts(a, b, c, rest))
  }

  /** What `$` accepts: the end, or a newline that ends the text. */
  predicate IsEnd(s: string) {
    s == "" || s == "\n"
  }

  /** `-\d+$` */
  function TakeRevision(s: string): Option<string> {
    match TakeChar(s, '-')
    case None => None
    case Some(s1) =>
      match TakeNumber(s1)
      case None => None
      case Some((digits, end)) => if IsEnd(end) then Some(digits) else None
  }

  function TakeProduct(tag: string): Option<(Product, string)> {
    if "network/" <= tag then Some((Network, tag[8..]))
    else if "unifi-os/" <= tag then Some((UnifiOs, tag[9..]))
    else None
  }

  lemma TakenIsNumber(s: string)
    ensures TakeNumber(s).Some? ==> IsNumber(TakeNumber(s).value.0)
  {
    LeadingAreDigits(s);
  }

  lemma {:induction false} LeadingAreDigits(s: string)
    ensures forall i :: 0 <= i < LeadingDigits(s) ==> IsDigit(s[i])
    ensures LeadingDigits(s) < |s| ==> !IsDigit(s[LeadingDigits(s)])
  {
    if s != "" && IsDigit(s[0]) {
      LeadingAreDigits(s[1..]);
    }
  }

  /** `parse` */
  function Parse(tag: string): Option<Release> {
    match TakeProduct(tag)
    case None => None
    case Some((product, s)) =>
      match TakeParts(s)
      case None => None
      case Some(Parts(a, b, c, rest)) =>
        match TakeRevision(rest)
        case None => None
        case Some(digits) =>
          RevisionIsNumber(rest);
          Some(Release(product, Dotted(a, b, c), Value(digits)))
  }

  lemma RevisionIsNumber(s: string)
    ensures TakeRevision(s).Some? ==> IsNumber(TakeRevision(s).value)
  {
    if s != "" {
      TakenIsNumber(s[1..]);
    }
  }

  function VersionOf(r: Release): string {
    r.upstream + "-" + Decimal(r.revision)
  }

  function GitTag(r: Release): string {
    Name(r.product) + "/" + VersionOf(r)
  }

  /** An upstream version as the pattern wants it: three numbers. */
  predicate IsUpstream(s: string) {
    TakeParts(s).Some? && TakeParts(s).value.rest == ""
  }

  /** What `Version` accepts of those: it wants ASCII digits, and raises on the others. */
  predicate IsVersion(s: string) {
    IsUpstream(s) && forall i :: 0 <= i < |s| ==> s[i] < '\U{0080}'
  }

  datatype ReleaseError = NotARelease | PinsDisagree | InvalidVersion

  // --- the order ----------------------------------------------------------

  /** What `Version` compares: the numbers of the upstream version, then the post-release. */
  datatype Version = Version(a: nat, b: nat, c: nat, revision: nat) {
    predicate Before(v: Version) {
      || a < v.a
      || (a == v.a && (b < v.b || (b == v.b && (c < v.c || (c == v.c && revision < v.revision)))))
    }
  }

  lemma PartsAreNumbers(s: string)
    ensures TakeParts(s).Some? ==>
              var p := TakeParts(s).value; IsNumber(p.a) && IsNumber(p.b) && IsNumber(p.c)
  {
    TakenIsNumber(s);
    if TakeDottedNumber(s).Some? {
      var s1 := TakeDottedNumber(s).value.1;
      TakenIsNumber(s1);
      if TakeDottedNumber(s1).Some? {
        TakenIsNumber(TakeDottedNumber(s1).value.1);
      }
    }
  }

  function Rank(r: Release): Version
    requires IsVersion(r.upstream)
  {
    PartsAreNumbers(r.upstream);
    var p := TakeParts(r.upstream).value;
    Version(Value(p.a), Value(p.b), Value(p.c), r.revision)
  }

  // --- what the tags say ----------------------------------------------------

  /** Every release of the product among the tags; what does not parse is not one. */
  function ReleasesFor(tags: seq<string>, product: Product): seq<Release> {
    if tags == [] then []
    else
      var n := |tags| - 1;
      var r := Parse(tags[n]);
      ReleasesFor(tags[..n], product) + (if r.Some? && r.value.product == product then [r.value] else [])
  }

  function OfUpstream(rs: seq<Release>, upstream: string): seq<Release> {
    if rs == [] then []
    else
      var n := |rs| - 1;
      OfUpstream(rs[..n], upstream) + (if rs[n].upstream == upstream then [rs[n]] else [])
  }

  function BuildsOf(tags: seq<string>, product: Product, upstream: string): seq<Release> {
    OfUpstream(ReleasesFor(tags, product), upstream)
  }

  function MaxRevision(rs: seq<Release>): nat {
    if rs == [] then 0
    else
      var n := |rs| - 1;
      var m := MaxRevision(rs[..n]);
      if rs[n].revision > m then rs[n].revision else m
  }

  function NextRelease(tags: seq<string>, product: Product, upstream: string): Release {
    Release(product, upstream, MaxRevision(BuildsOf(tags, product, upstream)) + 1)
  }

  predicate IsHighestBuild(tags: seq<string>, r: Release) {
    forall q :: q in BuildsOf(tags, r.product, r.upstream) ==> q.revision <= r.revision
  }
}
