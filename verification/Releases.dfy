/** Versions, release selection, manifests and jobs of the updater (src/cmnd_linux/updates.py). */
module Releases {
  import opened Wrappers

  datatype UpdateError =
    | UnsupportedVersion | InvalidChannel | InvalidReleaseId | AmbiguousAssets | InvalidAsset
    | ManualMigration | Unconfirmed

  const MAX_PACKAGE := 64 * 1024 * 1024

  // ---- Version texts ----

  datatype Version = Version(major: nat, minor: nat, patch: nat)

  /** The order of version triples. */
  predicate Less(a: Version, b: Version) {
    || a.major < b.major
    || (a.major == b.major && (a.minor < b.minor || (a.minor == b.minor && a.patch < b.patch)))
  }

  predicate IsDigit(c: char) { '0' <= c <= '9' }

  function DigitChar(n: nat): char
    requires n < 10
  {
    '0' + n as char
  }

  /** Decimal digits without leading zeros. */
  function Decimal(n: nat): string {
    if n < 10 then [DigitChar(n)] else Decimal(n / 10) + [DigitChar(n % 10)]
  }

  predicate AllDigits(s: string) { forall i :: 0 <= i < |s| ==> IsDigit(s[i]) }

  /** The pattern `0|[1-9][0-9]*`. */
  predicate IsNumber(s: string) {
    s != "" && AllDigits(s) && (s[0] == '0' ==> |s| == 1)
  }

  function ValueOf(s: string): nat
    requires AllDigits(s)
  {
    if s == "" then 0 else ValueOf(s[..|s| - 1]) * 10 + (s[|s| - 1] as int - '0' as int)
  }

  function Split(s: string): (parts: seq<string>) {
    var i := Dot(s, 0);
    if i == |s| then [s] else [s[..i]] + Split(s[i + 1..])
  }

  /** The first dot from `i` on, or the end. */
  function Dot(s: string, i: nat): (r: nat)
    requires i <= |s|
    ensures i <= r <= |s|
    decreases |s| - i
  {
    if i == |s| || s[i] == '.' then i else Dot(s, i + 1)
  }

  function VersionTuple(s: string): Result<Version, UpdateError> {
    var parts := Split(s);
    if |parts| == 3 && IsNumber(parts[0]) && IsNumber(parts[1]) && IsNumber(parts[2])
    then Ok(Version(ValueOf(parts[0]), ValueOf(parts[1]), ValueOf(parts[2])))
    else Err(UnsupportedVersion)
  }

  function Text(v: Version): string {
    Decimal(v.major) + "." + Decimal(v.minor) + "." + Decimal(v.patch)
  }

  lemma {:induction false} DecimalReads(n: nat)
    ensures IsNumber(Decimal(n)) && ValueOf(Decimal(n)) == n
    ensures n != 0 ==> Decimal(n)[0] != '0'
  {
    if n >= 10 {
      DecimalReads(n / 10);
      assert Decimal(n)[..|Decimal(n)| - 1] == Decimal(n / 10);
    }
  }

  lemma {:induction false} NumberPrints(s: string)
    requires IsNumber(s)
    ensures Decimal(ValueOf(s)) == s
    ensures s != "0" ==> ValueOf(s) > 0
  {
    var init, last := s[..|s| - 1], s[|s| - 1];
    if init == "" {
      assert s == [last];
    } else {
      NumberPrints(init);
      assert s == init + [last];
    }
  }

  lemma {:induction false} DotIs(s: string, i: nat, k: nat)
    requires i <= k <= |s|
    requires forall j :: i <= j < k ==> s[j] != '.'
    requires k == |s| || s[k] == '.'
    ensures Dot(s, i) == k
    decreases k - i
  {
    if i < k { DotIs(s, i + 1, k); }
  }

  lemma {:induction false} DotFound(s: string, i: nat)
    requires i <= |s|
    ensures var k := Dot(s, i); (forall j :: i <= j < k ==> s[j] != '.') && (k < |s| ==> s[k] == '.')
    decreases |s| - i
  {
    if i < |s| && s[i] != '.' { DotFound(s, i + 1); }
  }

  predicate Undotted(s: string) { forall i :: 0 <= i < |s| ==> s[i] != '.' }

  lemma SplitStep(a: string, rest: string)
    requires Undotted(a)
    ensures Split(a + "." + rest) == [a] + Split(rest)
  {
    var s := a + "." + rest;
    DotIs(s, 0, |a|);
    assert s[..|a|] == a && s[|a| + 1..] == rest;
  }

  lemma SplitSingle(a: string)
    requires Undotted(a)
    ensures Split(a) == [a]
  {
    DotIs(a, 0, |a|);
  }

  lemma SplitHead(s: string)
    requires |Split(s)| > 1
    ensures s == Split(s)[0] + "." + s[Dot(s, 0) + 1..] && Dot(s, 0) < |s|
    ensures Split(s)[1..] == Split(s[Dot(s, 0) + 1..])
  {
    DotFound(s, 0);
  }

  lemma SplitThree(a: string, b: string, c: string)
    requires Undotted(a) && Undotted(b) && Undotted(c)
    ensures Split(a + "." + b + "." + c) == [a, b, c]
  {
    hide Split, Dot;
    SplitStep(a, b + "." + c);
    SplitStep(b, c);
    SplitSingle(c);
    assert a + "." + b + "." + c == a + "." + (b + "." + c);
  }

  lemma ThreeJoin(s: string)
    requires |Split(s)| == 3
    ensures s == Split(s)[0] + "." + Split(s)[1] + "." + Split(s)[2]
  {
    SplitHead(s);
    var rest := s[Dot(s, 0) + 1..];
    assert Split(rest) == Split(s)[1..];
    TwoJoin(rest);
    assert s == Split(s)[0] + "." + (Split(s)[1] + "." + Split(s)[2]);
  }

  lemma TwoJoin(s: string)
    requires |Split(s)| == 2
    ensures s == Split(s)[0] + "." + Split(s)[1]
  {
    SplitHead(s);
    var last := s[Dot(s, 0) + 1..];
    assert Split(last) == Split(s)[1..];
    LastPart(last);
  }

  lemma LastPart(s: string)
    requires |Split(s)| == 1
    ensures Split(s) == [s]
  {
    DotFound(s, 0);
    if Dot(s, 0) < |s| { SplitNonempty(s[Dot(s, 0) + 1..]); }
  }

  lemma SplitNonempty(s: string)
    ensures |Split(s)| >= 1
  {
  }

  lemma WrittenReads(v: Version)
    ensures VersionTuple(Text(v)) == Ok(v)
  {
    DecimalReads(v.major);
    DecimalReads(v.minor);
    DecimalReads(v.patch);
    SplitThree(Decimal(v.major), Decimal(v.minor), Decimal(v.patch));
  }

  lemma ReadWrites(s: string)
    requires VersionTuple(s).Ok?
    ensures Text(VersionTuple(s).value) == s
  {
    ThreeJoin(s);
    NumberPrints(Split(s)[0]);
    NumberPrints(Split(s)[1]);
    NumberPrints(Split(s)[2]);
  }

  /** A text is accepted as a version exactly when it is that version's text. */
  lemma VersionTextExact(s: string, v: Version)
    ensures VersionTuple(s) == Ok(v) <==> s == Text(v)
  {
    WrittenReads(v);
    if VersionTuple(s).Ok? { ReadWrites(s); }
  }

  lemma LessTotal(a: Version, b: Version, c: Version)
    ensures Less(a, b) || Less(b, a) || a == b
    ensures !(Less(a, b) && Less(b, a)) && !Less(a, a)
    ensures Less(a, b) && Less(b, c) ==> Less(a, c)
  {
  }

  // ---- Selection ----

  datatype Asset = Asset(name: string, id: int, size: int, digest: string)

  /** A published release; an entry that is no object counts as a draft. */
  datatype Release = Release(draft: bool, prerelease: bool, tag: string, id: int, assets: seq<Asset>)

  datatype Candidate = Candidate(version: string, releaseId: int, package: Asset, manifest: Asset, prerelease: bool)

  predicate IsHex(c: char) { '0' <= c <= '9' || 'a' <= c <= 'f' }

  predicate ValidAsset(a: Asset) {
    && a.id >= 1 && 1 <= a.size <= MAX_PACKAGE
    && |a.digest| == 71 && a.digest[..7] == "sha256:" && forall i :: 7 <= i < 71 ==> IsHex(a.digest[i])
  }

  /** Releases the channel offers that carry a version newer than the current one. */
  predicate Eligible(r: Release, current: Version, channel: string) {
    && !r.draft && (r.prerelease ==> channel == "preview")
    && |r.tag| > 0 && r.tag[0] == 'v'
    && VersionTuple(r.tag[1..]).Ok? && Less(current, VersionTuple(r.tag[1..]).value)
  }

  /** The eligible release with the highest version, the first one among equals. */
  ghost predicate Newest(releases: seq<Release>, i: int, current: Version, channel: string) {
    && 0 <= i < |releases| && Eligible(releases[i], current, channel)
    && var v := VersionTuple(releases[i].tag[1..]).value;
       forall j :: 0 <= j < |releases| && Eligible(releases[j], current, channel) ==>
         var u := VersionTuple(releases[j].tag[1..]).value;
         !Less(v, u) && (j < i ==> Less(u, v))
  }

  lemma NewestUnique(releases: seq<Release>, i: int, j: int, current: Version, channel: string)
    requires Newest(releases, i, current, channel) && Newest(releases, j, current, channel)
    ensures i == j
  {
  }

  function Matching(assets: seq<Asset>, name: string): (r: seq<Asset>) {
    if assets == [] then [] else
      var rest := Matching(assets[1..], name);
      if assets[0].name == name then [assets[0]] + rest else rest
  }

  /** The one asset with this name. */
  function TheAsset(assets: seq<Asset>, name: string): (r: Result<Asset, UpdateError>) {
    var matches := Matching(assets, name);
    if |matches| != 1 then Err(AmbiguousAssets) else
      if ValidAsset(matches[0]) then Ok(matches[0]) else Err(InvalidAsset)
  }

  lemma {:induction false} MatchingOne(assets: seq<Asset>, name: string)
    ensures |Matching(assets, name)| == 0 <==> forall i :: 0 <= i < |assets| ==> assets[i].name != name
    ensures forall i :: 0 <= i < |assets| && assets[i].name == name ==> assets[i] in Matching(assets, name)
    ensures forall i, j :: 0 <= i < j < |assets| && assets[i].name == name && assets[j].name == name ==>
                             |Matching(assets, name)| >= 2
    ensures forall a <- Matching(assets, name) :: a in assets && a.name == name
  {
    if assets != [] {
      MatchingOne(assets[1..], name);
      assert forall i :: 1 <= i < |assets| ==> assets[i] == assets[1..][i - 1];
    }
  }

  /** An accepted asset is the only one with its name, and is valid. */
  lemma TheAssetIsOnly(assets: seq<Asset>, name: string, a: Asset)
    requires TheAsset(assets, name) == Ok(a)
    ensures ValidAsset(a) && a.name == name
    ensures exists i :: 0 <= i < |assets| && assets[i] == a
                        && forall j :: 0 <= j < |assets| && j != i ==> assets[j].name != name
  {
    MatchingOne(assets, name);
    var i :| 0 <= i < |assets| && assets[i] == a;
    forall j | 0 <= j < |assets| && j != i ensures assets[j].name != name {
    }
  }

  function PackageName(version: string): string { "linux-cmnd_" + version + "_amd64.deb" }

  lemma NothingNewest(releases: seq<Release>, current: Version, channel: string)
    requires forall j :: 0 <= j < |releases| ==> !Eligible(releases[j], current, channel)
    ensures Selected(releases, current, channel, Ok(None))
  {
  }

  /** The description of the chosen release. */
  function Describe(r: Release): Result<Candidate, UpdateError>
    requires |r.tag| > 0
  {
    if r.id < 1 then Err(InvalidReleaseId) else
      var package := TheAsset(r.assets, PackageName(r.tag[1..]));
      var manifest := TheAsset(r.assets, "linux-cmnd-update.json");
      if package.Err? then Err(package.error)
      else if manifest.Err? then Err(manifest.error)
      else Ok(Candidate(r.tag[1..], r.id, package.value, manifest.value, r.prerelease))
  }

  /** The newest of the eligible releases, if there is one. */
  method ChooseNewest(releases: seq<Release>, current: Version, channel: string) returns (best: Option<nat>)
    ensures best.None? ==> forall j :: 0 <= j < |releases| ==> !Eligible(releases[j], current, channel)
    ensures best.Some? ==> Newest(releases, best.value, current, channel)
  {
    best := None;
    for k := 0 to |releases|
      invariant best.None? ==> forall j :: 0 <= j < k ==> !Eligible(releases[j], current, channel)
      invariant best.Some? ==> Newest(releases[..k], best.value, current, channel)
    {
      if Eligible(releases[k], current, channel) {
        var v := VersionTuple(releases[k].tag[1..]).value;
        if best.None? || Less(VersionTuple(releases[best.value].tag[1..]).value, v) { best := Some(k); }
      }
    }
    assert releases[..|releases|] == releases;
  }

  /** What a selection returns: the description of the newest eligible release, or none without one. */
  ghost predicate Selected(releases: seq<Release>, current: Version, channel: string, r: Result<Option<Candidate>, UpdateError>) {
    if exists i :: Newest(releases, i, current, channel) then
      var i :| Newest(releases, i, current, channel);
      match Describe(releases[i])
      case Ok(candidate) => r == Ok(Some(candidate))
      case Err(error) => r == Err(error)
    else
      r == Ok(None) && forall j :: 0 <= j < |releases| ==> !Eligible(releases[j], current, channel)
  }

  // ---- What a selection is, in the terms of the release list ----

  predicate Older(a: Version, b: Version) {
    a.major < b.major || (a.major == b.major && a.minor < b.minor) || (a.major == b.major && a.minor == b.minor && a.patch < b.patch)
  }

  /** The release offers this version to the channel. */
  predicate Offers(r: Release, current: Version, channel: string, v: Version) {
    !r.draft && (!r.prerelease || channel == "preview") && r.tag == "v" + Text(v) && Older(current, v)
  }

  /** The release with the highest version on offer, the first of those with this version. */
  ghost predicate Highest(releases: seq<Release>, current: Version, channel: string, i: nat, v: Version) {
    && i < |releases| && Offers(releases[i], current, channel, v)
    && forall j: nat, u: Version :: j < |releases| && Offers(releases[j], current, channel, u) ==> Behind(i, v, j, u)
  }

  /** The version `u` at place `j` does not come before `v` at place `i`. */
  predicate Behind(i: nat, v: Version, j: nat, u: Version) { if j < i then Older(u, v) else !Older(v, u) }

  /** The only asset with this name. */
  predicate Only(assets: seq<Asset>, name: string, a: Asset) {
    a.name == name && exists i :: 0 <= i < |assets| && assets[i] == a && forall j :: 0 <= j < |assets| && j != i ==> assets[j].name != name
  }

  predicate Fit(a: Asset) {
    && a.id > 0 && 0 < a.size <= 67_108_864 && |a.digest| == 7 + 64 && "sha256:" <= a.digest
    && forall c <- a.digest[7..] :: ('a' <= c && c <= 'f') || ('0' <= c && c <= '9')
  }

  /** The asset with this name is not the only one, or is not fit. */
  ghost predicate Flawed(assets: seq<Asset>, name: string, e: UpdateError) {
    match e
    case AmbiguousAssets => forall a :: !Only(assets, name, a)
    case InvalidAsset => exists a :: Only(assets, name, a) && !Fit(a)
    case _ => false
  }

  ghost predicate Sound(assets: seq<Asset>, name: string, a: Asset) { Only(assets, name, a) && Fit(a) }

  /** What describing the release comes to. */
  ghost predicate Describes(r: Release, v: Version, d: Result<Option<Candidate>, UpdateError>) {
    var package, manifest := "linux-cmnd_" + Text(v) + "_amd64.deb", "linux-cmnd-update.json";
    if r.id <= 0 then d == Err(InvalidReleaseId)
    else match d
      case Err(e) => Flawed(r.assets, package, e) || ((exists a :: Sound(r.assets, package, a)) && Flawed(r.assets, manifest, e))
      case Ok(c) =>
        && c.Some? && c.value.version == Text(v) && c.value.releaseId == r.id && c.value.prerelease == r.prerelease
        && Sound(r.assets, package, c.value.package) && Sound(r.assets, manifest, c.value.manifest)
  }

  /** The result of a selection. */
  ghost predicate Selects(releases: seq<Release>, current: Version, channel: string, d: Result<Option<Candidate>, UpdateError>) {
    if (exists i: nat, v: Version :: Highest(releases, current, channel, i, v)) then
      exists i: nat, v: Version :: Highest(releases, current, channel, i, v) && Describes(releases[i], v, d)
    else d == Ok(None) && forall j: nat, u: Version :: j < |releases| ==> !Offers(releases[j], current, channel, u)
  }

  /** The tag of the release is that of this version. */
  predicate Tagged(r: Release, v: Version) { |r.tag| > 0 && VersionTuple(r.tag[1..]) == Ok(v) }

  lemma OffersIs(r: Release, current: Version, channel: string, v: Version)
    ensures Offers(r, current, channel, v) <==> Eligible(r, current, channel) && Tagged(r, v)
  {
    hide VersionTuple, Text;
    if |r.tag| > 0 {
      VersionTextExact(r.tag[1..], v);
      assert r.tag == [r.tag[0]] + r.tag[1..];
    }
    assert ("v" + Text(v))[1..] == Text(v);
  }

  lemma HighestIs(releases: seq<Release>, current: Version, channel: string, i: nat, v: Version)
    ensures Highest(releases, current, channel, i, v) <==> i < |releases| && Newest(releases, i, current, channel) && Tagged(releases[i], v)
  {
    if Highest(releases, current, channel, i, v) { HighestNewest(releases, current, channel, i, v); }
    if i < |releases| && Newest(releases, i, current, channel) && Tagged(releases[i], v) { NewestHighest(releases, current, channel, i, v); }
  }

  lemma HighestNewest(releases: seq<Release>, current: Version, channel: string, i: nat, v: Version)
    requires Highest(releases, current, channel, i, v)
    ensures Newest(releases, i, current, channel) && Tagged(releases[i], v)
  {
    hide VersionTuple, Text, Eligible, Offers;
    OffersIs(releases[i], current, channel, v);
    forall j | 0 <= j < |releases| && Eligible(releases[j], current, channel)
      ensures |releases[j].tag| > 0 && VersionTuple(releases[j].tag[1..]).Ok?
      ensures var u := VersionTuple(releases[j].tag[1..]).value; !Less(v, u) && (j < i ==> Less(u, v))
    {
      EligibleReads(releases[j], current, channel);
      var u := VersionTuple(releases[j].tag[1..]).value;
      OffersIs(releases[j], current, channel, u);
      NotAbove(releases, current, channel, i, v, j, u);
    }
  }

  lemma NotAbove(releases: seq<Release>, current: Version, channel: string, i: nat, v: Version, j: nat, u: Version)
    requires Highest(releases, current, channel, i, v) && j < |releases| && Offers(releases[j], current, channel, u)
    ensures !Less(v, u) && (j < i ==> Less(u, v))
  {
    assert Behind(i, v, j, u);
  }

  lemma NewestHighest(releases: seq<Release>, current: Version, channel: string, i: nat, v: Version)
    requires i < |releases| && Newest(releases, i, current, channel) && Tagged(releases[i], v)
    ensures Highest(releases, current, channel, i, v)
  {
    hide VersionTuple, Text, Eligible, Offers;
    OffersIs(releases[i], current, channel, v);
    forall j: nat, u: Version | j < |releases| && Offers(releases[j], current, channel, u)
      ensures Behind(i, v, j, u)
    {
      OffersIs(releases[j], current, channel, u);
    }
  }

  lemma EligibleReads(r: Release, current: Version, channel: string)
    requires Eligible(r, current, channel)
    ensures |r.tag| > 0 && VersionTuple(r.tag[1..]).Ok?
  {
  }

  lemma OnlyCons(x: Asset, rest: seq<Asset>, name: string, a: Asset)
    ensures Only([x] + rest, name, a)
            <==> if x.name == name then a == x && forall y <- rest :: y.name != name else Only(rest, name, a)
  {
    if Only([x] + rest, name, a) { OnlyTail(x, rest, name, a); }
    if if x.name == name then a == x && forall y <- rest :: y.name != name else Only(rest, name, a) { OnlyWhole(x, rest, name, a); }
  }

  lemma OnlyTail(x: Asset, rest: seq<Asset>, name: string, a: Asset)
    requires Only([x] + rest, name, a)
    ensures if x.name == name then a == x && forall y <- rest :: y.name != name else Only(rest, name, a)
  {
    var assets := [x] + rest;
    forall i | 0 <= i < |rest| ensures assets[i + 1] == rest[i] {}
    var i :| 0 <= i < |assets| && assets[i] == a && forall j :: 0 <= j < |assets| && j != i ==> assets[j].name != name;
    assert assets[0] == x;
    if i > 0 { assert rest[i - 1] == a; }
  }

  lemma OnlyWhole(x: Asset, rest: seq<Asset>, name: string, a: Asset)
    requires if x.name == name then a == x && forall y <- rest :: y.name != name else Only(rest, name, a)
    ensures Only([x] + rest, name, a)
  {
    var assets := [x] + rest;
    assert assets[0] == x;
    forall i | 0 <= i < |rest| ensures assets[i + 1] == rest[i] {}
    var i := 0;
    if x.name != name {
      var k :| 0 <= k < |rest| && rest[k] == a && forall j :: 0 <= j < |rest| && j != k ==> rest[j].name != name;
      i := k + 1;
    }
    assert assets[i] == a;
    forall j | 0 <= j < |assets| && j != i ensures assets[j].name != name {
      if j > 0 { assert assets[j] == rest[j - 1] && rest[j - 1] in rest; }
    }
  }

  lemma {:induction false} MatchingSingle(assets: seq<Asset>, name: string, a: Asset)
    ensures Matching(assets, name) == [a] <==> Only(assets, name, a)
  {
    hide Only;
    if assets == [] {
      OnlyNothing(name, a);
    } else {
      MatchingSingle(assets[1..], name, a);
      MatchingOne(assets[1..], name);
      OnlyCons(assets[0], assets[1..], name, a);
      assert assets == [assets[0]] + assets[1..];
      if assets[0].name == name {
        NoneMatching(assets[1..], name);
        assert Matching(assets, name) == [assets[0]] + Matching(assets[1..], name);
        if |Matching(assets[1..], name)| == 0 { assert Matching(assets, name) == [assets[0]]; }
      }
    }
  }

  lemma NoneMatching(assets: seq<Asset>, name: string)
    ensures |Matching(assets, name)| == 0 <==> forall y <- assets :: y.name != name
  {
    MatchingOne(assets, name);
    if forall y <- assets :: y.name != name {
      forall i | 0 <= i < |assets| ensures assets[i].name != name { assert assets[i] in assets; }
    }
  }

  lemma OnlyNothing(name: string, a: Asset)
    ensures !Only([], name, a)
  {
  }

  lemma FitIs(a: Asset)
    ensures ValidAsset(a) <==> Fit(a)
  {
    if |a.digest| == 71 {
      assert "sha256:" <= a.digest <==> a.digest[..7] == "sha256:";
      forall i | 7 <= i < 71 ensures a.digest[i] in a.digest[7..] { assert a.digest[7..][i - 7] == a.digest[i]; }
    }
  }

  lemma AssetIs(assets: seq<Asset>, name: string)
    ensures var r := TheAsset(assets, name); if r.Ok? then Sound(assets, name, r.value) else Flawed(assets, name, r.error)
  {
    hide Matching, Only, ValidAsset, Fit;
    var matches := Matching(assets, name);
    forall a ensures matches == [a] <==> Only(assets, name, a) { MatchingSingle(assets, name, a); }
    if |matches| == 1 {
      assert matches == [matches[0]];
      FitIs(matches[0]);
    }
  }

  lemma DescribeIs(r: Release, v: Version, d: Result<Option<Candidate>, UpdateError>)
    requires |r.tag| > 0 && VersionTuple(r.tag[1..]) == Ok(v)
    requires match Describe(r) case Ok(c) => d == Ok(Some(c)) case Err(e) => d == Err(e)
    ensures Describes(r, v, d)
  {
    hide Sound, Flawed, TheAsset, VersionTuple, Text;
    VersionTextExact(r.tag[1..], v);
    AssetIs(r.assets, PackageName(r.tag[1..]));
    AssetIs(r.assets, "linux-cmnd-update.json");
  }

  /** The selection is the one of the release list. */
  lemma SelectedSelects(releases: seq<Release>, current: Version, channel: string, d: Result<Option<Candidate>, UpdateError>)
    requires Selected(releases, current, channel, d)
    ensures Selects(releases, current, channel, d)
  {
    hide Describes, Describe, Highest, Newest, Eligible, Offers, VersionTuple;
    forall i: nat, v: Version
      ensures Highest(releases, current, channel, i, v) <==> i < |releases| && Newest(releases, i, current, channel) && Tagged(releases[i], v)
    {
      HighestIs(releases, current, channel, i, v);
    }
    if i :| Newest(releases, i, current, channel) {
      NewestReads(releases, i, current, channel);
      forall j | Newest(releases, j, current, channel) ensures i == j { NewestUnique(releases, i, j, current, channel); }
      var v := VersionTuple(releases[i].tag[1..]).value;
      assert Highest(releases, current, channel, i, v);
      DescribeIs(releases[i], v, d);
    } else {
      forall j: nat, u: Version | j < |releases| ensures !Offers(releases[j], current, channel, u) { OffersIs(releases[j], current, channel, u); }
    }
  }

  lemma NewestReads(releases: seq<Release>, i: int, current: Version, channel: string)
    requires Newest(releases, i, current, channel)
    ensures 0 <= i < |releases| && |releases[i].tag| > 0 && VersionTuple(releases[i].tag[1..]).Ok?
  {
  }

  /** Choose among the releases; without an eligible one there is no candidate. */
  method SelectRelease(releases: seq<Release>, current: string, channel: string)
    returns (r: Result<Option<Candidate>, UpdateError>)
    ensures VersionTuple(current).Err? ==> r == Err(UnsupportedVersion)
    ensures VersionTuple(current).Ok? && channel != "stable" && channel != "preview" ==> r == Err(InvalidChannel)
    ensures VersionTuple(current).Ok? && (channel == "stable" || channel == "preview") ==>
              Selected(releases, VersionTuple(current).value, channel, r) && Selects(releases, VersionTuple(current).value, channel, r)
  {
    var parsed := VersionTuple(current);
    if parsed.Err? { return Err(UnsupportedVersion); }
    if channel != "stable" && channel != "preview" { return Err(InvalidChannel); }
    var best := ChooseNewest(releases, parsed.value, channel);
    if best.None? {
      NothingNewest(releases, parsed.value, channel);
      SelectedSelects(releases, parsed.value, channel, Ok(None));
      return Ok(None);
    }
    forall i | Newest(releases, i, parsed.value, channel) ensures i == best.value {
      NewestUnique(releases, i, best.value, parsed.value, channel);
    }
    var candidate := Describe(releases[best.value]);
    r := if candidate.Ok? then Ok(Some(candidate.value)) else Err(candidate.error);
    SelectedSelects(releases, parsed.value, channel, r);
  }

  /** A selected candidate is strictly newer, canonical and of the highest eligible version. */
  lemma SelectedIsNewer(releases: seq<Release>, current: Version, channel: string, r: Result<Option<Candidate>, UpdateError>)
    requires Selected(releases, current, channel, r) && r.Ok? && r.value.Some?
    ensures var version := VersionTuple(r.value.value.version);
            && version.Ok? && Less(current, version.value)
            && r.value.value.releaseId >= 1 && (r.value.value.prerelease ==> channel == "preview")
            && forall j :: 0 <= j < |releases| && Eligible(releases[j], current, channel) ==>
                             !Less(version.value, VersionTuple(releases[j].tag[1..]).value)
  {
  }

  // ---- Manifest and job ----

  datatype Manifest = Manifest(schema: int, version: string, scope: string, vendor: string,
                               databaseMigration: bool, vendorPayloadChanged: bool, minimumVersion: string)

  function ValidateManifest(m: Manifest, current: string, selected: string, vendor: string): Result<(), UpdateError> {
    if m.schema != 1 || m.version != selected || m.scope != "tooling-only" || m.vendor != vendor
       || m.databaseMigration || m.vendorPayloadChanged then Err(ManualMigration) else
      var now, least, next := VersionTuple(current), VersionTuple(m.minimumVersion), VersionTuple(selected);
      if now.Err? || least.Err? then Err(UnsupportedVersion)
      else if Less(now.value, least.value) then Err(ManualMigration)
      else if next.Err? then Err(UnsupportedVersion)
      else if now.value.major != next.value.major then Err(ManualMigration)
      else Ok(())
  }

  /** A manifest is accepted exactly when it is one for this step between versions that needs no migration. */
  lemma ManifestExactly(m: Manifest, current: string, selected: string, vendor: string)
    ensures ValidateManifest(m, current, selected, vendor).Ok? <==>
              && m.schema == 1 && m.scope == "tooling-only" && m.vendor == vendor && m.version == selected
              && !m.databaseMigration && !m.vendorPayloadChanged
              && exists now: Version, least: Version, next: Version ::
                   && current == Text(now) && m.minimumVersion == Text(least) && selected == Text(next)
                   && !Older(now, least) && now.major == next.major
  {
    hide VersionTuple, Text;
    forall v: Version ensures current == Text(v) <==> VersionTuple(current) == Ok(v) { VersionTextExact(current, v); }
    forall v: Version ensures m.minimumVersion == Text(v) <==> VersionTuple(m.minimumVersion) == Ok(v) { VersionTextExact(m.minimumVersion, v); }
    forall v: Version ensures selected == Text(v) <==> VersionTuple(selected) == Ok(v) { VersionTextExact(selected, v); }
  }

  datatype Job = Job(version: string, releaseId: int, execute: bool)

  function ValidateJob(job: Job): Result<(), UpdateError> {
    if !job.execute || job.releaseId < 1 then Err(Unconfirmed)
    else if VersionTuple(job.version).Err? then Err(UnsupportedVersion)
    else Ok(())
  }
}
