/** The install protocol of the self-update: fetch and verify everything, then replace back to front. */
module SelfUpdate {
  import opened Wrappers
  import opened Text
  import opened Binary
  import Glibc
  import ChecksumManifest

  const ATTEMPTS: nat := 3
  const MANIFEST_ASSET := "codewhale-artifacts-sha256.txt"

  /** One HTTP attempt: a transport error, or a status with its body. */
  datatype Attempt = TransportError | Response(status: nat, body: Bytes) {
    predicate Succeeds() { Response? && 200 <= status < 300 }

    predicate Retryable() { TransportError? || 500 <= status < 600 || status == 408 || status == 429 }
  }

  datatype Asset = Asset(name: string)

  datatype Target = Target(path: string, assetStem: string)

  datatype Download = Download(path: string, asset: string, bytes: Bytes)

  /**
   * Everything outside: the answer to each attempt for an asset, SHA-256, UTF-8, the host, and
   * whether the n-th replacement works.
   */
  datatype World = World(
    net: (string, nat) -> Attempt,
    sha256: Bytes -> Bytes,
    utf8: Bytes -> Option<string>,
    linux: bool,
    checkDisabled: bool,
    hostGlibc: Option<Glibc.Version>,
    replaceWorks: nat -> bool)

  /** What a download comes to from attempt `n` on. */
  function Fetched(world: World, asset: string, n: nat): Option<Bytes>
    requires 1 <= n <= ATTEMPTS
    decreases ATTEMPTS - n
  {
    var a := world.net(asset, n);
    if a.Succeeds() then Some(a.body)
    else if a.Retryable() && n < ATTEMPTS then Fetched(world, asset, n + 1)
    else None
  }

  method DownloadUrl(world: World, asset: string) returns (bytes: Option<Bytes>)
    ensures bytes == Fetched(world, asset, 1)
  {
    for attempt := 1 to ATTEMPTS + 1
      invariant attempt <= ATTEMPTS ==> Fetched(world, asset, 1) == Fetched(world, asset, attempt)
      invariant attempt == ATTEMPTS + 1 ==> Fetched(world, asset, 1) == None
    {
      var a := world.net(asset, attempt);
      if a.Succeeds() { return Some(a.body); }
      if a.Retryable() && attempt < ATTEMPTS { continue; }
      return None;
    }
    bytes := None;
  }

  /** Attempt `n` answers with a 2xx status, and each before it with nothing, a 5xx status, 408 or 429. */
  predicate FirstSuccess(world: World, asset: string, n: nat) {
    && 1 <= n <= 3 && world.net(asset, n).Response? && 200 <= world.net(asset, n).status < 300
    && forall m :: 1 <= m < n ==>
         var a := world.net(asset, m);
         a.TransportError? || 500 <= a.status < 600 || a.status == 408 || a.status == 429
  }

  ghost predicate Downloaded(world: World, asset: string, bytes: Bytes) {
    exists n :: FirstSuccess(world, asset, n) && world.net(asset, n).body == bytes
  }

  /** A download gives the body of the first attempt that succeeds, when all before it may be retried. */
  lemma FetchedExact(world: World, asset: string, bytes: Bytes)
    ensures Fetched(world, asset, 1) == Some(bytes) <==> Downloaded(world, asset, bytes)
    ensures Fetched(world, asset, 1).None? <==> forall n :: !FirstSuccess(world, asset, n)
  {
    var a, b, c := world.net(asset, 1), world.net(asset, 2), world.net(asset, 3);
    assert Fetched(world, asset, 3) == if c.Succeeds() then Some(c.body) else None;
    assert Fetched(world, asset, 2)
        == if b.Succeeds() then Some(b.body) else if b.Retryable() then Fetched(world, asset, 3) else None;
    if Fetched(world, asset, 1).Some? {
      var n := if a.Succeeds() then 1 else if b.Succeeds() then 2 else 3;
      assert FirstSuccess(world, asset, n);
    }
  }

  predicate IsExactBinary(name: string, stem: string) { name == stem || name == stem + ".exe" }

  predicate MatchesPlatform(name: string, stem: string) {
    !(|name| >= 7 && name[|name| - 7..] == ".sha256") && (IsExactBinary(name, stem) || stem + "." <= name)
  }

  predicate FirstAt(assets: seq<Asset>, fits: Asset -> bool, i: nat) {
    i < |assets| && fits(assets[i]) && forall j :: 0 <= j < i ==> !fits(assets[j])
  }

  function FirstAsset(assets: seq<Asset>, fits: Asset -> bool): (r: Option<Asset>)
    ensures r.Some? ==> r.value in assets && fits(r.value)
    ensures r.None? ==> forall a :: a in assets ==> !fits(a)
  {
    if assets == [] then None else if fits(assets[0]) then Some(assets[0]) else FirstAsset(assets[1..], fits)
  }

  /** What is found stands before everything else that fits. */
  lemma {:induction false} FirstAssetExact(assets: seq<Asset>, fits: Asset -> bool, a: Asset)
    ensures FirstAsset(assets, fits) == Some(a) <==> exists i: nat :: FirstAt(assets, fits, i) && assets[i] == a
  {
    if assets != [] && fits(assets[0]) {
      assert FirstAt(assets, fits, 0);
    } else if assets != [] {
      var rest := assets[1..];
      FirstAssetExact(rest, fits, a);
      forall i: nat | FirstAt(rest, fits, i) ensures FirstAt(assets, fits, i + 1) && assets[i + 1] == rest[i] {
        assert forall j :: 0 < j <= i ==> assets[j] == rest[j - 1];
      }
      forall i: nat | FirstAt(assets, fits, i) ensures i > 0 && FirstAt(rest, fits, i - 1) && assets[i] == rest[i - 1] {
      }
    }
  }

  function SelectAsset(assets: seq<Asset>, stem: string): Option<Asset> {
    var exact := FirstAsset(assets, (a: Asset) => IsExactBinary(a.name, stem));
    if exact.Some? then exact else FirstAsset(assets, (a: Asset) => MatchesPlatform(a.name, stem))
  }

  /** The asset at `i` is the first that is the binary or, when none is, the first `stem.` file but no checksum. */
  ghost predicate Chosen(assets: seq<Asset>, stem: string, i: nat) {
    i < |assets| &&
    if HasBinary(assets, stem)
    then assets[i].name in [stem, stem + ".exe"] && forall j :: 0 <= j < i ==> assets[j].name !in [stem, stem + ".exe"]
    else Archive(assets[i].name, stem) && forall j :: 0 <= j < i ==> !Archive(assets[j].name, stem)
  }

  /** `stem.` starts the name, and the name does not end in `.sha256`. */
  ghost predicate Archive(name: string, stem: string) {
    stem + "." <= name && forall base: string :: name != base + ".sha256"
  }

  lemma ArchiveExact(name: string, stem: string)
    requires name != stem && name != stem + ".exe"
    ensures MatchesPlatform(name, stem) <==> Archive(name, stem)
  {
    if |name| >= 7 && name[|name| - 7..] == ".sha256" { assert name == name[..|name| - 7] + ".sha256"; }
    forall base: string | name == base + ".sha256" ensures name[|name| - 7..] == ".sha256" {}
  }

  predicate HasBinary(assets: seq<Asset>, stem: string) {
    exists a :: a in assets && (a.name == stem || a.name == stem + ".exe")
  }

  lemma ChosenBinary(assets: seq<Asset>, stem: string, fits: Asset -> bool, i: nat)
    requires HasBinary(assets, stem) && forall a :: fits(a) <==> a.name in [stem, stem + ".exe"]
    ensures Chosen(assets, stem, i) <==> FirstAt(assets, fits, i)
  {}

  lemma ChosenArchive(assets: seq<Asset>, stem: string, fits: Asset -> bool, i: nat)
    requires !HasBinary(assets, stem) && forall a :: a in assets ==> (fits(a) <==> Archive(a.name, stem))
    ensures Chosen(assets, stem, i) <==> FirstAt(assets, fits, i)
  {}

  lemma SelectExact(assets: seq<Asset>, stem: string, a: Asset)
    ensures SelectAsset(assets, stem) == Some(a) <==> exists i: nat :: Chosen(assets, stem, i) && assets[i] == a
  {
    var exact, platform := (a: Asset) => IsExactBinary(a.name, stem), (a: Asset) => MatchesPlatform(a.name, stem);
    var found := FirstAsset(assets, exact);
    assert HasBinary(assets, stem) <==> found.Some?;
    FirstAssetExact(assets, exact, a);
    FirstAssetExact(assets, platform, a);
    if HasBinary(assets, stem) {
      forall i: nat ensures Chosen(assets, stem, i) <==> FirstAt(assets, exact, i) {
        ChosenBinary(assets, stem, exact, i);
      }
    } else {
      forall b | b in assets ensures Archive(b.name, stem) <==> platform(b) { ArchiveExact(b.name, stem); }
      forall i: nat ensures Chosen(assets, stem, i) <==> FirstAt(assets, platform, i) {
        ChosenArchive(assets, stem, platform, i);
      }
    }
  }

  /** The checksum table: absent from the release, or fetched and parsed; None when that fails. */
  function ManifestOf(world: World, assets: seq<Asset>): Option<Option<map<string, string>>> {
    if FirstAsset(assets, (a: Asset) => a.name == MANIFEST_ASSET).None? then Some(None)
    else match ReadTable(world.utf8, ChecksumManifest.Parse, Fetched(world, MANIFEST_ASSET, 1))
      case None => None
      case Some(checksums) => Some(Some(checksums))
  }

  function ReadTable(utf8: Bytes -> Option<string>, parse: string -> ChecksumManifest.Outcome,
                     fetched: Option<Bytes>): Option<map<string, string>>
  {
    match fetched
    case None => None
    case Some(bytes) =>
      match utf8(bytes)
      case None => None
      case Some(text) => match parse(text) case Table(checksums) => Some(checksums) case _ => None
  }

  predicate Listed(assets: seq<Asset>, name: string) { exists a :: a in assets && a.name == name }

  /** The release's manifest can be fetched, is UTF-8, and parses to this table. */
  ghost predicate Published(world: World, checksums: map<string, string>) {
    exists bytes, text: string :: Downloaded(world, MANIFEST_ASSET, bytes) && world.utf8(bytes) == Some(text)
                          && ChecksumManifest.Parse(text) == ChecksumManifest.Table(checksums)
  }

  lemma ReadTableExact(utf8: Bytes -> Option<string>, parse: string -> ChecksumManifest.Outcome,
                       fetched: Option<Bytes>, checksums: map<string, string>)
    ensures ReadTable(utf8, parse, fetched) == Some(checksums) <==>
            exists bytes, text :: fetched == Some(bytes) && utf8(bytes) == Some(text)
                                  && parse(text) == ChecksumManifest.Table(checksums)
  {
  }

  lemma PublishedExact(world: World, checksums: map<string, string>)
    ensures ReadTable(world.utf8, ChecksumManifest.Parse, Fetched(world, MANIFEST_ASSET, 1)) == Some(checksums)
            <==> Published(world, checksums)
  {
    var (fetched, parse) := (Fetched(world, MANIFEST_ASSET, 1), ChecksumManifest.Parse);
    forall bytes ensures fetched == Some(bytes) <==> Downloaded(world, MANIFEST_ASSET, bytes) {
      FetchedExact(world, MANIFEST_ASSET, bytes);
    }
    ReadTableExact(world.utf8, parse, fetched, checksums);
  }

  /** There is no table exactly when the release lists no manifest; a listed one that cannot be had ends the run. */
  lemma ManifestExact(world: World, assets: seq<Asset>, checksums: map<string, string>)
    ensures ManifestOf(world, assets) == Some(None) <==> !Listed(assets, "codewhale-artifacts-sha256.txt")
    ensures ManifestOf(world, assets) == Some(Some(checksums)) <==>
            Listed(assets, "codewhale-artifacts-sha256.txt") && Published(world, checksums)
  {
    var found := FirstAsset(assets, (a: Asset) => a.name == MANIFEST_ASSET);
    if found.Some? { assert Listed(assets, found.value.name); }
    PublishedExact(world, checksums);
  }

  predicate ChecksumHolds(world: World, table: Option<map<string, string>>, asset: string, bytes: Bytes) {
    table.Some? ==>
      asset in table.value && EqIgnoreCase(ChecksumManifest.HexText(world.sha256(bytes)), table.value[asset])
  }

  predicate Runnable(world: World, bytes: Bytes) {
    Glibc.Runnable(world.linux, world.checkDisabled, world.hostGlibc, bytes)
  }

  /** The verified download of one target; None when any step fails. */
  function Verified(world: World, assets: seq<Asset>, table: Option<map<string, string>>,
                    t: Target): (d: Option<Download>)
    ensures d.Some? ==>
      && d.value.path == t.path && Asset(d.value.asset) in assets
      && Fetched(world, d.value.asset, 1) == Some(d.value.bytes)
      && ChecksumHolds(world, table, d.value.asset, d.value.bytes) && Runnable(world, d.value.bytes)
  {
    match SelectAsset(assets, t.assetStem)
    case None => None
    case Some(asset) =>
      match Fetched(world, asset.name, 1)
      case None => None
      case Some(bytes) =>
        if ChecksumHolds(world, table, asset.name, bytes) && Runnable(world, bytes)
        then Some(Download(t.path, asset.name, bytes)) else None
  }

  /** A download that may be installed: its asset, its bytes, its digest in the manifest, and its glibc needs. */
  ghost predicate Trusted(world: World, assets: seq<Asset>, t: Target, d: Download) {
    && d.path == t.path
    && (exists i: nat :: Chosen(assets, t.assetStem, i) && assets[i].name == d.asset)
    && Downloaded(world, d.asset, d.bytes)
    && (Listed(assets, "codewhale-artifacts-sha256.txt") ==>
          exists c :: Published(world, c) && d.asset in c
                      && EqIgnoreCase(ChecksumManifest.HexText(world.sha256(d.bytes)), c[d.asset]))
    && Runnable(world, d.bytes)
  }

  /** Verifying a target gives the one download that may be installed for it, and nothing when there is none. */
  lemma VerifiedExact(world: World, assets: seq<Asset>, t: Target, d: Download)
    requires ManifestOf(world, assets).Some?
    ensures Verified(world, assets, ManifestOf(world, assets).value, t) == Some(d) <==> Trusted(world, assets, t, d)
  {
    var table := ManifestOf(world, assets).value;
    SelectExact(assets, t.assetStem, Asset(d.asset));
    FetchedExact(world, d.asset, d.bytes);
    if table.Some? {
      ManifestExact(world, assets, table.value);
      forall c | Published(world, c) ensures c == table.value { ManifestExact(world, assets, c); }
    } else {
      ManifestExact(world, assets, map[]);
    }
  }

  /**
   * One trusted download for every target, in order. The manifest, when the release lists one, must be had even
   * for no targets.
   */
  ghost predicate Prepared(world: World, assets: seq<Asset>, targets: seq<Target>, ds: seq<Download>) {
    && (Listed(assets, "codewhale-artifacts-sha256.txt") ==> exists c :: Published(world, c))
    && |ds| == |targets| && forall i :: 0 <= i < |ds| ==> Trusted(world, assets, targets[i], ds[i])
  }

  /** What the steps before the first replacement compute. */
  predicate Planned(world: World, assets: seq<Asset>, targets: seq<Target>, ds: seq<Download>) {
    match ManifestOf(world, assets)
    case None => false
    case Some(table) => AllVerified(world, assets, table, targets) && ds == Downloads(world, assets, table, targets)
  }

  lemma ManifestNeeded(world: World, assets: seq<Asset>)
    ensures ManifestOf(world, assets).Some? <==>
            (Listed(assets, "codewhale-artifacts-sha256.txt") ==> exists c :: Published(world, c))
  {
    ManifestExact(world, assets, map[]);
    forall c ensures ManifestOf(world, assets) == Some(Some(c)) <==>
                     Listed(assets, "codewhale-artifacts-sha256.txt") && Published(world, c) {
      ManifestExact(world, assets, c);
    }
    var m := ManifestOf(world, assets);
    if m.Some? && m.value.Some? { assert m == Some(Some(m.value.value)); }
  }

  /** A run gets as far as its first replacement exactly with one trusted download for every target. */
  lemma PreparedExact(world: World, assets: seq<Asset>, targets: seq<Target>, ds: seq<Download>)
    ensures Planned(world, assets, targets, ds) <==> Prepared(world, assets, targets, ds)
  {
    ManifestNeeded(world, assets);
    if ManifestOf(world, assets).Some? && |ds| == |targets| {
      var table := ManifestOf(world, assets).value;
      forall i | 0 <= i < |ds|
        ensures Verified(world, assets, table, targets[i]) == Some(ds[i]) <==> Trusted(world, assets, targets[i], ds[i])
      {
        VerifiedExact(world, assets, targets[i], ds[i]);
      }
    }
  }

  predicate AllVerified(world: World, assets: seq<Asset>, table: Option<map<string, string>>, targets: seq<Target>) {
    forall i :: 0 <= i < |targets| ==> Verified(world, assets, table, targets[i]).Some?
  }

  /** The files after the downloads from `k` on were written, last one first. */
  function Installed(disk: map<string, Bytes>, downloads: seq<Download>, k: nat): map<string, Bytes>
    requires k <= |downloads|
    decreases |downloads| - k
  {
    if k == |downloads| then disk
    else Installed(disk, downloads, k + 1)[downloads[k].path := downloads[k].bytes]
  }

  class Installation {
    var disk: map<string, Bytes>
    /** The paths replaced so far, in the order of the writes. */
    ghost var written: seq<string>

    constructor (disk: map<string, Bytes>)
      ensures this.disk == disk && written == []
    {
      this.disk, written := disk, [];
    }

    method ReplaceBinary(world: World, n: nat, path: string, bytes: Bytes) returns (ok: bool)
      modifies this
      ensures ok == world.replaceWorks(n)
      ensures disk == if ok then old(disk)[path := bytes] else old(disk)
      ensures written == if ok then old(written) + [path] else old(written)
    {
      ok := world.replaceWorks(n);
      if ok {
        disk := disk[path := bytes];
        written := written + [path];
      }
    }

    /** The steps after the release is known. `left` is the first target not left alone. */
    method RunUpdate(world: World, assets: seq<Asset>, targets: seq<Target>) returns (ok: bool, ghost left: nat)
      modifies this
      ensures left <= |targets| && (ok ==> left == 0)
      ensures (forall ds :: !Prepared(world, assets, targets, ds)) ==>
                !ok && disk == old(disk) && written == old(written)
      ensures forall ds :: Prepared(world, assets, targets, ds) ==>
                && disk == Installed(old(disk), ds, left) && written == old(written) + Backwards(targets, left)
                && (ok <==> left == 0) && StopsAt(world, |targets| - left, |targets|)
    {
      left := |targets|;
      var downloads := Prepare(world, assets, targets);
      if downloads.None? { return false, left; }
      ok := ReplaceAll(world, downloads.value, targets);
      left := Reached(world, |targets|);
      ReachedExact(world, |targets|);
    }

    /** Replace from the last download to the first, stopping at the first failure. */
    method ReplaceAll(world: World, downloads: seq<Download>, ghost targets: seq<Target>) returns (ok: bool)
      requires |downloads| == |targets| && forall i :: 0 <= i < |targets| ==> downloads[i].path == targets[i].path
      modifies this
      ensures disk == Installed(old(disk), downloads, Reached(world, |downloads|))
      ensures written == old(written) + Backwards(targets, Reached(world, |downloads|))
      ensures ok <==> Reached(world, |downloads|) == 0
    {
      var i: nat := |downloads|;
      while i > 0
        invariant i <= |downloads| && disk == Installed(old(disk), downloads, i)
        invariant written == old(written) + Backwards(targets, i)
        invariant Reached(world, |downloads|) == ReachedFrom(world, |downloads|, i)
      {
        var done := ReplaceBinary(world, |downloads| - i, downloads[i - 1].path, downloads[i - 1].bytes);
        InstallStep(old(disk), downloads, targets, i - 1);
        if !done { return false; }
        i := i - 1;
      }
      ok := true;
    }
  }

  lemma InstallStep(disk: map<string, Bytes>, downloads: seq<Download>, targets: seq<Target>, k: nat)
    requires k < |downloads| == |targets|
    ensures Installed(disk, downloads, k) == Installed(disk, downloads, k + 1)[downloads[k].path := downloads[k].bytes]
    ensures Backwards(targets, k) == Backwards(targets, k + 1) + [targets[k].path]
  {
  }

  /** The paths of the targets from `k` on, last one first. */
  function Backwards(targets: seq<Target>, k: nat): seq<string>
    requires k <= |targets|
    decreases |targets| - k
  {
    if k == |targets| then [] else Backwards(targets, k + 1) + [targets[k].path]
  }

  /** Where the replacements stop when `i` targets are still to be done, out of `total`. */
  function ReachedFrom(world: World, total: nat, i: nat): (k: nat)
    requires i <= total
    ensures k <= i
  {
    if i == 0 || !world.replaceWorks(total - i) then i else ReachedFrom(world, total, i - 1)
  }

  function Reached(world: World, total: nat): (k: nat)
    ensures k <= total
  {
    ReachedFrom(world, total, total)
  }

  lemma {:induction false} ReachedFromExact(world: World, total: nat, i: nat)
    requires i <= total
    ensures forall n :: total - i <= n < total - ReachedFrom(world, total, i) ==> world.replaceWorks(n)
    ensures ReachedFrom(world, total, i) > 0 ==> !world.replaceWorks(total - ReachedFrom(world, total, i))
  {
    if i > 0 { ReachedFromExact(world, total, i - 1); }
  }

  /** The replacements before `n` work and, unless they were all of them, the one at `n` does not. */
  predicate StopsAt(world: World, n: nat, total: nat) {
    (forall m :: 0 <= m < n ==> world.replaceWorks(m)) && (n < total ==> !world.replaceWorks(n))
  }

  lemma ReachedExact(world: World, total: nat)
    ensures StopsAt(world, total - Reached(world, total), total)
  {
    ReachedFromExact(world, total, total);
  }

  function Downloads(world: World, assets: seq<Asset>, table: Option<map<string, string>>,
                     targets: seq<Target>): (ds: seq<Download>)
    requires AllVerified(world, assets, table, targets)
    ensures |ds| == |targets| && forall i :: 0 <= i < |ds| ==> Some(ds[i]) == Verified(world, assets, table, targets[i])
  {
    seq(|targets|, i requires 0 <= i < |targets| => Verified(world, assets, table, targets[i]).value)
  }

  method FetchManifest(world: World, assets: seq<Asset>) returns (r: Option<Option<map<string, string>>>)
    ensures r == ManifestOf(world, assets)
  {
    if FirstAsset(assets, (a: Asset) => a.name == MANIFEST_ASSET).None? { return Some(None); }
    var bytes := DownloadUrl(world, MANIFEST_ASSET);
    if bytes.None? { return None; }
    var text := world.utf8(bytes.value);
    if text.None? { return None; }
    var parsed := ChecksumManifest.ParseChecksumManifest(text.value);
    r := if parsed.Table? then Some(Some(parsed.checksums)) else None;
  }

  /** The manifest, then every download. */
  method Prepare(world: World, assets: seq<Asset>, targets: seq<Target>) returns (downloads: Option<seq<Download>>)
    ensures forall ds :: downloads == Some(ds) <==> Prepared(world, assets, targets, ds)
  {
    forall ds ensures Planned(world, assets, targets, ds) <==> Prepared(world, assets, targets, ds) {
      PreparedExact(world, assets, targets, ds);
    }
    downloads := None;
    var table := FetchManifest(world, assets);
    if table.None? { return; }
    downloads := VerifyAll(world, assets, table.value, targets);
  }

  method VerifyAll(world: World, assets: seq<Asset>, table: Option<map<string, string>>, targets: seq<Target>)
    returns (downloads: Option<seq<Download>>)
    ensures downloads.Some? <==> AllVerified(world, assets, table, targets)
    ensures downloads.Some? ==> downloads.value == Downloads(world, assets, table, targets)
  {
    var ds: seq<Download> := [];
    for i := 0 to |targets|
      invariant |ds| == i && forall j :: 0 <= j < i ==> Some(ds[j]) == Verified(world, assets, table, targets[j])
    {
      var d := VerifyOne(world, assets, table, targets[i]);
      if d.None? { return None; }
      ds := ds + [d.value];
    }
    downloads := Some(ds);
  }

  method VerifyOne(world: World, assets: seq<Asset>, table: Option<map<string, string>>, t: Target)
    returns (d: Option<Download>)
    ensures d == Verified(world, assets, table, t)
  {
    var asset := SelectAsset(assets, t.assetStem);
    if asset.None? { return None; }
    var name := asset.value.name;
    var bytes := DownloadUrl(world, name);
    if bytes.None? { return None; }
    if table.Some? {
      if name !in table.value { return None; }
      var actual := ChecksumManifest.HexBytes(world.sha256(bytes.value));
      if !EqIgnoreCase(actual, table.value[name]) { return None; }
    }
    var runs := Glibc.PreflightDownloadedBinary(world.linux, world.checkDisabled, world.hostGlibc, bytes.value);
    if !runs { return None; }
    d := Some(Download(t.path, name, bytes.value));
  }

  // ---- What a run can leave behind.

  /** With distinct paths, exactly the targets from `k` on hold their new bytes and every other file is as before. */
  lemma {:induction false} InstalledExact(disk: map<string, Bytes>, downloads: seq<Download>, k: nat, path: string)
    requires k <= |downloads| && forall i, j :: 0 <= i < j < |downloads| ==> downloads[i].path != downloads[j].path
    ensures forall i :: k <= i < |downloads| && downloads[i].path == path ==>
              path in Installed(disk, downloads, k) && Installed(disk, downloads, k)[path] == downloads[i].bytes
    ensures (forall i :: k <= i < |downloads| ==> downloads[i].path != path) ==>
              (path in Installed(disk, downloads, k) <==> path in disk)
              && (path in disk ==> Installed(disk, downloads, k)[path] == disk[path])
    decreases |downloads| - k
  {
    if k < |downloads| { InstalledExact(disk, downloads, k + 1, path); }
  }

  /** The invoking binary, first of the targets, is written last: its path ends the write order of a complete run. */
  lemma {:induction false} SiblingsFirst(targets: seq<Target>, k: nat)
    requires k <= |targets|
    ensures |Backwards(targets, k)| == |targets| - k
    ensures forall i :: k <= i < |targets| ==> Backwards(targets, k)[|targets| - 1 - i] == targets[i].path
    decreases |targets| - k
  {
    if k < |targets| { SiblingsFirst(targets, k + 1); }
  }
}
