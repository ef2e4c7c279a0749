/** Crashes, recovery and rotation of the certificate cache. */
module CertificateRecovery {
  import opened Wrappers
  import opened Certificates

  // ---- The disk during a write ----

  predicate DistinctFiles(files: seq<(FileName, Content)>) {
    && (forall i :: 0 <= i < |files| ==> files[i].0 != CacheMarker)
    && (forall i, j :: 0 <= i < j < |files| ==> files[i].0 != files[j].0)
  }

  lemma PrefixStep(disk: Disk, steps: seq<DiskStep>, k: nat)
    requires k < |steps|
    ensures ApplySteps(disk, steps[..k + 1]) == ApplyStep(ApplySteps(disk, steps[..k]), steps[k])
  {
    assert steps[..k + 1][..k] == steps[..k];
  }

  /** The first `k` files are written and everything else but the marker is as it was. */
  predicate PartWritten(disk: Disk, now: Disk, files: seq<(FileName, Content)>, k: nat)
    requires k <= |files|
  {
    && (forall i :: 0 <= i < k ==> files[i].0 in now && now[files[i].0] == files[i].1)
    && (forall name :: name != CacheMarker && (forall i :: 0 <= i < k ==> files[i].0 != name) ==>
          (name in now <==> name in disk) && (name in now ==> now[name] == disk[name]))
  }

  lemma PutNext(disk: Disk, before: Disk, files: seq<(FileName, Content)>, k: nat)
    requires DistinctFiles(files) && k < |files| && PartWritten(disk, before, files, k)
    ensures PartWritten(disk, before[files[k].0 := files[k].1], files, k + 1)
  {
  }

  /** After the marker is gone and `k` files are written: those files are new, the rest is old, no marker. */
  lemma {:induction false} DuringWrite(disk: Disk, files: seq<(FileName, Content)>, k: nat)
    requires DistinctFiles(files) && k <= |files|
    ensures var now := ApplySteps(disk, WriteSteps(files)[..k + 1]);
            CacheMarker !in now && PartWritten(disk, now, files, k)
  {
    var steps := WriteSteps(files);
    PrefixStep(disk, steps, k);
    if k == 0 {
      assert steps[..0] == [];
    } else {
      DuringWrite(disk, files, k - 1);
      assert steps[k] == Put(files[k - 1].0, files[k - 1].1);
      PutNext(disk, ApplySteps(disk, steps[..k]), files, k - 1);
    }
  }

  lemma AfterWrite(disk: Disk, files: seq<(FileName, Content)>)
    requires DistinctFiles(files)
    ensures var now := ApplySteps(disk, WriteSteps(files));
            CacheMarker in now && PartWritten(disk, now, files, |files|)
  {
    var steps := WriteSteps(files);
    DuringWrite(disk, files, |files|);
    PrefixStep(disk, steps, |files| + 1);
    assert steps[..|files| + 2] == steps;
  }

  lemma ListsDistinct(b: Bundle)
    ensures DistinctFiles(AllFiles(b)) && DistinctFiles(LeafFiles(b))
  {
  }

  // ---- Good bundles ----

  /** The three certificates of a bundle, if each of them can be read. */
  predicate Parses(b: Bundle) {
    CertOf(b.caCertPem).Some? && CertOf(b.serverCertPem).Some? && CertOf(b.clientCertPem).Some?
  }

  /** A certificate issued under the authority. */
  predicate SignedUnder(c: Certificate, ca: Certificate) {
    c.signedBy == ca.key && c.issuer == ca.subject
  }

  /** What does not depend on the time: the keys, the chain and the identity fit together. */
  predicate Consistent(b: Bundle) {
    && Parses(b)
    && var ca, server, client :=
         CertOf(b.caCertPem).value, CertOf(b.serverCertPem).value, CertOf(b.clientCertPem).value;
    && b.caCertDer == CertDer(ca) && b.caKeyPem == KeyPem(ca.key)
    && b.serverKeyPem == KeyPem(server.key) && b.clientKeyPem == KeyPem(client.key)
    && b.clientKeyDer == KeyDer(client.key)
    && SignedUnder(server, ca) && SignedUnder(client, ca)
    && b.serverIdentityPem == Joined(b.serverCertPem, b.serverKeyPem)
  }

  /** The certificate has begun and not run out, counted in whole seconds. */
  predicate InForce(c: Certificate, now: Moment) {
    c.notBefore <= now / 1_000_000_000 < c.notAfter
  }

  /** Everything a caller of `ensure` may rely on, on the certificates' own fields. */
  predicate Good(b: Bundle, host: string, now: Moment) {
    && Consistent(b)
    && var server := CertOf(b.serverCertPem).value;
    && InForce(CertOf(b.caCertPem).value, now) && InForce(server, now) && InForce(CertOf(b.clientCertPem).value, now)
    && host in server.dnsNames
    && now < (server.notBefore + 30 * 86400) * 1_000_000_000
  }

  /** The tests `ensure` makes on a cached bundle are exactly that. */
  lemma GoodIsTested(b: Bundle, host: string, now: Moment)
    ensures Good(b, host, now) <==> MaterialIsCurrent(b, now) && MatchesHost(b, host) && !LeafRenewalIsDue(b, now)
  {
  }

  /** And the test on the authority alone. */
  lemma IssuerIsTested(b: Bundle, now: Moment)
    ensures IssuerIsCurrent(b, now) <==>
            CertOf(b.caCertPem).Some?
            && var ca := CertOf(b.caCertPem).value;
            InForce(ca, now) && b.caCertDer == CertDer(ca) && b.caKeyPem == KeyPem(ca.key)
  {
  }

  /** A file of several parts is read as its first certificate, and no key is one. */
  lemma FirstCertificate(c: Certificate, rest: Content, key: Key)
    ensures CertOf(CertPem(c)) == Some(c) && CertOf(Joined(CertPem(c), rest)) == Some(c)
    ensures CertOf(KeyPem(key)) == None && CertOf(Joined(KeyPem(key), CertPem(c))) == None
  {
  }

  /** A certificate or key file is text and not empty. */
  lemma {:induction false} CertIsText(pem: Content)
    requires CertOf(pem).Some? || KeyOf(pem).Some?
    ensures !IsEmpty(pem)
  {
    if pem.Joined? {
      CertIsText(pem.first);
    }
  }

  predicate TextCa(b: Bundle) {
    IsText(b.caCertPem) && IsText(b.caKeyPem)
  }

  lemma GeneratedGood(host: string, now: Moment, keys: Keys)
    requires ValidHost(host)
    ensures var b := GenerateAt(host, now, keys).value; Good(b, host, now) && TextCa(b)
  {
  }

  lemma RenewedGood(b: Bundle, host: string, now: Moment, keys: Keys)
    requires IssuerIsCurrent(b, now) && ValidHost(host)
    ensures RenewLeaves(b, host, now, keys).Ok?
    ensures var r := RenewLeaves(b, host, now, keys).value;
            Good(r, host, now) && r.caCertPem == b.caCertPem && r.caKeyPem == b.caKeyPem && r.caCertDer == b.caCertDer
  {
  }

  /** Leaf files that the bundle has just issued. */
  predicate FreshLeaves(b: Bundle) {
    && b.serverCertPem.CertPem? && b.serverKeyPem.KeyPem? && b.clientCertPem.CertPem? && b.clientKeyPem.KeyPem?
    && b.clientKeyDer.KeyDer? && b.serverIdentityPem == Joined(b.serverCertPem, b.serverKeyPem)
  }

  predicate Holds(disk: Disk, name: FileName, content: Content) {
    name in disk && disk[name] == content
  }

  predicate HoldsAuthority(disk: Disk, b: Bundle) {
    Holds(disk, CaCertPem, b.caCertPem) && Holds(disk, CaKeyPem, b.caKeyPem) && Holds(disk, CaCertDer, b.caCertDer)
  }

  predicate HoldsLeaves(disk: Disk, b: Bundle) {
    && Holds(disk, ServerCertPem, b.serverCertPem) && Holds(disk, ServerKeyPem, b.serverKeyPem)
    && Holds(disk, ServerIdentityPem, b.serverIdentityPem) && Holds(disk, ClientCertPem, b.clientCertPem)
    && Holds(disk, ClientKeyPem, b.clientKeyPem) && Holds(disk, ClientKeyDer, b.clientKeyDer)
  }

  /** A directory with the marker and every file of a bundle loads as that bundle. */
  lemma HeldLoads(disk: Disk, b: Bundle)
    requires CacheMarker in disk && HoldsAuthority(disk, b) && HoldsLeaves(disk, b) && FreshLeaves(b) && TextCa(b)
    requires !IsEmpty(b.caCertPem) && !IsEmpty(b.caKeyPem) && !IsEmpty(b.caCertDer)
    ensures LoadCached(disk) == Ok(b)
  {
    assert AllExist(disk);
    assert Readable(disk, ALL_FILES);
  }

  /** A bundle written whole is read back. */
  lemma WrittenAllLoads(disk: Disk, b: Bundle)
    requires FreshLeaves(b) && TextCa(b) && CertOf(b.caCertPem).Some? && KeyOf(b.caKeyPem).Some? && b.caCertDer.CertDer?
    ensures LoadCached(ApplySteps(disk, WriteSteps(AllFiles(b)))) == Ok(b)
  {
    ListsDistinct(b);
    AfterWrite(disk, AllFiles(b));
    CertIsText(b.caCertPem);
    CertIsText(b.caKeyPem);
    var files, now := AllFiles(b), ApplySteps(disk, WriteSteps(AllFiles(b)));
    assert HoldsAuthority(now, b) by {
      assert Holds(now, files[0].0, files[0].1) && Holds(now, files[1].0, files[1].1);
      assert Holds(now, files[8].0, files[8].1);
    }
    assert HoldsLeaves(now, b) by {
      assert Holds(now, files[2].0, files[2].1) && Holds(now, files[3].0, files[3].1);
      assert Holds(now, files[4].0, files[4].1) && Holds(now, files[5].0, files[5].1);
      assert Holds(now, files[6].0, files[6].1) && Holds(now, files[7].0, files[7].1);
    }
    HeldLoads(now, b);
  }

  lemma LeavesHeld(now: Disk, b: Bundle)
    requires forall i :: 0 <= i < |LeafFiles(b)| ==>
               LeafFiles(b)[i].0 in now && now[LeafFiles(b)[i].0] == LeafFiles(b)[i].1
    ensures HoldsLeaves(now, b)
  {
    var files := LeafFiles(b);
    assert Holds(now, files[0].0, files[0].1) && Holds(now, files[1].0, files[1].1);
    assert Holds(now, files[2].0, files[2].1) && Holds(now, files[3].0, files[3].1);
    assert Holds(now, files[4].0, files[4].1) && Holds(now, files[5].0, files[5].1);
  }

  lemma LeavesSpareAuthority(disk: Disk, now: Disk, files: seq<(FileName, Content)>, b: Bundle, cached: Bundle)
    requires LoadCached(disk) == Ok(cached)
    requires b.caCertPem == cached.caCertPem && b.caKeyPem == cached.caKeyPem && b.caCertDer == cached.caCertDer
    requires forall i :: 0 <= i < |files| ==> files[i].0 !in ISSUER_FILES
    requires forall name :: name != CacheMarker && (forall i :: 0 <= i < |files| ==> files[i].0 != name) ==>
               (name in now <==> name in disk) && (name in now ==> now[name] == disk[name])
    ensures HoldsAuthority(now, b)
  {
  }

  lemma LeafNames(b: Bundle)
    ensures forall i :: 0 <= i < |LeafFiles(b)| ==> LeafFiles(b)[i].0 !in ISSUER_FILES
  {
  }

  /** Renewed leaves written over a loadable cache are read back with the old authority. */
  lemma WrittenLeavesLoad(disk: Disk, cached: Bundle, b: Bundle)
    requires LoadCached(disk) == Ok(cached) && FreshLeaves(b)
    requires b.caCertPem == cached.caCertPem && b.caKeyPem == cached.caKeyPem && b.caCertDer == cached.caCertDer
    ensures LoadCached(ApplySteps(disk, WriteSteps(LeafFiles(b)))) == Ok(b)
  {
    ListsDistinct(b);
    AfterWrite(disk, LeafFiles(b));
    var now := ApplySteps(disk, WriteSteps(LeafFiles(b)));
    LeavesHeld(now, b);
    LeafNames(b);
    LeavesSpareAuthority(disk, now, LeafFiles(b), b, cached);
    HeldLoads(now, b);
  }

  // ---- ensure ----

  /** The cached bundle is returned as it is. */
  predicate Kept(disk: Disk, host: string, now: Moment) {
    LoadCached(disk).Ok? && Good(LoadCached(disk).value, host, now)
  }

  lemma HostIsAscii(host: string)
    ensures ValidHost(host) <==> forall i :: 0 <= i < |host| ==> host[i] < '\U{80}'
  {
    assert forall i :: 0 <= i < |host| ==> host[i] in host;
  }

  /**
   * On any directory whatever, `ensure` succeeds exactly when the cache can be kept or the host can
   * be certified; it then returns a bundle that is current, chained to its CA, matched to the host
   * and not due for renewal, and that bundle is what the directory holds afterwards.
   */
  lemma EnsureGood(disk: Disk, host: string, now: Moment, keys: Keys)
    ensures Plan(disk, host, now, keys).Ok? <==>
            Kept(disk, host, now) || forall i :: 0 <= i < |host| ==> host[i] < '\U{80}'
    ensures Plan(disk, host, now, keys).Ok? ==>
              var (b, steps) := Plan(disk, host, now, keys).value;
              Good(b, host, now) && LoadCached(ApplySteps(disk, steps)) == Ok(b)
  {
    HostIsAscii(host);
    if ValidHost(host) {
      GeneratedGood(host, now, keys);
      WrittenAllLoads(disk, GenerateAt(host, now, keys).value);
    }
    match LoadCached(disk)
    case Ok(cached) =>
      if IssuerIsCurrent(cached, now) && ValidHost(host) {
        RenewedGood(cached, host, now, keys);
        WrittenLeavesLoad(disk, cached, RenewLeaves(cached, host, now, keys).value);
      }
    case Err(_) =>
      match LoadIssuer(disk)
      case Ok(issuer) =>
        if IssuerIsCurrent(issuer, now) && ValidHost(host) {
          RenewedGood(issuer, host, now, keys);
          WrittenAllLoads(disk, RenewLeaves(issuer, host, now, keys).value);
        }
      case Err(_) =>
  }

  /** A bundle that is good is returned as it is and nothing is written. */
  lemma EnsureKeeps(disk: Disk, host: string, now: Moment, keys: Keys)
    requires Kept(disk, host, now)
    ensures Plan(disk, host, now, keys) == Ok((LoadCached(disk).value, []))
  {
    GoodIsTested(LoadCached(disk).value, host, now);
  }

  /**
   * Otherwise new leaves are issued for the host, for ninety days from a day ago: under the authority
   * of the directory if that is current, and else under a new one that signs itself for ten years.
   */
  lemma EnsureReissues(disk: Disk, host: string, now: Moment, keys: Keys)
    requires !Kept(disk, host, now) && ValidHost(host)
    ensures Plan(disk, host, now, keys).Ok? && Parses(Plan(disk, host, now, keys).value.0)
    ensures var b, today := Plan(disk, host, now, keys).value.0, now / 1_000_000_000;
            var ca := CertOf(b.caCertPem).value;
            && CertOf(b.serverCertPem).value
               == Certificate(host, ca.subject, keys.server, ca.key, {host, "localhost"},
                              today - 86400, today + 90 * 86400)
            && CertOf(b.clientCertPem).value
               == Certificate(CLIENT_NAME, ca.subject, keys.client, ca.key, {}, today - 86400, today + 90 * 86400)
            && if HasIssuer(disk, now) then
                 && CaCertPem in disk && CaKeyPem in disk && CaCertDer in disk
                 && b.caCertPem == disk[CaCertPem] && b.caKeyPem == disk[CaKeyPem] && b.caCertDer == disk[CaCertDer]
               else
                 ca == Certificate(CA_NAME, CA_NAME, keys.ca, keys.ca, {}, today - 86400, today + 3650 * 86400)
  {
    if LoadCached(disk).Ok? {
      GoodIsTested(LoadCached(disk).value, host, now);
    }
  }

  /** What loads: the marker and every file of a bundle, none of them empty, text where text is expected. */
  lemma LoadedMeans(disk: Disk)
    ensures LoadCached(disk).Ok? <==>
            CacheMarker in disk
            && forall name: FileName :: name != CacheMarker ==>
                 name in disk && !IsEmpty(disk[name]) && (name in {CaCertDer, ClientKeyDer} || IsText(disk[name]))
    ensures LoadCached(disk).Ok? ==>
              HoldsAuthority(disk, LoadCached(disk).value) && HoldsLeaves(disk, LoadCached(disk).value)
  {
    assert forall name: FileName :: name != CacheMarker ==> name in ALL_FILES;
  }

  /** The authority's files load alone, marker or not, and with nothing beside them. */
  lemma IssuerMeans(disk: Disk)
    ensures LoadIssuer(disk).Ok? <==>
            CaCertPem in disk && CaKeyPem in disk && CaCertDer in disk
            && IsText(disk[CaCertPem]) && IsText(disk[CaKeyPem])
    ensures LoadIssuer(disk).Ok? ==> HoldsAuthority(disk, LoadIssuer(disk).value)
  {
    assert CaCertPem in PEM_FILES && CaKeyPem in PEM_FILES && CaCertDer !in PEM_FILES;
  }

  // ---- Crashes ----

  /** The directory when `ensure` was stopped after `done` of its steps. */
  function Crashed(disk: Disk, host: string, now: Moment, keys: Keys, done: nat): Disk {
    match Plan(disk, host, now, keys)
    case Err(_) => disk
    case Ok((_, steps)) => ApplySteps(disk, steps[..if done < |steps| then done else |steps|])
  }

  /** What `ensure` stores is written whole or leaves only, or nothing. */
  lemma PlanSteps(disk: Disk, host: string, now: Moment, keys: Keys)
    requires Plan(disk, host, now, keys).Ok?
    ensures var (b, steps) := Plan(disk, host, now, keys).value;
            steps == [] || steps == WriteSteps(AllFiles(b)) || steps == WriteSteps(LeafFiles(b))
  {
  }

  /** Between the first and the last step of a write nothing loads. */
  lemma HalfWritten(disk: Disk, files: seq<(FileName, Content)>, count: nat)
    requires DistinctFiles(files) && 1 <= count < |WriteSteps(files)|
    ensures LoadCached(ApplySteps(disk, WriteSteps(files)[..count])).Err?
  {
    DuringWrite(disk, files, count - 1);
  }

  /**
   * Never a mixture: stopped anywhere, the directory loads as the bundle that was there before
   * (no step done), as the bundle `ensure` was storing (all steps done), or not at all.
   */
  lemma CrashIsAtomic(disk: Disk, host: string, now: Moment, keys: Keys, done: nat)
    ensures match Plan(disk, host, now, keys) {
              case Err(_) => Crashed(disk, host, now, keys, done) == disk
              case Ok((b, steps)) =>
                var after := LoadCached(Crashed(disk, host, now, keys, done));
                if done >= |steps| then after == Ok(b)
                else if done == 0 then after == LoadCached(disk)
                else after.Err?
            }
  {
    match Plan(disk, host, now, keys)
    case Err(_) =>
    case Ok((b, steps)) =>
      EnsureGood(disk, host, now, keys);
      if done >= |steps| {
        assert steps[..|steps|] == steps;
      } else if done == 0 {
        assert steps[..0] == [];
      } else {
        ListsDistinct(b);
        PlanSteps(disk, host, now, keys);
        var files := if steps == WriteSteps(AllFiles(b)) then AllFiles(b) else LeafFiles(b);
        HalfWritten(disk, files, done);
      }
  }

  /** The three files of the authority. */
  function Authority(disk: Disk): map<FileName, Content> {
    map name | name in ISSUER_FILES && name in disk :: disk[name]
  }

  /** The directory holds an authority that is current. */
  predicate HasIssuer(disk: Disk, now: Moment) {
    LoadIssuer(disk).Ok? && IssuerIsCurrent(LoadIssuer(disk).value, now)
  }

  /** What `ensure` stores under a current authority carries that authority on. */
  lemma PlanKeepsIssuer(disk: Disk, host: string, now: Moment, keys: Keys)
    requires HasIssuer(disk, now) && Plan(disk, host, now, keys).Ok?
    ensures var (b, steps) := Plan(disk, host, now, keys).value;
            && Readable(disk, ISSUER_FILES)
            && disk[CaCertPem] == b.caCertPem && disk[CaKeyPem] == b.caKeyPem && disk[CaCertDer] == b.caCertDer
  {
  }

  /** Where a file list touches the authority, it carries what the directory holds. */
  predicate SparesAuthority(disk: Disk, files: seq<(FileName, Content)>) {
    && Readable(disk, ISSUER_FILES)
    && forall i :: 0 <= i < |files| && files[i].0 in ISSUER_FILES ==> files[i].1 == disk[files[i].0]
  }

  lemma ListsSpare(disk: Disk, b: Bundle)
    requires Readable(disk, ISSUER_FILES)
    requires disk[CaCertPem] == b.caCertPem && disk[CaKeyPem] == b.caKeyPem && disk[CaCertDer] == b.caCertDer
    ensures SparesAuthority(disk, AllFiles(b)) && SparesAuthority(disk, LeafFiles(b))
  {
  }

  lemma StoppedKeepsIssuer(disk: Disk, files: seq<(FileName, Content)>, count: nat)
    requires DistinctFiles(files) && SparesAuthority(disk, files) && count <= |WriteSteps(files)|
    ensures var crashed := ApplySteps(disk, WriteSteps(files)[..count]);
            forall name :: name in ISSUER_FILES ==> name in crashed && crashed[name] == disk[name]
  {
    var steps := WriteSteps(files);
    var crashed := ApplySteps(disk, steps[..count]);
    if count == 0 {
      assert steps[..0] == [];
    } else if count == |steps| {
      assert steps[..count] == steps;
      AfterWrite(disk, files);
      SameAuthority(disk, crashed, files, |files|);
    } else {
      DuringWrite(disk, files, count - 1);
      SameAuthority(disk, crashed, files, count - 1);
    }
  }

  lemma SameAuthorityLoads(disk: Disk, other: Disk)
    requires Readable(disk, ISSUER_FILES)
    requires forall name :: name in ISSUER_FILES ==> name in other && other[name] == disk[name]
    ensures Authority(other) == Authority(disk) && LoadIssuer(other) == LoadIssuer(disk)
  {
  }

  /**
   * Wherever it is stopped, an `ensure` that finds a current authority leaves its three files as
   * they were, so neither a finished nor an interrupted leaf rotation ever replaces it.
   */
  lemma CrashKeepsIssuer(disk: Disk, host: string, now: Moment, keys: Keys, done: nat)
    requires HasIssuer(disk, now)
    ensures Authority(Crashed(disk, host, now, keys, done)) == Authority(disk)
    ensures LoadIssuer(Crashed(disk, host, now, keys, done)) == LoadIssuer(disk)
  {
    if Plan(disk, host, now, keys).Ok? {
      var (b, steps) := Plan(disk, host, now, keys).value;
      PlanKeepsIssuer(disk, host, now, keys);
      PlanSteps(disk, host, now, keys);
      if steps != [] {
        var files := if steps == WriteSteps(AllFiles(b)) then AllFiles(b) else LeafFiles(b);
        ListsDistinct(b);
        ListsSpare(disk, b);
        StoppedKeepsIssuer(disk, files, if done < |steps| then done else |steps|);
        SameAuthorityLoads(disk, Crashed(disk, host, now, keys, done));
      }
    }
  }

  /** With the authority's own contents written over its files, or nothing, they stay the same. */
  lemma SameAuthority(disk: Disk, now: Disk, files: seq<(FileName, Content)>, k: nat)
    requires SparesAuthority(disk, files) && k <= |files|
    requires forall i :: 0 <= i < k ==> files[i].0 in now && now[files[i].0] == files[i].1
    requires forall name :: name != CacheMarker && (forall i :: 0 <= i < k ==> files[i].0 != name) ==>
               (name in now <==> name in disk) && (name in now ==> now[name] == disk[name])
    ensures forall name :: name in ISSUER_FILES ==> name in now && now[name] == disk[name]
  {
    forall name | name in ISSUER_FILES
      ensures name in now && now[name] == disk[name]
    {
      if i :| 0 <= i < k && files[i].0 == name {
        assert now[files[i].0] == files[i].1;
      }
    }
  }

  // ---- Runs ----

  /** One start of the program: an `ensure` at some time, stopped after some of its steps. */
  datatype Start = Start(host: string, now: Moment, keys: Keys, done: nat)

  function AfterStarts(disk: Disk, starts: seq<Start>): Disk
    decreases |starts|
  {
    if starts == [] then disk
    else
      var s := starts[0];
      AfterStarts(Crashed(disk, s.host, s.now, s.keys, s.done), starts[1..])
  }

  /** What a directory may load as: nothing, or a bundle whose parts fit together. */
  predicate LoadsConsistent(disk: Disk) {
    LoadCached(disk).Ok? ==> Consistent(LoadCached(disk).value)
  }

  /** Over any run of starts and crashes from an empty directory, whatever loads fits together. */
  lemma {:induction false} RunsConsistent(disk: Disk, starts: seq<Start>)
    requires LoadsConsistent(disk)
    ensures LoadsConsistent(AfterStarts(disk, starts))
    ensures LoadsConsistent(map[])
    decreases |starts|
  {
    if starts != [] {
      var s := starts[0];
      CrashIsAtomic(disk, s.host, s.now, s.keys, s.done);
      EnsureGood(disk, s.host, s.now, s.keys);
      RunsConsistent(Crashed(disk, s.host, s.now, s.keys, s.done), starts[1..]);
    }
  }

  /** While it stays current, the authority survives any run of starts and crashes unchanged. */
  lemma {:induction false} RunsKeepIssuer(disk: Disk, starts: seq<Start>)
    requires forall i :: 0 <= i < |starts| ==> HasIssuer(disk, starts[i].now)
    ensures LoadIssuer(AfterStarts(disk, starts)) == LoadIssuer(disk)
    decreases |starts|
  {
    if starts != [] {
      var s := starts[0];
      CrashKeepsIssuer(disk, s.host, s.now, s.keys, s.done);
      var next := Crashed(disk, s.host, s.now, s.keys, s.done);
      forall i | 0 <= i < |starts[1..]|
        ensures HasIssuer(next, starts[1..][i].now)
      {
        assert HasIssuer(disk, starts[i + 1].now);
      }
      RunsKeepIssuer(next, starts[1..]);
    }
  }

  /**
   * Recovery: after any run of starts and crashes, the next `ensure` that runs to its end for a
   * certifiable host stores and returns a good bundle, under the old authority if that is current.
   */
  lemma RecoversAfterCrashes(disk: Disk, starts: seq<Start>, host: string, now: Moment, keys: Keys)
    requires ValidHost(host)
    ensures var crashed := AfterStarts(disk, starts);
            && Plan(crashed, host, now, keys).Ok?
            && var (b, steps) := Plan(crashed, host, now, keys).value;
            && Good(b, host, now) && LoadCached(ApplySteps(crashed, steps)) == Ok(b)
            && (HasIssuer(crashed, now) ==>
                  && b.caCertPem == crashed[CaCertPem]
                  && b.caKeyPem == crashed[CaKeyPem]
                  && b.caCertDer == crashed[CaCertDer])
  {
    EnsureGood(AfterStarts(disk, starts), host, now, keys);
  }

  // ---- The renewal thread ----

  /** The thread's sleep ends on time: renewal is due already, or a whole number of seconds away. */
  predicate WakesOnTime(b: Bundle, now: Moment) {
    var c := CertOf(b.serverCertPem);
    c.Some? ==> now >= RenewalMoment(c.value) || (RenewalMoment(c.value) - now) % NANO == 0
  }

  /** When the thread wakes, renewal is due if and only if its sleep was not cut by the truncation. */
  lemma RenewalDelayExact(b: Bundle, now: Moment)
    ensures LeafRenewalIsDue(b, now + RenewalDelay(b, now) * NANO) <==> WakesOnTime(b, now)
  {
    var c := CertOf(b.serverCertPem);
    if c.Some? && now < RenewalMoment(c.value) {
      WholeAndRest(RenewalMoment(c.value) - now);
    }
  }

  lemma WholeAndRest(left: nat)
    ensures left == left / NANO * NANO + left % NANO && 0 <= left % NANO < NANO
  {
  }

  /** It never oversleeps, and wakes less than one second early; having woken early, it sleeps no more. */
  lemma RenewalDelayBounds(b: Bundle, now: Moment)
    ensures var c, wake := CertOf(b.serverCertPem), now + RenewalDelay(b, now) * NANO;
            && (RenewalDelay(b, now) > 0 ==> c.Some? && wake <= RenewalMoment(c.value))
            && (!LeafRenewalIsDue(b, wake) ==>
                  c.Some? && 0 < RenewalMoment(c.value) - wake < NANO && RenewalDelay(b, wake) == 0)
  {
    var c := CertOf(b.serverCertPem);
    if c.Some? && now < RenewalMoment(c.value) {
      WholeAndRest(RenewalMoment(c.value) - now);
    }
  }

  /** A second and a half before renewal falls due, the thread sleeps one second, and renewal is not due. */
  lemma RenewalWakesEarly(b: Bundle)
    requires CertOf(b.serverCertPem).Some?
    ensures var now := RenewalMoment(CertOf(b.serverCertPem).value) - 1_500_000_000;
            RenewalDelay(b, now) == 1 && !LeafRenewalIsDue(b, now + NANO) && !WakesOnTime(b, now)
  {
  }

  /**
   * Until renewal falls due, a thread that woke early spins: every `ensure` keeps the bundle and
   * writes nothing, although the thread reports a renewal, and the next sleep has no length.
   */
  lemma EarlyWakeSpins(disk: Disk, host: string, b: Bundle, now: Moment, later: Moment, keys: Keys)
    requires LoadCached(disk) == Ok(b) && MatchesHost(b, host) && MaterialIsCurrent(b, later)
    requires now + RenewalDelay(b, now) * NANO <= later && !LeafRenewalIsDue(b, later)
    ensures Plan(disk, host, later, keys) == Ok((b, [])) && RenewalDelay(b, later) == 0
  {
    RenewalDelayBounds(b, now);
    var wake := now + RenewalDelay(b, now) * NANO;
    assert !LeafRenewalIsDue(b, wake);
  }
}
