/**
 * The certificate cache: what `ensure` decides, what it writes one atomic step at a time, and what
 * a crash between any two steps leaves. Keys and signatures are abstract.
 */
module Certificates {
  import opened Wrappers

  /** A moment is a number of nanoseconds; certificates count whole seconds. */
  type Moment = int

  const NANO := 1_000_000_000
  const DAY := 86400
  const LEAF_RENEWAL_DAYS := 30
  const CA_VALIDITY_DAYS := 3650
  const LEAF_VALIDITY_DAYS := 90

  /** A key pair is known by its public half. */
  type Key = nat

  datatype Certificate = Certificate(
    subject: string, issuer: string, key: Key, signedBy: Key, dnsNames: set<string>, notBefore: int, notAfter: int)

  /** File contents as far as the cache can tell them apart. */
  datatype Content =
    | CertPem(certificate: Certificate)
    | CertDer(certificate: Certificate)
    | KeyPem(key: Key)
    | KeyDer(key: Key)
    | Joined(first: Content, second: Content)
    | Junk(size: nat, text: bool, tag: nat)

  datatype FileName =
    | CaCertPem | CaKeyPem | CaCertDer | ServerCertPem | ServerKeyPem | ServerIdentityPem
    | ClientCertPem | ClientKeyPem | ClientKeyDer | CacheMarker

  type Disk = map<FileName, Content>

  datatype Bundle = Bundle(
    caCertPem: Content, caKeyPem: Content, serverCertPem: Content, serverKeyPem: Content, serverIdentityPem: Content,
    clientCertPem: Content, clientKeyPem: Content, clientKeyDer: Content, caCertDer: Content)

  datatype Failure = Incomplete | Unreadable | BadIssuer | BadHost

  const EMPTY := Junk(0, true, 0)

  // ---- Parsing and checking ----

  function CertOf(pem: Content): Option<Certificate> {
    match pem
    case CertPem(certificate) => Some(certificate)
    case Joined(first, _) => CertOf(first)
    case _ => None
  }

  function KeyOf(pem: Content): Option<Key> {
    if pem.KeyPem? then Some(pem.key) else None
  }

  predicate IsEmpty(content: Content) {
    match content
    case Junk(size, _, _) => size == 0
    case Joined(first, second) => IsEmpty(first) && IsEmpty(second)
    case _ => false
  }

  predicate IsText(content: Content) {
    match content
    case CertPem(_) => true
    case KeyPem(_) => true
    case Joined(first, second) => IsText(first) && IsText(second)
    case Junk(_, text, _) => text
    case _ => false
  }

  /** The timestamp of a moment: its whole seconds, rounded down. */
  function Timestamp(now: Moment): int {
    now / NANO
  }

  predicate ValidNow(pem: Content, now: Moment) {
    var c := CertOf(pem);
    c.Some? && c.value.notBefore <= Timestamp(now) < c.value.notAfter
  }

  predicate DerMatchesPem(pem: Content, der: Content) {
    CertOf(pem).Some? && der == CertDer(CertOf(pem).value)
  }

  predicate CertMatchesKey(certPem: Content, keyPem: Content) {
    CertOf(certPem).Some? && KeyOf(keyPem).Some? && CertOf(certPem).value.key == KeyOf(keyPem).value
  }

  predicate KeyMatchesDer(keyPem: Content, der: Content) {
    KeyOf(keyPem).Some? && der == KeyDer(KeyOf(keyPem).value)
  }

  predicate IssuedBy(certPem: Content, issuerPem: Content) {
    var c, i := CertOf(certPem), CertOf(issuerPem);
    c.Some? && i.Some? && c.value.issuer == i.value.subject && c.value.signedBy == i.value.key
  }

  predicate IssuerIsCurrent(b: Bundle, now: Moment) {
    ValidNow(b.caCertPem, now) && DerMatchesPem(b.caCertPem, b.caCertDer) && CertMatchesKey(b.caCertPem, b.caKeyPem)
  }

  predicate MaterialIsCurrent(b: Bundle, now: Moment) {
    && IssuerIsCurrent(b, now)
    && ValidNow(b.serverCertPem, now) && ValidNow(b.clientCertPem, now)
    && CertMatchesKey(b.serverCertPem, b.serverKeyPem)
    && CertMatchesKey(b.clientCertPem, b.clientKeyPem)
    && KeyMatchesDer(b.clientKeyPem, b.clientKeyDer)
    && IssuedBy(b.serverCertPem, b.caCertPem)
    && IssuedBy(b.clientCertPem, b.caCertPem)
    && b.serverIdentityPem == Joined(b.serverCertPem, b.serverKeyPem)
  }

  predicate MatchesHost(b: Bundle, host: string) {
    CertOf(b.serverCertPem).Some? && host in CertOf(b.serverCertPem).value.dnsNames
  }

  /** When a server certificate falls due for renewal. */
  function RenewalMoment(c: Certificate): Moment {
    (c.notBefore + LEAF_RENEWAL_DAYS * DAY) * NANO
  }

  predicate LeafRenewalIsDue(b: Bundle, now: Moment) {
    var c := CertOf(b.serverCertPem);
    c.Some? ==> now >= RenewalMoment(c.value)
  }

  /** Seconds the renewal thread sleeps: the time left, truncated toward zero, and never negative. */
  function RenewalDelay(b: Bundle, now: Moment): nat {
    match CertOf(b.serverCertPem)
    case None => 0
    case Some(c) =>
      var left := RenewalMoment(c) - now;
      if left > 0 then left / NANO else 0
  }

  // ---- Issuing ----

  /** Names that can stand in a certificate are ASCII. */
  predicate ValidHost(host: string) {
    forall c :: c in host ==> (c as int) < 128
  }

  datatype Keys = Keys(ca: Key, server: Key, client: Key)

  /** Encoding a certificate drops the fraction of a second. */
  function Issue(subject: string, issuer: string, key: Key, signer: Key, dnsNames: set<string>, now: Moment, days: nat)
    : Content
  {
    CertPem(Certificate(subject, issuer, key, signer, dnsNames, Timestamp(now) - DAY, Timestamp(now) + days * DAY))
  }

  const CA_NAME := "tokamak local ca"
  const CLIENT_NAME := "tokamak client"

  function WithLeaves(caCertPem: Content, caKeyPem: Content, caCertDer: Content,
                      issuer: string, signer: Key, host: string, now: Moment, keys: Keys): Bundle
  {
    var server := Issue(host, issuer, keys.server, signer, {host, "localhost"}, now, LEAF_VALIDITY_DAYS);
    var client := Issue(CLIENT_NAME, issuer, keys.client, signer, {}, now, LEAF_VALIDITY_DAYS);
    Bundle(caCertPem, caKeyPem, server, KeyPem(keys.server), Joined(server, KeyPem(keys.server)),
           client, KeyPem(keys.client), KeyDer(keys.client), caCertDer)
  }

  function GenerateAt(host: string, now: Moment, keys: Keys): Result<Bundle, Failure> {
    if !ValidHost(host) then Err(BadHost)
    else
      var ca := Issue(CA_NAME, CA_NAME, keys.ca, keys.ca, {}, now, CA_VALIDITY_DAYS);
      Ok(WithLeaves(ca, KeyPem(keys.ca), CertDer(ca.certificate), CA_NAME, keys.ca, host, now, keys))
  }

  function RenewLeaves(b: Bundle, host: string, now: Moment, keys: Keys): Result<Bundle, Failure> {
    if KeyOf(b.caKeyPem).None? || CertOf(b.caCertPem).None? then Err(BadIssuer)
    else if !ValidHost(host) then Err(BadHost)
    else Ok(WithLeaves(b.caCertPem, b.caKeyPem, b.caCertDer, CertOf(b.caCertPem).value.subject,
                       KeyOf(b.caKeyPem).value, host, now, keys))
  }

  // ---- The directory ----

  const PEM_FILES := {CaCertPem, CaKeyPem, ServerCertPem, ServerKeyPem, ServerIdentityPem, ClientCertPem, ClientKeyPem}
  const ALL_FILES := PEM_FILES + {CaCertDer, ClientKeyDer}

  predicate AllExist(disk: Disk) {
    CacheMarker in disk && forall name :: name in ALL_FILES ==> name in disk && !IsEmpty(disk[name])
  }

  predicate Readable(disk: Disk, names: set<FileName>) {
    forall name :: name in names ==> name in disk && (name in PEM_FILES ==> IsText(disk[name]))
  }

  function LoadCached(disk: Disk): Result<Bundle, Failure> {
    if !AllExist(disk) then Err(Incomplete)
    else if !Readable(disk, ALL_FILES) then Err(Unreadable)
    else Ok(Bundle(disk[CaCertPem], disk[CaKeyPem], disk[ServerCertPem], disk[ServerKeyPem], disk[ServerIdentityPem],
                   disk[ClientCertPem], disk[ClientKeyPem], disk[ClientKeyDer], disk[CaCertDer]))
  }

  const ISSUER_FILES := {CaCertPem, CaKeyPem, CaCertDer}

  function LoadIssuer(disk: Disk): Result<Bundle, Failure> {
    if !Readable(disk, ISSUER_FILES) then Err(Unreadable)
    else Ok(Bundle(disk[CaCertPem], disk[CaKeyPem], EMPTY, EMPTY, EMPTY, EMPTY, EMPTY, EMPTY, disk[CaCertDer]))
  }

  /** One atomic change: the marker is unlinked, or a finished temporary is renamed over a name. */
  datatype DiskStep = DropMarker | Put(name: FileName, content: Content)

  function ApplyStep(disk: Disk, step: DiskStep): Disk {
    match step
    case DropMarker => disk - {CacheMarker}
    case Put(name, content) => disk[name := content]
  }

  function ApplySteps(disk: Disk, steps: seq<DiskStep>): Disk
    decreases |steps|
  {
    if steps == [] then disk else ApplyStep(ApplySteps(disk, steps[..|steps| - 1]), steps[|steps| - 1])
  }

  function AllFiles(b: Bundle): seq<(FileName, Content)> {
    [(CaCertPem, b.caCertPem), (CaKeyPem, b.caKeyPem), (ServerCertPem, b.serverCertPem),
     (ServerKeyPem, b.serverKeyPem), (ServerIdentityPem, b.serverIdentityPem), (ClientCertPem, b.clientCertPem),
     (ClientKeyPem, b.clientKeyPem), (ClientKeyDer, b.clientKeyDer), (CaCertDer, b.caCertDer)]
  }

  function LeafFiles(b: Bundle): seq<(FileName, Content)> {
    [(ServerCertPem, b.serverCertPem), (ServerKeyPem, b.serverKeyPem), (ClientCertPem, b.clientCertPem),
     (ClientKeyPem, b.clientKeyPem), (ClientKeyDer, b.clientKeyDer), (ServerIdentityPem, b.serverIdentityPem)]
  }

  /** The marker goes first and comes back last. */
  function WriteSteps(files: seq<(FileName, Content)>): seq<DiskStep> {
    [DropMarker] + seq(|files|, i requires 0 <= i < |files| => Put(files[i].0, files[i].1)) + [Put(CacheMarker, EMPTY)]
  }

  // ---- What `ensure` does ----

  /** The bundle `ensure` returns and the steps it takes to store it. */
  function Plan(disk: Disk, host: string, now: Moment, keys: Keys): Result<(Bundle, seq<DiskStep>), Failure> {
    match LoadCached(disk)
    case Err(_) => PlanRecovery(disk, host, now, keys)
    case Ok(cached) =>
      if !IssuerIsCurrent(cached, now) then PlanGeneration(host, now, keys)
      else if !MaterialIsCurrent(cached, now) || !MatchesHost(cached, host) || LeafRenewalIsDue(cached, now) then
        var replacement :- RenewLeaves(cached, host, now, keys);
        Ok((replacement, WriteSteps(LeafFiles(replacement))))
      else Ok((cached, []))
  }

  function PlanRecovery(disk: Disk, host: string, now: Moment, keys: Keys): Result<(Bundle, seq<DiskStep>), Failure> {
    match LoadIssuer(disk)
    case Err(_) => PlanGeneration(host, now, keys)
    case Ok(issuer) =>
      if !IssuerIsCurrent(issuer, now) then PlanGeneration(host, now, keys)
      else
        var replacement :- RenewLeaves(issuer, host, now, keys);
        Ok((replacement, WriteSteps(AllFiles(replacement))))
  }

  function PlanGeneration(host: string, now: Moment, keys: Keys): Result<(Bundle, seq<DiskStep>), Failure> {
    var bundle :- GenerateAt(host, now, keys);
    Ok((bundle, WriteSteps(AllFiles(bundle))))
  }

  /** The work directory, changed one atomic step at a time. */
  class WorkDirectory {
    var files: Disk

    constructor (files: Disk)
      ensures this.files == files
    {
      this.files := files;
    }

    method RemoveMarker()
      modifies this
      ensures files == ApplyStep(old(files), DropMarker)
    {
      files := files - {CacheMarker};
    }

    method WriteAtomic(name: FileName, content: Content)
      modifies this
      ensures files == ApplyStep(old(files), Put(name, content))
    {
      files := files[name := content];
    }

    /** After each iteration the directory is exactly some prefix of the steps further on. */
    method WriteFiles(list: seq<(FileName, Content)>)
      modifies this
      ensures files == ApplySteps(old(files), WriteSteps(list))
    {
      ghost var steps := WriteSteps(list);
      RemoveMarker();
      assert steps[..1] == [DropMarker];
      assert ApplySteps(old(files), [DropMarker][..0]) == old(files);
      var index := 0;
      while index < |list|
        invariant 0 <= index <= |list|
        invariant files == ApplySteps(old(files), steps[..index + 1])
      {
        WriteAtomic(list[index].0, list[index].1);
        assert steps[..index + 2][..index + 1] == steps[..index + 1];
        assert steps[..index + 2][index + 1] == Put(list[index].0, list[index].1);
        index := index + 1;
      }
      WriteAtomic(CacheMarker, EMPTY);
      assert steps[..|steps| - 1] == steps[..|list| + 1];
    }

    method WriteAll(b: Bundle)
      modifies this
      ensures files == ApplySteps(old(files), WriteSteps(AllFiles(b)))
    {
      WriteFiles(AllFiles(b));
    }

    method WriteLeaves(b: Bundle)
      modifies this
      ensures files == ApplySteps(old(files), WriteSteps(LeafFiles(b)))
    {
      WriteFiles(LeafFiles(b));
    }

    method Ensure(host: string, now: Moment, keys: Keys) returns (r: Result<Bundle, Failure>)
      modifies this
      ensures match Plan(old(files), host, now, keys) {
                case Ok((bundle, steps)) => r == Ok(bundle) && files == ApplySteps(old(files), steps)
                case Err(e) => r == Err(e) && files == old(files)
              }
    {
      var cached := LoadCached(files);
      if cached.Err? {
        r := RenewOrGenerate(host, now, keys);
        return;
      }
      if !IssuerIsCurrent(cached.value, now) {
        r := GenerateAndCache(host, now, keys);
        return;
      }
      if !MaterialIsCurrent(cached.value, now) || !MatchesHost(cached.value, host)
         || LeafRenewalIsDue(cached.value, now) {
        r := RenewLeaves(cached.value, host, now, keys);
        if r.Ok? {
          WriteLeaves(r.value);
        }
        return;
      }
      return cached;
    }

    method RenewOrGenerate(host: string, now: Moment, keys: Keys) returns (r: Result<Bundle, Failure>)
      modifies this
      ensures match PlanRecovery(old(files), host, now, keys) {
                case Ok((bundle, steps)) => r == Ok(bundle) && files == ApplySteps(old(files), steps)
                case Err(e) => r == Err(e) && files == old(files)
              }
    {
      var issuer := LoadIssuer(files);
      if issuer.Err? || !IssuerIsCurrent(issuer.value, now) {
        r := GenerateAndCache(host, now, keys);
        return;
      }
      r := RenewLeaves(issuer.value, host, now, keys);
      if r.Ok? {
        WriteAll(r.value);
      }
    }

    method GenerateAndCache(host: string, now: Moment, keys: Keys) returns (r: Result<Bundle, Failure>)
      modifies this
      ensures match PlanGeneration(host, now, keys) {
                case Ok((bundle, steps)) => r == Ok(bundle) && files == ApplySteps(old(files), steps)
                case Err(e) => r == Err(e) && files == old(files)
              }
    {
      r := GenerateAt(host, now, keys);
      if r.Ok? {
        WriteAll(r.value);
      }
    }
  }
}
