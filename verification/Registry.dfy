/**
 The CA-origin enrollment registry (src/enrollment_registry.rs).

 SHA-256 fingerprints are modelled as injective, so a public key or a canonical JWK stands for
 its own fingerprint. Timestamps are instants.
 */
module Registry {
  import opened Wrappers
  import opened Names
  import Text
  import Templates
  import Json

  type Instant = nat

  datatype Status = Pending | Active | Revoked

  /** The key an enrollment certifies. */
  datatype CertifiedKey = SshKey(canonical: string) | X509Key(der: Templates.CertificateKey)

  /** One enrollment and its two public keys. */
  datatype Record = Record(
    identity: Identity, status: Status, key: CertifiedKey, jwk: Json.Value,
    enrolledAt: Instant, revokedAt: Option<Instant>)
  {
    predicate Live() { status != Revoked }

    predicate SameKeys(other: Record) { key == other.key && jwk == other.jwk }

    predicate SharesKey(other: Record) { key == other.key || jwk == other.jwk }

    /** The candidate approval builds from a request. */
    predicate PendingCandidate() { WellFormed(this) && status == Pending }

    function With(newStatus: Status, at: Option<Instant>): Record { this.(status := newStatus, revokedAt := at) }
  }

  predicate AsciiAlphanumeric(c: char) { '0' <= c <= '9' || 'a' <= c <= 'z' || 'A' <= c <= 'Z' }

  predicate ValidHostName(s: string) {
    s != "" && s != "." && s != ".." && forall c :: c in s ==> AsciiAlphanumeric(c) || c == '.' || c == '_' || c == '-'
  }

  predicate ValidUserName(s: string) {
    var base := match Text.StripSuffix(s, "$") case Some(b) => b case None => s;
    && base != "" && ('a' <= base[0] <= 'z' || base[0] == '_')
    && forall c :: c in base[1..] ==> 'a' <= c <= 'z' || '0' <= c <= '9' || c == '_' || c == '-'
  }

  lemma OneLetterNames(c: char)
    requires 'a' <= c <= 'z'
    ensures ValidUserName([c]) && ValidHostName([c])
  {
    assert !Text.EndsWith([c], "$") by { assert [c][0] != "$"[0]; }
    assert [c][1..] == [];
  }

  predicate ValidIdentity(id: Identity) {
    match id
    case Host(host) => ValidHostName(host)
    case User(user, host) => ValidUserName(user) && ValidHostName(host)
    case X509(host, name) => ValidHostName(host) && ValidHostName(name)
  }

  predicate WellFormed(r: Record) {
    && ValidIdentity(r.identity)
    && (r.identity.X509? <==> r.key.X509Key?)
    && Json.JwkMaterial(r.jwk) == Some(r.jwk)
    && (r.status == Revoked <==> r.revokedAt.Some?)
  }

  // ---- Display identities ----

  /** The text `validate` and coverage compare identities by. */
  function IdentityText(id: Identity): string {
    match id
    case Host(host) => "host " + host
    case User(user, host) => "user " + (user + "@" + host)
    case X509(host, name) => "x509 " + (name + "@" + host)
  }

  lemma ValidNamesHaveNoAt(s: string)
    ensures ValidHostName(s) || ValidUserName(s) ==> '@' !in s
  {
    if ValidUserName(s) {
      var base := match Text.StripSuffix(s, "$") case Some(b) => b case None => s;
      assert base == [base[0]] + base[1..];
      assert s == base || s == base + "$";
    }
  }

  /** A valid identity is determined by its text, even against an arbitrary decoded one. */
  lemma IdentityTextInjective(id: Identity, other: Identity)
    requires ValidIdentity(id) && IdentityText(id) == IdentityText(other)
    ensures id == other || (id.X509? && other.X509?) || (id.User? && other.User?)
    ensures ValidIdentity(other) ==> id == other
  {
    var text := IdentityText(id);
    assert text[..5] == IdentityText(other)[..5] && text[5..] == IdentityText(other)[5..];
    assert "host "[0] != "user "[0] && "host "[0] != "x509 "[0] && "user "[0] != "x509 "[0];
    assert text[0] == IdentityText(other)[0];
    if !id.Host? {
      var (a, b) := if id.User? then (id.user, id.host) else (id.name, id.host);
      var (c, d) := if other.User? then (other.user, other.host)
        else if other.X509? then (other.name, other.host) else ("", "");
      ValidNamesHaveNoAt(a);
      ValidNamesHaveNoAt(c);
      Text.SplitOnceFinds(a, '@', b);
      if ValidIdentity(other) { Text.SplitOnceFinds(c, '@', d); }
    }
  }

  // ---- Validity ----

  predicate Valid(records: seq<Record>) { AllWellFormed(records) && Distinct(records) }

  predicate AllWellFormed(records: seq<Record>) { forall r :: r in records ==> WellFormed(r) }

  predicate Distinct(records: seq<Record>) {
    forall i, j :: 0 <= i < j < |records| ==> Compatible(records[i], records[j])
  }

  /** No shared key, and at most one live record per identity. */
  predicate Compatible(a: Record, b: Record) {
    !a.SharesKey(b) && (a.Live() && b.Live() ==> a.identity != b.identity)
  }

  // ---- Candidate checks ----

  datatype Refusal = ReusesRevokedKey | DifferentActiveKeys | KeyOfAnother

  function CheckCandidate(records: seq<Record>, candidate: Record): Result<(), Refusal> {
    if records == [] then Ok(())
    else
      var r := records[0];
      if !r.Live() && r.SharesKey(candidate) then Err(ReusesRevokedKey)
      else if r.Live() && r.identity == candidate.identity then
        if r.SameKeys(candidate) then CheckCandidate(records[1..], candidate) else Err(DifferentActiveKeys)
      else if r.Live() && r.SharesKey(candidate) then Err(KeyOfAnother)
      else CheckCandidate(records[1..], candidate)
  }

  /** What one record allows a candidate. */
  predicate Admits(r: Record, candidate: Record) {
    (r.Live() && r.identity == candidate.identity && r.SameKeys(candidate))
        || Compatible(r, candidate.With(Active, None))
  }

  lemma {:induction false} CheckCandidateExact(records: seq<Record>, candidate: Record)
    ensures CheckCandidate(records, candidate).Ok? <==> forall r :: r in records ==> Admits(r, candidate)
  {
    if records != [] {
      CheckCandidateExact(records[1..], candidate);
      assert records == [records[0]] + records[1..] && records[0] in records;
    }
  }

  /** Index of the live record holding an identity. */
  function LiveIndex(records: seq<Record>, id: Identity): (i: Option<nat>)
    ensures i.Some? ==> i.value < |records| && records[i.value].Live() && records[i.value].identity == id
    ensures i.None? <==> forall r :: r in records ==> !(r.Live() && r.identity == id)
  {
    if records == [] then None
    else if records[0].Live() && records[0].identity == id then Some(0)
    else match LiveIndex(records[1..], id) case None => None case Some(i) => Some(i + 1)
  }

  /** Status of the exact live match, if any. */
  function MatchingStatus(records: seq<Record>, candidate: Record): (s: Option<Status>)
    ensures s.Some? ==>
            exists r ::
              r in records && r.Live() && r.identity == candidate.identity
              && r.SameKeys(candidate) && s == Some(r.status)
    ensures s.None? ==> forall r :: r in records && r.Live() && r.identity == candidate.identity ==>
            !r.SameKeys(candidate)
  {
    if records == [] then None
    else if records[0].Live() && records[0].identity == candidate.identity && records[0].SameKeys(candidate) then
      Some(records[0].status)
    else MatchingStatus(records[1..], candidate)
  }

  // ---- Transitions ----

  function Reserve(records: seq<Record>, candidate: Record): Result<(seq<Record>, bool), Refusal> {
    match CheckCandidate(records, candidate)
    case Err(e) => Err(e)
    case Ok(_) =>
      if LiveIndex(records, candidate.identity).Some? then Ok((records, false))
      else Ok((records + [candidate], true))
  }

  function Activate(records: seq<Record>, candidate: Record): Result<(seq<Record>, bool), Refusal> {
    match CheckCandidate(records, candidate)
    case Err(e) => Err(e)
    case Ok(_) =>
      match LiveIndex(records, candidate.identity)
      case Some(i) =>
        if records[i].status == Active then Ok((records, false))
        else Ok((records[i := records[i].With(Active, None)], true))
      case None => Ok((records + [candidate.With(Active, None)], true))
  }

  predicate Selected(selected: seq<Record>, r: Record) { exists s :: s in selected && s.SameKeys(r) }

  function RevokeOne(r: Record, selected: seq<Record>, at: Instant): Record {
    if r.Live() && Selected(selected, r) then r.With(Revoked, Some(at)) else r
  }

  /** Records after tombstoning, record by record. */
  function MarkRevoked(records: seq<Record>, selected: seq<Record>, at: Instant): (r: seq<Record>)
    ensures |r| == |records|
    ensures forall i :: 0 <= i < |r| ==> r[i] == RevokeOne(records[i], selected, at)
  {
    seq(|records|, i requires 0 <= i < |records| => RevokeOne(records[i], selected, at))
  }

  /** How many live records a selection hits. */
  function CountSelected(records: seq<Record>, selected: seq<Record>): nat {
    if records == [] then 0
    else CountSelected(records[..|records| - 1], selected)
         + (if records[|records| - 1].Live() && Selected(selected, records[|records| - 1]) then 1 else 0)
  }

  // ---- Whole histories ----

  datatype Operation =
    | Reserving(candidate: Record)
    | Activating(candidate: Record)
    | Revoking(selected: seq<Record>, at: Instant)

  function Apply(records: seq<Record>, op: Operation): seq<Record> {
    match op
    case Reserving(c) => (match Reserve(records, c) case Ok((next, _)) => next case Err(_) => records)
    case Activating(c) => (match Activate(records, c) case Ok((next, _)) => next case Err(_) => records)
    case Revoking(selected, at) => MarkRevoked(records, selected, at)
  }

  function Run(records: seq<Record>, ops: seq<Operation>): seq<Record>
    decreases |ops|
  {
    if ops == [] then records else Run(Apply(records, ops[0]), ops[1..])
  }

  predicate Admissible(op: Operation) { op.Revoking? || op.candidate.PendingCandidate() }

  lemma WithKeepsWellFormed(r: Record, status: Status, at: Option<Instant>)
    requires WellFormed(r) && (status == Revoked <==> at.Some?)
    ensures WellFormed(r.With(status, at))
  {}

  lemma AppendKeepsDistinct(records: seq<Record>, r: Record)
    requires Distinct(records) && forall x :: x in records ==> Compatible(x, r)
    ensures Distinct(records + [r])
  {
    forall i, j | 0 <= i < j < |records + [r]| ensures Compatible((records + [r])[i], (records + [r])[j]) {
      assert (records + [r])[i] == records[i] && records[i] in records;
    }
  }

  /** A change of status that revives nothing keeps records distinct. */
  lemma RestatusKeepsDistinct(records: seq<Record>, next: seq<Record>)
    requires Distinct(records) && |next| == |records|
    requires forall i :: 0 <= i < |records| ==>
        && next[i].identity == records[i].identity && next[i].SameKeys(records[i])
        && (next[i].Live() ==> records[i].Live())
    ensures Distinct(next)
  {
    forall i, j | 0 <= i < j < |next| ensures Compatible(next[i], next[j]) {
      assert Compatible(records[i], records[j]);
    }
  }

  lemma ApplyKeepsWellFormed(records: seq<Record>, op: Operation)
    requires AllWellFormed(records) && Admissible(op)
    ensures AllWellFormed(Apply(records, op))
  {
    forall r | r in Apply(records, op) ensures WellFormed(r) {
      if r !in records {
        if op.Revoking? {
          var i :| 0 <= i < |records| && r == RevokeOne(records[i], op.selected, op.at);
          WithKeepsWellFormed(records[i], Revoked, Some(op.at));
        } else {
          WithKeepsWellFormed(op.candidate, Active, None);
          var i := LiveIndex(records, op.candidate.identity);
          if i.Some? { WithKeepsWellFormed(records[i.value], Active, None); }
        }
      }
    }
  }

  /** Validity is inductive under every registry operation. */
  lemma ApplyKeepsValid(records: seq<Record>, op: Operation)
    requires Valid(records) && Admissible(op)
    ensures Valid(Apply(records, op))
  {
    ApplyKeepsWellFormed(records, op);
    if op.Revoking? {
      RestatusKeepsDistinct(records, Apply(records, op));
    } else if CheckCandidate(records, op.candidate).Ok? {
      CheckCandidateExact(records, op.candidate);
      match LiveIndex(records, op.candidate.identity)
      case None =>
        AppendKeepsDistinct(records, if op.Reserving? then op.candidate else op.candidate.With(Active, None));
      case Some(i) => RestatusKeepsDistinct(records, Apply(records, op));
    }
  }

  lemma SameLiveIndex(records: seq<Record>, i: nat, k: nat)
    requires Distinct(records) && i < |records| && k < |records|
    requires records[i].Live() && records[k].Live() && records[i].identity == records[k].identity
    ensures i == k
  {}

  lemma OneLivePerIdentity(records: seq<Record>, i: nat, r: Record)
    requires Distinct(records) && i < |records| && records[i].Live()
    requires r in records && r.Live() && r.identity == records[i].identity
    ensures r == records[i]
    ensures LiveIndex(records, r.identity) == Some(i)
  {
    var m :| 0 <= m < |records| && records[m] == r;
    SameLiveIndex(records, i, m);
    SameLiveIndex(records, i, LiveIndex(records, r.identity).value);
  }

  /** In a valid registry a live record admits its own retry, and every search finds it. */
  lemma HeldRecord(records: seq<Record>, i: nat, candidate: Record)
    requires Distinct(records) && i < |records| && records[i].Live()
    requires records[i].identity == candidate.identity && records[i].SameKeys(candidate)
    ensures CheckCandidate(records, candidate).Ok?
    ensures LiveIndex(records, candidate.identity) == Some(i)
    ensures MatchingStatus(records, candidate) == Some(records[i].status)
  {
    CheckCandidateExact(records, candidate);
    forall r | r in records ensures Admits(r, candidate) {
      var k :| 0 <= k < |records| && records[k] == r;
      assert k < i ==> Compatible(records[k], records[i]);
      assert i < k ==> Compatible(records[i], records[k]);
    }
    assert records[i] in records;
    OneLivePerIdentity(records, i, records[i]);
    var status := MatchingStatus(records, candidate);
    assert status.Some?;
    var r :| r in records && r.Live() && r.identity == candidate.identity && r.SameKeys(candidate)
        && status == Some(r.status);
    OneLivePerIdentity(records, i, r);
  }

  /** Where an accepted candidate ends up. */
  lemma AcceptedAt(records: seq<Record>, candidate: Record, op: Operation) returns (i: nat)
    requires candidate.Live() && CheckCandidate(records, candidate).Ok?
    requires op == Reserving(candidate) || op == Activating(candidate)
    ensures var next := Apply(records, op);
            && i < |next| && next[i].Live() && next[i].identity == candidate.identity && next[i].SameKeys(candidate)
            && (op.Activating? ==> next[i].status == Active)
  {
    CheckCandidateExact(records, candidate);
    match LiveIndex(records, candidate.identity)
    case Some(k) => i := k; assert records[k] in records && Admits(records[k], candidate);
    case None => i := |records|;
  }

  /**
   A retry of a reservation changes nothing, a retry of an activation changes nothing once active, and
   before that, activating a held record changes its one status.
   */
  lemma RetriesAreIdempotent(records: seq<Record>, candidate: Record, again: Record)
    requires Valid(records) && candidate.PendingCandidate() && again == candidate.(enrolledAt := again.enrolledAt)
    ensures Reserve(records, candidate).Ok? ==>
              var next := Reserve(records, candidate).value.0;
              Reserve(next, again) == Ok((next, false)) && MatchingStatus(next, again).Some?
    ensures Activate(records, candidate).Ok? ==>
              var next := Activate(records, candidate).value.0;
              Activate(next, again) == Ok((next, false)) && MatchingStatus(next, again) == Some(Active)
    ensures CheckCandidate(records, candidate).Ok? && LiveIndex(records, candidate.identity).Some? ==>
              var i := LiveIndex(records, candidate.identity).value;
              && Reserve(records, candidate) == Ok((records, false))
              && Activate(records, candidate) == Ok((records[i := records[i].(status := Active)],
                  records[i].status != Active))
  {
    if CheckCandidate(records, candidate).Ok? {
      ApplyKeepsValid(records, Reserving(candidate));
      ApplyKeepsValid(records, Activating(candidate));
      var i := AcceptedAt(records, candidate, Reserving(candidate));
      HeldRecord(Apply(records, Reserving(candidate)), i, again);
      var j := AcceptedAt(records, candidate, Activating(candidate));
      HeldRecord(Apply(records, Activating(candidate)), j, again);
      if LiveIndex(records, candidate.identity).Some? { HeldActivation(records, candidate); }
    }
  }

  /** Reserving a held candidate changes nothing, and activating it at most the status of its record. */
  lemma HeldActivation(records: seq<Record>, candidate: Record)
    requires AllWellFormed(records) && CheckCandidate(records, candidate).Ok?
             && LiveIndex(records, candidate.identity).Some?
    ensures var i := LiveIndex(records, candidate.identity).value;
            && Reserve(records, candidate) == Ok((records, false))
            && Activate(records, candidate) == Ok((records[i := records[i].(status := Active)],
                records[i].status != Active))
  {
    var i := LiveIndex(records, candidate.identity).value;
    assert records[i] in records && records[i].revokedAt == None;
    if records[i].status == Active { assert records[i := records[i]] == records; }
  }

  /** One operation rebinds no record and touches no tombstone. */
  lemma ApplyKeepsRecords(records: seq<Record>, op: Operation, i: nat)
    requires i < |records|
    ensures var next := Apply(records, op);
            && |records| <= |next| && next[i].identity == records[i].identity && next[i].SameKeys(records[i])
            && (!records[i].Live() ==> next[i] == records[i])
  {}

  /**
   Over any history the registry stays valid, no record is dropped or rebound, a tombstone is
   frozen, and no other record, present or future, shares either of its keys.
   */
  lemma {:induction false} HistoryKeepsTombstones(records: seq<Record>, ops: seq<Operation>, i: nat)
    requires Valid(records) && (forall op :: op in ops ==> Admissible(op)) && i < |records|
    ensures var final := Run(records, ops);
            && Valid(final) && |records| <= |final|
            && final[i].identity == records[i].identity && final[i].SameKeys(records[i])
            && (records[i].status == Revoked ==>
                  final[i] == records[i] && forall j :: 0 <= j < |final| && j != i ==> !final[j].SharesKey(records[i]))
    decreases |ops|
  {
    if ops != [] {
      var next := Apply(records, ops[0]);
      ApplyKeepsValid(records, ops[0]);
      ApplyKeepsRecords(records, ops[0], i);
      HistoryKeepsTombstones(next, ops[1..], i);
    } else {
      assert forall j :: 0 <= j < i ==> Compatible(records[j], records[i]);
      assert forall j :: i < j < |records| ==> Compatible(records[i], records[j]);
    }
  }

  // ---- The registry object ----

  /** Records of a scope, current and historical, in registry order. */
  function Select(records: seq<Record>, scope: Scope): (r: seq<Record>)
    ensures forall x :: x in r <==> x in records && Covers(scope, x.identity)
  {
    if records == [] then []
    else (if Covers(scope, records[0].identity) then [records[0]] else []) + Select(records[1..], scope)
  }

  function LiveIdentities(records: seq<Record>): set<Identity> { set r | r in records && r.Live() :: r.identity }

  function Keys(records: seq<Record>): set<CertifiedKey> { set r | r in records :: r.key }

  function Jwks(records: seq<Record>): set<Json.Value> { set r | r in records :: r.jwk }

  /** The set lookups of `validate` decide exactly whether one more record keeps a prefix valid. */
  lemma ValidateStep(records: seq<Record>, i: nat)
    requires i < |records| && Valid(records[..i])
    ensures var r, prefix := records[i], records[..i];
            && (Valid(records[..i + 1]) <==>
                  WellFormed(r) && !(r.Live() && r.identity in LiveIdentities(prefix)) && r.key !in Keys(prefix)
                      && r.jwk !in Jwks(prefix))
            && LiveIdentities(records[..i + 1]) == LiveIdentities(prefix) + (if r.Live() then {r.identity} else {})
            && Keys(records[..i + 1]) == Keys(prefix) + {r.key} && Jwks(records[..i + 1]) == Jwks(prefix) + {r.jwk}
  {
    var r, prefix, next := records[i], records[..i], records[..i + 1];
    assert next == prefix + [r];
    assert forall x :: x in next <==> x in prefix || x == r;
    if Distinct(next) {
      forall x | x in prefix ensures Compatible(x, r) {
        var k :| 0 <= k < i && prefix[k] == x;
        assert next[k] == x && next[i] == r;
      }
    } else if forall x :: x in prefix ==> Compatible(x, r) {
      AppendKeepsDistinct(prefix, r);
    }
  }

  lemma PrefixValid(records: seq<Record>, i: nat)
    requires i <= |records| && Valid(records)
    ensures Valid(records[..i])
  {
    assert forall j, k :: 0 <= j < k < i ==> records[..i][j] == records[j] && records[..i][k] == records[k];
  }

  lemma InvalidPrefix(records: seq<Record>, i: nat)
    requires i <= |records|
    ensures Valid(records) ==> Valid(records[..i])
  {
    if Valid(records) { PrefixValid(records, i); }
  }

  class EnrollmentRegistry {
    var records: seq<Record>

    constructor ()
      ensures records == []
    {
      records := [];
    }

    /** `validate`: one pass collecting live identities and both key sets. */
    method Validate() returns (ok: bool)
      ensures ok <==> Valid(records)
    {
      var identities: set<Identity>, keys: set<CertifiedKey>, jwks: set<Json.Value> := {}, {}, {};
      for i := 0 to |records|
        invariant Valid(records[..i])
        invariant identities == LiveIdentities(records[..i])
        invariant keys == Keys(records[..i]) && jwks == Jwks(records[..i])
      {
        ok, identities, keys, jwks := ValidateOne(records, i, identities, keys, jwks);
        if !ok {
          InvalidPrefix(records, i + 1);
          return;
        }
      }
      assert records[..|records|] == records;
      ok := true;
    }

    /** One record against the identities and keys seen so far. */
    static method ValidateOne(all: seq<Record>, i: nat, identities: set<Identity>, keys: set<CertifiedKey>,
        jwks: set<Json.Value>)
      returns (ok: bool, identities': set<Identity>, keys': set<CertifiedKey>, jwks': set<Json.Value>)
      requires i < |all| && Valid(all[..i])
      requires identities == LiveIdentities(all[..i]) && keys == Keys(all[..i]) && jwks == Jwks(all[..i])
      ensures ok <==> Valid(all[..i + 1])
      ensures ok ==>
              identities' == LiveIdentities(all[..i + 1]) && keys' == Keys(all[..i + 1])
              && jwks' == Jwks(all[..i + 1])
    {
      var r := all[i];
      ValidateStep(all, i);
      identities', keys', jwks' := identities, keys + {r.key}, jwks + {r.jwk};
      if !WellFormed(r) { return false, identities', keys', jwks'; }
      if r.Live() {
        if r.identity in identities { return false, identities', keys', jwks'; }
        identities' := identities + {r.identity};
      }
      ok := r.key !in keys && r.jwk !in jwks;
    }

    method Check(candidate: Record) returns (r: Result<(), Refusal>)
      ensures r == CheckCandidate(records, candidate)
    {
      for i := 0 to |records|
        invariant CheckCandidate(records, candidate) == CheckCandidate(records[i..], candidate)
      {
        var record := records[i];
        assert records[i..][1..] == records[i + 1..];
        if !record.Live() && record.SharesKey(candidate) { return Err(ReusesRevokedKey); }
        if record.Live() && record.identity == candidate.identity {
          if record.SameKeys(candidate) { continue; }
          return Err(DifferentActiveKeys);
        }
        if record.Live() && record.SharesKey(candidate) { return Err(KeyOfAnother); }
      }
      r := Ok(());
    }

    method ReserveRecord(candidate: Record) returns (r: Result<bool, Refusal>)
      modifies this
      ensures var spec := Reserve(old(records), candidate);
              if spec.Ok? then records == spec.value.0 && r == Ok(spec.value.1)
              else records == old(records) && r == Err(spec.error)
    {
      var checked := Check(candidate);
      if checked.Err? { return Err(checked.error); }
      if LiveIndex(records, candidate.identity).Some? { return Ok(false); }
      records := records + [candidate];
      r := Ok(true);
    }

    method ActivateRecord(candidate: Record) returns (r: Result<bool, Refusal>)
      modifies this
      ensures var spec := Activate(old(records), candidate);
              if spec.Ok? then records == spec.value.0 && r == Ok(spec.value.1)
              else records == old(records) && r == Err(spec.error)
    {
      var checked := Check(candidate);
      if checked.Err? { return Err(checked.error); }
      var live := LiveIndex(records, candidate.identity);
      if live.Some? {
        if records[live.value].status == Active { return Ok(false); }
        records := records[live.value := records[live.value].With(Active, None)];
      } else {
        records := records + [candidate.With(Active, None)];
      }
      r := Ok(true);
    }

    /** Tombstone exactly the live records whose key pair was selected, and count them. */
    method MarkRecordsRevoked(selected: seq<Record>, at: Instant) returns (changed: nat)
      modifies this
      ensures records == MarkRevoked(old(records), selected, at)
      ensures changed == CountSelected(old(records), selected)
    {
      changed := 0;
      ghost var before := records;
      for i := 0 to |records|
        invariant |records| == |before|
        invariant forall k :: 0 <= k < i ==> records[k] == RevokeOne(before[k], selected, at)
        invariant forall k :: i <= k < |records| ==> records[k] == before[k]
        invariant changed == CountSelected(before[..i], selected)
      {
        assert before[..i + 1][..i] == before[..i];
        if records[i].Live() && exists s :: s in selected && s.SameKeys(records[i]) {
          records := records[i := records[i].With(Revoked, Some(at))];
          changed := changed + 1;
        }
      }
      assert before[..|records|] == before;
    }
  }
}
