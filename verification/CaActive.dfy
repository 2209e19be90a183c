/** Active records and their provisioners, and the one way the two come apart. */
module CaActive {
  import opened Wrappers
  import opened Json
  import opened Names
  import opened Registry
  import opened Ledger
  import opened Issuers
  import opened Reconciliation
  import opened CaOrigin
  import opened CaSafety
  import Templates

  predicate Issued(items: seq<Value>, r: Record) { exists f :: f in Faces(items) && Carries(f, r) }

  /** Every active record has its provisioner, or one of its keys in the ledger. */
  predicate Accounted(st: Store) { forall r :: r in st.registry && r.status == Active ==> AccountedFor(st, r) }

  predicate AccountedFor(st: Store, r: Record) { Issued(st.ca, r) || Tombstoned(st.ledger, r.key, r.jwk) }

  predicate Alike(a: Record, b: Record) { a.identity == b.identity && a.SameKeys(b) }

  lemma AlikeAccounted(st: Store, a: Record, b: Record)
    requires Alike(a, b) && AccountedFor(st, a)
    ensures AccountedFor(st, b)
  {
    if Issued(st.ca, a) {
      var f :| f in Faces(st.ca) && Carries(f, a);
      assert Carries(f, b);
    }
  }

  /** An operation on a candidate makes nothing active but that candidate. */
  lemma ActiveAfter(records: seq<Record>, op: Operation, r: Record)
    requires op.Revoking? || op.candidate.status == Pending
    requires r in Apply(records, op) && r.status == Active
    ensures (r in records && r.status == Active) || (op.Activating? && Alike(op.candidate, r))
  {
    if op.Activating? && CheckCandidate(records, op.candidate).Ok? {
      CheckCandidateExact(records, op.candidate);
      var i := LiveIndex(records, op.candidate.identity);
      if i.Some? { assert records[i.value] in records && Admits(records[i.value], op.candidate); }
    }
  }

  /** Names determine which record a provisioner of the candidate's name carries. */
  lemma SameNameSameRecord(records: seq<Record>, candidate: Record, f: Face, r: Record, d: Face)
    requires AllWellFormed(records) && CheckCandidate(records, candidate).Ok? && ValidIdentity(candidate.identity)
    requires r in records && r.Live() && Carries(f, r) && Carries(d, candidate) && f.name == d.name
    ensures Carries(d, r)
  {
    ValidIsNameable(r.identity);
    ValidIsNameable(candidate.identity);
    NamesInjective(r.identity, candidate.identity);
    CheckCandidateExact(records, candidate);
    assert Admits(r, candidate);
  }

  /** An approval's proposal keeps every active record's provisioner and adds the candidate's. */
  lemma ProposalKeepsIssued(st: Store, policy: Policy, request: Request, r: Record)
    requires request.Valid() && NoX509Issuer(policy) && AllWellFormed(st.registry)
    requires CheckApproval(st, request.candidate).Ok? && Authorize(policy, st.ca, request).Ok?
    ensures Issued(Authorize(policy, st.ca, request).value, request.candidate)
    ensures r in st.registry && r.Live() && Issued(st.ca, r) ==> Issued(Authorize(policy, st.ca, request).value, r)
  {
    var d := AuthorizeExact(policy, st.ca, request);
    if r in st.registry && r.Live() && Issued(st.ca, r) {
      var f :| f in Faces(st.ca) && Carries(f, r);
      JwkIsNotSshpop();
      CheckedReserve(st, request.candidate);
      if f.name == d.name { SameNameSameRecord(st.registry, request.candidate, f, r, d); }
    }
  }

  /** An approval gets to its registry save, which reports an error after its rename and is rolled back. */
  predicate LosesIssuer(st: Store, policy: Policy, request: Request, reserve: Write, env: Installation) {
    && CheckApproval(st, request.candidate).Ok? && (CheckApproval(st, request.candidate).value.1 ==> reserve == Lands)
    && Authorize(policy, st.ca, request).Ok? && MatchingStatus(st.registry, request.candidate) != Some(Active)
    && env.SaveOutlivesRollback() && !Issued(st.ca, request.candidate)
  }

  /** An already active match is left alone. */
  lemma ActiveStays(records: seq<Record>, candidate: Record)
    requires Valid(records) && MatchingStatus(records, candidate) == Some(Active)
    ensures Apply(records, Reserving(candidate)) == records && Apply(records, Activating(candidate)) == records
  {
    var r :| r in records && r.Live() && r.identity == candidate.identity && r.SameKeys(candidate)
        && r.status == Active;
    var i :| 0 <= i < |records| && records[i] == r;
    HeldRecord(records, i, candidate);
  }

  /** In the store an approval leaves, the candidate is accounted for once it is newly active. */
  lemma CandidateAccounted(st: Store, policy: Policy, request: Request, reserve: Write, env: Installation)
    requires request.Valid() && NoX509Issuer(policy) && Valid(st.registry)
             && !LosesIssuer(st, policy, request, reserve, env)
    ensures var next, reserved := Approve(st, policy, request, reserve, env).0,
            Apply(st.registry, Reserving(request.candidate));
            next.registry != st.registry && next.registry != reserved ==> Issued(next.ca, request.candidate)
  {
    var next, candidate := Approve(st, policy, request, reserve, env).0, request.candidate;
    var reserved := Apply(st.registry, Reserving(candidate));
    if next.registry != st.registry && next.registry != reserved {
      ApproveShape(st, policy, request, reserve, env);
      ApproveReservedLeaves(st.(registry := reserved), policy, request, env);
      ProposalKeepsIssued(st, policy, request, candidate);
      if MatchingStatus(st.registry, candidate) == Some(Active) { ActiveStays(st.registry, candidate); }
    }
  }

  /** An active record is old, or the candidate itself in an activated registry. */
  lemma NewlyActive(records: seq<Record>, candidate: Record, r: Record)
    requires candidate.status == Pending && r.status == Active
    requires r in Apply(records, Reserving(candidate))
             || r in Apply(Apply(records, Reserving(candidate)), Activating(candidate))
    ensures r in records || (Alike(candidate, r) && r !in Apply(records, Reserving(candidate)))
  {
    var reserved := Apply(records, Reserving(candidate));
    if r in reserved {
      ActiveAfter(records, Reserving(candidate), r);
    } else {
      ActiveAfter(reserved, Activating(candidate), r);
    }
  }

  /** Unless it loses the issuer, an approval keeps every active record accounted for. */
  lemma ApproveAccounts(st: Store, policy: Policy, request: Request, reserve: Write, env: Installation)
    requires request.Valid() && NoX509Issuer(policy) && Valid(st.registry) && Accounted(st)
    requires !LosesIssuer(st, policy, request, reserve, env)
    ensures Accounted(Approve(st, policy, request, reserve, env).0)
  {
    var next := Approve(st, policy, request, reserve, env).0;
    ApproveLeaves(st, policy, request, reserve, env);
    CandidateAccounted(st, policy, request, reserve, env);
    forall r | r in next.registry && r.status == Active ensures AccountedFor(next, r) {
      if r in st.registry {
        assert AccountedFor(st, r);
        if next.ca != st.ca { ProposalKeepsIssued(st, policy, request, r); }
      } else {
        NewlyActive(st.registry, request.candidate, r);
        AlikeAccounted(next, request.candidate, r);
      }
    }
  }

  /** A reservation that lands hands over to the installation. */
  lemma ApproveReaches(st: Store, policy: Policy, request: Request, reserve: Write, env: Installation)
    requires CheckApproval(st, request.candidate).Ok? && Valid(Apply(st.registry, Reserving(request.candidate)))
    requires Authorize(policy, st.ca, request).Ok?
    requires CheckApproval(st, request.candidate).value.1 ==> reserve == Lands
    ensures Approve(st, policy, request, reserve, env)
            == ApproveReserved(st.(registry := Apply(st.registry, Reserving(request.candidate))), policy, request, env)
  {
    AuthorizedIsPermitted(policy, st.ca, request);
    CheckedReserve(st, request.candidate);
  }

  /** Reserving makes nothing active. */
  lemma ReservedNotActive(records: seq<Record>, candidate: Record)
    requires Reserve(records, candidate).Ok? && Distinct(Apply(records, Reserving(candidate)))
             && candidate.status == Pending
    requires MatchingStatus(records, candidate) != Some(Active)
    ensures MatchingStatus(Apply(records, Reserving(candidate)), candidate) != Some(Active)
  {
    if LiveIndex(records, candidate.identity).None? {
      HeldRecord(records + [candidate], |records|, candidate);
    }
  }

  lemma LostInstall(st: Store, ca: seq<Value>, records: seq<Record>, env: Installation)
    requires Valid(records) && env.SaveOutlivesRollback()
    ensures Install(st, ca, Some(records), env).0 == st.(registry := records)
  {}

  lemma LostStore(st: Store, policy: Policy, request: Request, reserve: Write, env: Installation)
    requires request.Valid() && Valid(st.registry) && LosesIssuer(st, policy, request, reserve, env)
    ensures var activated := Apply(Apply(st.registry, Reserving(request.candidate)), Activating(request.candidate));
            Approve(st, policy, request, reserve, env).0 == st.(registry := activated)
  {
    var candidate := request.candidate;
    var reserved := Apply(st.registry, Reserving(candidate));
    CheckedReserve(st, candidate);
    ApplyKeepsValid(st.registry, Reserving(candidate));
    ApplyKeepsValid(reserved, Activating(candidate));
    ApproveReaches(st, policy, request, reserve, env);
    ReservedNotActive(st.registry, candidate);
    LostInstall(st.(registry := reserved), Authorize(policy, st.ca, request).value, Activated(reserved, candidate),
        env);
  }

  /** An approval that loses the issuer leaves its candidate active and unaccounted for. */
  lemma LostIsUnaccounted(st: Store, policy: Policy, request: Request, reserve: Write, env: Installation)
    requires request.Valid() && Valid(st.registry) && LosesIssuer(st, policy, request, reserve, env)
    ensures !Accounted(Approve(st, policy, request, reserve, env).0)
  {
    var candidate := request.candidate;
    var reserved := Apply(st.registry, Reserving(candidate));
    var next := st.(registry := Apply(reserved, Activating(candidate)));
    CheckedReserve(st, candidate);
    OwnReservationAccepted(st.registry, candidate);
    var i := AcceptedAt(reserved, candidate, Activating(candidate));
    assert next.registry[i] in next.registry;
    if AccountedFor(next, next.registry[i]) { AlikeAccounted(next, next.registry[i], candidate); }
    LostStore(st, policy, request, reserve, env);
  }

  /** Exactly those approvals break the accounting. */
  lemma LosesIssuerExactly(st: Store, policy: Policy, request: Request, reserve: Write, env: Installation)
    requires request.Valid() && NoX509Issuer(policy) && Valid(st.registry) && Accounted(st)
    ensures Accounted(Approve(st, policy, request, reserve, env).0) <==> !LosesIssuer(st, policy, request, reserve, env)
  {
    if LosesIssuer(st, policy, request, reserve, env) {
      LostIsUnaccounted(st, policy, request, reserve, env);
    } else {
      ApproveAccounts(st, policy, request, reserve, env);
    }
  }

  /** A reserved candidate is accepted by the check that activates it. */
  lemma OwnReservationAccepted(records: seq<Record>, candidate: Record)
    requires Reserve(records, candidate).Ok? && candidate.Live()
    ensures CheckCandidate(Apply(records, Reserving(candidate)), candidate).Ok?
  {
    CheckCandidateExact(records, candidate);
    CheckCandidateExact(Apply(records, Reserving(candidate)), candidate);
  }

  // ---- The other commands ----

  lemma ImportAccounts(st: Store, denials: Denials, candidate: Record, reformatted: bool, env: Installation)
    requires candidate.PendingCandidate() && candidate.key.SshKey? && Accounted(st)
    ensures Accounted(Import(st, denials, candidate, reformatted, env).0)
  {
    var next := Import(st, denials, candidate, reformatted, env).0;
    ImportLeaves(st, denials, candidate, reformatted, env);
    if next.registry != st.registry || next.ca != st.ca { BindKeepsFaces(st.ca, candidate, denials); }
    forall r | r in next.registry && r.status == Active ensures AccountedFor(next, r) {
      if r in st.registry {
        assert AccountedFor(st, r);
      } else {
        ActiveAfter(st.registry, Activating(candidate), r);
        AlikeAccounted(next, candidate, r);
      }
    }
  }

  /** A revocation that takes a provisioner away has tombstoned its record's key. */
  lemma RemovedIsTombstoned(st: Store, scope: Scope, at: Instant, reason: Option<string>, r: Record)
    requires ValidIdentity(r.identity) && r in st.registry && Issued(st.ca, r)
    ensures Issued(Remaining(st.ca, scope), r)
            || Tombstoned(AppendAll(st.ledger, Select(st.registry, scope), at, reason), r.key, r.jwk)
  {
    var f :| f in Faces(st.ca) && Carries(f, r);
    RemainingFaces(st.ca, scope);
    if Removes(scope, f.name, f.kind) {
      ValidIsNameable(r.identity);
      SelectionIsExact(scope, r.identity, f.kind);
      JwkIsNotSshpop();
      AppendAllRecords(st.ledger, Select(st.registry, scope), at, reason);
      assert r in Select(st.registry, scope);
      RecordedIsTombstoned(AppendAll(st.ledger, Select(st.registry, scope), at, reason), r);
    }
  }

  lemma RevokeAccounts(st: Store, scope: Scope, at: Instant, reason: Option<string>, env: Revocation)
    requires AllWellFormed(st.registry) && Accounted(st)
    ensures Accounted(Revoke(st, scope, at, reason, env).0)
  {
    var next := Revoke(st, scope, at, reason, env).0;
    RevokeLeaves(st, scope, at, reason, env);
    AppendAllRecords(st.ledger, Select(st.registry, scope), at, reason);
    forall r | r in next.registry && r.status == Active ensures AccountedFor(next, r) {
      if r !in st.registry { ActiveAfter(st.registry, Operation.Revoking(Select(st.registry, scope), at), r); }
      assert WellFormed(r) && AccountedFor(st, r);
      if Tombstoned(st.ledger, r.key, r.jwk) {
        TombstonedStays(st.ledger, next.ledger, r.key, r.jwk);
      } else if next.ca != st.ca {
        RemovedIsTombstoned(st, scope, at, reason, r);
      }
    }
  }

  /** A provisioner that policy application retires held a tombstoned key of its record. */
  lemma RetiredIsTombstoned(st: Store, f: Face, r: Record)
    requires ValidIdentity(r.identity) && (r.identity.X509? ==> r.key.X509Key?)
    requires Carries(f, r) && Retired(st.ledger.x509, f) == Ok(true)
    ensures Tombstoned(st.ledger, r.key, r.jwk)
  {
    ValidIsNameable(r.identity);
    ParseInvertsBuild(r.identity);
    assert ACME[0] == 'A' && JWK[0] == 'J';
    var t :| t in st.ledger.x509 && (t.jwk == r.jwk || t.key == r.key);
    assert t in st.ledger.ssh + st.ledger.x509;
  }

  lemma ApplyAccounts(st: Store, policy: Policy, seen: nat, policyChanged: bool, env: Installation)
    requires AllWellFormed(st.registry) && Accounted(st)
    ensures Accounted(ApplyCa(st, policy, seen, policyChanged, env).0)
  {
    var next := ApplyCa(st, policy, seen, policyChanged, env).0;
    ApplyLeaves(st, policy, seen, policyChanged, env);
    forall r | r in next.registry && r.status == Active ensures AccountedFor(next, r) {
      assert AccountedFor(st, r) && WellFormed(r);
      if Issued(st.ca, r) {
        var f :| f in Faces(st.ca) && Carries(f, r);
        if f !in Faces(next.ca) { RetiredIsTombstoned(st, f, r); }
      }
    }
  }

  /** Nothing becomes active whose keys the ledger holds, whatever the registry holds. */
  lemma OnlyUntombstonedActivates(st: Store, cmd: Command, r: Record)
    requires cmd.Admissible() && r in Execute(st, cmd).0.registry && r.status == Active && r !in st.registry
    ensures !Tombstoned(st.ledger, r.key, r.jwk)
  {
    match cmd
    case Approving(policy, request, reserve, env) =>
      ApproveLeaves(st, policy, request, reserve, env);
      CheckedReserve(st, request.candidate);
      NewlyActive(st.registry, request.candidate, r);
    case Importing(denials, candidate, reformatted, env) =>
      ImportLeaves(st, denials, candidate, reformatted, env);
      ActiveAfter(st.registry, Activating(candidate), r);
    case Revoking(scope, at, reason, faults) =>
      RevokeLeaves(st, scope, at, reason, faults);
      ActiveAfter(st.registry, Operation.Revoking(Select(st.registry, scope), at), r);
    case Applying(policy, seen, policyChanged, env) => ApplyLeaves(st, policy, seen, policyChanged, env);
  }

  // ---- Runs ----

  /** A command that loses an issuer; only an approval can. */
  predicate Loses(st: Store, cmd: Command) {
    cmd.Approving? && LosesIssuer(st, cmd.policy, cmd.request, cmd.reserve, cmd.env)
  }

  lemma StepAccountsExactly(st: Store, cmd: Command)
    requires Valid(st.registry) && Accounted(st) && cmd.Admissible() && cmd.SparesPins()
    ensures Accounted(Execute(st, cmd).0) <==> !Loses(st, cmd)
  {
    match cmd
    case Approving(policy, request, reserve, env) => LosesIssuerExactly(st, policy, request, reserve, env);
    case Importing(denials, candidate, reformatted, env) => ImportAccounts(st, denials, candidate, reformatted, env);
    case Revoking(scope, at, reason, faults) => RevokeAccounts(st, scope, at, reason, faults);
    case Applying(policy, seen, policyChanged, env) => ApplyAccounts(st, policy, seen, policyChanged, env);
  }

  /** Some command of a run loses an issuer. */
  predicate EverLoses(st: Store, cmds: seq<Command>)
    requires forall c :: c in cmds ==> c.Admissible()
    decreases |cmds|
  {
    cmds != [] && (Loses(st, cmds[0]) || EverLoses(Execute(st, cmds[0]).0, cmds[1..]))
  }

  /** Every store of a run, from the first to the last, is accounted for. */
  predicate AlwaysAccounted(st: Store, cmds: seq<Command>)
    requires forall c :: c in cmds ==> c.Admissible()
    decreases |cmds|
  {
    Accounted(st) && (cmds != [] ==> AlwaysAccounted(Execute(st, cmds[0]).0, cmds[1..]))
  }

  lemma IssuedHasLiveKey(items: seq<Value>, r: Record)
    requires Issued(items, r)
    ensures LiveKey(items, ProvisionerName(r.identity)) != Ok(None)
  {
    OnePlace(items, ProvisionerName(r.identity), 0);
    var f :| f in Faces(items) && Carries(f, r);
    var i := FaceAt(items, f);
  }

  lemma ActiveHasLiveKey(st: Store, candidate: Record)
    requires Accounted(st) && MatchingStatus(st.registry, candidate) == Some(Active)
    requires !Tombstoned(st.ledger, candidate.key, candidate.jwk)
    ensures LiveKey(st.ca, ProvisionerName(candidate.identity)) != Ok(None)
  {
    var r :| r in st.registry && r.Live() && r.identity == candidate.identity && r.SameKeys(candidate)
        && r.status == Active;
    assert AccountedFor(st, r);
    AlikeAccounted(st, r, candidate);
    IssuedHasLiveKey(st.ca, candidate);
  }

  /** Where every active record is accounted for, approval never finds one active without its provisioner. */
  lemma NeverActiveButMissing(st: Store, candidate: Record)
    requires Accounted(st)
    ensures CheckApproval(st, candidate) != Err(ActiveButMissing)
  {
    if !Tombstoned(st.ledger, candidate.key, candidate.jwk) && MatchingStatus(st.registry, candidate) == Some(Active) {
      ActiveHasLiveKey(st, candidate);
    }
  }

  /**
   From a consistent start, every store of a run holds, for each active record, its provisioner or a
   tombstoned key, exactly when no approval of the run loses its issuer; such a run never reaches a
   store where approval refuses for an active but missing provisioner.
   */
  lemma {:induction false} RunsStayAccounted(st: Store, cmds: seq<Command>, candidate: Record)
    requires Valid(st.registry) && Accounted(st)
    requires forall c :: c in cmds ==> c.Admissible() && c.SparesPins()
    ensures AlwaysAccounted(st, cmds) <==> !EverLoses(st, cmds)
    ensures !EverLoses(st, cmds) ==> CheckApproval(RunAll(st, cmds), candidate) != Err(ActiveButMissing)
    decreases |cmds|
  {
    if cmds == [] {
      NeverActiveButMissing(st, candidate);
    } else {
      assert cmds[0] in cmds;
      ExecuteKeepsValid(st, cmds[0]);
      StepAccountsExactly(st, cmds[0]);
      if !Loses(st, cmds[0]) { RunsStayAccounted(Execute(st, cmds[0]).0, cmds[1..], candidate); }
    }
  }

  // ---- The refusal is reachable ----

  const EMPTY_STORE := Store([], Ledger([], []), [])

  function SampleRequest(pin: Templates.CertificateKey): Request {
    Request(Record(Identity.X509("h", "n"), Pending, X509Key(pin), SampleKey(), 0, None), SampleKey())
  }

  function SamplePolicy(): Policy {
    Policy(None, None, [Cert("h", "n", true, "24h", Some("{}"))], map[], Denials("", "", ""))
  }

  lemma FirstApproval(candidate: Record)
    requires candidate.status == Pending
    ensures CheckApproval(EMPTY_STORE, candidate) == Ok(([candidate], true)) && MatchingStatus([], candidate) == None
    ensures Apply([], Reserving(candidate)) == [candidate]
    ensures Apply([candidate], Activating(candidate)) == [candidate.With(Active, None)]
  {
    assert Places([], ProvisionerName(candidate.identity)) == [];
    assert [] + [candidate] == [candidate];
    CheckCandidateExact([candidate], candidate);
    assert LiveIndex([candidate], candidate.identity) == Some(0);
    assert [candidate][0 := candidate.With(Active, None)] == [candidate.With(Active, None)];
  }

  lemma RetryWithoutIssuer(candidate: Record)
    requires candidate.status == Pending
    ensures CheckApproval(EMPTY_STORE.(registry := [candidate.With(Active, None)]), candidate) == Err(ActiveButMissing)
  {
    var records := [candidate.With(Active, None)];
    CheckCandidateExact(records, candidate);
    assert LiveIndex(records, candidate.identity) == Some(0);
    assert Places([], ProvisionerName(candidate.identity)) == [];
  }

  lemma FirstX509Authorized(policy: Policy, request: Request, cert: Cert)
    requires request.candidate.identity.X509? && request.candidate.key.X509Key? && cert.body.Some?
    requires ActiveCert(policy.certs, request.candidate.identity.host, request.candidate.identity.name) == Some(cert)
    ensures Authorize(policy, [], request).Ok?
  {
    var desired := X509Issuer(policy, request.jwk, cert, request.candidate.key.der).value;
    FirstUpsert(desired) by { X509IssuerParts(policy, request.jwk, cert, request.candidate.key.der); }
    UpsertOfDesired(policy, request, desired);
  }

  lemma UpsertOfDesired(policy: Policy, request: Request, desired: Value)
    requires request.candidate.identity.X509? && Desired(policy, request) == Ok(desired)
    ensures Authorize(policy, [], request) == Upsert([], desired)
  {}

  lemma FirstUpsert(desired: Value)
    requires NameOf(desired).Some?
    ensures Upsert([], desired).Ok?
  {
    assert Places([], NameOf(desired).value) == [];
  }

  lemma SampleAuthorized(pin: Templates.CertificateKey)
    ensures Authorize(SamplePolicy(), [], SampleRequest(pin)).Ok?
  {
    var cert := Cert("h", "n", true, "24h", Some("{}"));
    assert ActiveCert([cert], "h", "n") == Some(cert);
    FirstX509Authorized(SamplePolicy(), SampleRequest(pin), cert);
  }

  lemma FirstApprovalLost(policy: Policy, request: Request)
    requires request.Valid() && Authorize(policy, [], request).Ok?
    ensures Approve(EMPTY_STORE, policy, request, Lands, SMOOTH.(save := LandsThenFails)).0
            == EMPTY_STORE.(registry := [request.candidate.With(Active, None)])
  {
    FirstApproval(request.candidate);
    FirstApprovalLoses(policy, request);
    LostStore(EMPTY_STORE, policy, request, Lands, SMOOTH.(save := LandsThenFails));
  }

  lemma FirstApprovalLoses(policy: Policy, request: Request)
    requires request.candidate.status == Pending && Authorize(policy, [], request).Ok?
    ensures LosesIssuer(EMPTY_STORE, policy, request, Lands, SMOOTH.(save := LandsThenFails))
  {
    FirstApproval(request.candidate);
    NothingIssued(request.candidate);
    assert SMOOTH.(save := LandsThenFails).SaveOutlivesRollback();
  }

  lemma NothingIssued(r: Record)
    ensures !Issued([], r)
  {
    assert Faces([]) == {};
  }

  /**
   A first approval whose registry save fails in the directory sync after its rename, and whose
   rollback lands, leaves the record active; a retry is then refused as active but missing.
   */
  lemma RefusalIsReachable(pin: Templates.CertificateKey)
    ensures var request := SampleRequest(pin);
            var next := Approve(EMPTY_STORE, SamplePolicy(), request, Lands, SMOOTH.(save := LandsThenFails)).0;
            CheckApproval(next, request.candidate) == Err(ActiveButMissing)
    ensures SampleRequest(pin).Valid() && NoX509Issuer(SamplePolicy()) && Valid(EMPTY_STORE.registry)
            && Accounted(EMPTY_STORE)
  {
    SampleIsAdmissible(pin);
    SampleAuthorized(pin);
    FirstApprovalLost(SamplePolicy(), SampleRequest(pin));
    RetryWithoutIssuer(SampleRequest(pin).candidate);
  }

  lemma SampleIsAdmissible(pin: Templates.CertificateKey)
    ensures SampleRequest(pin).Valid()
  {
    SampleKeyIsMaterial();
    assert ValidHostName("h") && ValidHostName("n");
  }
}
