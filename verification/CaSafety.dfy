/** What every step of the CA enrollment protocol keeps, and safety over whole runs. */
module CaSafety {
  import opened Wrappers
  import opened Json
  import opened Names
  import opened Registry
  import opened Ledger
  import opened Issuers
  import opened Reconciliation
  import opened CaOrigin
  import Templates

  // ---- Registry facts the steps rest on ----

  /** Same identity and keys at every old position; a tombstone stays one. */
  predicate Grows(records: seq<Record>, next: seq<Record>) {
    && |records| <= |next|
    && forall i :: 0 <= i < |records| ==>
         next[i].identity == records[i].identity && next[i].SameKeys(records[i])
             && (!records[i].Live() ==> next[i] == records[i])
  }

  lemma ApplyGrows(records: seq<Record>, op: Operation)
    ensures Grows(records, Apply(records, op))
  {
    forall i | 0 <= i < |records|
      ensures Apply(records, op)[i].identity == records[i].identity && Apply(records, op)[i].SameKeys(records[i])
      ensures !records[i].Live() ==> Apply(records, op)[i] == records[i]
    {
      ApplyKeepsRecords(records, op, i);
    }
  }

  /** Reserving and activating keep live records live. */
  predicate KeepsLive(records: seq<Record>, next: seq<Record>) {
    |records| <= |next| && forall i :: 0 <= i < |records| && records[i].Live() ==>
      next[i].Live() && next[i].identity == records[i].identity && next[i].SameKeys(records[i])
  }

  lemma ApplyKeepsLive(records: seq<Record>, op: Operation)
    requires !op.Revoking?
    ensures KeepsLive(records, Apply(records, op))
  {}

  /** A reservation that the approval check accepted is the registry operation. */
  lemma CheckedReserve(st: Store, candidate: Record)
    requires CheckApproval(st, candidate).Ok?
    ensures Reserve(st.registry, candidate) == Ok(CheckApproval(st, candidate).value)
    ensures CheckApproval(st, candidate).value.0 == Apply(st.registry, Reserving(candidate))
    ensures !CheckApproval(st, candidate).value.1 ==> CheckApproval(st, candidate).value.0 == st.registry
    ensures !Tombstoned(st.ledger, candidate.key, candidate.jwk)
  {}

  lemma ApproveReservedLeaves(st: Store, policy: Policy, request: Request, env: Installation)
    ensures var next := ApproveReserved(st, policy, request, env).0;
            && next.ledger == st.ledger
            && (next.registry == st.registry || next.registry == Apply(st.registry, Activating(request.candidate)))
            && (next.ca == st.ca || Authorize(policy, st.ca, request) == Ok(next.ca))
            && (next.registry != st.registry ==> Authorize(policy, st.ca, request).Ok?)
            && (next.registry != st.registry && Authorize(policy, st.ca, request) != Ok(next.ca) ==>
                env.SaveOutlivesRollback())
  {
    var ca := Authorize(policy, st.ca, request);
    if ca.Ok? { InstallLeaves(st, ca.value, Some(Activated(st.registry, request.candidate)), env); }
  }

  /** Where an approval can stop before its installation. */
  lemma ApproveShape(st: Store, policy: Policy, request: Request, reserve: Write, env: Installation)
    ensures var reserved := st.(registry := Apply(st.registry, Reserving(request.candidate)));
            || Approve(st, policy, request, reserve, env).0 == st
            || (CheckApproval(st, request.candidate).Ok? && Approve(st, policy, request, reserve, env).0 == reserved)
            || (CheckApproval(st, request.candidate).Ok?
                && (CheckApproval(st, request.candidate).value.1 ==> reserve == Lands)
                && Approve(st, policy, request, reserve, env) == ApproveReserved(reserved, policy, request, env))
  {
    if CheckApproval(st, request.candidate).Ok? { CheckedReserve(st, request.candidate); }
  }

  /** Every store an approval can leave. */
  lemma ApproveLeaves(st: Store, policy: Policy, request: Request, reserve: Write, env: Installation)
    ensures var next := Approve(st, policy, request, reserve, env).0;
            var candidate := request.candidate;
            var reserved := Apply(st.registry, Reserving(candidate));
            && next.ledger == st.ledger
            && (next != st ==> CheckApproval(st, candidate).Ok?)
            && (next.registry == st.registry || next.registry == reserved
                || next.registry == Apply(reserved, Activating(candidate)))
            && (next.ca != st.ca ==>
                  && Authorize(policy, st.ca, request) == Ok(next.ca)
                  && (next.registry == reserved || next.registry == Apply(reserved, Activating(candidate))))
  {
    ApproveShape(st, policy, request, reserve, env);
    ApproveReservedLeaves(st.(registry := Apply(st.registry, Reserving(request.candidate))), policy, request, env);
  }

  /** Every store an import can leave. */
  lemma ImportLeaves(st: Store, denials: Denials, candidate: Record, reformatted: bool, env: Installation)
    requires candidate.key.SshKey?
    ensures var next := Import(st, denials, candidate, reformatted, env).0;
            && next.ledger == st.ledger
            && (next != st ==> !Tombstoned(st.ledger, candidate.key, candidate.jwk))
            && (next.registry == st.registry || next.registry == Apply(st.registry, Activating(candidate)))
            && (next.ca == st.ca || Bind(st.ca, ProvisionerName(candidate.identity), candidate.jwk,
                Blob(candidate.key.canonical), denials) == Ok(next.ca))
            && (next.registry != st.registry ==>
                  Bind(st.ca, ProvisionerName(candidate.identity), candidate.jwk, Blob(candidate.key.canonical),
                      denials).Ok?)
  {
    var bound := Bind(st.ca, ProvisionerName(candidate.identity), candidate.jwk, Blob(candidate.key.canonical),
        denials);
    if bound.Ok? && Activate(st.registry, candidate).Ok? {
      var (proposed, changed) := Activate(st.registry, candidate).value;
      InstallLeaves(st, bound.value, if changed then Some(proposed) else None, env);
    }
  }

  /** The provisioners a revocation that runs through leaves. */
  function SweptCa(st: Store, scope: Scope): seq<Value> {
    if Restarts(st, scope) then Remaining(st.ca, scope) else st.ca
  }

  lemma RemoveIssuersLeaves(st: Store, scope: Scope, env: Installation)
    ensures var (next, outcome) := RemoveIssuers(st, scope, env);
            && next.ledger == st.ledger && next.registry == st.registry
            && (next.ca == st.ca || next.ca == SweptCa(st, scope))
            && (outcome == Done ==> next.ca == SweptCa(st, scope))
  {
    InstallLeaves(st, Remaining(st.ca, scope), None, env);
  }

  lemma MarkSelectedLeaves(st: Store, selected: seq<Record>, at: Instant, save: Write)
    ensures var next := MarkSelected(st, selected, at, save).0;
            && next.ledger == st.ledger && next.ca == st.ca
            && (next.registry == st.registry || next.registry == MarkRevoked(st.registry, selected, at))
  {}

  lemma RevokeRecordedLeaves(st: Store, scope: Scope, at: Instant, env: Revocation)
    ensures var next := RevokeRecorded(st, scope, at, env).0;
            && next.ledger == st.ledger && (next.ca == st.ca || next.ca == SweptCa(st, scope))
            && (next.registry != st.registry ==>
                  next.ca == SweptCa(st, scope)
                      && next.registry == MarkRevoked(st.registry, Select(st.registry, scope), at))
  {
    RemoveIssuersLeaves(st, scope, env.install);
    MarkSelectedLeaves(RemoveIssuers(st, scope, env.install).0, Select(st.registry, scope), at, env.save);
  }

  lemma SweptHasNoneRemovable(st: Store, scope: Scope)
    ensures NoneRemovable(SweptCa(st, scope), scope)
  {
    NoRemovedNames(st.ca, scope);
  }

  /** Every store a revocation can leave, in the order its writes happen. */
  lemma RevokeLeaves(st: Store, scope: Scope, at: Instant, reason: Option<string>, env: Revocation)
    ensures var next := Revoke(st, scope, at, reason, env).0;
            var selected := Select(st.registry, scope);
            && (next != st ==> CheckRevocation(st, scope, at, reason).Ok?)
            && (next.ledger == st.ledger || next.ledger == AppendAll(st.ledger, selected, at, reason))
            && (next.ca != st.ca ==>
                next.ca == SweptCa(st, scope) && next.ledger == AppendAll(st.ledger, selected, at, reason))
            && (next.registry != st.registry ==>
                  && next.ca == SweptCa(st, scope) && next.ledger == AppendAll(st.ledger, selected, at, reason)
                  && next.registry == MarkRevoked(st.registry, selected, at))
  {
    var checked := CheckRevocation(st, scope, at, reason);
    if checked.Ok? { RevokeRecordedLeaves(st.(ledger := checked.value), scope, at, env); }
  }

  predicate NoneRemovable(items: seq<Value>, scope: Scope) {
    forall x :: x in items && NameOf(x).Some? ==> !Removes(scope, NameOf(x), KindOf(x))
  }

  // ---- The ledger ----

  /** No command drops or rewrites a tombstone, whatever the stores hold. */
  lemma ExecuteExtendsLedger(st: Store, cmd: Command)
    requires cmd.Admissible()
    ensures Extends(st.ledger, Execute(st, cmd).0.ledger)
  {
    match cmd
    case Approving(policy, request, reserve, env) => ApproveLeaves(st, policy, request, reserve, env);
    case Importing(denials, candidate, reformatted, env) => ImportLeaves(st, denials, candidate, reformatted, env);
    case Revoking(scope, at, reason, faults) =>
      RevokeLeaves(st, scope, at, reason, faults);
      AppendAllRecords(st.ledger, Select(st.registry, scope), at, reason);
    case Applying(policy, seen, policyChanged, env) =>
      var known := if seen <= |st.ledger.x509| then st.ledger.x509[..seen] else st.ledger.x509;
      var result := ReconcileProvisioners(policy, known, st.ca);
      if result.Ok? { InstallLeaves(st, result.value.0, None, env); }
  }

  /** A command, or an operator replacing the registry file by any other, say an older backup. */
  datatype Event = Run(cmd: Command) | Restore(records: seq<Record>)
  {
    predicate Admissible() { Run? ==> cmd.Admissible() }
  }

  function Step(st: Store, event: Event): Store
    requires event.Admissible()
  {
    match event case Run(cmd) => Execute(st, cmd).0 case Restore(records) => st.(registry := records)
  }

  function Happen(st: Store, events: seq<Event>): Store
    requires forall e :: e in events ==> e.Admissible()
    decreases |events|
  {
    if events == [] then st else Happen(Step(st, events[0]), events[1..])
  }

  lemma {:induction false} HappenExtendsLedger(st: Store, events: seq<Event>)
    requires forall e :: e in events ==> e.Admissible()
    ensures Extends(st.ledger, Happen(st, events).ledger)
    decreases |events|
  {
    if events != [] {
      assert events[0] in events;
      if events[0].Run? { ExecuteExtendsLedger(st, events[0].cmd); }
      HappenExtendsLedger(Step(st, events[0]), events[1..]);
    }
  }

  /** The candidate a command would activate. */
  function CandidateOf(cmd: Command): Option<Record> {
    match cmd
    case Approving(_, request, _, _) => Some(request.candidate)
    case Importing(_, candidate, _, _) => Some(candidate)
    case _ => None
  }

  /**
   A tombstone is permanent. Over every run, with registries restored at will, the ledger only
   grows, and an approval or import of a key it once held leaves all three stores as they are.
   */
  lemma TombstonesArePermanent(st: Store, events: seq<Event>, cmd: Command)
    requires (forall e :: e in events ==> e.Admissible()) && cmd.Admissible() && CandidateOf(cmd).Some?
    requires Tombstoned(st.ledger, CandidateOf(cmd).value.key, CandidateOf(cmd).value.jwk)
    ensures Extends(st.ledger, Happen(st, events).ledger)
    ensures Execute(Happen(st, events), cmd).0 == Happen(st, events) && Execute(Happen(st, events), cmd).1.Refused?
  {
    HappenExtendsLedger(st, events);
    TombstonedStays(st.ledger, Happen(st, events).ledger, CandidateOf(cmd).value.key, CandidateOf(cmd).value.jwk);
  }

  // ---- The registry stays valid ----

  lemma ApproveKeepsValid(st: Store, policy: Policy, request: Request, reserve: Write, env: Installation)
    requires Valid(st.registry) && request.candidate.PendingCandidate()
    ensures Valid(Approve(st, policy, request, reserve, env).0.registry)
  {
    ApproveLeaves(st, policy, request, reserve, env);
    ApplyKeepsValid(st.registry, Reserving(request.candidate));
    ApplyKeepsValid(Apply(st.registry, Reserving(request.candidate)), Activating(request.candidate));
  }

  lemma ImportKeepsValid(st: Store, denials: Denials, candidate: Record, reformatted: bool, env: Installation)
    requires Valid(st.registry) && candidate.PendingCandidate() && candidate.key.SshKey?
    ensures Valid(Import(st, denials, candidate, reformatted, env).0.registry)
  {
    ImportLeaves(st, denials, candidate, reformatted, env);
    ApplyKeepsValid(st.registry, Activating(candidate));
  }

  lemma RevokedRegistry(st: Store, scope: Scope, at: Instant, reason: Option<string>, env: Revocation)
    ensures var next := Revoke(st, scope, at, reason, env).0;
            next.registry == st.registry
                || next.registry == Apply(st.registry, Operation.Revoking(Select(st.registry, scope), at))
  {
    RevokeLeaves(st, scope, at, reason, env);
  }

  lemma RevokeKeepsValid(st: Store, scope: Scope, at: Instant, reason: Option<string>, env: Revocation)
    requires Valid(st.registry)
    ensures Valid(Revoke(st, scope, at, reason, env).0.registry)
  {
    RevokedRegistry(st, scope, at, reason, env);
    ApplyKeepsValid(st.registry, Operation.Revoking(Select(st.registry, scope), at));
  }

  lemma ExecuteKeepsValid(st: Store, cmd: Command)
    requires Valid(st.registry) && cmd.Admissible()
    ensures Valid(Execute(st, cmd).0.registry)
  {
    match cmd
    case Approving(policy, request, reserve, env) => ApproveKeepsValid(st, policy, request, reserve, env);
    case Importing(denials, candidate, reformatted, env) => ImportKeepsValid(st, denials, candidate, reformatted, env);
    case Revoking(scope, at, reason, faults) => RevokeKeepsValid(st, scope, at, reason, faults);
    case Applying(policy, seen, policyChanged, env) => ApplyLeaves(st, policy, seen, policyChanged, env);
  }

  /** Policy application writes `ca.json` alone, and no provisioner there gains or changes a face. */
  lemma ApplyLeaves(st: Store, policy: Policy, seen: nat, policyChanged: bool, env: Installation)
    ensures var next := ApplyCa(st, policy, seen, policyChanged, env).0;
            && next.registry == st.registry && next.ledger == st.ledger && Faces(next.ca) <= Faces(st.ca)
            && forall f :: f in Faces(st.ca) && f !in Faces(next.ca) ==> Retired(st.ledger.x509, f) == Ok(true)
  {
    var known := if seen <= |st.ledger.x509| then st.ledger.x509[..seen] else st.ledger.x509;
    var result := ReconcileProvisioners(policy, known, st.ca);
    if result.Ok? {
      InstallLeaves(st, result.value.0, None, env);
      ReconcileKeepsFaces(policy, known, st.ca);
      forall f | f in Faces(st.ca) && Retired(known, f) == Ok(true) ensures Retired(st.ledger.x509, f) == Ok(true) {
        assert forall t :: t in known ==> t in st.ledger.x509;
      }
    }
  }

  lemma ReconcileKeepsFaces(policy: Policy, x509: seq<Tombstone>, items: seq<Value>)
    requires ReconcileProvisioners(policy, x509, items).Ok?
    ensures var next := ReconcileProvisioners(policy, x509, items).value.0;
            && Faces(next) <= Faces(items)
            && forall f :: f in Faces(items) && f !in Faces(next) ==> Retired(x509, f) == Ok(true)
  {
    var next, kept := ReconcileProvisioners(policy, x509, items).value.0, Survivors(x509, items);
    ReconciledParts(policy, x509, items);
    AlignedFaces(kept, next);
    SurvivingFaces(x509, items);
    ReadableFaces(x509, items);
  }

  lemma ReadableFaces(x509: seq<Tombstone>, items: seq<Value>)
    requires RemoveRetired(x509, items).Ok?
    ensures forall f :: f in Faces(items) ==> Retired(x509, f).Ok?
  {
    RemoveRetiredExact(x509, items);
    forall f | f in Faces(items) ensures Retired(x509, f).Ok? {
      var i := FaceAt(items, f);
      assert items[i] in items;
    }
  }

  lemma AlignedFaces(items: seq<Value>, next: seq<Value>)
    requires Aligned(items, next)
    ensures Faces(next) == Faces(items)
  {
    forall f | f in Faces(next) ensures f in Faces(items) { var i := FaceAt(next, f); assert FaceOf(items[i]) == f; }
    forall f | f in Faces(items) ensures f in Faces(next) { var i := FaceAt(items, f); assert FaceOf(next[i]) == f; }
  }

  lemma SurvivingFaces(x509: seq<Tombstone>, items: seq<Value>)
    ensures forall f :: f in Faces(Survivors(x509, items)) <==> f in Faces(items) && Retired(x509, f) == Ok(false)
  {
    var kept := Survivors(x509, items);
    forall f | f in Faces(kept) ensures f in Faces(items) && Retired(x509, f) == Ok(false) {
      var i := FaceAt(kept, f);
      assert kept[i] in kept;
    }
    forall f | f in Faces(items) && Retired(x509, f) == Ok(false) ensures f in Faces(kept) {
      var i := FaceAt(items, f);
      assert items[i] in kept;
    }
  }

  // ---- Coverage ----

  /** A renewal provisioner: a JWK under a name approval builds. */
  ghost predicate Renewal(f: Face) {
    f.kind == Some(JWK) && exists id: Identity :: id.Nameable() && f.name == Some(ProvisionerName(id))
  }

  predicate Covered(records: seq<Record>, f: Face) { exists r :: r in records && r.Live() && Carries(f, r) }

  /** Live renewal provisioners without a non-revoked record of the same identity and keys. */
  ghost function Uncovered(st: Store): set<Face> {
    set f | f in Faces(st.ca) && Renewal(f) && !Covered(st.registry, f)
  }

  lemma CoveredStays(records: seq<Record>, next: seq<Record>, f: Face)
    requires KeepsLive(records, next) && Covered(records, f)
    ensures Covered(next, f)
  {
    var r :| r in records && r.Live() && Carries(f, r);
    var i :| 0 <= i < |records| && records[i] == r;
    assert next[i] in next && Carries(f, next[i]);
  }

  /** With live records kept and every face old or covered, nothing becomes uncovered. */
  lemma NothingUncovered(st: Store, next: Store)
    requires KeepsLive(st.registry, next.registry)
    requires forall f :: f in Faces(next.ca) ==> f in Faces(st.ca) || Covered(next.registry, f)
    ensures Uncovered(next) <= Uncovered(st)
  {
    forall f | f in Uncovered(next) ensures f in Uncovered(st) {
      if Covered(st.registry, f) { CoveredStays(st.registry, next.registry, f); }
    }
  }

  lemma KeepsLiveTwice(a: seq<Record>, b: seq<Record>, c: seq<Record>)
    requires KeepsLive(a, b) && KeepsLive(b, c)
    ensures KeepsLive(a, c)
  {}

  /** The reservation holds a live record that any provisioner of the candidate also carries. */
  lemma ReservedCovers(st: Store, candidate: Record, d: Face)
    requires CheckApproval(st, candidate).Ok? && candidate.Live() && Carries(d, candidate)
    ensures Covered(Apply(st.registry, Reserving(candidate)), d)
  {
    CheckedReserve(st, candidate);
    var reserved := Apply(st.registry, Reserving(candidate));
    var i := AcceptedAt(st.registry, candidate, Reserving(candidate));
    assert reserved[i] in reserved && Carries(d, reserved[i]);
  }

  /** What an approval proposes is old, or covered by the record it reserved. */
  lemma ProposalIsCovered(st: Store, policy: Policy, request: Request)
    requires request.Valid() && NoX509Issuer(policy)
    requires CheckApproval(st, request.candidate).Ok? && Authorize(policy, st.ca, request).Ok?
    ensures var reserved := Apply(st.registry, Reserving(request.candidate));
            forall f :: f in Faces(Authorize(policy, st.ca, request).value) ==>
                f in Faces(st.ca)
                || Covered(reserved, f)
  {
    var d := AuthorizeExact(policy, st.ca, request);
    ReservedCovers(st, request.candidate, d);
  }

  /** Where an approval can leave the stores, nothing is newly uncovered. */
  lemma ProposalKeepsCoverage(st: Store, policy: Policy, request: Request, next: Store)
    requires request.Valid() && NoX509Issuer(policy)
    requires var reserved := Apply(st.registry, Reserving(request.candidate));
             && KeepsLive(st.registry, next.registry) && KeepsLive(st.registry, reserved)
             && (next.ca != st.ca ==>
                 CheckApproval(st, request.candidate).Ok? && Authorize(policy, st.ca, request) == Ok(next.ca)
                 && KeepsLive(reserved, next.registry))
    ensures Uncovered(next) <= Uncovered(st)
  {
    var reserved := Apply(st.registry, Reserving(request.candidate));
    if next.ca != st.ca {
      ProposalIsCovered(st, policy, request);
      forall f | f in Faces(next.ca) && Covered(reserved, f) ensures Covered(next.registry, f) {
        CoveredStays(reserved, next.registry, f);
      }
    }
    NothingUncovered(st, next);
  }

  lemma KeepsLiveItself(records: seq<Record>)
    ensures KeepsLive(records, records)
  {}

  lemma ApproveKeepsCoverage(st: Store, policy: Policy, request: Request, reserve: Write, env: Installation)
    requires request.Valid() && NoX509Issuer(policy)
    ensures Uncovered(Approve(st, policy, request, reserve, env).0) <= Uncovered(st)
  {
    var reserved := Apply(st.registry, Reserving(request.candidate));
    var activated := Apply(reserved, Activating(request.candidate));
    ApproveLeaves(st, policy, request, reserve, env);
    KeepsLiveItself(st.registry);
    KeepsLiveItself(reserved);
    ApplyKeepsLive(st.registry, Reserving(request.candidate));
    ApplyKeepsLive(reserved, Activating(request.candidate));
    KeepsLiveTwice(st.registry, reserved, activated);
    ProposalKeepsCoverage(st, policy, request, Approve(st, policy, request, reserve, env).0);
  }

  lemma BindKeepsFaces(items: seq<Value>, candidate: Record, denials: Denials)
    requires candidate.key.SshKey? && !candidate.identity.X509?
    requires Bind(items, ProvisionerName(candidate.identity), candidate.jwk, Blob(candidate.key.canonical), denials).Ok?
    ensures var next := Bind(items, ProvisionerName(candidate.identity), candidate.jwk, Blob(candidate.key.canonical),
            denials).value;
            && Faces(next) == Faces(items)
            && (JwkMaterial(candidate.jwk) == Some(candidate.jwk) ==>
                exists f ::
                  f in Faces(items) && Carries(f, candidate))
  {
    var blob := Blob(candidate.key.canonical);
    BlobIsBlob(candidate.key.canonical);
    var next := Bind(items, ProvisionerName(candidate.identity), candidate.jwk, blob, denials).value;
    var i := BindExact(items, candidate.identity, candidate.jwk, blob, denials);
    assert forall k :: 0 <= k < |items| ==> FaceOf(next[k]) == FaceOf(items[k]);
    forall f | f in Faces(next) ensures f in Faces(items) { var k := FaceAt(next, f); }
    forall f | f in Faces(items) ensures f in Faces(next) { var k := FaceAt(items, f); }
    assert FaceOf(items[i]) in Faces(items);
  }

  lemma ImportKeepsCoverage(st: Store, denials: Denials, candidate: Record, reformatted: bool, env: Installation)
    requires candidate.PendingCandidate() && candidate.key.SshKey?
    ensures Uncovered(Import(st, denials, candidate, reformatted, env).0) <= Uncovered(st)
  {
    var next := Import(st, denials, candidate, reformatted, env).0;
    ImportLeaves(st, denials, candidate, reformatted, env);
    ApplyKeepsLive(st.registry, Activating(candidate));
    if next.ca != st.ca { BindKeepsFaces(st.ca, candidate, denials); }
    NothingUncovered(st, next);
  }

  /** In a valid registry a revocation marks exactly the records its scope covers. */
  lemma MarkedIsCovered(records: seq<Record>, scope: Scope, r: Record)
    requires Distinct(records) && r in records
    ensures Selected(Select(records, scope), r) <==> Covers(scope, r.identity)
  {
    if Selected(Select(records, scope), r) {
      var s :| s in Select(records, scope) && s.SameKeys(r);
      SharedKeyMeansSame(records, s, r);
    }
    if Covers(scope, r.identity) {
      assert r in Select(records, scope) && r.SameKeys(r);
    }
  }

  lemma RevokeKeepsCoverage(st: Store, scope: Scope, at: Instant, reason: Option<string>, env: Revocation)
    requires Valid(st.registry)
    ensures Uncovered(Revoke(st, scope, at, reason, env).0) <= Uncovered(st)
  {
    var next := Revoke(st, scope, at, reason, env).0;
    RevokeLeaves(st, scope, at, reason, env);
    SweptHasNoneRemovable(st, scope);
    RemainingFaces(st.ca, scope);
    forall f | f in Faces(next.ca) && Covered(st.registry, f) ensures f in Faces(st.ca) && Covered(next.registry, f) {
      if next.registry != st.registry {
        var r :| r in st.registry && r.Live() && Carries(f, r);
        var k := FaceAt(next.ca, f);
        assert next.ca[k] in next.ca;
        SurvivesMarking(st.registry, scope, at, r, f);
      }
    }
    assert Faces(next.ca) <= Faces(st.ca);
  }

  /** A record whose provisioner the scope does not remove is not marked. */
  lemma SurvivesMarking(records: seq<Record>, scope: Scope, at: Instant, r: Record, f: Face)
    requires Valid(records) && r in records && CarriesKey(f, r) && !Removes(scope, f.name, f.kind)
    ensures r in MarkRevoked(records, Select(records, scope), at)
  {
    ValidIsNameable(r.identity);
    SelectionIsExact(scope, r.identity, f.kind);
    MarkedIsCovered(records, scope, r);
    var i :| 0 <= i < |records| && records[i] == r;
    assert MarkRevoked(records, Select(records, scope), at)[i] == r;
  }

  /** No step, completed or cut short anywhere, adds a renewal provisioner the registry does not cover. */
  lemma StepKeepsCoverage(st: Store, cmd: Command)
    requires Valid(st.registry) && cmd.Admissible() && cmd.SparesPins()
    ensures Uncovered(Execute(st, cmd).0) <= Uncovered(st)
  {
    match cmd
    case Approving(policy, request, reserve, env) => ApproveKeepsCoverage(st, policy, request, reserve, env);
    case Importing(denials, candidate, reformatted, env) => ImportKeepsCoverage(st, denials, candidate, reformatted,
        env);
    case Revoking(scope, at, reason, faults) => RevokeKeepsCoverage(st, scope, at, reason, faults);
    case Applying(policy, seen, policyChanged, env) =>
      ApplyLeaves(st, policy, seen, policyChanged, env);
      NothingUncovered(st, ApplyCa(st, policy, seen, policyChanged, env).0);
  }

  /** A run that starts fully covered stays fully covered, whatever fails or dies in it. */
  lemma {:induction false} RunsStayCovered(st: Store, cmds: seq<Command>)
    requires Valid(st.registry) && forall c :: c in cmds ==> c.Admissible() && c.SparesPins()
    ensures Valid(RunAll(st, cmds).registry) && Uncovered(RunAll(st, cmds)) <= Uncovered(st)
    decreases |cmds|
  {
    if cmds != [] {
      assert cmds[0] in cmds;
      ExecuteKeepsValid(st, cmds[0]);
      StepKeepsCoverage(st, cmds[0]);
      RunsStayCovered(Execute(st, cmds[0]).0, cmds[1..]);
    }
  }

  // ---- Coverage by identity and JWK, whatever policy names its issuers ----

  predicate KeyCovered(records: seq<Record>, f: Face) { exists r :: r in records && r.Live() && CarriesKey(f, r) }

  /** Live renewal provisioners, but for their pins, without a non-revoked record of the same identity and JWK. */
  ghost function UncoveredKeys(st: Store): set<Face> {
    set f | f in Faces(st.ca) && Renewal(f) && !KeyCovered(st.registry, f) :: Unpinned(f)
  }

  lemma KeyCoveredStays(records: seq<Record>, next: seq<Record>, f: Face)
    requires KeepsLive(records, next) && KeyCovered(records, f)
    ensures KeyCovered(next, f)
  {
    var r :| r in records && r.Live() && CarriesKey(f, r);
    var i :| 0 <= i < |records| && records[i] == r;
    assert next[i] in next && CarriesKey(f, next[i]);
  }

  /** With every provisioner keyed as before or covered, and coverage kept, no key becomes uncovered. */
  lemma NoKeyUncovered(st: Store, next: Store)
    requires forall f :: f in Faces(next.ca) ==> KeyedAlike(st.ca, f) || KeyCovered(next.registry, f)
    requires forall f :: f in Faces(next.ca) && KeyCovered(st.registry, f) ==> KeyCovered(next.registry, f)
    ensures UncoveredKeys(next) <= UncoveredKeys(st)
  {
    forall u | u in UncoveredKeys(next) ensures u in UncoveredKeys(st) {
      var f :| f in Faces(next.ca) && Renewal(f) && !KeyCovered(next.registry, f) && u == Unpinned(f);
      var g :| g in Faces(st.ca) && Unpinned(g) == Unpinned(f);
      SameCover(st.registry, f, g);
    }
  }

  lemma SameCover(records: seq<Record>, f: Face, g: Face)
    requires Unpinned(f) == Unpinned(g)
    ensures KeyCovered(records, f) <==> KeyCovered(records, g)
    ensures Renewal(f) <==> Renewal(g)
  {
    assert forall r: Record :: CarriesKey(f, r) <==> CarriesKey(g, r);
  }

  lemma OldIsKeyedAlike(items: seq<Value>, next: seq<Value>)
    requires Faces(next) <= Faces(items)
    ensures forall f :: f in Faces(next) ==> KeyedAlike(items, f)
  {}

  lemma ApproveKeepsKeyCoverage(st: Store, policy: Policy, request: Request, reserve: Write, env: Installation)
    requires request.Valid()
    ensures UncoveredKeys(Approve(st, policy, request, reserve, env).0) <= UncoveredKeys(st)
  {
    var next := Approve(st, policy, request, reserve, env).0;
    var reserved := Apply(st.registry, Reserving(request.candidate));
    ApproveLeaves(st, policy, request, reserve, env);
    ApproveKeepsLive(st, policy, request, reserve, env);
    if next.ca != st.ca {
      var d := AuthorizeKeepsKeys(policy, st.ca, request);
      ReservedCovers(st, request.candidate, d);
      assert KeyCovered(reserved, d);
      KeyCoveredStays(reserved, next.registry, d);
    } else {
      OldIsKeyedAlike(st.ca, next.ca);
    }
    forall f | f in Faces(next.ca) && KeyCovered(st.registry, f) ensures KeyCovered(next.registry, f) {
      KeyCoveredStays(st.registry, next.registry, f);
    }
    NoKeyUncovered(st, next);
  }

  /** An approval keeps live records live, and those of its reservation once it changes `ca.json`. */
  lemma ApproveKeepsLive(st: Store, policy: Policy, request: Request, reserve: Write, env: Installation)
    ensures var next, reserved := Approve(st, policy, request, reserve, env).0,
                Apply(st.registry, Reserving(request.candidate));
            KeepsLive(st.registry, next.registry) && (next.ca != st.ca ==> KeepsLive(reserved, next.registry))
  {
    var reserved := Apply(st.registry, Reserving(request.candidate));
    ApproveLeaves(st, policy, request, reserve, env);
    KeepsLiveItself(st.registry);
    KeepsLiveItself(reserved);
    ApplyKeepsLive(st.registry, Reserving(request.candidate));
    ApplyKeepsLive(reserved, Activating(request.candidate));
    KeepsLiveTwice(st.registry, reserved, Apply(reserved, Activating(request.candidate)));
  }

  lemma ImportKeepsKeyCoverage(st: Store, denials: Denials, candidate: Record, reformatted: bool, env: Installation)
    requires candidate.PendingCandidate() && candidate.key.SshKey?
    ensures UncoveredKeys(Import(st, denials, candidate, reformatted, env).0) <= UncoveredKeys(st)
  {
    var next := Import(st, denials, candidate, reformatted, env).0;
    ImportLeaves(st, denials, candidate, reformatted, env);
    ApplyKeepsLive(st.registry, Activating(candidate));
    KeepsLiveItself(st.registry);
    if next.ca != st.ca { BindKeepsFaces(st.ca, candidate, denials); }
    OldIsKeyedAlike(st.ca, next.ca);
    forall f | f in Faces(next.ca) && KeyCovered(st.registry, f) ensures KeyCovered(next.registry, f) {
      KeyCoveredStays(st.registry, next.registry, f);
    }
    NoKeyUncovered(st, next);
  }

  lemma RevokeKeepsKeyCoverage(st: Store, scope: Scope, at: Instant, reason: Option<string>, env: Revocation)
    requires Valid(st.registry)
    ensures UncoveredKeys(Revoke(st, scope, at, reason, env).0) <= UncoveredKeys(st)
  {
    var next := Revoke(st, scope, at, reason, env).0;
    RevokeLeaves(st, scope, at, reason, env);
    SweptHasNoneRemovable(st, scope);
    RemainingFaces(st.ca, scope);
    OldIsKeyedAlike(st.ca, next.ca);
    forall f | f in Faces(next.ca) && KeyCovered(st.registry, f) ensures KeyCovered(next.registry, f) {
      if next.registry != st.registry {
        var r :| r in st.registry && r.Live() && CarriesKey(f, r);
        var k := FaceAt(next.ca, f);
        assert next.ca[k] in next.ca;
        SurvivesMarking(st.registry, scope, at, r, f);
      }
    }
    NoKeyUncovered(st, next);
  }

  /** No step, under any policy, adds a renewal provisioner without a record of its identity and JWK. */
  lemma StepKeepsKeyCoverage(st: Store, cmd: Command)
    requires Valid(st.registry) && cmd.Admissible()
    ensures UncoveredKeys(Execute(st, cmd).0) <= UncoveredKeys(st)
  {
    match cmd
    case Approving(policy, request, reserve, env) => ApproveKeepsKeyCoverage(st, policy, request, reserve, env);
    case Importing(denials, candidate, reformatted, env) =>
      ImportKeepsKeyCoverage(st, denials, candidate, reformatted, env);
    case Revoking(scope, at, reason, faults) => RevokeKeepsKeyCoverage(st, scope, at, reason, faults);
    case Applying(policy, seen, policyChanged, env) =>
      var next := ApplyCa(st, policy, seen, policyChanged, env).0;
      ApplyLeaves(st, policy, seen, policyChanged, env);
      OldIsKeyedAlike(st.ca, next.ca);
      NoKeyUncovered(st, next);
  }

  /** A run that starts fully covered by identity and JWK stays so, under any policies and faults. */
  lemma {:induction false} RunsStayKeyCovered(st: Store, cmds: seq<Command>)
    requires Valid(st.registry) && forall c :: c in cmds ==> c.Admissible()
    ensures UncoveredKeys(RunAll(st, cmds)) <= UncoveredKeys(st)
    decreases |cmds|
  {
    if cmds != [] {
      assert cmds[0] in cmds;
      ExecuteKeepsValid(st, cmds[0]);
      StepKeepsKeyCoverage(st, cmds[0]);
      RunsStayKeyCovered(Execute(st, cmds[0]).0, cmds[1..]);
    }
  }

  // ---- The ledger stays a valid policy ----

  /** A valid registry and ledger, each tombstone backed by a record. */
  predicate Consistent(st: Store) { Valid(st.registry) && LedgerValid(st.ledger) && Backed(st.ledger, st.registry) }

  lemma BackedGrows(l: Ledger, records: seq<Record>, next: seq<Record>)
    requires Backed(l, records) && Grows(records, next)
    ensures Backed(l, next)
  {
    forall t | t in l.ssh + l.x509
      ensures exists r ::
                r in next && r.key == t.key && r.jwk == t.jwk && r.identity.X509? == t.identity.X509?
                && r.identity.User? == t.identity.User?
    {
      var r :| r in records && r.key == t.key && r.jwk == t.jwk && r.identity.X509? == t.identity.X509?
          && r.identity.User? == t.identity.User?;
      var i :| 0 <= i < |records| && records[i] == r;
      assert next[i] in next && next[i].identity == r.identity;
    }
  }

  lemma RegistryGrows(st: Store, cmd: Command)
    requires cmd.Admissible()
    ensures Grows(st.registry, Execute(st, cmd).0.registry)
  {
    match cmd
    case Approving(policy, request, reserve, env) =>
      ApproveLeaves(st, policy, request, reserve, env);
      ApplyGrows(st.registry, Reserving(request.candidate));
      ApplyGrows(Apply(st.registry, Reserving(request.candidate)), Activating(request.candidate));
    case Importing(denials, candidate, reformatted, env) =>
      ImportLeaves(st, denials, candidate, reformatted, env);
      ApplyGrows(st.registry, Activating(candidate));
    case Revoking(scope, at, reason, faults) =>
      RevokeLeaves(st, scope, at, reason, faults);
      ApplyGrows(st.registry, Operation.Revoking(Select(st.registry, scope), at));
    case Applying(policy, seen, policyChanged, env) =>
      ApplyLeaves(st, policy, seen, policyChanged, env);
  }

  /** Consistency is inductive, and in a consistent store no revocation is refused by the ledger. */
  lemma StepKeepsConsistent(st: Store, cmd: Command)
    requires Consistent(st) && cmd.Admissible()
    ensures Consistent(Execute(st, cmd).0)
    ensures cmd.Revoking? ==> CheckRevocation(st, cmd.scope, cmd.at, cmd.reason) != Err(LedgerRefused)
  {
    var next := Execute(st, cmd).0;
    ExecuteKeepsValid(st, cmd);
    RegistryGrows(st, cmd);
    match cmd {
      case Revoking(scope, at, reason, faults) =>
        RevokeLeaves(st, scope, at, reason, faults);
        PrepareNeverRefused(st.ledger, st.registry, Select(st.registry, scope), at, reason);
      case Approving(policy, request, reserve, env) => ApproveLeaves(st, policy, request, reserve, env);
      case Importing(denials, candidate, reformatted, env) => ImportLeaves(st, denials, candidate, reformatted, env);
      case Applying(policy, seen, policyChanged, env) => ApplyLeaves(st, policy, seen, policyChanged, env);
    }
    BackedGrows(next.ledger, st.registry, next.registry);
  }
}
