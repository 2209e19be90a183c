/**
 The CA enrollment protocol: approve, import, revoke and `apply ca` over the enrollment
 registry, the revocation ledger and `ca.json` (src/bin/grafhome-ca.rs).

 Commands hold the CA lock, so they run one after another. Each is a sequence of durable writes
 and external checks whose results the environment chooses; a process that dies at a write or a
 check leaves exactly the writes that landed, so the stores in the middle of a command are the
 final stores of the runs that die there.
 */
module CaOrigin {
  import opened Wrappers
  import opened Json
  import opened Names
  import opened Registry
  import opened Ledger
  import opened Issuers
  import opened Reconciliation
  import Templates

  /** The three durable stores; `ca` is the provisioners array of `ca.json`. */
  datatype Store = Store(registry: seq<Record>, ledger: Ledger, ca: seq<Value>)

  // ---- What the environment decides ----

  /** An atomic replacement: an error or a death may strike before or after the rename. */
  datatype Write = Lands | Fails | LandsThenFails | Dies | LandsThenDies
  {
    predicate Landed() { Lands? || LandsThenFails? || LandsThenDies? }

    function Result(): Outcome {
      match this case Lands => Done case Fails => Failed case LandsThenFails => Failed case _ => Crashed
    }
  }

  datatype Check = Passes | Breaks | Kills

  datatype Reason =
    | KeyTombstoned
    | InRegistry
    | LiveUnreadable
    | LiveKeyDiffers
    | Unregistered
    | ActiveButMissing
    | CaRefused
    | NotCovered
    | LedgerRefused

  datatype Outcome = Done | Refused(reason: Reason) | Failed | Crashed

  /**
   One installation: the `ca.json` write, the lookup of the step binary after it, the restart with
   its health checks and (for SSH approvals) the token, the registry save, the rollback write.
   */
  datatype Installation = Installation(caWrite: Write, setup: Check, activation: Check, save: Write, rollback: Write)

  {
    /** The installation gets as far as its registry save. */
    predicate ReachesSave() { caWrite == Lands && setup == Passes && activation == Passes }

    /** The save reports an error after its rename, and the rollback that follows lands. */
    predicate SaveOutlivesRollback() { ReachesSave() && save == LandsThenFails && rollback.Landed() }
  }

  const SMOOTH := Installation(Lands, Passes, Passes, Lands, Lands)

  // ---- Installing ca.json ----

  function Written<T>(w: Write, before: T, after: T): T { if w.Landed() then after else before }

  /** `save` validates before it writes anything. */
  function Saving(w: Write, records: seq<Record>): Write { if Valid(records) then w else Fails }

  function Rollback(st: Store, previous: seq<Value>, w: Write): (Store, Outcome) {
    (st.(ca := Written(w, st.ca, previous)), if w.Result() == Crashed then Crashed else Failed)
  }

  /** A failure after the write but before the step binary is found returns without rolling back. */
  function Install(st: Store, ca: seq<Value>, records: Option<seq<Record>>, env: Installation): (Store, Outcome) {
    var written := st.(ca := Written(env.caWrite, st.ca, ca));
    if env.caWrite != Lands then (written, env.caWrite.Result())
    else if env.setup == Breaks then (written, Failed)
    else if env.setup == Kills || env.activation == Kills then (written, Crashed)
    else if env.activation == Breaks then Rollback(written, st.ca, env.rollback)
    else match records
      case None => (written, Done)
      case Some(next) =>
        var w := Saving(env.save, next);
        var saved := written.(registry := Written(w, st.registry, next));
        if w.Result() == Failed then Rollback(saved, st.ca, env.rollback) else (saved, w.Result())
  }

  /** Every store an installation can leave. */
  lemma InstallLeaves(st: Store, ca: seq<Value>, records: Option<seq<Record>>, env: Installation)
    ensures var (next, outcome) := Install(st, ca, records, env);
            && next.ledger == st.ledger && (next.ca == st.ca || next.ca == ca)
            && (next.registry == st.registry || Some(next.registry) == records)
            && (next.registry != st.registry && next.ca != ca ==> env.SaveOutlivesRollback())
            && (outcome == Done ==> next.ca == ca && (records.Some? ==> next.registry == records.value))
            && !outcome.Refused?
  {}

  // ---- Approval ----

  /** The public key of the live provisioner with a name. */
  function LiveKey(items: seq<Value>, name: string): Result<Option<Value>, ()> {
    var places := Places(items, name);
    if places == [] then Ok(None)
    else if |places| > 1 then Err(())
    else match FaceOf(items[places[0]]).Material() case None => Err(()) case Some(jwk) => Ok(Some(jwk))
  }

  /** `reserve_approval_record` up to its save: the registry to hold, and whether it is new. */
  function CheckApproval(st: Store, candidate: Record): Result<(seq<Record>, bool), Reason> {
    if Tombstoned(st.ledger, candidate.key, candidate.jwk) then Err(KeyTombstoned)
    else match Reserve(st.registry, candidate)
      case Err(_) => Err(InRegistry)
      case Ok(reserved) =>
        match LiveKey(st.ca, ProvisionerName(candidate.identity))
        case Err(_) => Err(LiveUnreadable)
        case Ok(None) => if MatchingStatus(st.registry, candidate) == Some(Active) then Err(ActiveButMissing)
          else Ok(reserved)
        case Ok(Some(jwk)) =>
          if jwk != candidate.jwk then Err(LiveKeyDiffers)
          else if MatchingStatus(st.registry, candidate) == None then Err(Unregistered)
          else Ok(reserved)
  }

  /** Checks made before the lock: a host must be known, an X.509 request declared and buildable. */
  predicate Permitted(policy: Policy, request: Request) {
    match request.candidate.identity
    case Host(_) => request.candidate.identity in policy.ssh
    case User(_, _) => true
    case X509(_, _) => Desired(policy, request).Ok?
  }

  function Approve(st: Store, policy: Policy, request: Request, reserve: Write, env: Installation): (Store, Outcome) {
    if !Permitted(policy, request) then (st, Refused(CaRefused))
    else match CheckApproval(st, request.candidate)
    case Err(reason) => (st, Refused(reason))
    case Ok((proposed, added)) =>
      var w := if added then Saving(reserve, proposed) else Lands;
      var reserved := st.(registry := Written(w, st.registry, proposed));
      if w != Lands then (reserved, w.Result()) else ApproveReserved(reserved, policy, request, env)
  }

  lemma AuthorizedIsPermitted(policy: Policy, items: seq<Value>, request: Request)
    requires Authorize(policy, items, request).Ok?
    ensures Permitted(policy, request)
  {}

  /** An X.509 retry after success must not restart the CA for nothing. */
  function ApproveReserved(st: Store, policy: Policy, request: Request, env: Installation): (Store, Outcome) {
    match Authorize(policy, st.ca, request)
    case Err(_) => (st, Refused(CaRefused))
    case Ok(ca) =>
      if request.candidate.identity.X509? && ca == st.ca
          && MatchingStatus(st.registry, request.candidate) == Some(Active)
      then (st, Done)
      else Install(st, ca, Some(Activated(st.registry, request.candidate)), env)
  }

  /** Activating a candidate that was reserved before; one refused after all keeps the registry. */
  function Activated(records: seq<Record>, candidate: Record): seq<Record> { Apply(records, Activating(candidate)) }

  // ---- Import ----

  /** `reformatted` is a live file whose bytes differ although its provisioners do not. */
  function Import(st: Store, denials: Denials, candidate: Record, reformatted: bool,
                  env: Installation): (Store, Outcome)
    requires candidate.key.SshKey?
  {
    if Tombstoned(st.ledger, candidate.key, candidate.jwk) then (st, Refused(KeyTombstoned))
    else match Bind(st.ca, ProvisionerName(candidate.identity), candidate.jwk, Blob(candidate.key.canonical), denials)
      case Err(_) => (st, Refused(CaRefused))
      case Ok(ca) =>
        match Activate(st.registry, candidate)
        case Err(_) => (st, Refused(InRegistry))
        case Ok((proposed, changed)) =>
          if ca != st.ca || reformatted || changed then Install(st, ca, if changed then Some(proposed) else None, env)
          else (st, Done)
  }

  // ---- Revocation ----

  /** What the inventory makes of one provisioner. */
  datatype Entry = Outside | Unreadable | Enrolled(text: string, jwk: Value)

  function EntryOf(scope: Scope, f: Face): Entry {
    match f.name
    case None => Outside
    case Some(name) =>
      match (Inventoried(scope, name), f.Material())
      case (None, _) => Outside
      case (_, None) => Unreadable
      case (Some(id), Some(jwk)) => Enrolled(IdentityText(id), jwk)
  }

  /** The live enrollments of a scope, by display identity; unreadable or duplicated ones are refused. */
  function Inventory(items: seq<Value>, scope: Scope): Option<map<string, Value>> {
    if items == [] then Some(map[])
    else match Inventory(items[..|items| - 1], scope)
      case None => None
      case Some(live) => AddEntry(live, EntryOf(scope, FaceOf(items[|items| - 1])))
  }

  function AddEntry(live: map<string, Value>, entry: Entry): Option<map<string, Value>> {
    match entry
    case Outside => Some(live)
    case Unreadable => None
    case Enrolled(text, jwk) => if text in live then None else Some(live[text := jwk])
  }

  predicate Coverage(selected: seq<Record>, live: map<string, Value>) {
    forall text :: text in live ==>
        exists r ::
          r in selected && r.Live() && IdentityText(r.identity) == text && r.jwk == live[text]
  }

  predicate AnyLive(records: seq<Record>) { exists r :: r in records && r.Live() }

  datatype Revocation = Revocation(ledger: Write, install: Installation, save: Write)

  function CheckRevocation(st: Store, scope: Scope, at: Instant, reason: Option<string>): Result<Ledger, Reason> {
    match Inventory(st.ca, scope)
    case None => Err(LiveUnreadable)
    case Some(live) =>
      if !Coverage(Select(st.registry, scope), live) then Err(NotCovered)
      else match Prepare(st.ledger, Select(st.registry, scope), at, reason)
        case None => Err(LedgerRefused)
        case Some(next) => Ok(next)
  }

  /** Ledger first, then `ca.json`, then the registry. */
  function Revoke(st: Store, scope: Scope, at: Instant, reason: Option<string>, env: Revocation): (Store, Outcome) {
    match CheckRevocation(st, scope, at, reason)
    case Err(refused) => (st, Refused(refused))
    case Ok(next) =>
      var w := if next == st.ledger then Lands else env.ledger;
      var recorded := st.(ledger := Written(w, st.ledger, next));
      if w != Lands then (recorded, w.Result()) else RevokeRecorded(recorded, scope, at, env)
  }

  /** Whether a revocation restarts the CA; an unnamed SSHPOP provisioner alone does not make it. */
  predicate Restarts(st: Store, scope: Scope) {
    RemovedNames(st.ca, scope) != [] || AnyLive(Select(st.registry, scope))
  }

  function RevokeRecorded(st: Store, scope: Scope, at: Instant, env: Revocation): (Store, Outcome) {
    var (removed, outcome) := RemoveIssuers(st, scope, env.install);
    if outcome != Done then (removed, outcome) else MarkSelected(removed, Select(st.registry, scope), at, env.save)
  }

  function RemoveIssuers(st: Store, scope: Scope, env: Installation): (Store, Outcome) {
    if Restarts(st, scope) then Install(st, Remaining(st.ca, scope), None, env) else (st, Done)
  }

  /** Tombstone the selected live records; the file is written only when there are any. */
  function MarkSelected(st: Store, selected: seq<Record>, at: Instant, save: Write): (Store, Outcome) {
    if CountSelected(st.registry, selected) == 0 then (st, Done)
    else
      var records := MarkRevoked(st.registry, selected, at);
      var w := Saving(save, records);
      (st.(registry := Written(w, st.registry, records)), w.Result())
  }

  // ---- Applying policy ----

  /**
   Policy is loaded before the lock is taken, so the newest tombstones may be missing from it:
   `seen` is how many X.509 tombstones it holds. `policyChanged` is the authority policy's flag.
   */
  function ApplyCa(st: Store, policy: Policy, seen: nat, policyChanged: bool, env: Installation): (Store, Outcome) {
    var known := if seen <= |st.ledger.x509| then st.ledger.x509[..seen] else st.ledger.x509;
    match ReconcileProvisioners(policy, known, st.ca)
    case Err(_) => (st, Refused(CaRefused))
    case Ok((next, updated, removed)) =>
      if !policyChanged && updated == [] && removed == [] then (st, Done) else Install(st, next, None, env)
  }

  // ---- Runs ----

  datatype Command =
    | Approving(policy: Policy, request: Request, reserve: Write, env: Installation)
    | Importing(denials: Denials, candidate: Record, reformatted: bool, env: Installation)
    | Revoking(scope: Scope, at: Instant, reason: Option<string>, faults: Revocation)
    | Applying(policy: Policy, seen: nat, policyChanged: bool, env: Installation)
  {
    /** What parsing and policy loading guarantee before the lock is taken. */
    predicate Admissible() {
      match this
      case Approving(_, request, _, _) => request.Valid()
      case Importing(_, candidate, _, _) => candidate.PendingCandidate() && candidate.key.SshKey?
      case Revoking(_, _, _, _) => true
      case Applying(_, _, _, _) => true
    }

    /** An approval does not refresh a policy issuer that is itself an X.509 renewal provisioner. */
    predicate SparesPins() { Approving? ==> NoX509Issuer(policy) }
  }

  function Execute(st: Store, cmd: Command): (Store, Outcome)
    requires cmd.Admissible()
  {
    match cmd
    case Approving(policy, request, reserve, env) => Approve(st, policy, request, reserve, env)
    case Importing(denials, candidate, reformatted, env) => Import(st, denials, candidate, reformatted, env)
    case Revoking(scope, at, reason, faults) => Revoke(st, scope, at, reason, faults)
    case Applying(policy, seen, policyChanged, env) => ApplyCa(st, policy, seen, policyChanged, env)
  }

  function RunAll(st: Store, cmds: seq<Command>): Store
    requires forall c :: c in cmds ==> c.Admissible()
    decreases |cmds|
  {
    if cmds == [] then st else RunAll(Execute(st, cmds[0]).0, cmds[1..])
  }
}
