/**
 X.509 material on a host: enrollment, assessment, renewal and publication
 (`prepare_enrollment`, `assess`, `renew`, `issue` and `publish` in src/x509.rs).

 Every key, clock reading, probe, `step` call and rename result comes from the environment, and a
 process may die between any two changes of the files. A private key file stands for its public key.
 */
module HostRenewal {
  import opened Wrappers
  import Json
  import Templates

  type Key = Templates.CertificateKey
  type Time = int

  /** What `step certificate inspect` makes of a certificate file. */
  datatype Certificate =
    | Garbage
    | Chain(key: Key, notAfter: Time, length: nat, names: seq<string>, usages: set<string>)

  /**
   The renewal credential: the JWK pair and its password, as one directory. A partial one still
   signs while its private JWK and its password are there.
   */
  datatype Credential = Absent | Partial(signs: bool) | Complete(jwk: Json.Value)
  {
    predicate CanSign() { Complete? || (Partial? && signs) }
  }

  datatype Files = Files(cert: Option<Certificate>, key: Option<Key>, pending: Option<Key>, credential: Credential)
  {
    /** The pending key if one is staged, else the live key. */
    function EnrolledKey(): Option<Key> { if pending.Some? then pending else key }

    predicate Matching() { cert.Some? && cert.value.Chain? && key == Some(cert.value.key) }

    predicate SameMaterial(other: Files) { cert == other.cert && key == other.key && pending == other.pending }
  }

  datatype Check = Passes | Breaks | Kills

  /** One rename: done, refused, or interrupted on either side. */
  datatype Rename = Moves | Errs | DiesBefore | DiesAfter
  {
    predicate Moved() { Moves? || DiesAfter? }
  }

  datatype Declaration = Declaration(names: seq<string>, usage: string, ttl: Option<int>)

  // ---- Assessment ----

  datatype Condition = Valid | Missing | Unreadable | NoIntermediate | KeyMismatch | Expired

  datatype Assessment = Assessment(condition: Condition, notAfter: Option<Time>, pending: bool)
  {
    predicate Usable() { condition == Valid }

    predicate RenewalNeeded(ttl: int, now: Time) {
      !Usable() || pending || notAfter.None? || RenewalDue(notAfter.value, ttl, now)
    }
  }

  predicate RenewalDue(notAfter: Time, ttl: int, now: Time) { (notAfter - now) * 3 <= ttl * 2 }

  function Assess(f: Files, now: Time): Assessment {
    if f.cert.None? then Assessment(Missing, None, f.pending.Some?)
    else if f.cert.value.Garbage? then Assessment(Unreadable, None, f.pending.Some?)
    else
      var chain := f.cert.value;
      var condition :=
        if f.key != Some(chain.key) then KeyMismatch
        else if chain.length <= 1 then NoIntermediate
        else if chain.notAfter <= now then Expired
        else Valid;
      Assessment(condition, Some(chain.notAfter), f.pending.Some?)
  }

  // ---- Publishing ----

  datatype Publishing = Publishing(sync: Check, keyRename: Rename, certRename: Rename, directorySync: Check)

  const CLEAN_PUBLISHING := Publishing(Passes, Moves, Moves, Passes)

  datatype Ended = Succeeded | Failed | Died

  function EndOf(c: Check): Ended { match c case Passes => Succeeded case Breaks => Failed case Kills => Died }

  function EndOfRename(r: Rename): Ended { match r case Moves => Succeeded case Errs => Failed case _ => Died }

  function PromoteKey(f: Files): Files { f.(key := f.pending, pending := None) }

  /** The key moves first, so a crash between the renames shows as a mismatch. */
  function Publish(f: Files, candidate: Certificate, env: Publishing): (Files, Ended) {
    if env.sync != Passes then (f, EndOf(env.sync))
    else
      var promoted := if f.pending.Some? && env.keyRename.Moved() then PromoteKey(f) else f;
      if f.pending.Some? && env.keyRename != Moves then (promoted, EndOfRename(env.keyRename))
      else
        var published := if env.certRename.Moved() then promoted.(cert := Some(candidate)) else promoted;
        if env.certRename != Moves then (published, EndOfRename(env.certRename))
          else (published, EndOf(env.directorySync))
  }

  // ---- Issuing ----

  datatype FailureKind = Unavailable | Refused | AfterRenew

  datatype Outcome =
    | Current
    | Busy
    | Published(notAfter: Time)
    | Failure(kind: FailureKind, usable: bool)
    | Dead
  {
    /** Whether `--if-reachable` lets the run succeed anyway. */
    predicate Tolerated() { Failure? && usable && kind != AfterRenew }
  }

  /** `local` covers the secrets' modes, the root, reading the key, staging and the CSR. */
  datatype Issuing = Issuing(
    local: Check, signed: Option<Certificate>, signKills: bool, now: Time, verified: Check, publishing: Publishing)

  /** The candidate check before anything may be replaced. */
  predicate Acceptable(d: Declaration, candidate: Certificate, key: Key, now: Time) {
    && candidate.Chain? && candidate.length > 1
    && multiset(candidate.names) == multiset(d.names) && candidate.usages == {d.usage}
    && candidate.key == key && candidate.notAfter > now
  }

  function Issue(f: Files, d: Declaration, usable: bool, env: Issuing): (Files, Outcome) {
    if f.EnrolledKey().None? || !f.credential.CanSign() || env.local == Breaks then (f, Failure(Refused, usable))
    else if env.local == Kills || env.signKills || env.verified == Kills then (f, Dead)
    else if env.signed.None? then (f, Failure(Unavailable, usable))
    else if !Acceptable(d, env.signed.value, f.EnrolledKey().value, env.now) || env.verified == Breaks then
      (f, Failure(Refused, usable))
    else
      var (next, ended) := Publish(f, env.signed.value, env.publishing);
      match ended
      case Succeeded => (next, Published(env.signed.value.notAfter))
      case Failed => (next, Failure(Refused, false))
      case Died => (next, Dead)
  }

  // ---- Renewing ----

  datatype Lock = Free | Held | Broken

  /**
   `firstRead` and `secondRead` are the two assessments; `lock` is the attempt and `waited` whether
   waiting for a holder succeeded; `probe` is the reachability check, when one is asked for.
   */
  datatype Renewing = Renewing(
    firstRead: Check, assessed: Time, compared: Time, lock: Lock, waited: bool,
    secondRead: Check, reassessed: Time, recompared: Time, probe: Option<bool>, issuing: Issuing, hook: Check)

  /** `before` is what the first assessment saw, before the lock; `f` is what the lock protects. */
  function Renew(before: Files, f: Files, d: Declaration, env: Renewing): (Files, Outcome) {
    if d.ttl.None? || env.firstRead == Breaks then (f, Failure(Refused, false))
    else if env.firstRead == Kills then (f, Dead)
    else
      var first := Assess(before, env.assessed);
      if !first.RenewalNeeded(d.ttl.value, env.compared) then (f, Current)
      else if env.lock == Broken then (f, Failure(Refused, first.Usable()))
      else if env.lock == Held && first.Usable() then (f, Busy)
      else if env.lock == Held && !env.waited then (f, Failure(Unavailable, false))
      else if env.secondRead == Breaks then (f, Failure(Refused, first.Usable()))
      else if env.secondRead == Kills then (f, Dead)
      else RenewLocked(f, d, env)
  }

  function RenewLocked(f: Files, d: Declaration, env: Renewing): (Files, Outcome)
    requires d.ttl.Some?
  {
    var current := Assess(f, env.reassessed);
    if !current.RenewalNeeded(d.ttl.value, env.recompared) then (f, Current)
    else if env.probe == Some(false) then (f, Failure(Unavailable, current.Usable()))
    else
      var (next, outcome) := Issue(f, d, current.Usable(), env.issuing);
      if !outcome.Published? then (next, outcome)
      else match env.hook
        case Passes => (next, outcome)
        case Breaks => (next, Failure(AfterRenew, current.Usable()))
        case Kills => (next, Dead)
  }

  /** The run got as far as changing files. */
  predicate ReachesPublish(before: Files, f: Files, d: Declaration, env: Renewing) {
    && d.ttl.Some? && env.firstRead == Passes && Assess(before, env.assessed).RenewalNeeded(d.ttl.value, env.compared)
    && (env.lock == Free || (env.lock == Held && env.waited && !Assess(before, env.assessed).Usable()))
    && env.secondRead == Passes && Assess(f, env.reassessed).RenewalNeeded(d.ttl.value, env.recompared)
    && env.probe != Some(false) && f.EnrolledKey().Some? && f.credential.CanSign() && env.issuing.local == Passes
    && env.issuing.signed.Some? && !env.issuing.signKills && env.issuing.verified == Passes
    && Acceptable(d, env.issuing.signed.value, f.EnrolledKey().value, env.issuing.now)
  }

  /**
   A renewal changes nothing but by publishing an acceptable certificate; the files change only
   in runs that end published, in a failed hook, in a failure inside publication, or dead.
   */
  lemma RenewChangesOnlyByPublishing(before: Files, f: Files, d: Declaration, env: Renewing)
    ensures var (next, outcome) := Renew(before, f, d, env);
            && (!ReachesPublish(before, f, d, env) ==> next == f)
            && (ReachesPublish(before, f, d, env) ==>
                next == Publish(f, env.issuing.signed.value, env.issuing.publishing).0)
            && (!next.SameMaterial(f) ==>
                  outcome.Published? || outcome.Dead? || outcome == Failure(Refused, false)
                      || (outcome.Failure? && outcome.kind == AfterRenew))
            && next.credential == f.credential
  {}

  /**
   A tolerated failure follows an assessment of this run that found the live pair valid, and changed
   none of the files.
   */
  lemma ToleratedMeansValid(before: Files, f: Files, d: Declaration, env: Renewing)
    requires Renew(before, f, d, env).1.Tolerated()
    ensures Renew(before, f, d, env).0 == f
    ensures Assess(before, env.assessed).condition == Valid || Assess(f, env.reassessed).condition == Valid
  {}

  /** Without a pending key, publication leaves a matching pair wherever it stops. */
  lemma PublishWithoutPendingMatches(before: Files, f: Files, d: Declaration, env: Renewing)
    requires f.pending.None? && f.Matching()
    ensures Renew(before, f, d, env).0.Matching()
  {
    RenewChangesOnlyByPublishing(before, f, d, env);
  }

  // ---- Enrollment ----

  /** The tombstones of the distributed policy. */
  datatype Revoked = Revoked(keys: set<Key>, jwks: set<Json.Value>)

  /**
   Removing an old credential's directory, file by file in any order: done, stopped before the first
   file, stopped among the files, or stopped with only the directory left.
   */
  datatype Clearing = Clears | Untouched | Halfway(signs: bool) | Emptied
  {
    function Leaves(former: Credential): Credential {
      match this case Untouched => former case Halfway(signs) => Partial(signs) case _ => Absent
    }
  }

  /**
   `local` covers the lock, the directories, the mode check and reading the enrolled key; `created`
   is the key pair `step` would generate. A new credential is staged, an old one is cleared, and the
   staged directory is renamed into its place.
   */
  datatype Enrolling = Enrolling(
    local: Check, created: Key, generated: Check, keyRename: Rename,
    credentialMade: Check, freshJwk: Json.Value, clearing: Clearing, credentialRename: Rename, valid: Check)

  datatype Printed = Request(key: Key, jwk: Json.Value) | NotPrinted

  /** Which key the request will carry, and where a fresh one goes. */
  datatype KeyChoice = Keep(key: Key) | CreateLive | CreatePending

  function ChooseKey(f: Files, revoked: Revoked): KeyChoice {
    match f.EnrolledKey()
    case None => CreateLive
    case Some(key) => if key in revoked.keys then CreatePending else Keep(key)
  }

  /** Reuse the enrolled key, or generate one and rename it into place. */
  function EnrollKey(f: Files, revoked: Revoked, env: Enrolling): (Files, Option<Key>) {
    match ChooseKey(f, revoked)
    case Keep(key) => (f, Some(key))
    case choice =>
      if env.generated != Passes then (f, None)
      else
        var placed := if choice.CreateLive? then f.(key := Some(env.created)) else f.(pending := Some(env.created));
        (if env.keyRename.Moved() then placed else f, if env.keyRename == Moves then Some(env.created) else None)
  }

  function EnrollCredential(f: Files, revoked: Revoked, env: Enrolling): (Files, Option<Json.Value>) {
    if f.credential.Partial? then (f, None)
    else if f.credential.Complete? && Json.JwkMaterial(f.credential.jwk).None? then (f, None)
    else if f.credential.Complete? && Json.JwkMaterial(f.credential.jwk).value !in revoked.jwks then
      (f, Some(f.credential.jwk))
    else if env.credentialMade != Passes then (f, None)
    else if f.credential.Complete? && env.clearing != Clears then
      (f.(credential := env.clearing.Leaves(f.credential)), None)
    else
      var cleared := f.(credential := Absent);
      (if env.credentialRename.Moved() then f.(credential := Complete(env.freshJwk)) else cleared,
       if env.credentialRename == Moves then Some(env.freshJwk) else None)
  }

  function Enroll(f: Files, revoked: Revoked, env: Enrolling): (Files, Printed) {
    if env.local != Passes then (f, NotPrinted)
    else
      var (keyed, key) := EnrollKey(f, revoked, env);
      if key.None? then (keyed, NotPrinted)
      else
        var (ready, jwk) := EnrollCredential(keyed, revoked, env);
        if jwk.None? || env.valid != Passes then (ready, NotPrinted) else (ready, Request(key.value, jwk.value))
  }

  /** A request prints the key that is enrolled once it returns. */
  lemma PrintedIsEnrolled(f: Files, revoked: Revoked, env: Enrolling)
    ensures var (next, printed) := Enroll(f, revoked, env);
            printed.Request? ==> next.EnrolledKey() == Some(printed.key) && next.credential == Complete(printed.jwk)
  {}

  /** Enrolling never touches the live pair of a host that has a key, nor a key that is not tombstoned. */
  lemma EnrollKeepsLivePair(f: Files, revoked: Revoked, env: Enrolling)
    ensures var next := Enroll(f, revoked, env).0;
            && next.cert == f.cert && (f.EnrolledKey().Some? ==> next.key == f.key)
            && (f.EnrolledKey().Some? && f.EnrolledKey().value !in revoked.keys ==> next.SameMaterial(f))
            && (Reusable(f.credential, revoked) ==> next.credential == f.credential)
  {}

  predicate Reusable(credential: Credential, revoked: Revoked) {
    credential.Complete? && Json.JwkMaterial(credential.jwk).Some?
        && Json.JwkMaterial(credential.jwk).value !in revoked.jwks
  }

  // ---- Runs ----

  datatype Event =
    | Enrollment(revoked: Revoked, enrolling: Enrolling)
    | Renewal(before: Files, declaration: Declaration, renewing: Renewing)

  function Step(f: Files, event: Event): Files {
    match event
    case Enrollment(revoked, enrolling) => Enroll(f, revoked, enrolling).0
    case Renewal(before, declaration, renewing) => Renew(before, f, declaration, renewing).0
  }

  function Run(f: Files, events: seq<Event>): Files
    decreases |events|
  {
    if events == [] then f else Run(Step(f, events[0]), events[1..])
  }

  /** No enrollment of the run works from a policy that tombstones the key. */
  predicate Spares(events: seq<Event>, key: Key) {
    forall e :: e in events && e.Enrollment? ==> key !in e.revoked.keys
  }

  lemma StepKeepsEnrolled(f: Files, event: Event, key: Key)
    requires f.EnrolledKey() == Some(key) && (event.Enrollment? ==> key !in event.revoked.keys)
    ensures Step(f, event).EnrolledKey() == Some(key)
  {
    match event
    case Enrollment(revoked, enrolling) => EnrollKeepsLivePair(f, revoked, enrolling);
    case Renewal(before, declaration, renewing) => RenewChangesOnlyByPublishing(before, f, declaration, renewing);
  }

  /**
   Whatever runs, fails or dies after a request was printed, its key is still the enrolled one,
   unless an enrollment replaced it after a tombstone.
   */
  lemma {:induction false} PrintedKeyStaysEnrolled(f: Files, events: seq<Event>, key: Key)
    requires f.EnrolledKey() == Some(key) && Spares(events, key)
    ensures Run(f, events).EnrolledKey() == Some(key)
    decreases |events|
  {
    if events != [] {
      assert events[0] in events;
      StepKeepsEnrolled(f, events[0], key);
      PrintedKeyStaysEnrolled(Step(f, events[0]), events[1..], key);
    }
  }

  /** With nothing pending, a matching pair stays matching under its key through any faults. */
  lemma {:induction false} RunsStayMatching(f: Files, events: seq<Event>)
    requires f.pending.None? && f.Matching() && Spares(events, f.key.value)
    ensures var next := Run(f, events); next.pending.None? && next.Matching() && next.key == f.key
    decreases |events|
  {
    if events != [] {
      var event := events[0];
      assert event in events;
      match event {
        case Enrollment(revoked, enrolling) => EnrollKeepsLivePair(f, revoked, enrolling);
        case Renewal(before, declaration, renewing) =>
          RenewChangesOnlyByPublishing(before, f, declaration, renewing);
          PublishWithoutPendingMatches(before, f, declaration, renewing);
      }
      RunsStayMatching(Step(f, event), events[1..]);
    }
  }

  // ---- Replacing the renewal credential ----

  /** An enrollment ends with the old credential or the complete new one. */
  predicate OldOrNew(f: Files, revoked: Revoked, env: Enrolling) {
    var next := Enroll(f, revoked, env).0.credential;
    next == f.credential || next == Complete(env.freshJwk)
  }

  /** An old credential has to be cleared before the new one is renamed into place. */
  predicate MustClear(f: Files, revoked: Revoked) {
    && f.credential.Complete? && Json.JwkMaterial(f.credential.jwk).Some?
    && Json.JwkMaterial(f.credential.jwk).value in revoked.jwks
  }

  /** A run whose clearing is cut short among the files. */
  function CutShort(key: Key, signs: bool): Enrolling {
    Enrolling(Passes, key, Passes, Moves, Passes, Json.SampleKey(), Halfway(signs), Moves, Passes)
  }

  /** Every enrollment ends with the old credential or the new one exactly when no old one has to be cleared. */
  lemma CredentialIsSwappedExactly(f: Files, revoked: Revoked)
    ensures (forall env :: OldOrNew(f, revoked, env)) <==> !MustClear(f, revoked)
  {
    if MustClear(f, revoked) {
      var key: Key :| true;
      CutShortLeavesPartial(f, revoked, key, false);
      assert !OldOrNew(f, revoked, CutShort(key, false));
    } else {
      forall env ensures OldOrNew(f, revoked, env) { KeptWithoutClearing(f, revoked, env); }
    }
  }

  lemma KeptWithoutClearing(f: Files, revoked: Revoked, env: Enrolling)
    requires !MustClear(f, revoked)
    ensures OldOrNew(f, revoked, env)
  {}

  lemma CutShortLeavesPartial(f: Files, revoked: Revoked, key: Key, signs: bool)
    requires MustClear(f, revoked)
    ensures Enroll(f, revoked, CutShort(key, signs)).0.credential == Partial(signs)
  {}

  /** A partial credential stops every enrollment of every later run until someone removes the directory. */
  lemma {:induction false} PartialCredentialBlocks(f: Files, events: seq<Event>, revoked: Revoked, env: Enrolling)
    requires f.credential.Partial?
    ensures Run(f, events).credential.Partial? && Enroll(Run(f, events), revoked, env).1 == NotPrinted
    decreases |events|
  {
    if events != [] {
      if events[0].Renewal? {
        RenewChangesOnlyByPublishing(events[0].before, f, events[0].declaration, events[0].renewing);
      }
      PartialCredentialBlocks(Step(f, events[0]), events[1..], revoked, env);
    }
  }

  /** A complete credential whose JWK is tombstoned, cleared halfway: whatever runs later, no request is printed. */
  lemma InterruptedClearingBlocks(key: Key, signs: bool, events: seq<Event>, revoked: Revoked, env: Enrolling)
    ensures var f, tombstones := Files(None, Some(key), None, Complete(Json.SampleKey())),
            Revoked({}, {Json.SampleKey()});
            var cut := Enrollment(tombstones, CutShort(key, signs));
            && Run(f, [cut]).credential == Partial(signs)
            && Enroll(Run(f, [cut] + events), revoked, env).1 == NotPrinted
  {
    var f, tombstones := Files(None, Some(key), None, Complete(Json.SampleKey())), Revoked({}, {Json.SampleKey()});
    var cut := Enrollment(tombstones, CutShort(key, signs));
    Json.SampleKeyIsMaterial();
    CutShortLeavesPartial(f, tombstones, key, signs);
    assert [cut][1..] == [] && Run(f, [cut]) == Run(Step(f, cut), []);
    assert ([cut] + events)[1..] == events;
    PartialCredentialBlocks(Step(f, cut), events, revoked, env);
  }

  /** Nothing fails, the CA is reachable, and it returns an acceptable certificate for the enrolled key. */
  predicate Accepted(f: Files, d: Declaration, env: Renewing) {
    && d.ttl.Some? && env.firstRead == Passes && env.secondRead == Passes && env.lock == Free
    && env.probe != Some(false)
    && f.credential.CanSign() && f.EnrolledKey().Some? && env.hook == Passes
    && env.issuing.local == Passes && env.issuing.verified == Passes && !env.issuing.signKills
    && env.issuing.signed.Some? && Acceptable(d, env.issuing.signed.value, f.EnrolledKey().value, env.issuing.now)
    && env.issuing.publishing == CLEAN_PUBLISHING
  }

  /** What an accepted renewal leaves: a matching pair under its key, nothing pending, valid until it expires. */
  ghost predicate EndsValid(next: Files, outcome: Outcome, key: Key, env: Renewing) {
    && next.Matching() && next.key == Some(key) && next.pending.None?
    && (forall now :: Assess(next, now).condition == Valid <==> now < next.cert.value.notAfter)
    && (outcome.Current? || outcome == Published(next.cert.value.notAfter))
    && (outcome.Published? ==> env.issuing.now < next.cert.value.notAfter)
    && (outcome.Current? ==> env.assessed < next.cert.value.notAfter || env.reassessed < next.cert.value.notAfter)
  }

  /** An accepted renewal ends with the enrolled key's pair, valid at every instant until its certificate expires. */
  lemma AcceptedRenewalEndsValid(f: Files, d: Declaration, env: Renewing)
    requires Accepted(f, d, env)
    ensures var (next, outcome) := Renew(f, f, d, env); EndsValid(next, outcome, f.EnrolledKey().value, env)
  {}

  /**
   From every state reached after a printed request, one accepted renewal makes the pair valid under
   the printed key.
   */
  lemma PrintedKeyBecomesValid(start: Files, revoked: Revoked, enrolling: Enrolling, events: seq<Event>,
                               d: Declaration, env: Renewing)
    requires Enroll(start, revoked, enrolling).1.Request?
    requires Spares(events, Enroll(start, revoked, enrolling).1.key)
    requires Accepted(Run(Enroll(start, revoked, enrolling).0, events), d, env)
    ensures var f := Run(Enroll(start, revoked, enrolling).0, events);
            var (next, outcome) := Renew(f, f, d, env);
            EndsValid(next, outcome, Enroll(start, revoked, enrolling).1.key, env)
  {
    var key := Enroll(start, revoked, enrolling).1.key;
    PrintedIsEnrolled(start, revoked, enrolling);
    PrintedKeyStaysEnrolled(Enroll(start, revoked, enrolling).0, events, key);
    AcceptedRenewalEndsValid(Run(Enroll(start, revoked, enrolling).0, events), d, env);
  }

  /** A crash between the two renames is what an assessment calls a mismatch, unless the key was not new. */
  lemma CrashBetweenRenamesShows(f: Files, candidate: Certificate, env: Publishing, now: Time)
    requires f.pending.Some? && f.cert.Some? && f.cert.value.Chain?
    requires env.sync == Passes && (env.keyRename == DiesAfter || (env.keyRename == Moves && !env.certRename.Moved()))
    ensures var next := Publish(f, candidate, env).0;
            && next.pending.None? && next.EnrolledKey() == f.EnrolledKey()
            && (Assess(next, now).condition == KeyMismatch <==> f.pending != Some(f.cert.value.key))
            && (f.pending != Some(f.cert.value.key) ==> forall ttl :: Assess(next, now).RenewalNeeded(ttl, now))
  {}

  // ---- What an enrollment prints and a renewal publishes ----

  /**
   A printed request carries the enrolled key unless that is missing or tombstoned, and then a fresh one:
   live when the host had none, staged beside the untouched live pair otherwise. The same goes for the JWK.
   */
  lemma PrintedIsFreshOrReused(f: Files, revoked: Revoked, env: Enrolling)
    requires Enroll(f, revoked, env).1.Request?
    ensures var (next, printed) := Enroll(f, revoked, env);
            var enrolled := if f.pending.Some? then f.pending else f.key;
            && (printed.key in revoked.keys ==> printed.key == env.created)
            && (match enrolled
                case None =>
                  printed.key == env.created && next == f.(key := Some(env.created), credential := next.credential)
                case Some(key) =>
                  if key in revoked.keys
                  then printed.key == env.created
                       && next == f.(pending := Some(env.created), credential := next.credential)
                  else printed.key == key && next == f.(credential := next.credential))
    ensures var (next, printed) := Enroll(f, revoked, env);
            && next.credential == Complete(printed.jwk)
            && (match f.credential
                case Absent => printed.jwk == env.freshJwk
                case Partial(_) => false
                case Complete(jwk) =>
                  && Json.JwkMaterial(jwk).Some?
                  && printed.jwk == if Json.JwkMaterial(jwk).value in revoked.jwks then env.freshJwk else jwk)
  {}

  /** With nothing failing, and no partial or unreadable credential in the way, a request is printed. */
  lemma UnhinderedEnrollmentPrints(f: Files, revoked: Revoked, env: Enrolling)
    requires env.local == Passes && env.generated == Passes && env.keyRename == Moves && env.credentialMade == Passes
    requires env.clearing == Clears && env.credentialRename == Moves && env.valid == Passes
    requires !f.credential.Partial? && (f.credential.Complete? ==> Json.JwkMaterial(f.credential.jwk).Some?)
    ensures Enroll(f, revoked, env).1.Request?
  {}

  /** A pair that works at an instant: a readable complete chain over the live key that has not expired. */
  predicate Works(f: Files, now: Time) {
    && f.cert.Some? && f.cert.value.Chain? && f.key == Some(f.cert.value.key)
    && f.cert.value.length > 1 && now < f.cert.value.notAfter
  }

  /** What each verdict of an assessment means. */
  lemma AssessedExactly(f: Files, now: Time)
    ensures var a := Assess(f, now);
            && (a.condition == Valid <==> Works(f, now))
            && (a.condition == Missing <==> f.cert == None)
            && (a.condition == Unreadable <==> f.cert == Some(Garbage))
            && (a.condition == KeyMismatch <==> f.cert.Some? && f.cert.value.Chain? && f.key != Some(f.cert.value.key))
            && (a.condition == NoIntermediate <==>
                f.cert.Some? && f.cert.value.Chain? && f.key == Some(f.cert.value.key) && f.cert.value.length <= 1)
            && (a.pending <==> f.pending.Some?)
            && (a.notAfter == if f.cert.Some? && f.cert.value.Chain? then Some(f.cert.value.notAfter) else None)
  {}

  /** More than two thirds of the lifetime remain, and no replacement key waits. */
  predicate NotDue(f: Files, ttl: int, now: Time)
    requires f.cert.Some? && f.cert.value.Chain?
  {
    f.pending.None? && (f.cert.value.notAfter - now) * 3 > ttl * 2
  }

  predicate LeftAlone(f: Files, ttl: int, assessed: Time, compared: Time) {
    Works(f, assessed) && NotDue(f, ttl, compared)
  }

  /** A renewal reports current exactly when it gets to a reading of a working pair that is not due. */
  lemma CurrentExactly(before: Files, f: Files, d: Declaration, env: Renewing)
    requires d.ttl.Some? && env.firstRead == Passes && env.lock == Free && env.secondRead == Passes
    ensures Renew(before, f, d, env).1.Current? <==>
            LeftAlone(before, d.ttl.value, env.assessed, env.compared)
            || LeftAlone(f, d.ttl.value, env.reassessed, env.recompared)
  {}

  /** A certificate that a renewal puts in place is for the enrolled key and says what the declaration says. */
  lemma PublishedMeetsDeclaration(before: Files, f: Files, d: Declaration, env: Renewing)
    requires Renew(before, f, d, env).0.cert != f.cert || Renew(before, f, d, env).1.Published?
    ensures var c := Renew(before, f, d, env).0.cert;
            && c.Some? && c.value.Chain? && c == env.issuing.signed && env.issuing.verified == Passes
            && Some(c.value.key) == (if f.pending.Some? then f.pending else f.key)
            && multiset(c.value.names) == multiset(d.names) && c.value.usages == {d.usage}
            && c.value.length > 1 && env.issuing.now < c.value.notAfter
  {}

  /** An accepted renewal that finds something to do publishes. */
  lemma DueRenewalPublishes(f: Files, d: Declaration, env: Renewing)
    requires Accepted(f, d, env)
    requires !LeftAlone(f, d.ttl.value, env.assessed, env.compared)
    requires !LeftAlone(f, d.ttl.value, env.reassessed, env.recompared)
    ensures Renew(f, f, d, env).1 == Published(env.issuing.signed.value.notAfter)
    ensures Renew(f, f, d, env).0.cert == env.issuing.signed
  {}

  predicate Dies(r: Rename) { r == DiesBefore || r == DiesAfter }

  /** The certificate rename is reached: the candidate is on disk, and a pending key has become the live one. */
  predicate ReachesCertificate(f: Files, env: Publishing) {
    env.sync == Passes && (f.pending.Some? ==> env.keyRename == Moves)
  }

  /** The exact files and end of a publication. */
  lemma PublishedExactly(f: Files, candidate: Certificate, env: Publishing)
    ensures var (next, ended) := Publish(f, candidate, env);
            var promoted := f.pending.Some? && env.sync == Passes
                && (env.keyRename == Moves || env.keyRename == DiesAfter);
            var replaced := ReachesCertificate(f, env) && (env.certRename == Moves || env.certRename == DiesAfter);
            && next == Files(if replaced then Some(candidate) else f.cert, if promoted then f.pending else f.key,
                             if promoted then None else f.pending, f.credential)
            && (ended == Succeeded <==>
                ReachesCertificate(f, env) && env.certRename == Moves && env.directorySync == Passes)
            && (ended == Died <==>
                || env.sync == Kills || (env.sync == Passes && f.pending.Some? && Dies(env.keyRename))
                || (ReachesCertificate(f, env)
                    && (Dies(env.certRename) || (env.certRename == Moves && env.directorySync == Kills))))
  {}

  /** The host can ask: it has a key, and of its renewal credential at least what signing takes. */
  predicate CanAsk(f: Files) {
    (f.pending.Some? || f.key.Some?) && (f.credential.Complete? || f.credential == Partial(true))
  }

  /** What is signed is a chain of two or more for the enrolled key, as declared, and has not expired. */
  predicate AsDeclared(f: Files, d: Declaration, c: Certificate, now: Time) {
    && c.Chain? && c.length >= 2 && c.usages == {d.usage} && now < c.notAfter
    && Some(c.key) == (if f.pending.Some? then f.pending else f.key) && multiset(c.names) == multiset(d.names)
  }

  /** Exactly when asking for a certificate publishes one, finds no one to sign it, or dies. */
  lemma IssuedExactly(f: Files, d: Declaration, usable: bool, env: Issuing)
    ensures var outcome := Issue(f, d, usable, env).1;
            var asked := CanAsk(f) && env.local == Passes && !env.signKills && env.verified != Kills;
            var accepted := asked && env.signed.Some? && AsDeclared(f, d, env.signed.value, env.now)
                && env.verified == Passes;
            && (outcome.Published? <==> accepted && Publish(f, env.signed.value, env.publishing).1 == Succeeded)
            && (outcome.Published? ==> outcome.notAfter == env.signed.value.notAfter)
            && (outcome == Failure(Unavailable, usable) <==> asked && env.signed.None?)
            && (outcome.Dead? <==>
                || (CanAsk(f) && env.local != Breaks && (env.local == Kills || env.signKills || env.verified == Kills))
                || (accepted && Publish(f, env.signed.value, env.publishing).1 == Died))
  {}

  /** What an enrollment that has to clear a tombstoned credential leaves of it, wherever it stops. */
  lemma ClearedExactly(f: Files, revoked: Revoked, env: Enrolling)
    requires MustClear(f, revoked)
    requires env.local == Passes && EnrollKey(f, revoked, env).1.Some? && env.credentialMade == Passes
    ensures Enroll(f, revoked, env).0.credential ==
            match env.clearing
            case Untouched => f.credential
            case Halfway(signs) => Partial(signs)
            case Emptied => Absent
            case Clears =>
              if env.credentialRename == Moves || env.credentialRename == DiesAfter then Complete(env.freshJwk)
              else Absent
  {}

  lemma {:induction false} RunSnoc(f: Files, events: seq<Event>, event: Event)
    ensures Run(f, events + [event]) == Step(Run(f, events), event)
    decreases |events|
  {
    if events == [] {
      assert Run(Step(f, event), []) == Step(f, event);
    } else {
      assert (events + [event])[1..] == events[1..] + [event];
      RunSnoc(Step(f, events[0]), events[1..], event);
    }
  }

  // ---- The files of one certificate ----

  class X509Material {
    var cert: Option<Certificate>
    var key: Option<Key>
    var pending: Option<Key>
    var credential: Credential

    constructor (f: Files)
      ensures Snapshot() == f
    {
      cert, key, pending, credential := f.cert, f.key, f.pending, f.credential;
    }

    function Snapshot(): Files
      reads this
    {
      Files(cert, key, pending, credential)
    }

    /** `publish`: sync the candidate, promote a pending key, then replace the certificate. */
    method PublishCandidate(candidate: Certificate, env: Publishing) returns (ended: Ended)
      modifies this`cert, this`key, this`pending
      ensures (Snapshot(), ended) == Publish(old(Snapshot()), candidate, env)
    {
      if env.sync != Passes { return EndOf(env.sync); }
      if pending.Some? {
        if env.keyRename.Moved() { key, pending := pending, None; }
        if env.keyRename != Moves { return EndOfRename(env.keyRename); }
      }
      if env.certRename.Moved() { cert := Some(candidate); }
      if env.certRename != Moves { return EndOfRename(env.certRename); }
      ended := EndOf(env.directorySync);
    }

    /** `issue`: sign for the enrolled key and validate before anything is renamed. */
    method IssueCertificate(d: Declaration, usable: bool, env: Issuing) returns (outcome: Outcome)
      modifies this`cert, this`key, this`pending
      ensures (Snapshot(), outcome) == Issue(old(Snapshot()), d, usable, env)
    {
      var enrolled := if pending.Some? then pending else key;
      if enrolled.None? || !credential.CanSign() || env.local == Breaks { return Failure(Refused, usable); }
      if env.local == Kills || env.signKills || env.verified == Kills { return Dead; }
      if env.signed.None? { return Failure(Unavailable, usable); }
      if !Acceptable(d, env.signed.value, enrolled.value, env.now) || env.verified == Breaks {
        return Failure(Refused, usable);
      }
      var ended := PublishCandidate(env.signed.value, env.publishing);
      match ended {
        case Succeeded => outcome := Published(env.signed.value.notAfter);
        case Failed => outcome := Failure(Refused, false);
        case Died => outcome := Dead;
      }
    }

    /** `renew`; `before` is what the first assessment read, ahead of the lock. */
    method RenewCertificate(before: Files, d: Declaration, env: Renewing) returns (outcome: Outcome)
      modifies this`cert, this`key, this`pending
      ensures (Snapshot(), outcome) == Renew(before, old(Snapshot()), d, env)
    {
      if d.ttl.None? || env.firstRead == Breaks { return Failure(Refused, false); }
      if env.firstRead == Kills { return Dead; }
      var first := Assess(before, env.assessed);
      if !first.RenewalNeeded(d.ttl.value, env.compared) { return Current; }
      if env.lock == Broken { return Failure(Refused, first.Usable()); }
      if env.lock == Held {
        if first.Usable() { return Busy; }
        if !env.waited { return Failure(Unavailable, false); }
      }
      if env.secondRead == Breaks { return Failure(Refused, first.Usable()); }
      if env.secondRead == Kills { return Dead; }
      var current := Assess(Snapshot(), env.reassessed);
      if !current.RenewalNeeded(d.ttl.value, env.recompared) { return Current; }
      if env.probe == Some(false) { return Failure(Unavailable, current.Usable()); }
      outcome := IssueCertificate(d, current.Usable(), env.issuing);
      if outcome.Published? {
        match env.hook {
          case Passes =>
          case Breaks => outcome := Failure(AfterRenew, current.Usable());
          case Kills => outcome := Dead;
        }
      }
    }

    /** `prepare_enrollment`: reuse, create or stage the key, then the credential, and print the request. */
    method PrepareEnrollment(revoked: Revoked, env: Enrolling) returns (printed: Printed)
      modifies this`key, this`pending, this`credential
      ensures (Snapshot(), printed) == Enroll(old(Snapshot()), revoked, env)
    {
      if env.local != Passes { return NotPrinted; }
      var enrolled := if pending.Some? then pending else key;
      if enrolled.None? || enrolled.value in revoked.keys {
        if env.generated != Passes { return NotPrinted; }
        if env.keyRename.Moved() {
          if enrolled.None? { key := Some(env.created); } else { pending := Some(env.created); }
        }
        if env.keyRename != Moves { return NotPrinted; }
        enrolled := Some(env.created);
      }
      var jwk := RenewalCredential(revoked, env);
      if jwk.None? || env.valid != Passes { return NotPrinted; }
      printed := Request(enrolled.value, jwk.value);
    }

    /** `read_renewal_jwk` and `create_renewal_jwk`. */
    method RenewalCredential(revoked: Revoked, env: Enrolling) returns (jwk: Option<Json.Value>)
      modifies this`credential
      ensures (Snapshot(), jwk) == EnrollCredential(old(Snapshot()), revoked, env)
    {
      if credential.Partial? { return None; }
      if credential.Complete? {
        var material := Json.JwkMaterial(credential.jwk);
        if material.None? { return None; }
        if material.value !in revoked.jwks { return Some(credential.jwk); }
      }
      if env.credentialMade != Passes { return None; }
      if credential.Complete? {
        credential := env.clearing.Leaves(credential);
        if env.clearing != Clears { return None; }
      }
      if env.credentialRename.Moved() { credential := Complete(env.freshJwk); }
      jwk := if env.credentialRename == Moves then Some(env.freshJwk) else None;
    }
  }
}
