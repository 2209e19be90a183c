/**
 What the commands of the CA origin do to the three stores when they succeed, and exactly when their
 checks refuse, stated record by record and provisioner by provisioner.
 */
module CaOutcomes {
  import opened Wrappers
  import opened Json
  import opened Names
  import opened Registry
  import opened Ledger
  import opened Issuers
  import opened Reconciliation
  import opened CaOrigin
  import opened CaSafety
  import Admission
  import CaActive
  import CaRecovery
  import Contents
  import Templates
  import Text

  // ---- An installation ----

  /** The failures after which an installation puts the previous `ca.json` back. */
  predicate TakesBack(records: Option<seq<Record>>, env: Installation) {
    && env.caWrite == Lands && env.setup == Passes
    && (env.activation == Breaks
        || (env.activation == Passes && records.Some?
            && (!Valid(records.value) || env.save == Fails || env.save == LandsThenFails)))
  }

  /** The registry save is reached and its rename happens. */
  predicate Saves(records: Option<seq<Record>>, env: Installation) {
    && env.caWrite == Lands && env.setup == Passes && env.activation == Passes && records.Some? && Valid(records.value)
    && (env.save == Lands || env.save == LandsThenFails || env.save == LandsThenDies)
  }

  predicate Lasts(w: Write) { w == Lands || w == LandsThenFails || w == LandsThenDies }

  /** The exact files an installation leaves, and exactly when it succeeds. */
  lemma InstallExactly(st: Store, ca: seq<Value>, records: Option<seq<Record>>, env: Installation)
    ensures var (next, outcome) := Install(st, ca, records, env);
            && next.ledger == st.ledger
            && next.registry == (if Saves(records, env) then records.value else st.registry)
            && next.ca
               == (if Lasts(env.caWrite) && !(TakesBack(records, env) && Lasts(env.rollback)) then ca else st.ca)
            && (outcome == Done <==>
                && env.caWrite == Lands && env.setup == Passes && env.activation == Passes
                && (records.Some? ==> Valid(records.value) && env.save == Lands))
            && !outcome.Refused?
  {}

  // ---- An approval ----

  /** One record of an identity with both keys is live, and none but it. */
  predicate HeldAs(records: seq<Record>, id: Identity, key: CertifiedKey, jwk: Value, status: Status) {
    exists i ::
      0 <= i < |records| && records[i].identity == id && records[i].key == key && records[i].jwk == jwk
      && records[i].status == status
      && forall k :: 0 <= k < |records| && k != i ==> records[k].status == Revoked || records[k].identity != id
  }

  /** Every record stays as it is, but for the one status of a held candidate; a new one goes to the end. */
  predicate OneActivated(records: seq<Record>, next: seq<Record>, candidate: Record) {
    && |records| <= |next| <= |records| + 1
    && (forall k :: 0 <= k < |records| ==>
          next[k] == (if records[k].status != Revoked && records[k].identity == candidate.identity
                      then records[k].(status := Active) else records[k]))
    && (|next| > |records| ==>
        next[|records|] == candidate.(status := Active)
        && forall k :: 0 <= k < |records| ==> records[k].status == Revoked || records[k].identity != candidate.identity)
  }

  lemma ActivatedExactly(records: seq<Record>, candidate: Record)
    requires Valid(records) && candidate.PendingCandidate() && CheckCandidate(records, candidate).Ok?
    ensures var next := Apply(records, Activating(candidate));
            && HeldAs(next, candidate.identity, candidate.key, candidate.jwk, Active)
            && OneActivated(records, next, candidate)
  {
    var next := Apply(records, Activating(candidate));
    ApplyKeepsValid(records, Activating(candidate));
    var i := AcceptedAt(records, candidate, Activating(candidate));
    forall k | 0 <= k < |next| && k != i ensures next[k].status == Revoked || next[k].identity != candidate.identity {
      if next[k].Live() && next[k].identity == candidate.identity { SameLiveIndex(next, i, k); }
    }
  }

  lemma ReservedIsDone(st: Store, policy: Policy, request: Request, env: Installation)
    requires Valid(st.registry) && ApproveReserved(st, policy, request, env).1 == Done
    ensures Authorize(policy, st.ca, request).Ok?
    ensures ApproveReserved(st, policy, request, env).0
            == st.(registry := Activated(st.registry, request.candidate), ca := Authorize(policy, st.ca, request).value)
  {
    var proposed := Authorize(policy, st.ca, request);
    if proposed.Ok? {
      if MatchingStatus(st.registry, request.candidate) == Some(Active) {
        CaActive.ActiveStays(st.registry, request.candidate);
      }
      InstallLeaves(st, proposed.value, Some(Activated(st.registry, request.candidate)), env);
    }
  }

  /** An approval that ends well reserved its record first. */
  lemma DoneIsReserved(st: Store, policy: Policy, request: Request, reserve: Write, env: Installation)
    requires Approve(st, policy, request, reserve, env).1 == Done
    ensures CheckApproval(st, request.candidate).Ok?
    ensures Approve(st, policy, request, reserve, env)
            == ApproveReserved(st.(registry := Apply(st.registry, Reserving(request.candidate))), policy, request, env)
  {
    CaRecovery.RefusedByCheck(st, policy, request, reserve, env);
    CheckedReserve(st, request.candidate);
  }

  lemma ApproveIsDone(st: Store, policy: Policy, request: Request, reserve: Write, env: Installation)
    requires request.candidate.PendingCandidate() && Valid(st.registry)
    requires Approve(st, policy, request, reserve, env).1 == Done
    ensures CheckApproval(st, request.candidate).Ok? && Authorize(policy, st.ca, request).Ok?
    ensures var reserved := Apply(st.registry, Reserving(request.candidate));
            Approve(st, policy, request, reserve, env).0
            == Store(Apply(reserved, Activating(request.candidate)), st.ledger, Authorize(policy, st.ca, request).value)
  {
    DoneIsReserved(st, policy, request, reserve, env);
    ApplyKeepsValid(st.registry, Reserving(request.candidate));
    ReservedIsDone(st.(registry := Apply(st.registry, Reserving(request.candidate))), policy, request, env);
  }

  lemma ReservedThenActivated(records: seq<Record>, candidate: Record)
    requires Valid(records) && candidate.PendingCandidate() && CheckCandidate(records, candidate).Ok?
    ensures Apply(Apply(records, Reserving(candidate)), Activating(candidate)) == Apply(records, Activating(candidate))
  {
    if LiveIndex(records, candidate.identity).None? { CaRecovery.NewlyActivated(records, candidate); }
  }

  /** The store an approval that ends well leaves: the record active, no tombstone, the provisioner of the request. */
  ghost predicate Approved(st: Store, next: Store, policy: Policy, request: Request, i: nat) {
    var id, candidate := request.candidate.identity, request.candidate;
    && !Tombstoned(st.ledger, candidate.key, candidate.jwk) && next.ledger == st.ledger
    && HeldAs(next.registry, id, candidate.key, candidate.jwk, Active)
    && OneActivated(st.registry, next.registry, candidate)
    && OnlyAt(next.ca, ProvisionerName(id), i)
    && Contents.OthersOld(st.ca, next.ca, Contents.Touched(policy, id))
    && Contents.OthersKept(st.ca, next.ca, Contents.Touched(policy, id), id.Host?)
  }

  lemma ApprovalDone(st: Store, policy: Policy, request: Request, reserve: Write, env: Installation) returns (i: nat)
    requires request.candidate.PendingCandidate() && Valid(st.registry)
    requires Approve(st, policy, request, reserve, env).1 == Done
    ensures Authorize(policy, st.ca, request) == Ok(Approve(st, policy, request, reserve, env).0.ca)
    ensures Approved(st, Approve(st, policy, request, reserve, env).0, policy, request, i)
  {
    ApproveIsDone(st, policy, request, reserve, env);
    CheckedReserve(st, request.candidate);
    ReservedThenActivated(st.registry, request.candidate);
    ActivatedExactly(st.registry, request.candidate);
    i := Contents.ApprovalPlaces(policy, st.ca, request);
  }

  /** An SSH approval that ends well; `b` is the second token of the key line. */
  lemma SshApprovalDone(st: Store, policy: Policy, request: Request, reserve: Write, env: Installation,
                        kind: string, b: string, rest: string) returns (i: nat)
    requires request.candidate.PendingCandidate() && Valid(st.registry)
    requires Approve(st, policy, request, reserve, env).1 == Done && !request.candidate.identity.X509?
    requires request.candidate.key == SshKey(kind + " " + b + rest)
    requires kind != "" && b != "" && Templates.IsBlob(kind) && Templates.IsBlob(b)
    requires rest == "" || Templates.IsWhitespace(rest[0])
    ensures var next, id := Approve(st, policy, request, reserve, env).0, request.candidate.identity;
            && Approved(st, next, policy, request, i) && id in policy.ssh
            && Contents.SshProvisioner(next.ca[i], policy, id, request.jwk, b)
  {
    i := ApprovalDone(st, policy, request, reserve, env);
    var k := Contents.SshApprovalInstalls(policy, st.ca, request, kind, b, rest);
  }

  /** A certificate approval that ends well. */
  lemma CertificateApprovalDone(st: Store, policy: Policy, request: Request, reserve: Write, env: Installation)
    returns (i: nat, cert: Cert)
    requires request.candidate.PendingCandidate() && Valid(st.registry)
    requires Approve(st, policy, request, reserve, env).1 == Done && request.candidate.identity.X509?
    ensures var next, id := Approve(st, policy, request, reserve, env).0, request.candidate.identity;
            && Approved(st, next, policy, request, i) && request.candidate.key.X509Key?
            && cert in policy.certs && cert.active && cert.host == id.host && cert.name == id.name
            && Contents.CertificateProvisioner(next.ca[i], policy, cert, request.jwk, request.candidate.key.der)
  {
    i := ApprovalDone(st, policy, request, reserve, env);
    var k;
    k, cert := Contents.CertificateApprovalInstalls(policy, st.ca, request);
  }

  // ---- When an approval passes its checks ----

  /** A record and a candidate can stand side by side, or are the same enrollment. */
  predicate Stands(r: Record, candidate: Record) {
    || (r.status != Revoked && r.identity == candidate.identity && r.key == candidate.key && r.jwk == candidate.jwk)
    || (r.key != candidate.key && r.jwk != candidate.jwk && (r.status != Revoked ==> r.identity != candidate.identity))
  }

  /** The candidate's record, live or active. */
  predicate HasRecord(records: seq<Record>, candidate: Record, active: bool) {
    exists r ::
      r in records && r.identity == candidate.identity && r.key == candidate.key && r.jwk == candidate.jwk
      && (if active then r.status == Active else r.status != Revoked)
  }

  predicate LiveAgrees(st: Store, candidate: Record) {
    var name := ProvisionerName(candidate.identity);
    || ((forall x :: x in st.ca ==> NameOf(x) != Some(name)) && !HasRecord(st.registry, candidate, true))
    || (HasRecord(st.registry, candidate, false)
        && exists i ::
             0 <= i < |st.ca| && OnlyAt(st.ca, name, i) && KeyOf(st.ca[i]).Some?
             && JwkMaterial(KeyOf(st.ca[i]).value) == Some(candidate.jwk))
  }

  lemma MatchingExactly(records: seq<Record>, candidate: Record)
    requires Distinct(records)
    ensures MatchingStatus(records, candidate).Some? <==> HasRecord(records, candidate, false)
    ensures MatchingStatus(records, candidate) == Some(Active) <==> HasRecord(records, candidate, true)
  {
    if HasRecord(records, candidate, false) {
      var r :| r in records && r.identity == candidate.identity && r.SameKeys(candidate) && r.status != Revoked;
      var i :| 0 <= i < |records| && records[i] == r;
      HeldRecord(records, i, candidate);
      forall s | s in records && s.identity == candidate.identity && s.SameKeys(candidate) && s.status == Active
        ensures s == r
      {
        OneLivePerIdentity(records, i, s);
      }
    }
  }

  lemma LiveKeyExactly(items: seq<Value>, name: string, jwk: Value)
    ensures LiveKey(items, name) == Ok(None) <==> forall x :: x in items ==> NameOf(x) != Some(name)
    ensures LiveKey(items, name) == Ok(Some(jwk)) <==>
            exists i ::
              0 <= i < |items| && OnlyAt(items, name, i) && KeyOf(items[i]).Some?
              && JwkMaterial(KeyOf(items[i]).value) == Some(jwk)
  {
    var places := Places(items, name);
    OnePlace(items, name, 0);
    forall i | 0 <= i < |items| && OnlyAt(items, name, i) ensures places == [i] { OnePlace(items, name, i); }
    if |places| == 1 {
      assert places == [places[0]];
      OnePlace(items, name, places[0]);
    }
  }

  lemma CheckedInParts(st: Store, candidate: Record)
    ensures var live, status := LiveKey(st.ca, ProvisionerName(candidate.identity)),
            MatchingStatus(st.registry, candidate);
            CheckApproval(st, candidate).Ok? <==>
            && !Tombstoned(st.ledger, candidate.key, candidate.jwk) && CheckCandidate(st.registry, candidate).Ok?
            && (|| (live == Ok(None) && status != Some(Active))
                || (live == Ok(Some(candidate.jwk)) && status.Some?))
  {}

  lemma AllStand(records: seq<Record>, candidate: Record)
    requires candidate.Live()
    ensures CheckCandidate(records, candidate).Ok? <==> forall r :: r in records ==> Stands(r, candidate)
  {
    CheckCandidateExact(records, candidate);
    forall r | r in records ensures Admits(r, candidate) <==> Stands(r, candidate) {}
  }

  lemma AgreesExactly(st: Store, candidate: Record)
    requires Distinct(st.registry)
    ensures var live, status := LiveKey(st.ca, ProvisionerName(candidate.identity)),
            MatchingStatus(st.registry, candidate);
            LiveAgrees(st, candidate) <==>
            || (live == Ok(None) && status != Some(Active)) || (live == Ok(Some(candidate.jwk)) && status.Some?)
  {
    MatchingExactly(st.registry, candidate);
    LiveKeyExactly(st.ca, ProvisionerName(candidate.identity), candidate.jwk);
  }

  /** No tombstone, no record and no live provisioner stands against the candidate. */
  predicate MayApprove(st: Store, candidate: Record) {
    && (forall t :: t in st.ledger.ssh + st.ledger.x509 ==> t.key != candidate.key && t.jwk != candidate.jwk)
    && (forall r :: r in st.registry ==> Stands(r, candidate)) && LiveAgrees(st, candidate)
  }

  /**
   The check before an approval passes exactly when neither key is tombstoned, every record stands beside
   the candidate, and the live provisioner of its name is absent while the record is not active, or is one
   alone that holds the candidate's renewal key and has a record.
   */
  lemma CheckApprovalExactly(st: Store, candidate: Record)
    requires Valid(st.registry) && candidate.PendingCandidate()
    ensures CheckApproval(st, candidate).Ok? <==> MayApprove(st, candidate)
  {
    CheckedInParts(st, candidate);
    AllStand(st.registry, candidate);
    AgreesExactly(st, candidate);
  }

  // ---- An import ----

  /** An import that ends well: the record active, one provisioner changed, behind the guard of the imported key. */
  lemma ImportDone(st: Store, denials: Denials, candidate: Record, reformatted: bool, env: Installation,
                   kind: string, b: string, rest: string) returns (i: nat)
    requires candidate.PendingCandidate() && Valid(st.registry) && candidate.key == SshKey(kind + " " + b + rest)
    requires kind != "" && b != "" && Templates.IsBlob(kind) && Templates.IsBlob(b)
    requires rest == "" || Templates.IsWhitespace(rest[0])
    requires Import(st, denials, candidate, reformatted, env).1 == Done
    ensures var next, id := Import(st, denials, candidate, reformatted, env).0, candidate.identity;
            && !Tombstoned(st.ledger, candidate.key, candidate.jwk) && next.ledger == st.ledger
            && HeldAs(next.registry, id, candidate.key, candidate.jwk, Active)
            && OneActivated(st.registry, next.registry, candidate)
            && OnlyAt(st.ca, ProvisionerName(id), i) && |next.ca| == |st.ca| && next.ca == st.ca[i := next.ca[i]]
            && JwkMaterial(candidate.jwk).Some? && FaceOf(st.ca[i]).Material() == JwkMaterial(candidate.jwk)
            && Contents.Imported(st.ca[i], next.ca[i], id, denials, b)
  {
    ImportIsDone(st, denials, candidate, reformatted, env);
    i := Contents.ImportInstalls(st.ca, candidate.identity, candidate.jwk, kind, b, rest, denials);
    ActivatedExactly(st.registry, candidate);
  }

  lemma ImportIsDone(st: Store, denials: Denials, candidate: Record, reformatted: bool, env: Installation)
    requires candidate.key.SshKey? && Import(st, denials, candidate, reformatted, env).1 == Done
    ensures var bound := Bind(st.ca, ProvisionerName(candidate.identity), candidate.jwk, Blob(candidate.key.canonical),
            denials);
            && !Tombstoned(st.ledger, candidate.key, candidate.jwk) && CheckCandidate(st.registry, candidate).Ok?
            && bound.Ok?
            && Import(st, denials, candidate, reformatted, env).0
               == Store(Apply(st.registry, Activating(candidate)), st.ledger, bound.value)
  {
    var bound := Bind(st.ca, ProvisionerName(candidate.identity), candidate.jwk, Blob(candidate.key.canonical),
        denials);
    if bound.Ok? && Activate(st.registry, candidate).Ok? {
      var (proposed, changed) := Activate(st.registry, candidate).value;
      InstallLeaves(st, bound.value, if changed then Some(proposed) else None, env);
    }
  }

  // ---- When a revocation passes its checks ----

  predicate Listed(scope: Scope, x: Value) { NameOf(x).Some? && Inventoried(scope, NameOf(x).value).Some? }

  /** The text under which a listed provisioner is looked up. */
  function ListedText(scope: Scope, x: Value): string
    requires Listed(scope, x)
  {
    IdentityText(Inventoried(scope, NameOf(x).value).value)
  }

  predicate Readable(x: Value) { KeyOf(x).Some? && JwkMaterial(KeyOf(x).value).Some? }

  /** Each listed provisioner is readable, and no two go by the same text. */
  predicate Orderly(items: seq<Value>, scope: Scope) {
    && (forall x :: x in items && Listed(scope, x) ==> Readable(x))
    && (forall i, j :: 0 <= i < j < |items| && Listed(scope, items[i]) && Listed(scope, items[j]) ==>
          ListedText(scope, items[i]) != ListedText(scope, items[j]))
  }

  function EntryAt(items: seq<Value>, scope: Scope, i: nat): Entry
    requires i < |items|
  {
    EntryOf(scope, FaceOf(items[i]))
  }

  function Entries(items: seq<Value>, scope: Scope): (r: seq<Entry>)
    ensures |r| == |items| && forall i :: 0 <= i < |items| ==> r[i] == EntryAt(items, scope, i)
  {
    seq(|items|, i requires 0 <= i < |items| => EntryAt(items, scope, i))
  }

  /** No entry is unreadable, and no two go by the same text. */
  predicate Fit(entries: seq<Entry>) {
    && (forall e :: e in entries ==> e != Unreadable)
    && (forall i, j :: 0 <= i < j < |entries| && entries[i].Enrolled? && entries[j].Enrolled? ==>
          entries[i].text != entries[j].text)
  }

  /** The texts and renewal keys of the entries, and nothing else. */
  predicate Lists(live: map<string, Value>, entries: seq<Entry>) {
    && (forall e :: e in entries && e.Enrolled? ==> e.text in live && live[e.text] == e.jwk)
    && (forall text :: text in live ==> exists e :: e in entries && e.Enrolled? && e.text == text)
  }

  /** The inventory, entry by entry. */
  function Collected(entries: seq<Entry>): Option<map<string, Value>> {
    if entries == [] then Some(map[])
    else match Collected(entries[..|entries| - 1])
      case None => None
      case Some(live) => AddEntry(live, entries[|entries| - 1])
  }

  lemma {:induction false} InventoryIsCollected(items: seq<Value>, scope: Scope)
    ensures Inventory(items, scope) == Collected(Entries(items, scope))
  {
    if items != [] {
      var last := |items| - 1;
      InventoryIsCollected(items[..last], scope);
      assert Entries(items, scope)[..last] == Entries(items[..last], scope);
    }
  }

  /** An inventory is taken exactly of fitting entries, and lists them. */
  lemma {:induction false} CollectedExactly(entries: seq<Entry>)
    ensures Collected(entries).Some? <==> Fit(entries)
    ensures Collected(entries).Some? ==> Lists(Collected(entries).value, entries)
  {
    if entries != [] {
      var init, e := entries[..|entries| - 1], entries[|entries| - 1];
      CollectedExactly(init);
      assert entries == init + [e];
      FitSnoc(init, e);
      if Collected(init).Some? { ListsSnoc(Collected(init).value, init, e); }
    }
  }

  lemma FitSnoc(init: seq<Entry>, e: Entry)
    ensures Fit(init + [e]) <==>
            && Fit(init) && e != Unreadable
            && (e.Enrolled? ==> forall d :: d in init && d.Enrolled? ==> d.text != e.text)
  {
    var entries := init + [e];
    assert entries[|init|] == e && forall i :: 0 <= i < |init| ==> entries[i] == init[i];
    if Fit(entries) {
      forall d | d in init ensures d != Unreadable && (d.Enrolled? && e.Enrolled? ==> d.text != e.text) {
        var k :| 0 <= k < |init| && init[k] == d;
        assert entries[k] == d && d in entries;
      }
      assert e in entries;
    }
  }

  lemma ListsSnoc(live: map<string, Value>, init: seq<Entry>, e: Entry)
    requires Lists(live, init)
    ensures var next := AddEntry(live, e);
            && (next.None? <==>
                  e.Unreadable? || (e.Enrolled? && exists d :: d in init && d.Enrolled? && d.text == e.text))
            && (next.Some? ==> Lists(next.value, init + [e]))
  {
    var next := AddEntry(live, e);
    if next.Some? {
      forall text | text in next.value
        ensures exists d :: d in init + [e] && d.Enrolled? && d.text == text
      {
        if text in live {
          var d :| d in init && d.Enrolled? && d.text == text;
          assert d in init + [e];
        } else {
          assert e in init + [e];
        }
      }
    }
  }

  lemma EntryExactly(scope: Scope, x: Value)
    ensures EntryOf(scope, FaceOf(x)) ==
            if !Listed(scope, x) then Outside
            else if !Readable(x) then Unreadable
            else Enrolled(ListedText(scope, x), JwkMaterial(KeyOf(x).value).value)
  {}

  lemma OrderlyExactly(items: seq<Value>, scope: Scope)
    ensures Fit(Entries(items, scope)) <==> Orderly(items, scope)
  {
    var entries := Entries(items, scope);
    forall i | 0 <= i < |items|
      ensures entries[i].Outside? <==> !Listed(scope, items[i])
      ensures entries[i].Unreadable? <==> Listed(scope, items[i]) && !Readable(items[i])
      ensures entries[i].Enrolled? ==> entries[i].text == ListedText(scope, items[i])
    {
      EntryExactly(scope, items[i]);
    }
    if Orderly(items, scope) {
      forall e | e in entries ensures e != Unreadable { var i :| 0 <= i < |entries| && entries[i] == e; }
    }
    if Fit(entries) {
      forall x | x in items && Listed(scope, x) ensures Readable(x) {
        var i :| 0 <= i < |items| && items[i] == x;
        assert entries[i] in entries;
      }
    }
  }

  /**
   The check before a revocation passes exactly when the listed provisioners are orderly and each has a
   live record of the scope under its text and its renewal key.
   */
  lemma CheckRevocationExactly(st: Store, scope: Scope, at: Instant, reason: Option<string>)
    requires Consistent(st)
    ensures CheckRevocation(st, scope, at, reason).Ok? <==>
            Orderly(st.ca, scope) && forall x :: x in st.ca && Listed(scope, x) ==> Backs(st, scope, x)
  {
    OrderlyExactly(st.ca, scope);
    InventoryIsCollected(st.ca, scope);
    CollectedExactly(Entries(st.ca, scope));
    PrepareNeverRefused(st.ledger, st.registry, Select(st.registry, scope), at, reason);
    if Orderly(st.ca, scope) { CoverageExactly(st, scope, Inventory(st.ca, scope).value); }
  }

  predicate Backs(st: Store, scope: Scope, x: Value)
    requires Listed(scope, x)
  {
    exists r ::
      r in st.registry && Covers(scope, r.identity) && r.status != Revoked
      && IdentityText(r.identity) == ListedText(scope, x) && KeyOf(x).Some?
      && JwkMaterial(KeyOf(x).value) == Some(r.jwk)
  }

  lemma ListedShows(items: seq<Value>, scope: Scope, live: map<string, Value>, x: Value)
    requires Orderly(items, scope) && Lists(live, Entries(items, scope)) && x in items && Listed(scope, x)
    ensures ListedText(scope, x) in live && JwkMaterial(KeyOf(x).value) == Some(live[ListedText(scope, x)])
  {
    var i :| 0 <= i < |items| && items[i] == x;
    EntryExactly(scope, x);
    assert Entries(items, scope)[i] in Entries(items, scope);
  }

  lemma ShownIsListed(items: seq<Value>, scope: Scope, live: map<string, Value>, text: string) returns (x: Value)
    requires Lists(live, Entries(items, scope)) && text in live
    ensures x in items && Listed(scope, x) && ListedText(scope, x) == text
  {
    var entries := Entries(items, scope);
    var e :| e in entries && e.Enrolled? && e.text == text;
    var i :| 0 <= i < |entries| && entries[i] == e;
    x := items[i];
    EntryExactly(scope, x);
  }

  lemma CoverageBacks(st: Store, scope: Scope, live: map<string, Value>, x: Value)
    requires x in st.ca && Listed(scope, x) && ListedText(scope, x) in live && KeyOf(x).Some?
    requires JwkMaterial(KeyOf(x).value) == Some(live[ListedText(scope, x)])
    requires Coverage(Select(st.registry, scope), live)
    ensures Backs(st, scope, x)
  {
    var text, selected := ListedText(scope, x), Select(st.registry, scope);
    var r :| r in selected && r.Live() && IdentityText(r.identity) == text && r.jwk == live[text];
  }

  lemma CoverageExactly(st: Store, scope: Scope, live: map<string, Value>)
    requires Orderly(st.ca, scope) && Lists(live, Entries(st.ca, scope))
    ensures Coverage(Select(st.registry, scope), live) <==>
            forall x :: x in st.ca && Listed(scope, x) ==> Backs(st, scope, x)
  {
    var selected := Select(st.registry, scope);
    if Coverage(selected, live) {
      forall x | x in st.ca && Listed(scope, x) ensures Backs(st, scope, x) {
        ListedShows(st.ca, scope, live, x);
        CoverageBacks(st, scope, live, x);
      }
    } else if forall x :: x in st.ca && Listed(scope, x) ==> Backs(st, scope, x) {
      forall text | text in live
        ensures exists r :: r in selected && r.Live() && IdentityText(r.identity) == text && r.jwk == live[text]
      {
        var x := ShownIsListed(st.ca, scope, live, text);
        ListedShows(st.ca, scope, live, x);
        BackedIsSelected(st, scope, x);
      }
    }
  }

  lemma BackedIsSelected(st: Store, scope: Scope, x: Value)
    requires Listed(scope, x) && Backs(st, scope, x)
    ensures exists r ::
              r in Select(st.registry, scope) && r.Live() && IdentityText(r.identity) == ListedText(scope, x)
              && Some(r.jwk) == JwkMaterial(KeyOf(x).value)
  {
    var r :| r in st.registry && Covers(scope, r.identity) && r.status != Revoked
      && IdentityText(r.identity) == ListedText(scope, x) && KeyOf(x).Some?
      && JwkMaterial(KeyOf(x).value) == Some(r.jwk);
    assert r in Select(st.registry, scope);
  }

  // ---- What a revocation does ----

  /** In-scope live records are revoked at the given time, and every other record stays as it is. */
  lemma MarkedExactly(records: seq<Record>, scope: Scope, at: Instant)
    requires Distinct(records)
    ensures RevokedRecords(records, MarkRevoked(records, Select(records, scope), at), scope, at)
  {
    var selected := Select(records, scope);
    forall k | 0 <= k < |records| ensures Selected(selected, records[k]) <==> Covers(scope, records[k].identity) {
      if Covers(scope, records[k].identity) { assert records[k] in selected; }
      if Selected(selected, records[k]) {
        var s :| s in selected && s.SameKeys(records[k]);
        SharedKeyMeansSame(records, s, records[k]);
      }
    }
  }

  /** A tombstone of one of the records, with both its keys, the time and the reason. */
  predicate TombstoneOf(t: Tombstone, records: seq<Record>, scope: Scope, at: Instant, reason: Option<string>) {
    exists r ::
      r in records && Covers(scope, r.identity) && t == Tombstone(r.identity, r.key, r.jwk, at, reason)
  }

  predicate AppendedOnly(l: Ledger, next: Ledger, records: seq<Record>, scope: Scope, at: Instant,
                         reason: Option<string>) {
    && l.ssh <= next.ssh && l.x509 <= next.x509
    && (forall k :: |l.ssh| <= k < |next.ssh| ==>
          !next.ssh[k].identity.X509? && TombstoneOf(next.ssh[k], records, scope, at, reason))
    && (forall k :: |l.x509| <= k < |next.x509| ==>
          next.x509[k].identity.X509? && TombstoneOf(next.x509[k], records, scope, at, reason))
  }

  lemma {:induction false} AppendedExactly(l: Ledger, all: seq<Record>, records: seq<Record>, scope: Scope, at: Instant,
                                           reason: Option<string>)
    requires forall r :: r in records ==> r in all && Covers(scope, r.identity)
    ensures AppendedOnly(l, AppendAll(l, records, at, reason), all, scope, at, reason)
    decreases |records|
  {
    if records != [] {
      var r := records[0];
      var next := Append(l, r, at, reason);
      assert r in records && TombstoneOf(ToTombstone(r, at, reason), all, scope, at, reason);
      AppendedExactly(next, all, records[1..], scope, at, reason);
    }
  }

  lemma RevokedIsDone(st: Store, scope: Scope, at: Instant, env: Revocation)
    requires RevokeRecorded(st, scope, at, env).1 == Done
    ensures RevokeRecorded(st, scope, at, env).0
            == st.(registry := MarkRevoked(st.registry, Select(st.registry, scope), at), ca := SweptCa(st, scope))
  {
    RemoveIssuersLeaves(st, scope, env.install);
    CaRecovery.NothingMarked(st.registry, Select(st.registry, scope), at);
  }

  lemma RevokeIsDone(st: Store, scope: Scope, at: Instant, reason: Option<string>, env: Revocation)
    requires Revoke(st, scope, at, reason, env).1 == Done
    ensures CheckRevocation(st, scope, at, reason).Ok?
    ensures Revoke(st, scope, at, reason, env).0
            == Store(MarkRevoked(st.registry, Select(st.registry, scope), at),
                     AppendAll(st.ledger, Select(st.registry, scope), at, reason), SweptCa(st, scope))
  {
    var checked := CheckRevocation(st, scope, at, reason);
    if checked.Ok? { RevokedIsDone(st.(ledger := checked.value), scope, at, env); }
  }

  /** A name that approval builds for no one. */
  predicate Foreign(x: Value) {
    NameOf(x).None? || (!Text.StartsWith(NameOf(x).value, "grafhome-user-")
                        && !Text.StartsWith(NameOf(x).value, "grafhome-host-")
                        && !Text.StartsWith(NameOf(x).value, "grafhome-x509-"))
  }

  lemma ForeignIsKept(scope: Scope, x: Value)
    requires Foreign(x) && KindOf(x) != Some("SSHPOP")
    ensures !Removes(scope, NameOf(x), KindOf(x))
  {
    if NameOf(x).Some? {
      match scope
      case OfUser(user, None) => PrefixesNest(user);
      case OfUser(user, Some(host)) => BuiltName(Identity.User(user, host));
      case OfHost(host) => BuiltName(Identity.Host(host));
      case OfX509(host, name) => BuiltName(Identity.X509(host, name));
    }
  }

  /** What a sweep keeps: foreign provisioners, and of the names approval builds those outside the scope. */
  ghost predicate SweptTo(items: seq<Value>, next: seq<Value>, scope: Scope, kept: seq<nat>) {
    && InOrder(items, next, kept)
    && (forall i :: 0 <= i < |items| && KindOf(items[i]) != Some("SSHPOP") && Foreign(items[i]) ==> i in kept)
    && (forall i, id: Identity ::
          0 <= i < |items| && KindOf(items[i]) != Some("SSHPOP") && id.Nameable()
          && NameOf(items[i]) == Some(ProvisionerName(id)) ==>
            (i in kept <==> !Covers(scope, id)))
  }

  lemma SweepKeeps(st: Store, scope: Scope) returns (kept: seq<nat>)
    ensures SweptTo(st.ca, SweptCa(st, scope), scope, kept)
  {
    var keep := (x: Value) => !Removes(scope, NameOf(x), KindOf(x));
    if Restarts(st, scope) {
      kept := RetainedPlaces(st.ca, keep);
    } else {
      kept := seq(|st.ca|, i => i);
      NoRemovedNames(st.ca, scope);
    }
    forall i | 0 <= i < |st.ca| && KindOf(st.ca[i]) != Some("SSHPOP") && Foreign(st.ca[i]) ensures i in kept {
      ForeignIsKept(scope, st.ca[i]);
      if !Restarts(st, scope) { assert kept[i] == i; }
    }
    forall i, id: Identity | 0 <= i < |st.ca| && KindOf(st.ca[i]) != Some("SSHPOP") && id.Nameable()
      && NameOf(st.ca[i]) == Some(ProvisionerName(id))
      ensures i in kept <==> !Covers(scope, id)
    {
      SelectionIsExact(scope, id, KindOf(st.ca[i]));
      if !Restarts(st, scope) { assert kept[i] == i && st.ca[i] in st.ca; }
    }
  }

  /** Each in-scope live record is revoked at the given time, and every other record is as it was. */
  predicate RevokedRecords(records: seq<Record>, next: seq<Record>, scope: Scope, at: Instant) {
    |next| == |records| && forall k :: 0 <= k < |records| ==>
      next[k] == (if Covers(scope, records[k].identity) && records[k].status != Revoked
                  then records[k].(status := Revoked, revokedAt := Some(at)) else records[k])
  }

  /** Every in-scope record has a tombstone of its certified key, in the list and of the kind of its own. */
  predicate AllTombstoned(l: Ledger, records: seq<Record>, scope: Scope) {
    forall r :: r in records && Covers(scope, r.identity) ==>
      exists t ::
        t in (if r.identity.X509? then l.x509 else l.ssh) && t.key == r.key && t.identity.User? == r.identity.User?
  }

  lemma TombstonedExactly(l: Ledger, records: seq<Record>, scope: Scope, at: Instant, reason: Option<string>)
    ensures var next := AppendAll(l, Select(records, scope), at, reason);
            AppendedOnly(l, next, records, scope, at, reason) && AllTombstoned(next, records, scope)
  {
    var selected := Select(records, scope);
    var next := AppendAll(l, selected, at, reason);
    AppendedExactly(l, records, selected, scope, at, reason);
    AppendAllRecords(l, selected, at, reason);
    forall r | r in records && Covers(scope, r.identity)
      ensures exists t ::
                t in (if r.identity.X509? then next.x509 else next.ssh)
                && t.key == r.key && t.identity.User? == r.identity.User?
    {
      RecordedExactly(next, r);
    }
  }

  /**
   A revocation that ends well has revoked the live records of the scope, appended their tombstones, and
   taken their provisioners; everything else is as it was.
   */
  lemma RevocationDone(st: Store, scope: Scope, at: Instant, reason: Option<string>, env: Revocation)
    returns (kept: seq<nat>)
    requires Valid(st.registry) && Revoke(st, scope, at, reason, env).1 == Done
    ensures var next := Revoke(st, scope, at, reason, env).0;
            && RevokedRecords(st.registry, next.registry, scope, at)
            && AppendedOnly(st.ledger, next.ledger, st.registry, scope, at, reason)
            && AllTombstoned(next.ledger, st.registry, scope) && SweptTo(st.ca, next.ca, scope, kept)
  {
    RevokeIsDone(st, scope, at, reason, env);
    MarkedExactly(st.registry, scope, at);
    TombstonedExactly(st.ledger, st.registry, scope, at, reason);
    kept := SweepKeeps(st, scope);
  }

  lemma RecordedExactly(l: Ledger, r: Record)
    requires Recorded(l, r)
    ensures exists t ::
              t in (if r.identity.X509? then l.x509 else l.ssh)
              && t.key == r.key && t.identity.User? == r.identity.User?
  {
    var t :| t in ListFor(l, r.identity) && SlotOf(t.identity, t.key) == SlotOf(r.identity, r.key);
  }

  // ---- What `apply ca` does ----

  /** ACME, or an X.509 provisioner whose JWK or pinned key is among the tombstones. */
  predicate Banned(x509: seq<Tombstone>, x: Value) {
    KindOf(x) == Some("ACME") || (IsX509(x) && Admission.Revoked(x509, x))
  }

  /** Every provisioner that no tombstone bans is kept, in order, with what policy gives its name. */
  ghost predicate AppliedAt(policy: Policy, x509: seq<Tombstone>, items: seq<Value>, next: seq<Value>, kept: seq<nat>) {
    && |kept| == |next| && (forall j, k :: 0 <= j < k < |kept| ==> kept[j] < kept[k])
    && (forall j :: 0 <= j < |kept| ==> kept[j] < |items| && Contents.Applied(policy, items[kept[j]], next[j]))
    && (forall i :: 0 <= i < |items| ==> (i in kept <==> !Banned(x509, items[i])))
  }

  lemma KeptExactly(x509: seq<Tombstone>, items: seq<Value>, kept: seq<nat>)
    requires RemoveRetired(x509, items).Ok?
    requires forall i :: 0 <= i < |items| ==> (i in kept <==> Retired(x509, FaceOf(items[i])) == Ok(false))
    ensures forall i :: 0 <= i < |items| ==> (i in kept <==> !Banned(x509, items[i]))
  {
    RemoveRetiredExact(x509, items);
    forall i | 0 <= i < |items| ensures i in kept <==> !Banned(x509, items[i]) {
      assert Retired(x509, FaceOf(items[i])).Ok?;
      Admission.RetirementSays(x509, items[i]);
    }
  }

  lemma ReconciledPlaces(policy: Policy, x509: seq<Tombstone>, items: seq<Value>) returns (kept: seq<nat>)
    requires ReconcileProvisioners(policy, x509, items).Ok?
    ensures AppliedAt(policy, x509, items, ReconcileProvisioners(policy, x509, items).value.0, kept)
  {
    ReconciledParts(policy, x509, items);
    kept := RetainedPlaces(items, x => Retired(x509, FaceOf(x)) == Ok(false));
    KeptExactly(x509, items, kept);
    Contents.ReconciledContents(policy, x509, items);
  }

  /** An application that ends well, by the tombstones it knew of, changes `ca.json` alone. */
  lemma ApplicationDone(st: Store, policy: Policy, seen: nat, policyChanged: bool, env: Installation)
    returns (kept: seq<nat>)
    requires ApplyCa(st, policy, seen, policyChanged, env).1 == Done
    ensures var next := ApplyCa(st, policy, seen, policyChanged, env).0;
            var known := if seen <= |st.ledger.x509| then st.ledger.x509[..seen] else st.ledger.x509;
            && next.registry == st.registry && next.ledger == st.ledger
            && AppliedAt(policy, known, st.ca, next.ca, kept)
  {
    ApplicationIsDone(st, policy, seen, policyChanged, env);
    kept := ReconciledPlaces(policy, if seen <= |st.ledger.x509| then st.ledger.x509[..seen] else st.ledger.x509,
        st.ca);
  }

  lemma ApplicationIsDone(st: Store, policy: Policy, seen: nat, policyChanged: bool, env: Installation)
    requires ApplyCa(st, policy, seen, policyChanged, env).1 == Done
    ensures var known := if seen <= |st.ledger.x509| then st.ledger.x509[..seen] else st.ledger.x509;
            var result := ReconcileProvisioners(policy, known, st.ca);
            result.Ok? && ApplyCa(st, policy, seen, policyChanged, env).0 == st.(ca := result.value.0)
  {
    var known := if seen <= |st.ledger.x509| then st.ledger.x509[..seen] else st.ledger.x509;
    var result := ReconcileProvisioners(policy, known, st.ca);
    if result.Ok? {
      InstallLeaves(st, result.value.0, None, env);
      ReconcileProvisionersAgain(policy, known, st.ca);
    }
  }

  // ---- When an undisturbed command ends well ----

  /** An undisturbed approval ends well exactly when its checks pass and its edit is accepted. */
  lemma ApprovesExactly(st: Store, policy: Policy, request: Request)
    requires request.candidate.PendingCandidate() && Valid(st.registry)
    ensures var id := request.candidate.identity;
            var kept := if id.Host? then WithoutSshpop(st.ca) else st.ca;
            Approve(st, policy, request, Lands, SMOOTH).1 == Done <==>
            && MayApprove(st, request.candidate) && Admission.Foreseen(policy, request)
            && (id.User? ==> Admission.Refreshable(kept, policy.user.value))
            && (id.Host? ==> Admission.Refreshable(kept, policy.host.value))
            && Admission.Placeable(kept, ProvisionerName(id), request.jwk)
  {
    CheckApprovalExactly(st, request.candidate);
    Admission.AuthorizesExactly(policy, st.ca, request);
    CaRecovery.RefusedByCheck(st, policy, request, Lands, SMOOTH);
    if CheckApproval(st, request.candidate).Ok? && Authorize(policy, st.ca, request).Ok? {
      CaRecovery.UndisturbedApproval(st, policy, request);
    }
  }

  /** A host policy does not know, or a certificate it does not declare, is refused before anything is written. */
  lemma UnknownIsRefusedFirst(st: Store, policy: Policy, request: Request, reserve: Write, env: Installation)
    requires match request.candidate.identity
             case Host(_) => request.candidate.identity !in policy.ssh
             case User(_, _) => false
             case X509(_, _) => !Admission.Foreseen(policy, request)
    ensures Approve(st, policy, request, reserve, env) == (st, Refused(CaRefused))
  {
    Admission.DesiredExactly(policy, request);
  }

  /** An undisturbed import ends well exactly when no tombstone and no record stands against it and it is accepted. */
  lemma ImportsExactly(st: Store, denials: Denials, candidate: Record, reformatted: bool)
    requires candidate.PendingCandidate() && Valid(st.registry) && candidate.key.SshKey?
    ensures Import(st, denials, candidate, reformatted, SMOOTH).1 == Done <==>
            && (forall t :: t in st.ledger.ssh + st.ledger.x509 ==> t.key != candidate.key && t.jwk != candidate.jwk)
            && (forall r :: r in st.registry ==> Stands(r, candidate))
            && exists i ::
                 0 <= i < |st.ca| && OnlyAt(st.ca, ProvisionerName(candidate.identity), i)
                 && Admission.Importable(st.ca[i], ProvisionerName(candidate.identity), candidate.jwk,
                                         Blob(candidate.key.canonical))
  {
    var name, blob := ProvisionerName(candidate.identity), Blob(candidate.key.canonical);
    AllStand(st.registry, candidate);
    BlobIsBlob(candidate.key.canonical);
    Admission.BindsExactly(st.ca, name, candidate.jwk, blob, denials);
    if Import(st, denials, candidate, reformatted, SMOOTH).1 == Done {
      ImportIsDone(st, denials, candidate, reformatted, SMOOTH);
    }
    if !Tombstoned(st.ledger, candidate.key, candidate.jwk) && CheckCandidate(st.registry, candidate).Ok?
       && Bind(st.ca, name, candidate.jwk, blob, denials).Ok?
    {
      ApplyKeepsValid(st.registry, Activating(candidate));
      CaRecovery.UndisturbedImport(st, denials, candidate, reformatted);
    }
  }

  /** An undisturbed revocation ends well exactly when its check passes. */
  lemma RevokesExactly(st: Store, scope: Scope, at: Instant, reason: Option<string>)
    requires Consistent(st)
    ensures Revoke(st, scope, at, reason, CaRecovery.UNDISTURBED).1 == Done <==>
            Orderly(st.ca, scope) && forall x :: x in st.ca && Listed(scope, x) ==> Backs(st, scope, x)
  {
    CheckRevocationExactly(st, scope, at, reason);
    if CheckRevocation(st, scope, at, reason).Ok? {
      ApplyKeepsValid(st.registry, Operation.Revoking(Select(st.registry, scope), at));
      CaRecovery.UndisturbedRevocation(st, scope, at, reason);
    }
  }

  /** An undisturbed application ends well exactly when every provisioner is appliable. */
  lemma AppliesExactly(st: Store, policy: Policy, seen: nat, policyChanged: bool)
    ensures var known := if seen <= |st.ledger.x509| then st.ledger.x509[..seen] else st.ledger.x509;
            ApplyCa(st, policy, seen, policyChanged, SMOOTH).1 == Done <==>
            && policy.user.Some? && policy.host.Some?
            && forall x :: x in st.ca ==>
                 Admission.Appliable(policy, policy.user.value, policy.host.value, known, x)
  {
    var known := if seen <= |st.ledger.x509| then st.ledger.x509[..seen] else st.ledger.x509;
    Admission.ReconcilesExactly(policy, known, st.ca);
    var result := ReconcileProvisioners(policy, known, st.ca);
    if result.Ok? { CaRecovery.SmoothInstall(st, result.value.0); }
  }
}
