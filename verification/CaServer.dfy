/** The CA server's commands, step by step on its three stores, against the protocol. */
module CaServer {
  import opened Wrappers
  import opened Json
  import opened Names
  import opened Registry
  import opened Ledger
  import opened Issuers
  import opened Reconciliation
  import opened CaConfig
  import opened CaOrigin
  import opened CaSafety

  class CaStores {
    var registry: seq<Record>
    var ledger: Ledger
    var ca: seq<Value>

    constructor (st: Store)
      ensures Snapshot() == st
    {
      registry, ledger, ca := st.registry, st.ledger, st.ca;
    }

    function Snapshot(): Store
      reads this
    {
      Store(registry, ledger, ca)
    }

    /** `save`: validate, then one durable rename. */
    method SaveRegistry(records: seq<Record>, w: Write) returns (outcome: Outcome)
      modifies this`registry
      ensures registry == Written(Saving(w, records), old(registry), records)
      ensures outcome == Saving(w, records).Result()
    {
      var proposed := new EnrollmentRegistry();
      proposed.records := records;
      var ok := proposed.Validate();
      if !ok { return Failed; }
      if w.Landed() { registry := records; }
      outcome := w.Result();
    }

    method WriteCaJson(items: seq<Value>, w: Write) returns (outcome: Outcome)
      modifies this`ca
      ensures ca == Written(w, old(ca), items) && outcome == w.Result()
    {
      if w.Landed() { ca := items; }
      outcome := w.Result();
    }

    /** `install_ca_json_with_rollback`; `records` is what the callback saves after activation. */
    method InstallCaJson(items: seq<Value>, records: Option<seq<Record>>, env: Installation) returns (outcome: Outcome)
      modifies this`ca, this`registry
      ensures (Snapshot(), outcome) == Install(old(Snapshot()), items, records, env)
    {
      var previous := ca;
      outcome := WriteCaJson(items, env.caWrite);
      if outcome != Done { return; }
      if env.setup == Breaks { return Failed; }
      if env.setup == Kills || env.activation == Kills { return Crashed; }
      if env.activation == Breaks {
        outcome := Failed;
      } else if records.Some? {
        outcome := SaveRegistry(records.value, env.save);
      }
      if outcome == Failed {
        var restored := WriteCaJson(previous, env.rollback);
        outcome := if restored == Crashed then Crashed else Failed;
      }
    }

    method ReadLiveKey(name: string) returns (r: Result<Option<Value>, ()>)
      ensures r == LiveKey(ca, name)
    {
      var places := FindPlaces(ca, name);
      if places == [] { return Ok(None); }
      if |places| > 1 { return Err(()); }
      var material := FaceOf(ca[places[0]]).Material();
      r := if material.None? then Err(()) else Ok(material);
    }

    /** `reserve_approval_record`. */
    method ReserveApproval(candidate: Record, reserve: Write) returns (outcome: Outcome)
      modifies this`registry
      ensures match CheckApproval(old(Snapshot()), candidate)
              case Err(reason) => registry == old(registry) && outcome == Refused(reason)
              case Ok((proposed, added)) =>
                var w := if added then Saving(reserve, proposed) else Lands;
                registry == Written(w, old(registry), proposed) && outcome == w.Result()
    {
      if Tombstoned(ledger, candidate.key, candidate.jwk) { return Refused(KeyTombstoned); }
      var proposed := new EnrollmentRegistry();
      proposed.records := registry;
      var status := MatchingStatus(registry, candidate);
      var added := proposed.ReserveRecord(candidate);
      if added.Err? { return Refused(InRegistry); }
      var live := ReadLiveKey(ProvisionerName(candidate.identity));
      if live.Err? { return Refused(LiveUnreadable); }
      if live.value.Some? {
        if live.value.value != candidate.jwk { return Refused(LiveKeyDiffers); }
        if status == None { return Refused(Unregistered); }
      } else if status == Some(Active) {
        return Refused(ActiveButMissing);
      }
      outcome := Done;
      if added.value { outcome := SaveRegistry(proposed.records, reserve); }
    }

    /** `authorize_*_locked` and the X.509 variant: propose the provisioners, install, activate. */
    method InstallApproval(policy: Policy, request: Request, env: Installation) returns (outcome: Outcome)
      modifies this`ca, this`registry
      ensures (Snapshot(), outcome) == ApproveReserved(old(Snapshot()), policy, request, env)
    {
      var candidate := request.candidate;
      var config := new LiveConfig(ca);
      var authorized := config.AuthorizeRequest(policy, request);
      if authorized.Err? { return Refused(CaRefused); }
      if candidate.identity.X509? && config.provisioners == ca && MatchingStatus(registry, candidate) == Some(Active) {
        return Done;
      }
      var activated := new EnrollmentRegistry();
      activated.records := registry;
      var _ := activated.ActivateRecord(candidate);
      outcome := InstallCaJson(config.provisioners, Some(activated.records), env);
    }

    /** Approval of a host, user or X.509 enrollment. */
    method ApproveEnrollment(policy: Policy, request: Request, reserve: Write, env: Installation)
      returns (outcome: Outcome)
      modifies this`ca, this`registry
      ensures (Snapshot(), outcome) == Approve(old(Snapshot()), policy, request, reserve, env)
    {
      if !Permitted(policy, request) { return Refused(CaRefused); }
      outcome := ReserveApproval(request.candidate, reserve);
      if outcome == Done { outcome := InstallApproval(policy, request, env); }
    }

    /** Import of an enrollment exported by its host. */
    method ImportEnrollment(denials: Denials, candidate: Record, reformatted: bool, env: Installation)
      returns (outcome: Outcome)
      requires candidate.key.SshKey?
      modifies this`ca, this`registry
      ensures (Snapshot(), outcome) == Import(old(Snapshot()), denials, candidate, reformatted, env)
    {
      if Tombstoned(ledger, candidate.key, candidate.jwk) { return Refused(KeyTombstoned); }
      var config := new LiveConfig(ca);
      var bound := config.BindExisting(ProvisionerName(candidate.identity), candidate.jwk,
          Blob(candidate.key.canonical), denials);
      if bound.Err? { return Refused(CaRefused); }
      var proposed := new EnrollmentRegistry();
      proposed.records := registry;
      var changed := proposed.ActivateRecord(candidate);
      if changed.Err? { return Refused(InRegistry); }
      outcome := Done;
      if config.provisioners != ca || reformatted || changed.value {
        outcome := InstallCaJson(config.provisioners, if changed.value then Some(proposed.records) else None, env);
      }
    }

    /** `live_enrollment_inventory`: one entry a display identity. */
    method LiveInventory(scope: Scope) returns (r: Option<map<string, Value>>)
      ensures r == Inventory(ca, scope)
    {
      var live: map<string, Value> := map[];
      for i := 0 to |ca|
        invariant Inventory(ca[..i], scope) == Some(live)
      {
        assert ca[..i + 1][..i] == ca[..i];
        var next := AddEntry(live, EntryOf(scope, FaceOf(ca[i])));
        if next.None? {
          RefusedPrefix(ca, scope, i + 1);
          return None;
        }
        live := next.value;
      }
      assert ca[..|ca|] == ca;
      r := Some(live);
    }

    /** The revocation transaction: ledger, then `ca.json`, then the registry. */
    method RevokeEnrollments(scope: Scope, at: Instant, reason: Option<string>, env: Revocation)
      returns (outcome: Outcome)
      modifies this
      ensures (Snapshot(), outcome) == Revoke(old(Snapshot()), scope, at, reason, env)
    {
      var selected := Select(registry, scope);
      var live := LiveInventory(scope);
      if live.None? { return Refused(LiveUnreadable); }
      if !Coverage(selected, live.value) { return Refused(NotCovered); }
      var update := PrepareUpdate(ledger, selected, at, reason);
      if update.None? { return Refused(LedgerRefused); }
      if update.value != ledger {
        if env.ledger.Landed() { ledger := update.value; }
        if env.ledger != Lands { return env.ledger.Result(); }
      }
      outcome := CompleteRevocation(scope, at, env);
    }

    method CompleteRevocation(scope: Scope, at: Instant, env: Revocation) returns (outcome: Outcome)
      modifies this`ca, this`registry
      ensures (Snapshot(), outcome) == RevokeRecorded(old(Snapshot()), scope, at, env)
    {
      var selected := Select(registry, scope);
      outcome := RemoveLiveIssuers(scope, selected, env.install);
      if outcome == Done { outcome := TombstoneSelected(selected, at, env.save); }
    }

    method RemoveLiveIssuers(scope: Scope, selected: seq<Record>, env: Installation) returns (outcome: Outcome)
      requires selected == Select(registry, scope)
      modifies this`ca, this`registry
      ensures (Snapshot(), outcome) == RemoveIssuers(old(Snapshot()), scope, env)
    {
      var config := new LiveConfig(ca);
      var removed := config.RemoveScope(scope);
      outcome := Done;
      if removed != [] || AnyLive(selected) { outcome := InstallCaJson(config.provisioners, None, env); }
    }

    method TombstoneSelected(selected: seq<Record>, at: Instant, save: Write) returns (outcome: Outcome)
      modifies this`registry
      ensures (Snapshot(), outcome) == MarkSelected(old(Snapshot()), selected, at, save)
    {
      var tombstoned := new EnrollmentRegistry();
      tombstoned.records := registry;
      var changed := tombstoned.MarkRecordsRevoked(selected, at);
      outcome := Done;
      if changed != 0 { outcome := SaveRegistry(tombstoned.records, save); }
    }

    /** `apply ca` with policy loaded before the lock. */
    method ApplyCaPolicy(policy: Policy, seen: nat, policyChanged: bool, env: Installation) returns (outcome: Outcome)
      modifies this`ca, this`registry
      ensures (Snapshot(), outcome) == ApplyCa(old(Snapshot()), policy, seen, policyChanged, env)
    {
      var config := new LiveConfig(ca);
      var known := if seen <= |ledger.x509| then ledger.x509[..seen] else ledger.x509;
      var changes := config.Reconcile(policy, known);
      if changes.Err? { return Refused(CaRefused); }
      if !policyChanged && changes.value.0 == [] && changes.value.1 == [] { return Done; }
      outcome := InstallCaJson(config.provisioners, None, env);
    }
  }

  /** A prefix whose inventory is refused refuses the whole. */
  lemma {:induction false} RefusedPrefix(items: seq<Value>, scope: Scope, i: nat)
    requires i <= |items| && Inventory(items[..i], scope).None?
    ensures Inventory(items, scope).None?
  {
    if i == |items| {
      assert items[..i] == items;
    } else {
      var init := items[..|items| - 1];
      assert init[..i] == items[..i];
      RefusedPrefix(init, scope, i);
    }
  }
}
