/** The in-place edits of the live provisioners array, each against its specification. */
module CaConfig {
  import opened Wrappers
  import opened Json
  import opened Names
  import opened Issuers
  import opened Ledger
  import opened Reconciliation

  /** A pass over the rest of the array, after what the loop has produced so far. */
  function Resume(items: seq<Value>, names: seq<string>, rest: Result<(seq<Value>, seq<string>), Refusal>)
    : Result<(seq<Value>, seq<string>), Refusal>
  {
    match rest case Err(e) => Err(e) case Ok((more, others)) => Ok((items + more, names + others))
  }

  lemma ResumeFresh(rest: Result<(seq<Value>, seq<string>), Refusal>)
    ensures Resume([], [], rest) == rest
  {
    if rest.Ok? { assert [] + rest.value.0 == rest.value.0 && [] + rest.value.1 == rest.value.1; }
  }

  lemma ResumeTwice(items: seq<Value>, names: seq<string>, more: seq<Value>, others: seq<string>,
                    rest: Result<(seq<Value>, seq<string>), Refusal>)
    ensures Resume(items, names, Resume(more, others, rest)) == Resume(items + more, names + others, rest)
  {
    if rest.Ok? {
      assert items + (more + rest.value.0) == items + more + rest.value.0;
      assert names + (others + rest.value.1) == names + others + rest.value.1;
    }
  }

  lemma {:induction false} RetainSame(items: seq<Value>, keep: Value -> bool, other: Value -> bool)
    requires forall x :: keep(x) == other(x)
    ensures Retain(items, keep) == Retain(items, other)
  {
    if items != [] { RetainSame(items[1..], keep, other); }
  }

  /** `require_x509_deny`: look for a JWK that could issue X.509 outside the pinned provisioners. */
  method RequireDeny(items: seq<Value>) returns (denied: bool)
    ensures denied <==> forall x :: x in items ==> Denied(x)
  {
    for i := 0 to |items|
      invariant forall k :: 0 <= k < i ==> Denied(items[k])
    {
      if !Denied(items[i]) {
        assert items[i] in items;
        return false;
      }
    }
    denied := true;
  }

  class LiveConfig {
    var provisioners: seq<Value>

    constructor (items: seq<Value>)
      ensures provisioners == items
    {
      provisioners := items;
    }

    /** `upsert_renewal_provisioner`: push, replace after proving key identity, or refuse. */
    method UpsertRenewal(desired: Value) returns (r: Result<(), Refusal>)
      modifies this
      ensures var spec := Upsert(old(provisioners), desired);
              if spec.Ok? then provisioners == spec.value && r == Ok(())
              else provisioners == old(provisioners) && r == Err(spec.error)
    {
      if NameOf(desired).None? { return Err(Malformed); }
      var places := FindPlaces(provisioners, NameOf(desired).value);
      if places == [] {
        provisioners := provisioners + [desired];
        return Ok(());
      }
      if |places| > 1 { return Err(DuplicateIssuer); }
      if KeyOf(provisioners[places[0]]) != KeyOf(desired) { return Err(DifferentKey); }
      provisioners := provisioners[places[0] := desired];
      r := Ok(());
    }

    /** `reconcile_required_provisioner`: refresh the one live issuer of a policy role. */
    method RequireIssuer(role: Role, e: Enroller) returns (r: Result<(), Refusal>)
      modifies this
      ensures var spec := Require(old(provisioners), role, e);
              if spec.Ok? then provisioners == spec.value && r == Ok(())
              else provisioners == old(provisioners) && r == Err(spec.error)
    {
      var places := FindPlaces(provisioners, e.name);
      if places == [] { return Err(MissingIssuer); }
      if |places| > 1 { return Err(DuplicateIssuer); }
      var next := Refreshed(provisioners[places[0]], role, e);
      if next.Err? { return Err(next.error); }
      provisioners := provisioners[places[0] := next.value];
      r := Ok(());
    }

    /** `reconcile_user_client`, `reconcile_host` and `reconcile_x509` by the request's identity. */
    method AuthorizeRequest(policy: Policy, request: Request) returns (r: Result<(), Refusal>)
      modifies this
      ensures var spec := Authorize(policy, old(provisioners), request);
              if spec.Ok? then provisioners == spec.value && r == Ok(()) else r == Err(spec.error)
    {
      var desired := Desired(policy, request);
      if desired.Err? { return Err(desired.error); }
      var id := request.candidate.identity;
      if !id.X509? {
        var role := if id.User? then UserRole else HostRole;
        if policy.EnrollerOf(role).None? { return Err(NotPermitted); }
        if id.Host? { provisioners := WithoutSshpop(provisioners); }
        var required := RequireIssuer(role, policy.EnrollerOf(role).value);
        if required.Err? { return required; }
      }
      r := UpsertRenewal(desired.value);
    }

    /** `bind_existing_renewal_provisioner`: guard the one live provisioner of an imported enrollment. */
    method BindExisting(name: string, jwk: Value, blob: string, denials: Denials) returns (r: Result<(), Refusal>)
      modifies this
      ensures var spec := Bind(old(provisioners), name, jwk, blob, denials);
              if spec.Ok? then provisioners == spec.value && r == Ok(())
              else provisioners == old(provisioners) && r == Err(spec.error)
    {
      var places := FindPlaces(provisioners, name);
      if places == [] { return Err(MissingIssuer); }
      if |places| > 1 { return Err(DuplicateIssuer); }
      var item := provisioners[places[0]];
      if KindOf(item) != Some(JWK) { return Err(WrongType); }
      if KeyOf(item).None? { return Err(NoKey); }
      var live, imported := JwkMaterial(KeyOf(item).value), JwkMaterial(jwk);
      if live.None? || imported.None? { return Err(Malformed); }
      if live != imported { return Err(DifferentKey); }
      if Field(item, OPTIONS).None? { return Err(Malformed); }
      var options := BindOptions(Field(item, OPTIONS).value, name, blob, denials);
      if options.Err? { return Err(options.error); }
      provisioners := provisioners[places[0] := SetField(item, OPTIONS, options.value)];
      r := Ok(());
    }

    /** `remove_matching`: retain what the predicate does not match, and report the removed names. */
    method RemoveMatching(matches: Value -> bool) returns (removed: seq<string>)
      modifies this
      ensures provisioners == Retain(old(provisioners), x => !matches(x))
      ensures removed == DroppedNames(old(provisioners), matches)
    {
      var items, kept: seq<Value> := provisioners, [];
      removed := [];
      for i := 0 to |items|
        invariant kept == Retain(items[..i], x => !matches(x)) && removed == DroppedNames(items[..i], matches)
      {
        var item := items[i];
        assert items[..i + 1] == items[..i] + [item];
        RetainSnoc(items[..i], item, x => !matches(x));
        DroppedNamesSnoc(items[..i], item, matches);
        if matches(item) {
          if NameOf(item).Some? { removed := removed + [NameOf(item).value]; }
        } else {
          kept := kept + [item];
        }
      }
      assert items[..|items|] == items;
      provisioners := kept;
    }

    /** `remove_exact`, `remove_user` and `remove_host`: the raw name and type tests of a scope. */
    method RemoveScope(scope: Scope) returns (removed: seq<string>)
      modifies this
      ensures provisioners == Remaining(old(provisioners), scope)
      ensures removed == RemovedNames(old(provisioners), scope)
    {
      var matches := (x: Value) => Removes(scope, NameOf(x), KindOf(x));
      removed := RemoveMatching(matches);
      RetainSame(old(provisioners), x => !matches(x), x => !Removes(scope, NameOf(x), KindOf(x)));
    }

    /** `remove_retired_provisioners`: drain into the kept and the removed, stopping at an unreadable key. */
    method RemoveRetiredProvisioners(x509: seq<Tombstone>) returns (r: Result<seq<string>, Refusal>)
      modifies this
      ensures var spec := RemoveRetired(x509, old(provisioners));
              if spec.Ok? then provisioners == spec.value.0 && r == Ok(spec.value.1) else r == Err(spec.error)
    {
      var items := provisioners;
      var kept: seq<Value>, removed: seq<string> := [], [];
      ResumeFresh(RemoveRetired(x509, items));
      assert items[0..] == items;
      for i := 0 to |items|
        invariant RemoveRetired(x509, items) == Resume(kept, removed, RemoveRetired(x509, items[i..]))
      {
        var item := items[i];
        var retired := Retired(x509, FaceOf(item));
        assert items[i..][0] == item && items[i..][1..] == items[i + 1..];
        if retired.Err? {
          provisioners := [];
          return Err(retired.error);
        }
        var more: seq<Value> := if retired.value then [] else [item];
        var others: seq<string> := if retired.value then [DisplayName(item)] else [];
        ghost var rest := RemoveRetired(x509, items[i + 1..]);
        assert RemoveRetired(x509, items[i..]) == Resume(more, others, rest) by {
          if rest.Ok? { assert [] + rest.value.0 == rest.value.0 && [] + rest.value.1 == rest.value.1; }
        }
        ResumeTwice(kept, removed, more, others, rest);
        kept, removed := kept + more, removed + others;
      }
      assert kept + [] == kept && removed + [] == removed;
      provisioners := kept;
      r := Ok(removed);
    }

    /** The loop of `reconcile_claims`: rewrite each provisioner in place, collecting changed names. */
    method ReconcileEach(policy: Policy, user: Enroller, host: Enroller) returns (r: Result<seq<string>, Refusal>)
      modifies this
      ensures var spec := ReconcileAll(policy, user, host, old(provisioners));
              if spec.Ok? then provisioners == spec.value.0 && r == Ok(spec.value.1) else r == Err(spec.error)
    {
      ghost var items := provisioners;
      var updated: seq<string> := [];
      ResumeFresh(ReconcileAll(policy, user, host, items));
      assert items[0..] == items;
      for i := 0 to |provisioners|
        invariant |provisioners| == |items| && provisioners[i..] == items[i..]
        invariant ReconcileAll(policy, user, host, items)
                  == Resume(provisioners[..i], updated, ReconcileAll(policy, user, host, items[i..]))
      {
        var item := provisioners[i];
        assert item == items[i..][0] && items[i..][1..] == items[i + 1..];
        var step := ReconcileItem(policy, user, host, item);
        if step.Err? { return Err(step.error); }
        var (next, changed) := step.value;
        var others: seq<string> := if changed then [DisplayName(item)] else [];
        ResumeTwice(provisioners[..i], updated, [next], others, ReconcileAll(policy, user, host, items[i + 1..]));
        assert provisioners[i := next][..i + 1] == provisioners[..i] + [next];
        assert provisioners[i := next][i + 1..] == items[i..][1..];
        provisioners := provisioners[i := next];
        updated := updated + others;
      }
      assert provisioners[..|provisioners|] + [] == provisioners && updated + [] == updated;
      r := Ok(updated);
    }

    /** Retire, reconcile and require the deny templates. */
    method Reconcile(policy: Policy, x509: seq<Tombstone>) returns (r: Result<(seq<string>, seq<string>), Refusal>)
      modifies this
      ensures var spec := ReconcileProvisioners(policy, x509, old(provisioners));
              if spec.Ok? then provisioners == spec.value.0 && r == Ok((spec.value.1, spec.value.2))
                else r == Err(spec.error)
    {
      if policy.user.None? || policy.host.None? { return Err(NotPermitted); }
      var removed := RemoveRetiredProvisioners(x509);
      if removed.Err? { return Err(removed.error); }
      var updated := ReconcileEach(policy, policy.user.value, policy.host.value);
      if updated.Err? { return Err(updated.error); }
      var denied := RequireDeny(provisioners);
      r := if denied then Ok((updated.value, removed.value)) else Err(NotDenied);
    }
  }
}
