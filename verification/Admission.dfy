/**
 Exactly when the edits of `ca.json` that an approval or an import proposes are accepted
 (src/runtime_provisioners.rs).
 */
module Admission {
  import opened Wrappers
  import opened Json
  import opened Names
  import opened Registry
  import opened Issuers
  import opened Ledger
  import opened Reconciliation
  import Contents
  import Templates
  import Text

  // ---- What an array must hold ----

  /** One provisioner of the issuer's name and type, with a key object and no claims but an object of them. */
  predicate Refreshable(items: seq<Value>, e: Enroller) {
    exists i ::
      0 <= i < |items| && OnlyAt(items, e.name, i) && KindOf(items[i]) == Some(e.kind)
      && KeyOf(items[i]).Some? && KeyOf(items[i]).value.Obj?
      && (Field(items[i], "claims").Some? ==> Field(items[i], "claims").value.Obj?)
  }

  /** No provisioner of the name, or one with the very same key. */
  predicate Placeable(items: seq<Value>, name: string, key: Value) {
    || (forall x :: x in items ==> NameOf(x) != Some(name))
    || exists i :: 0 <= i < |items| && OnlyAt(items, name, i) && KeyOf(items[i]) == Some(key)
  }

  lemma PlacesSay(items: seq<Value>, name: string)
    ensures Places(items, name) == [] <==> forall x :: x in items ==> NameOf(x) != Some(name)
    ensures |Places(items, name)| == 1 ==> OnlyAt(items, name, Places(items, name)[0])
    ensures forall i :: 0 <= i < |items| && OnlyAt(items, name, i) ==> Places(items, name) == [i]
  {
    var places := Places(items, name);
    OnePlace(items, name, 0);
    forall i | 0 <= i < |items| && OnlyAt(items, name, i) ensures places == [i] { OnePlace(items, name, i); }
    if |places| == 1 {
      assert places == [places[0]];
      OnePlace(items, name, places[0]);
    }
  }

  lemma RequiresExactly(items: seq<Value>, role: Role, e: Enroller)
    ensures Require(items, role, e).Ok? <==> Refreshable(items, e)
  {
    PlacesSay(items, e.name);
    if Refreshable(items, e) {
      var i :| 0 <= i < |items| && OnlyAt(items, e.name, i) && KindOf(items[i]) == Some(e.kind)
        && KeyOf(items[i]).Some? && KeyOf(items[i]).value.Obj?
        && (Field(items[i], "claims").Some? ==> Field(items[i], "claims").value.Obj?);
      assert Places(items, e.name) == [i];
    }
  }

  lemma UpsertsExactly(items: seq<Value>, desired: Value, name: string, key: Value)
    requires NameOf(desired) == Some(name) && KeyOf(desired) == Some(key)
    ensures Upsert(items, desired).Ok? <==> Placeable(items, name, key)
  {
    PlacesSay(items, name);
    if exists i :: 0 <= i < |items| && OnlyAt(items, name, i) && KeyOf(items[i]) == Some(key) {
      var i :| 0 <= i < |items| && OnlyAt(items, name, i) && KeyOf(items[i]) == Some(key);
      assert Places(items, name) == [i];
    }
  }

  // ---- What policy must say ----

  /** The first declaration of a host's certificate, and it is active. */
  predicate FirstDeclared(certs: seq<Cert>, host: string, name: string, cert: Cert) {
    exists k ::
      0 <= k < |certs| && certs[k] == cert && cert.active && cert.host == host && cert.name == name
      && forall j :: 0 <= j < k ==> certs[j].host != host || certs[j].name != name
  }

  lemma {:induction false} ActiveCertExactly(certs: seq<Cert>, host: string, name: string, cert: Cert)
    ensures ActiveCert(certs, host, name) == Some(cert) <==> FirstDeclared(certs, host, name, cert)
  {
    if certs != [] {
      var rest := certs[1..];
      assert forall k :: 0 <= k < |rest| ==> rest[k] == certs[k + 1];
      ActiveCertExactly(rest, host, name, cert);
      if FirstDeclared(rest, host, name, cert) && (certs[0].host != host || certs[0].name != name) {
        var k :| 0 <= k < |rest| && rest[k] == cert && cert.active && cert.host == host && cert.name == name
          && forall j :: 0 <= j < k ==> rest[j].host != host || rest[j].name != name;
        assert certs[k + 1] == cert && forall j :: 0 < j < k + 1 ==> certs[j] == rest[j - 1];
      }
      if FirstDeclared(certs, host, name, cert) {
        var k :| 0 <= k < |certs| && certs[k] == cert && cert.active && cert.host == host && cert.name == name
          && forall j :: 0 <= j < k ==> certs[j].host != host || certs[j].name != name;
        if k > 0 { assert rest[k - 1] == cert; }
      }
    }
  }

  /** The template takes the guard of a key: it bears no marker, or this key's whole guard. */
  predicate Takes(template: string, blob: string) {
    Text.StartsWith(template, "{{/* grafhome-ca-ssh-key:") ==> Text.StartsWith(template, Templates.SshGuard(blob))
  }

  lemma TakesExactly(template: string, line: string)
    ensures Templates.BindSsh(template, Blob(line)).Some? <==> Takes(template, Blob(line))
  {
    BlobIsBlob(line);
    Templates.BindsExactly(template, Blob(line));
  }

  /** Policy has an issuer for the role and a template for the identity, or an active declaration with a template. */
  ghost predicate Foreseen(policy: Policy, request: Request) {
    var id, key := request.candidate.identity, request.candidate.key;
    match id
    case X509(host, name) =>
      key.X509Key? && exists cert :: FirstDeclared(policy.certs, host, name, cert) && cert.body.Some?
    case _ =>
      && (if id.User? then policy.user.Some? else policy.host.Some?)
      && key.SshKey? && id in policy.ssh && Takes(policy.ssh[id], Blob(key.canonical))
  }

  lemma DeclaredExactly(policy: Policy, request: Request, host: string, name: string)
    requires request.candidate.identity == Identity.X509(host, name)
    ensures Desired(policy, request).Ok? <==> Foreseen(policy, request)
  {
    FoundIsFirst(policy.certs, host, name);
  }

  lemma SshForeseenExactly(policy: Policy, request: Request)
    requires !request.candidate.identity.X509?
    ensures Desired(policy, request).Ok? <==> Foreseen(policy, request)
  {
    var id, key := request.candidate.identity, request.candidate.key;
    if key.SshKey? && id in policy.ssh { TakesExactly(policy.ssh[id], key.canonical); }
  }

  lemma DesiredExactly(policy: Policy, request: Request)
    ensures Desired(policy, request).Ok? <==> Foreseen(policy, request)
    ensures Desired(policy, request).Ok? ==>
              && NameOf(Desired(policy, request).value) == Some(ProvisionerName(request.candidate.identity))
              && KeyOf(Desired(policy, request).value) == Some(request.jwk)
  {
    match request.candidate.identity {
      case X509(host, name) => DeclaredExactly(policy, request, host, name);
      case _ => SshForeseenExactly(policy, request);
    }
    if Desired(policy, request).Ok? { DesiredNamesAndKeys(policy, request); }
  }

  lemma DesiredNamesAndKeys(policy: Policy, request: Request)
    requires Desired(policy, request).Ok?
    ensures var desired := Desired(policy, request).value;
            && NameOf(desired) == Some(ProvisionerName(request.candidate.identity))
            && KeyOf(desired) == Some(request.jwk)
  {
    match request.candidate.identity
    case X509(host, name) =>
      X509IssuerParts(policy, request.jwk, ActiveCert(policy.certs, host, name).value, request.candidate.key.der);
    case _ => FieldNamesDiffer();
  }

  // ---- Approval ----

  /**
   An approval's edit is accepted exactly when policy foresees it, the role's policy issuer can be
   refreshed, and the identity's name is free or holds the very same key; for a host without regard to SSHPOP.
   */
  lemma AuthorizesExactly(policy: Policy, items: seq<Value>, request: Request)
    ensures var id := request.candidate.identity;
            var kept := if id.Host? then WithoutSshpop(items) else items;
            Authorize(policy, items, request).Ok? <==>
            && Foreseen(policy, request) && (id.User? ==> Refreshable(kept, policy.user.value))
            && (id.Host? ==> Refreshable(kept, policy.host.value))
            && Placeable(kept, ProvisionerName(id), request.jwk)
  {
    var id := request.candidate.identity;
    var kept := if id.Host? then WithoutSshpop(items) else items;
    DesiredExactly(policy, request);
    if Desired(policy, request).Ok? {
      if id.User? { RequiresExactly(kept, UserRole, policy.user.value); }
      if id.Host? { RequiresExactly(kept, HostRole, policy.host.value); }
      var prepared := RefreshIssuer(policy, items, id);
      if prepared.Ok? {
        RefreshKeepsPlaces(policy, items, id);
        SamePlaceable(kept, prepared.value, ProvisionerName(id), request.jwk);
        UpsertsExactly(prepared.value, Desired(policy, request).value, ProvisionerName(id), request.jwk);
      }
    }
  }

  /** Names and keys place by place. */
  predicate SameNamesAndKeys(items: seq<Value>, next: seq<Value>) {
    |next| == |items| && forall k :: 0 <= k < |items| ==>
      NameOf(next[k]) == NameOf(items[k]) && KeyOf(next[k]) == KeyOf(items[k])
  }

  lemma RequireKeepsPlaces(items: seq<Value>, role: Role, e: Enroller)
    requires Require(items, role, e).Ok?
    ensures SameNamesAndKeys(items, Require(items, role, e).value)
  {
    var i := RequirePlaces(items, role, e);
  }

  lemma RefreshKeepsPlaces(policy: Policy, items: seq<Value>, id: Identity)
    requires RefreshIssuer(policy, items, id).Ok?
    ensures SameNamesAndKeys(if id.Host? then WithoutSshpop(items) else items, RefreshIssuer(policy, items, id).value)
  {
    match id
    case X509(_, _) =>
    case User(_, _) => RequireKeepsPlaces(items, UserRole, policy.user.value);
    case Host(_) => RequireKeepsPlaces(WithoutSshpop(items), HostRole, policy.host.value);
  }

  lemma SamePlaceable(items: seq<Value>, next: seq<Value>, name: string, key: Value)
    requires SameNamesAndKeys(items, next)
    ensures Placeable(items, name, key) <==> Placeable(next, name, key)
  {
    if Placeable(items, name, key) { SameOnes(items, next, name, key); }
    if Placeable(next, name, key) { SameOnes(next, items, name, key); }
  }

  lemma SameOnes(items: seq<Value>, next: seq<Value>, name: string, key: Value)
    requires SameNamesAndKeys(items, next) && Placeable(items, name, key)
    ensures Placeable(next, name, key)
  {
    if forall x :: x in items ==> NameOf(x) != Some(name) {
      forall x | x in next ensures NameOf(x) != Some(name) {
        var k :| 0 <= k < |next| && next[k] == x;
        assert items[k] in items;
      }
    } else {
      var i :| 0 <= i < |items| && OnlyAt(items, name, i) && KeyOf(items[i]) == Some(key);
      assert OnlyAt(next, name, i);
    }
  }

  // ---- Import ----

  /** A renewal provisioner of the same key with an inline plain template that takes the guard. */
  predicate Importable(item: Value, name: string, jwk: Value, blob: string) {
    && KindOf(item) == Some("JWK") && KeyOf(item).Some? && JwkMaterial(jwk).Some?
    && JwkMaterial(KeyOf(item).value) == JwkMaterial(jwk) && (ParseHost(name).Some? || ParseUser(name).Some?)
    && Section(item, "ssh").Some? && Section(item, "ssh").value.Obj? && TemplateOf(item, "ssh").Some?
    && Text.StartsWith(Templates.TrimStart(TemplateOf(item, "ssh").value), "{")
    && Takes(TemplateOf(item, "ssh").value, blob)
  }

  lemma ImportableExactly(options: Value, name: string, blob: string, denials: Denials)
    requires Templates.IsBlob(blob)
    ensures BindOptions(options, name, blob, denials).Ok? <==>
            && (ParseHost(name).Some? || ParseUser(name).Some?)
            && Field(options, "ssh").Some? && Field(options, "ssh").value.Obj?
            && StrField(Field(options, "ssh").value, "template").Some?
            && Text.StartsWith(Templates.TrimStart(StrField(Field(options, "ssh").value, "template").value), "{")
            && Takes(StrField(Field(options, "ssh").value, "template").value, blob)
  {
    FieldNamesDiffer();
    if Field(options, "ssh").Some? && StrField(Field(options, "ssh").value, "template").Some? {
      Templates.BindsExactly(StrField(Field(options, "ssh").value, "template").value, blob);
    }
  }

  /** An import is accepted exactly when the one provisioner of the name is importable. */
  lemma BindsExactly(items: seq<Value>, name: string, jwk: Value, blob: string, denials: Denials)
    requires Templates.IsBlob(blob)
    ensures Bind(items, name, jwk, blob, denials).Ok? <==>
            exists i :: 0 <= i < |items| && OnlyAt(items, name, i) && Importable(items[i], name, jwk, blob)
  {
    PlacesSay(items, name);
    var places := Places(items, name);
    forall i | 0 <= i < |items| && OnlyAt(items, name, i) ensures places == [i] {}
    if |places| == 1 && Field(items[places[0]], OPTIONS).Some? {
      ImportableExactly(Field(items[places[0]], OPTIONS).value, name, blob, denials);
    }
  }

  // ---- Applying policy ----

  /** One of the tombstones bears the provisioner's JWK or pinned key. */
  predicate Revoked(x509: seq<Tombstone>, item: Value) {
    exists t ::
      t in x509 && (Some(t.jwk) == FaceOf(item).Material() || (t.key.X509Key? && Some(t.key.der) == PinOf(item)))
  }

  /** Both keys of an X.509 provisioner can be read. */
  predicate KeysReadable(item: Value) { FaceOf(item).Material().Some? && PinOf(item).Some? }

  /** The certificate of the name is declared, active and has a template. */
  predicate Rebuildable(policy: Policy, item: Value) {
    && NameOf(item).Some? && KeyOf(item).Some? && PinOf(item).Some?
    && match ParseX509(NameOf(item).value)
       case None => false
       case Some((host, name)) =>
         exists cert :: cert in policy.certs && FirstDeclared(policy.certs, host, name, cert) && cert.body.Some?
  }

  lemma FoundIsFirst(certs: seq<Cert>, host: string, name: string)
    ensures var found := ActiveCert(certs, host, name);
            && (forall cert :: found == Some(cert) <==> FirstDeclared(certs, host, name, cert))
            && (found.Some? ==> FirstDeclared(certs, host, name, found.value))
  {
    var found := ActiveCert(certs, host, name);
    forall cert ensures found == Some(cert) <==> FirstDeclared(certs, host, name, cert) {
      ActiveCertExactly(certs, host, name, cert);
    }
    if found.Some? { ActiveCertExactly(certs, host, name, found.value); }
  }

  lemma RebuildsFound(policy: Policy, item: Value, host: string, name: string)
    requires NameOf(item).Some? && ParseX509(NameOf(item).value) == Some((host, name))
    ensures Rebuild(policy, item).Ok? <==>
            var found := ActiveCert(policy.certs, host, name);
            found.Some? && found.value.body.Some? && KeyOf(item).Some? && PinOf(item).Some?
  {
    if PinOf(item).Some? { Templates.PemRoundTrip(PinOf(item).value); }
  }

  lemma RebuildsExactly(policy: Policy, item: Value)
    requires NameOf(item).Some?
    ensures Rebuild(policy, item).Ok? <==> Rebuildable(policy, item)
  {
    if ParseX509(NameOf(item).value).Some? {
      var (host, name) := ParseX509(NameOf(item).value).value;
      FoundIsFirst(policy.certs, host, name);
      RebuildsFound(policy, item, host, name);
    }
  }

  /** A name policy holds to durations: an issuer of its own, or a user's or host's renewal provisioner. */
  predicate HeldToDurations(user: Enroller, host: Enroller, name: string) {
    name == user.name || name == host.name || ParseUser(name).Some? || ParseHost(name).Some?
  }

  /** The claims that durations are written into are an object, or missing. */
  predicate ClaimsFit(user: Enroller, host: Enroller, item: Value) {
    var held := NameOf(item).Some? && HeldToDurations(user, host, NameOf(item).value);
    held && Field(item, "claims").Some? ==> Field(item, "claims").value.Obj?
  }

  /** The options a provisioner ends up with. */
  function FinalOptions(user: Enroller, host: Enroller, item: Value): Option<Value> {
    if NameOf(item) == Some(user.name) then Some(user.options)
    else if NameOf(item) == Some(host.name) then Some(host.options)
    else Field(item, "options")
  }

  /** The X.509 template of some options is a lone denial. */
  predicate DeniesX509(options: Option<Value>) {
    && options.Some? && Field(options.value, "x509").Some?
    && StrField(Field(options.value, "x509").value, "template").Some?
    && Templates.IsDeny(StrField(Field(options.value, "x509").value, "template").value)
  }

  /** What `apply ca` can do something about. */
  predicate Appliable(policy: Policy, user: Enroller, host: Enroller, x509: seq<Tombstone>, item: Value) {
    || KindOf(item) == Some("ACME")
    || if IsX509(item) then KeysReadable(item) && (Revoked(x509, item) || Rebuildable(policy, item))
       else
         && ClaimsFit(user, host, item)
         && (KindOf(item) == Some("JWK") ==> DeniesX509(FinalOptions(user, host, item)))
  }

  lemma {:induction false} AllReconcile(policy: Policy, user: Enroller, host: Enroller, items: seq<Value>)
    ensures ReconcileAll(policy, user, host, items).Ok? <==>
            forall x :: x in items ==> ReconcileItem(policy, user, host, x).Ok?
    ensures ReconcileAll(policy, user, host, items).Ok? ==>
              var next := ReconcileAll(policy, user, host, items).value.0;
              |next| == |items| && forall k :: 0 <= k < |items| ==>
                ReconcileItem(policy, user, host, items[k]).Ok?
                && next[k] == ReconcileItem(policy, user, host, items[k]).value.0
  {
    if items != [] {
      AllReconcile(policy, user, host, items[1..]);
      assert items == [items[0]] + items[1..] && items[0] in items;
    }
  }

  lemma ItemReconciles(policy: Policy, user: Enroller, host: Enroller, item: Value)
    requires policy.user == Some(user) && policy.host == Some(host)
    ensures (ReconcileItem(policy, user, host, item).Ok?
             && Denied(ReconcileItem(policy, user, host, item).value.0)) <==>
            if IsX509(item) then Rebuildable(policy, item)
            else
              && ClaimsFit(user, host, item)
              && (KindOf(item) == Some("JWK") ==> DeniesX509(FinalOptions(user, host, item)))
  {
    if NameOf(item).Some? {
      var name := NameOf(item).value;
      RebuildsExactly(policy, item);
      if ReconcileItem(policy, user, host, item).Ok? {
        ReconcileItemExact(policy, user, host, item);
        if !IsX509(item) { Contents.SshItemApplied(policy, item, name); }
      }
    }
  }

  lemma RetirementSays(x509: seq<Tombstone>, item: Value)
    ensures Retired(x509, FaceOf(item)).Ok? <==> (IsX509(item) ==> KeysReadable(item))
    ensures Retired(x509, FaceOf(item)) == Ok(true) <==>
            KindOf(item) == Some("ACME") || (IsX509(item) && KeysReadable(item) && Revoked(x509, item))
  {
    assert "ACME"[0] == 'A' && JWK[0] == 'J';
    if Retired(x509, FaceOf(item)).Ok? { RetiredSays(x509, item); }
  }

  /** Rewriting the provisioner succeeds, and leaves it denied. */
  predicate Reconciles(policy: Policy, user: Enroller, host: Enroller, item: Value) {
    && ReconcileItem(policy, user, host, item).Ok? && Denied(ReconcileItem(policy, user, host, item).value.0)
  }

  predicate Survives(policy: Policy, user: Enroller, host: Enroller, x509: seq<Tombstone>, item: Value) {
    && Retired(x509, FaceOf(item)).Ok?
    && (Retired(x509, FaceOf(item)) == Ok(true) || Reconciles(policy, user, host, item))
  }

  lemma SurvivesExactly(policy: Policy, user: Enroller, host: Enroller, x509: seq<Tombstone>, item: Value)
    requires policy.user == Some(user) && policy.host == Some(host)
    ensures Survives(policy, user, host, x509, item) <==> Appliable(policy, user, host, x509, item)
  {
    RetirementSays(x509, item);
    ItemReconciles(policy, user, host, item);
    if IsX509(item) { assert KindOf(item) == Some(JWK) && JWK[0] == 'J' && "ACME"[0] == 'A'; }
  }

  lemma ReconcilesInParts(policy: Policy, user: Enroller, host: Enroller, x509: seq<Tombstone>, items: seq<Value>)
    requires policy.user == Some(user) && policy.host == Some(host)
    ensures ReconcileProvisioners(policy, x509, items).Ok? <==>
            RemoveRetired(x509, items).Ok? && AllReconciled(policy, user, host, RemoveRetired(x509, items).value.0)
  {}

  predicate AllReconciled(policy: Policy, user: Enroller, host: Enroller, items: seq<Value>) {
    && ReconcileAll(policy, user, host, items).Ok?
    && forall x :: x in ReconcileAll(policy, user, host, items).value.0 ==> Denied(x)
  }

  lemma AllReconciledExactly(policy: Policy, user: Enroller, host: Enroller, items: seq<Value>)
    ensures AllReconciled(policy, user, host, items) <==> forall x :: x in items ==> Reconciles(policy, user, host, x)
  {
    AllReconcile(policy, user, host, items);
    if ReconcileAll(policy, user, host, items).Ok? { DeniedExactly(policy, user, host, items); }
  }

  /** What holds of all that survives the retirement holds of each that it does not take. */
  lemma OfSurvivors(x509: seq<Tombstone>, items: seq<Value>, good: Value -> bool)
    requires RemoveRetired(x509, items).Ok?
    ensures (forall x :: x in Survivors(x509, items) ==> good(x)) <==>
            forall x :: x in items ==> Retired(x509, FaceOf(x)) == Ok(true) || good(x)
  {
    RemoveRetiredExact(x509, items);
  }

  lemma AllSurvive(policy: Policy, user: Enroller, host: Enroller, x509: seq<Tombstone>, items: seq<Value>)
    requires policy.user == Some(user) && policy.host == Some(host)
    ensures ReconcileProvisioners(policy, x509, items).Ok? <==>
            forall x :: x in items ==> Survives(policy, user, host, x509, x)
  {
    ReconcilesInParts(policy, user, host, x509, items);
    RemoveRetiredExact(x509, items);
    AllReconciledExactly(policy, user, host, Survivors(x509, items));
    if RemoveRetired(x509, items).Ok? { OfSurvivors(x509, items, x => Reconciles(policy, user, host, x)); }
  }

  /** `apply ca` succeeds exactly when both policy issuers are active and each provisioner is appliable. */
  lemma ReconcilesExactly(policy: Policy, x509: seq<Tombstone>, items: seq<Value>)
    ensures ReconcileProvisioners(policy, x509, items).Ok? <==>
            && policy.user.Some? && policy.host.Some?
            && forall x :: x in items ==> Appliable(policy, policy.user.value, policy.host.value, x509, x)
  {
    if policy.user.Some? && policy.host.Some? {
      var user, host := policy.user.value, policy.host.value;
      AllSurvive(policy, user, host, x509, items);
      forall x ensures Survives(policy, user, host, x509, x) <==> Appliable(policy, user, host, x509, x) {
        SurvivesExactly(policy, user, host, x509, x);
      }
    }
  }

  lemma DeniedExactly(policy: Policy, user: Enroller, host: Enroller, items: seq<Value>)
    requires ReconcileAll(policy, user, host, items).Ok?
    ensures (forall x :: x in ReconcileAll(policy, user, host, items).value.0 ==> Denied(x)) <==>
            forall x :: x in items ==> Reconciles(policy, user, host, x)
  {
    AllReconcile(policy, user, host, items);
    var next := ReconcileAll(policy, user, host, items).value.0;
    if forall x :: x in next ==> Denied(x) {
      forall x | x in items ensures Reconciles(policy, user, host, x) {
        var k :| 0 <= k < |items| && items[k] == x;
        assert next[k] in next;
      }
    } else {
      var x :| x in next && !Denied(x);
      var k :| 0 <= k < |next| && next[k] == x;
      assert items[k] in items;
    }
  }
}
