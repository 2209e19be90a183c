/**
 What the edits of `ca.json` leave in a provisioner, field by field: the templates and claims of an
 approved enrollment, of a refreshed policy issuer, and of every provisioner after `apply ca`.
 */
module Contents {
  import opened Wrappers
  import opened Json
  import opened Names
  import opened Registry
  import opened Issuers
  import opened Reconciliation
  import opened Ledger
  import Templates
  import Text

  // ---- Claims by their Smallstep names ----

  predicate UserClaims(x: Value, d: Durations) {
    && ClaimOf(x, "defaultUserSSHCertDuration") == Some(Str(d.standard))
    && ClaimOf(x, "maxUserSSHCertDuration") == Some(Str(d.longest))
    && ClaimOf(x, "enableSSHCA") == Some(Bool(true))
  }

  predicate HostClaims(x: Value, d: Durations) {
    && ClaimOf(x, "defaultHostSSHCertDuration") == Some(Str(d.standard))
    && ClaimOf(x, "maxHostSSHCertDuration") == Some(Str(d.longest))
    && ClaimOf(x, "enableSSHCA") == Some(Bool(true))
  }

  /** A certificate lives for its declared lifetime only, is renewed by the JWK alone, and is no SSH certificate. */
  predicate CertificateClaims(x: Value, ttl: string) {
    && ClaimOf(x, "defaultTLSCertDuration") == Some(Str(ttl)) && ClaimOf(x, "maxTLSCertDuration") == Some(Str(ttl))
    && ClaimOf(x, "disableRenewal") == Some(Bool(true)) && ClaimOf(x, "enableSSHCA") == Some(Bool(false))
  }

  lemma UserClaimsSpelled(x: Value, d: Durations)
    requires forall k :: k in SshClaims(UserRole, d) ==> ClaimOf(x, k) == Some(SshClaims(UserRole, d)[k])
    ensures UserClaims(x, d)
  {
    assert "defaultUserSSHCertDuration"[0] == 'd' && "maxUserSSHCertDuration"[0] == 'm' && ENABLE_SSH_CA[0] == 'e';
  }

  lemma HostClaimsSpelled(x: Value, d: Durations)
    requires forall k :: k in SshClaims(HostRole, d) ==> ClaimOf(x, k) == Some(SshClaims(HostRole, d)[k])
    ensures HostClaims(x, d)
  {
    assert "defaultHostSSHCertDuration"[0] == 'd' && "maxHostSSHCertDuration"[0] == 'm' && ENABLE_SSH_CA[0] == 'e';
  }

  lemma CertificateClaimsSpelled(x: Value, ttl: string)
    requires forall k :: k in X509Claims(ttl) ==> ClaimOf(x, k) == Some(X509Claims(ttl)[k])
    ensures CertificateClaims(x, ttl)
  {
    assert "defaultTLSCertDuration"[1] == 'e' && "disableRenewal"[1] == 'i' && "defaultTLSCertDuration"[0] == 'd';
    assert "disableRenewal"[0] == 'd' && "maxTLSCertDuration"[0] == 'm' && ENABLE_SSH_CA[0] == 'e';
  }

  // ---- The key of an OpenSSH public key line ----

  lemma {:induction false} TokenStops(s: string, rest: string)
    requires Templates.IsBlob(s) && (rest == "" || Templates.IsWhitespace(rest[0]))
    ensures Token(s + rest) == s
  {
    if s == "" {
      assert s + rest == rest;
    } else {
      assert (s + rest)[1..] == s[1..] + rest;
      TokenStops(s[1..], rest);
      assert s == [s[0]] + s[1..];
    }
  }

  /** The wire blob of a line is its second token. */
  lemma BlobOfLine(kind: string, b: string, rest: string)
    requires kind != "" && b != "" && Templates.IsBlob(kind) && Templates.IsBlob(b)
    requires rest == "" || Templates.IsWhitespace(rest[0])
    ensures Blob(kind + " " + b + rest) == b
  {
    var line := kind + " " + b + rest;
    assert line == kind + (" " + b + rest);
    assert line[0] == kind[0] && Templates.TrimStart(line) == line;
    TokenStops(kind, " " + b + rest);
    assert line[|kind|..] == " " + (b + rest) && (" " + (b + rest))[1..] == b + rest;
    assert Templates.TrimStart(b + rest) == b + rest;
    TokenStops(b, rest);
  }

  // ---- An approved SSH enrollment ----

  /** The denial with which a role's renewal provisioners refuse X.509. */
  function RoleDenial(policy: Policy, id: Identity): string {
    if id.User? then policy.denials.user else policy.denials.host
  }

  /** A template behind the guard of one key: read as text it admits that key alone, and then it is the body. */
  ghost predicate Pins(template: string, blob: string, body: string) {
    && Text.StartsWith(template, Templates.SshGuard(blob)) && Text.EndsWith(template, body)
    && ('"' !in blob ==> forall other :: Templates.SshAdmits(template, other) <==> other == blob)
  }

  /** A provisioner that issues SSH certificates for one key, from one body, for one role's renewal durations. */
  ghost predicate SshProvisioner(x: Value, policy: Policy, id: Identity, jwk: Value, blob: string)
    requires id in policy.ssh
  {
    && NameOf(x) == Some(ProvisionerName(id)) && KindOf(x) == Some("JWK") && KeyOf(x) == Some(jwk)
    && TemplateOf(x, "x509") == Some(RoleDenial(policy, id))
    && TemplateOf(x, "ssh").Some? && Pins(TemplateOf(x, "ssh").value, blob, policy.ssh[id])
    && (id.User? ==> policy.user.Some? && UserClaims(x, policy.user.value.renewal))
    && (id.Host? ==> policy.host.Some? && HostClaims(x, policy.host.value.renewal))
  }

  lemma BoundPins(body: string, blob: string)
    requires Templates.IsBlob(blob) && Templates.BindSsh(body, blob).Some?
    ensures Pins(Templates.BindSsh(body, blob).value, blob, body)
  {
    var t := Templates.BindSsh(body, blob).value;
    Templates.BindingIsExact(body, blob, blob);
    if '"' !in blob {
      forall other ensures Templates.SshAdmits(t, other) <==> other == blob {
        Templates.GuardedAdmitsOneKey(t, blob, other);
      }
    }
  }

  lemma IssuerClaims(name: string, key: Value, claims: map<string, Value>, options: Value)
    ensures forall k :: k in claims ==> ClaimOf(Issuer(name, key, claims, options), k) == Some(claims[k])
  {
    FieldNamesDiffer();
  }

  lemma DesiredSshProvisioner(policy: Policy, request: Request, blob: string)
    requires Desired(policy, request).Ok? && !request.candidate.identity.X509?
    requires request.candidate.key.SshKey? && Blob(request.candidate.key.canonical) == blob
    ensures var id := request.candidate.identity;
            id in policy.ssh && SshProvisioner(Desired(policy, request).value, policy, id, request.jwk, blob)
  {
    var id := request.candidate.identity;
    var role := if id.User? then UserRole else HostRole;
    var e := policy.EnrollerOf(role).value;
    BlobIsBlob(request.candidate.key.canonical);
    BoundPins(policy.ssh[id], blob);
    var template := Templates.BindSsh(policy.ssh[id], blob).value;
    var claims := SshClaims(role, e.renewal);
    var options := Options(policy.DenialOf(role), template);
    IssuerParts(ProvisionerName(id), request.jwk, claims, policy.DenialOf(role), template);
    IssuerClaims(ProvisionerName(id), request.jwk, claims, options);
    var x := Issuer(ProvisionerName(id), request.jwk, claims, options);
    if id.User? { UserClaimsSpelled(x, e.renewal); } else { HostClaimsSpelled(x, e.renewal); }
  }

  // ---- An approved certificate ----

  /** A provisioner that issues one declared certificate, to one key. */
  ghost predicate CertificateProvisioner(x: Value, policy: Policy, cert: Cert, jwk: Value,
                                         key: Templates.CertificateKey) {
    && NameOf(x) == Some(ProvisionerName(Identity.X509(cert.host, cert.name))) && KindOf(x) == Some("JWK")
    && KeyOf(x) == Some(jwk) && TemplateOf(x, "ssh") == Some(policy.denials.ssh) && CertificateClaims(x, cert.ttl)
    && cert.body.Some? && TemplateOf(x, "x509").Some?
    && Text.EndsWith(TemplateOf(x, "x509").value, cert.body.value + "\n")
    && (forall csr :: Templates.AdmitsKey(TemplateOf(x, "x509").value, csr) <==> csr == key)
  }

  lemma BuiltCertificateProvisioner(policy: Policy, jwk: Value, cert: Cert, key: Templates.CertificateKey)
    requires X509Issuer(policy, jwk, cert, key).Ok?
    ensures CertificateProvisioner(X509Issuer(policy, jwk, cert, key).value, policy, cert, jwk, key)
  {
    var name := ProvisionerName(Identity.X509(cert.host, cert.name));
    var template := Templates.X509Template(key, cert.body.value);
    IssuerParts(name, jwk, X509Claims(cert.ttl), template, policy.denials.ssh);
    IssuerClaims(name, jwk, X509Claims(cert.ttl), Options(template, policy.denials.ssh));
    CertificateClaimsSpelled(X509Issuer(policy, jwk, cert, key).value, cert.ttl);
    forall csr ensures Templates.AdmitsKey(template, csr) <==> csr == key {
      Templates.TemplateAdmitsOneKey(key, csr, cert.body.value);
    }
    Templates.TemplateAdmitsOneKey(key, key, cert.body.value);
  }

  // ---- What an approval leaves in the array ----

  /** The one issuer policy names for a role holds its own durations and options. */
  predicate HoldsOwn(next: seq<Value>, role: Role, e: Enroller) {
    exists j ::
      0 <= j < |next| && OnlyAt(next, e.name, j) && KindOf(next[j]) == Some(e.kind)
      && Field(next[j], "options") == Some(e.options)
      && (if role.UserRole? then UserClaims(next[j], e.own) else HostClaims(next[j], e.own))
  }

  lemma RequiredHolds(items: seq<Value>, role: Role, e: Enroller)
    requires Require(items, role, e).Ok?
    ensures HoldsOwn(Require(items, role, e).value, role, e)
  {
    var next := Require(items, role, e).value;
    var j := RequirePlaces(items, role, e);
    SshClaimsNotEmpty(role, e.own);
    MergeClaimsExact(next[j], SshClaims(role, e.own));
    if role.UserRole? { UserClaimsSpelled(next[j], e.own); } else { HostClaimsSpelled(next[j], e.own); }
    OnlyAtStays(items, next, e.name, j);
  }

  lemma OnlyAtStays(items: seq<Value>, next: seq<Value>, name: string, i: nat)
    requires OnlyAt(items, name, i) && |next| == |items|
    requires forall k :: 0 <= k < |items| ==> NameOf(next[k]) == NameOf(items[k])
    ensures OnlyAt(next, name, i)
  {}

  /** Every provisioner but those of the given names is one that was there. */
  predicate OthersOld(items: seq<Value>, next: seq<Value>, names: set<string>) {
    forall y :: y in next && !(NameOf(y).Some? && NameOf(y).value in names) ==> y in items
  }

  /** Every provisioner but those of the given names, and SSHPOP where it is dropped, is still there. */
  predicate OthersKept(items: seq<Value>, next: seq<Value>, names: set<string>, drops: bool) {
    forall y ::
      y in items && !(NameOf(y).Some? && NameOf(y).value in names) && !(drops && KindOf(y) == Some("SSHPOP")) ==>
        y in next
  }

  lemma RequireOthers(items: seq<Value>, role: Role, e: Enroller)
    requires Require(items, role, e).Ok?
    ensures var next := Require(items, role, e).value;
            OthersOld(items, next, {e.name}) && OthersKept(items, next, {e.name}, false)
  {
    var next := Require(items, role, e).value;
    var j := RequirePlaces(items, role, e);
    forall y | y in next && NameOf(y) != Some(e.name) ensures y in items { var k :| 0 <= k < |next| && next[k] == y; }
    forall y | y in items && NameOf(y) != Some(e.name) ensures y in next {
      var k :| 0 <= k < |items| && items[k] == y;
      assert next[k] == y;
    }
  }

  lemma UpsertOthers(items: seq<Value>, desired: Value)
    requires Upsert(items, desired).Ok?
    ensures var next := Upsert(items, desired).value;
            && NameOf(desired).Some? && OthersOld(items, next, {NameOf(desired).value})
            && OthersKept(items, next, {NameOf(desired).value}, false)
  {
    var next := Upsert(items, desired).value;
    var i := UpsertPlaces(items, desired);
    forall y | y in next && NameOf(y) != NameOf(desired) ensures y in items {
      var k :| 0 <= k < |next| && next[k] == y;
    }
    forall y | y in items && NameOf(y) != NameOf(desired) ensures y in next {
      var k :| 0 <= k < |items| && items[k] == y;
      assert next[k] == y;
    }
  }

  lemma UpsertKeepsRefreshed(items: seq<Value>, role: Role, e: Enroller, desired: Value)
    requires HoldsOwn(items, role, e) && Upsert(items, desired).Ok? && NameOf(desired) != Some(e.name)
    ensures HoldsOwn(Upsert(items, desired).value, role, e)
  {
    var next := Upsert(items, desired).value;
    var j :| 0 <= j < |items| && OnlyAt(items, e.name, j) && KindOf(items[j]) == Some(e.kind)
      && Field(items[j], "options") == Some(e.options)
      && (if role.UserRole? then UserClaims(items[j], e.own) else HostClaims(items[j], e.own));
    var i := UpsertPlaces(items, desired);
    assert i != j && next[j] == items[j];
    forall k | 0 <= k < |next| && NameOf(next[k]) == Some(e.name) ensures k == j {
      assert k != i && next[k] == items[k];
    }
  }

  /** The names an approval may touch: the request's, and for SSH the role's policy issuer. */
  function Touched(policy: Policy, id: Identity): set<string> {
    {ProvisionerName(id)}
    + (if id.User? && policy.user.Some? then {policy.user.value.name} else {})
    + (if id.Host? && policy.host.Some? then {policy.host.value.name} else {})
  }

  lemma RefreshOthers(policy: Policy, items: seq<Value>, id: Identity)
    requires RefreshIssuer(policy, items, id).Ok?
    ensures var next := RefreshIssuer(policy, items, id).value;
            OthersOld(items, next, Touched(policy, id)) && OthersKept(items, next, Touched(policy, id), id.Host?)
    ensures id.User? ==>
              policy.user.Some? && HoldsOwn(RefreshIssuer(policy, items, id).value, UserRole, policy.user.value)
    ensures id.Host? ==>
              policy.host.Some? && HoldsOwn(RefreshIssuer(policy, items, id).value, HostRole, policy.host.value)
  {
    match id
    case X509(_, _) =>
    case User(_, _) =>
      RequireOthers(items, UserRole, policy.user.value);
      RequiredHolds(items, UserRole, policy.user.value);
    case Host(_) =>
      RequireOthers(WithoutSshpop(items), HostRole, policy.host.value);
      RequiredHolds(WithoutSshpop(items), HostRole, policy.host.value);
  }

  lemma DesiredIsJwk(policy: Policy, request: Request)
    requires Desired(policy, request).Ok?
    ensures KindOf(Desired(policy, request).value) == Some("JWK")
  {
    match request.candidate.identity
    case X509(host, name) =>
      X509IssuerParts(policy, request.jwk, ActiveCert(policy.certs, host, name).value, request.candidate.key.der);
    case _ => FieldNamesDiffer();
  }

  /** A host approval leaves no SSHPOP provisioner. */
  lemma HostApprovalDropsSshpop(policy: Policy, items: seq<Value>, request: Request, y: Value)
    requires request.candidate.identity.Host? && Authorize(policy, items, request).Ok?
    requires y in Authorize(policy, items, request).value
    ensures KindOf(y) != Some("SSHPOP")
  {
    JwkIsNotSshpop();
    DesiredIsJwk(policy, request);
    NothingLeftToDrop(items, policy.host.value, Desired(policy, request).value);
    assert y in WithoutSshpop(Authorize(policy, items, request).value);
  }

  /**
   A successful approval leaves exactly one provisioner of the request's name, at the returned place;
   only it and the role's policy issuer differ from before, and the latter is refreshed.
   */
  lemma ApprovalPlaces(policy: Policy, items: seq<Value>, request: Request) returns (i: nat)
    requires Authorize(policy, items, request).Ok?
    ensures var next, id := Authorize(policy, items, request).value, request.candidate.identity;
            && Desired(policy, request).Ok?
            && OnlyAt(next, ProvisionerName(id), i) && next[i] == Desired(policy, request).value
            && OthersOld(items, next, Touched(policy, id)) && OthersKept(items, next, Touched(policy, id), id.Host?)
            && (id.User? ==> policy.user.Some?)
            && (id.User? && policy.user.value.name != ProvisionerName(id) ==>
                HoldsOwn(next, UserRole, policy.user.value))
            && (id.Host? ==> policy.host.Some?)
            && (id.Host? && policy.host.value.name != ProvisionerName(id) ==>
                HoldsOwn(next, HostRole, policy.host.value))
  {
    var id, desired := request.candidate.identity, Desired(policy, request).value;
    var prepared := RefreshIssuer(policy, items, id).value;
    DesiredIsNamed(policy, request);
    i := UpsertPlaces(prepared, desired);
    RefreshOthers(policy, items, id);
    UpsertOthers(prepared, desired);
    if id.User? && policy.user.value.name != ProvisionerName(id) {
      UpsertKeepsRefreshed(prepared, UserRole, policy.user.value, desired);
    }
    if id.Host? && policy.host.value.name != ProvisionerName(id) {
      UpsertKeepsRefreshed(prepared, HostRole, policy.host.value, desired);
    }
  }

  lemma DesiredIsNamed(policy: Policy, request: Request)
    requires Desired(policy, request).Ok?
    ensures NameOf(Desired(policy, request).value) == Some(ProvisionerName(request.candidate.identity))
  {
    match request.candidate.identity
    case X509(host, name) =>
      X509IssuerParts(policy, request.jwk, ActiveCert(policy.certs, host, name).value, request.candidate.key.der);
    case _ => FieldNamesDiffer();
  }

  /**
   The provisioner an SSH approval leaves admits the approved key alone, issues policy's body for that
   identity, refuses X.509, and holds its role's renewal durations; `b` is the second token of the key line.
   */
  lemma SshApprovalInstalls(policy: Policy, items: seq<Value>, request: Request, kind: string, b: string, rest: string)
    returns (i: nat)
    requires Authorize(policy, items, request).Ok? && !request.candidate.identity.X509?
    requires request.candidate.key == SshKey(kind + " " + b + rest)
    requires kind != "" && b != "" && Templates.IsBlob(kind) && Templates.IsBlob(b)
    requires rest == "" || Templates.IsWhitespace(rest[0])
    ensures var next, id := Authorize(policy, items, request).value, request.candidate.identity;
            && OnlyAt(next, ProvisionerName(id), i) && id in policy.ssh
            && SshProvisioner(next[i], policy, id, request.jwk, b)
  {
    BlobOfLine(kind, b, rest);
    i := ApprovalPlaces(policy, items, request);
    DesiredSshProvisioner(policy, request, b);
  }

  /** The provisioner an X.509 approval leaves admits the approved key alone and issues what its declaration says. */
  lemma CertificateApprovalInstalls(policy: Policy, items: seq<Value>, request: Request) returns (i: nat, cert: Cert)
    requires Authorize(policy, items, request).Ok? && request.candidate.identity.X509?
    ensures var next, id := Authorize(policy, items, request).value, request.candidate.identity;
            && OnlyAt(next, ProvisionerName(id), i) && request.candidate.key.X509Key?
            && cert in policy.certs && cert.active && cert.host == id.host && cert.name == id.name
            && CertificateProvisioner(next[i], policy, cert, request.jwk, request.candidate.key.der)
  {
    var id := request.candidate.identity;
    i := ApprovalPlaces(policy, items, request);
    cert := ActiveCert(policy.certs, id.host, id.name).value;
    BuiltCertificateProvisioner(policy, request.jwk, cert, request.candidate.key.der);
  }

  // ---- An imported enrollment ----

  /** An imported provisioner: its own plain template behind the guard of one key, X.509 refused, the rest as it was. */
  ghost predicate Imported(item: Value, x: Value, id: Identity, denials: Denials, blob: string) {
    && KindOf(x) == Some("JWK") && (forall f :: f != "options" ==> Field(x, f) == Field(item, f))
    && TemplateOf(x, "x509") == Some(if id.Host? then denials.host else denials.user)
    && TemplateOf(item, "ssh").Some? && TemplateOf(x, "ssh").Some?
    && Text.StartsWith(Templates.TrimStart(TemplateOf(item, "ssh").value), "{")
    && Pins(TemplateOf(x, "ssh").value, blob, TemplateOf(item, "ssh").value)
  }

  lemma BoundSection(ssh: Value, blob: string)
    requires Templates.IsBlob(blob) && BindSection(ssh, blob).Ok?
    ensures var next := BindSection(ssh, blob).value;
            && StrField(ssh, "template").Some? && StrField(next, "template").Some?
            && Text.StartsWith(Templates.TrimStart(StrField(ssh, "template").value), "{")
            && Pins(StrField(next, "template").value, blob, StrField(ssh, "template").value)
  {
    BoundPins(StrField(ssh, TEMPLATE).value, blob);
    SetFieldKeeps(ssh, TEMPLATE, Str(Templates.BindSsh(StrField(ssh, TEMPLATE).value, blob).value));
  }

  /** The binding of options touches their SSH template alone, behind the guard, and sets the denial. */
  lemma BoundOptions(options: Value, name: string, blob: string, denials: Denials)
    requires Templates.IsBlob(blob) && BindOptions(options, name, blob, denials).Ok?
    ensures var next := BindOptions(options, name, blob, denials).value;
            && Field(options, "ssh").Some? && BindSection(Field(options, "ssh").value, blob).Ok?
            && Field(next, "ssh") == Some(BindSection(Field(options, "ssh").value, blob).value)
            && forall f :: f != "ssh" && f != "x509" ==> Field(next, f) == Field(options, f)
  {
    FieldNamesDiffer();
  }

  /** An import changes one provisioner, the one that carries the imported renewal key under the identity's name. */
  lemma ImportInstalls(items: seq<Value>, id: Identity, jwk: Value, kind: string, b: string, rest: string,
                       denials: Denials) returns (i: nat)
    requires !id.X509? && kind != "" && b != "" && Templates.IsBlob(kind) && Templates.IsBlob(b)
    requires rest == "" || Templates.IsWhitespace(rest[0])
    requires Bind(items, ProvisionerName(id), jwk, Blob(kind + " " + b + rest), denials).Ok?
    ensures var next := Bind(items, ProvisionerName(id), jwk, Blob(kind + " " + b + rest), denials).value;
            && OnlyAt(items, ProvisionerName(id), i) && next == items[i := next[i]]
            && JwkMaterial(jwk).Some? && FaceOf(items[i]).Material() == JwkMaterial(jwk)
            && Imported(items[i], next[i], id, denials, b)
  {
    BlobOfLine(kind, b, rest);
    var name := ProvisionerName(id);
    i := BindPlaces(items, name, jwk, b, denials);
    var k := BindExact(items, id, jwk, b, denials);
    var options := Field(items[i], OPTIONS).value;
    var bound := BindOptions(options, name, b, denials).value;
    BoundOptions(options, name, b, denials);
    BoundSection(Field(options, SSH_SECTION).value, b);
    TemplateOfOptions(items[i], bound, SSH_SECTION);
    SetFieldKeeps(items[i], OPTIONS, bound);
    FieldNamesDiffer();
    assert k == i;
  }

  // ---- What `apply ca` leaves in each provisioner ----

  /** The durations a provisioner is held to by its name. */
  predicate ClaimsByName(user: Enroller, host: Enroller, name: string, x: Value) {
    if name == user.name then UserClaims(x, user.own)
    else if ParseUser(name).Some? then UserClaims(x, user.renewal)
    else if name == host.name then HostClaims(x, host.own)
    else if ParseHost(name).Some? then HostClaims(x, host.renewal)
    else true
  }

  predicate OptionsByName(user: Enroller, host: Enroller, name: string, item: Value, x: Value) {
    if name == user.name then Field(x, "options") == Some(user.options)
    else if name == host.name then Field(x, "options") == Some(host.options)
    else Field(x, "options") == Field(item, "options")
  }

  predicate OwnedClaim(claim: string) {
    || claim == "defaultUserSSHCertDuration" || claim == "maxUserSSHCertDuration"
    || claim == "defaultHostSSHCertDuration" || claim == "maxHostSSHCertDuration" || claim == "enableSSHCA"
  }

  /** Nothing but claims that policy owns, and the options, differs. */
  ghost predicate RestKept(item: Value, x: Value) {
    && (forall f :: f != "claims" && f != "options" ==> Field(x, f) == Field(item, f))
    && (forall c :: !OwnedClaim(c) ==> ClaimOf(x, c) == ClaimOf(item, c))
  }

  /** A provisioner after `apply ca`, against what it was. */
  ghost predicate Applied(policy: Policy, item: Value, x: Value) {
    match NameOf(item)
    case None => x == item
    case Some(name) =>
      && policy.user.Some? && policy.host.Some?
      && if IsX509(item) then
           KeyOf(item).Some? && PinOf(item).Some?
           && exists cert ::
                cert in policy.certs && cert.active && Some((cert.host, cert.name)) == ParseX509(name)
                && CertificateProvisioner(x, policy, cert, KeyOf(item).value, PinOf(item).value)
         else
           && ClaimsByName(policy.user.value, policy.host.value, name, x)
           && OptionsByName(policy.user.value, policy.host.value, name, item, x) && RestKept(item, x)
  }

  lemma RoleClaimsHeld(x: Value, role: Role, d: Durations)
    requires forall k :: k in SshClaims(role, d) ==> ClaimOf(x, k) == Some(SshClaims(role, d)[k])
    ensures if role.UserRole? then UserClaims(x, d) else HostClaims(x, d)
  {
    if role.UserRole? { UserClaimsSpelled(x, d); } else { HostClaimsSpelled(x, d); }
  }

  /** Merging a role's claims sets them and leaves every other claim and field. */
  lemma MergedClaims(item: Value, role: Role, d: Durations)
    requires MergeClaims(item, SshClaims(role, d)).Ok?
    ensures var x := MergeClaims(item, SshClaims(role, d)).value.0;
            && (if role.UserRole? then UserClaims(x, d) else HostClaims(x, d))
            && RestKept(item, x) && Field(x, "options") == Field(item, "options")
  {
    SshClaimsNotEmpty(role, d);
    MergeClaimsExact(item, SshClaims(role, d));
    RoleClaimsHeld(MergeClaims(item, SshClaims(role, d)).value.0, role, d);
    FieldNamesDiffer();
  }

  /** Which role and durations a name is held to. */
  function OwnedRole(user: Enroller, host: Enroller, name: string): Option<(Role, Durations)> {
    if name == user.name then Some((UserRole, user.own))
    else if ParseUser(name).Some? then Some((UserRole, user.renewal))
    else if name == host.name then Some((HostRole, host.own))
    else if ParseHost(name).Some? then Some((HostRole, host.renewal))
    else None
  }

  lemma OptionsMerged(item: Value, options: Value)
    requires item.Obj?
    ensures var x := MergeOptions(item, options).0;
            && Field(x, "options") == Some(options) && RestKept(item, x)
            && forall c :: ClaimOf(x, c) == ClaimOf(item, c)
  {
    MergeOptionsExact(item, options);
    FieldNamesDiffer();
  }

  lemma SshItemApplied(policy: Policy, item: Value, name: string)
    requires policy.user.Some? && policy.host.Some? && NameOf(item) == Some(name) && !IsX509(item)
    requires ReconcileSsh(policy.user.value, policy.host.value, item, name).Ok?
    ensures Applied(policy, item, ReconcileSsh(policy.user.value, policy.host.value, item, name).value.0)
  {
    var user, host := policy.user.value, policy.host.value;
    var owned := OwnedRole(user, host, name);
    assert OwnedClaims(user, host, name)
           == match owned case None => None case Some((role, d)) => Some(SshClaims(role, d));
    if owned.Some? {
      var (role, d) := owned.value;
      MergedClaims(item, role, d);
      var claimed := MergeClaims(item, SshClaims(role, d)).value.0;
      if OwnedOptions(user, host, name).Some? { OptionsMerged(claimed, OwnedOptions(user, host, name).value); }
    }
  }

  lemma CertificateItemApplied(policy: Policy, item: Value)
    requires policy.user.Some? && policy.host.Some? && IsX509(item) && Rebuild(policy, item).Ok?
    ensures Applied(policy, item, Rebuild(policy, item).value)
  {
    var (host, name) := ParseX509(NameOf(item).value).value;
    var cert, pin := ActiveCert(policy.certs, host, name).value, PinOf(item).value;
    Templates.PemRoundTrip(pin);
    BuiltCertificateProvisioner(policy, KeyOf(item).value, cert, pin);
  }

  /** The survivors of `apply ca`, position by position. */
  lemma {:induction false} EachApplied(policy: Policy, items: seq<Value>, k: nat)
    requires policy.user.Some? && policy.host.Some? && k < |items|
    requires ReconcileAll(policy, policy.user.value, policy.host.value, items).Ok?
    ensures var next := ReconcileAll(policy, policy.user.value, policy.host.value, items).value.0;
            |next| == |items| && Applied(policy, items[k], next[k])
  {
    ReconcileAllExact(policy, policy.user.value, policy.host.value, items);
    if k == 0 {
      if NameOf(items[0]).Some? {
        if IsX509(items[0]) {
          CertificateItemApplied(policy, items[0]);
        } else {
          SshItemApplied(policy, items[0], NameOf(items[0]).value);
        }
      }
    } else {
      EachApplied(policy, items[1..], k - 1);
    }
  }

  /**
   After `apply ca` the provisioners are the survivors in order, each holding the durations, options and
   templates policy gives its name, and otherwise unchanged.
   */
  lemma ReconciledContents(policy: Policy, x509: seq<Tombstone>, items: seq<Value>)
    requires ReconcileProvisioners(policy, x509, items).Ok?
    ensures var kept, next := Survivors(x509, items), ReconcileProvisioners(policy, x509, items).value.0;
            |next| == |kept| && forall k :: 0 <= k < |kept| ==> Applied(policy, kept[k], next[k])
  {
    var kept := Survivors(x509, items);
    RemoveRetiredExact(x509, items);
    ReconcileAllExact(policy, policy.user.value, policy.host.value, kept);
    forall k | 0 <= k < |kept| ensures Applied(policy, kept[k], ReconcileProvisioners(policy, x509, items).value.0[k]) {
      EachApplied(policy, kept, k);
    }
  }
}
