/**
 Live provisioners of `ca.json` as JSON objects, and the edits enrollment and revocation make
 to the provisioners array (src/runtime_provisioners.rs, provisioner builder of src/x509.rs).
 */
module Issuers {
  import opened Wrappers
  import opened Json
  import opened Names
  import opened Registry
  import Templates
  import Text

  const TYPE := "type"
  const NAME := "name"
  const KEY := "key"
  const CLAIMS := "claims"
  const OPTIONS := "options"
  const X509_SECTION := "x509"
  const SSH_SECTION := "ssh"
  const TEMPLATE := "template"
  const JWK := "JWK"
  const SSHPOP := "SSHPOP"

  datatype Refusal =
    | MissingIssuer
    | DuplicateIssuer
    | WrongType
    | NoKey
    | DifferentKey
    | Malformed
    | BadTemplate
    | NotPermitted
    | NoPinnedKey
    | NotDenied

  // ---- Reading a provisioner ----

  function NameOf(v: Value): Option<string> { StrField(v, NAME) }

  function KindOf(v: Value): Option<string> { StrField(v, TYPE) }

  function KeyOf(v: Value): Option<Value> { Field(v, KEY) }

  function ClaimOf(v: Value, claim: string): Option<Value> {
    match Field(v, CLAIMS) case Some(claims) => Field(claims, claim) case None => None
  }

  function Section(v: Value, section: string): Option<Value> {
    match Field(v, OPTIONS) case Some(options) => Field(options, section) case None => None
  }

  function TemplateOf(v: Value, section: string): Option<string> {
    match Section(v, section) case Some(s) => StrField(s, TEMPLATE) case None => None
  }

  function PinOf(v: Value): Option<Templates.CertificateKey> {
    match TemplateOf(v, X509_SECTION) case Some(t) => Templates.FromTemplate(t) case None => None
  }

  predicate IsX509(v: Value) { Face(NameOf(v), KindOf(v), KeyOf(v), None).IsX509() }

  /** What the enrollment protocol sees of a provisioner; the pin matters on X.509 provisioners alone. */
  datatype Face = Face(
    name: Option<string>, kind: Option<string>, key: Option<Value>, pin: Option<Templates.CertificateKey>)
  {
    function Material(): Option<Value> { match key case Some(k) => JwkMaterial(k) case None => None }

    predicate IsX509() { kind == Some(JWK) && name.Some? && ParseX509(name.value).Some? }
  }

  function FaceOf(v: Value): Face {
    Face(NameOf(v), KindOf(v), KeyOf(v), if IsX509(v) then PinOf(v) else None)
  }

  lemma FieldNamesDiffer()
    ensures NAME != TYPE && NAME != KEY && NAME != CLAIMS && NAME != OPTIONS
    ensures TYPE != KEY && TYPE != CLAIMS && TYPE != OPTIONS
    ensures KEY != CLAIMS && KEY != OPTIONS && CLAIMS != OPTIONS && X509_SECTION != SSH_SECTION
  {
    assert NAME[0] == 'n' && TYPE[0] == 't' && KEY[0] == 'k' && CLAIMS[0] == 'c' && OPTIONS[0] == 'o';
    assert X509_SECTION[0] == 'x' && SSH_SECTION[0] == 's';
  }

  // ---- Building a provisioner ----

  function Templated(template: string): Value { Obj(map[TEMPLATE := Str(template)]) }

  function Options(x509: string, ssh: string): Value {
    Obj(map[X509_SECTION := Templated(x509), SSH_SECTION := Templated(ssh)])
  }

  function Issuer(name: string, key: Value, claims: map<string, Value>, options: Value): Value {
    Obj(map[TYPE := Str(JWK), NAME := Str(name), KEY := key, CLAIMS := Obj(claims), OPTIONS := options])
  }

  lemma IssuerParts(name: string, key: Value, claims: map<string, Value>, x509: string, ssh: string)
    ensures var v := Issuer(name, key, claims, Options(x509, ssh));
            && NameOf(v) == Some(name) && KindOf(v) == Some(JWK) && KeyOf(v) == Some(key)
            && TemplateOf(v, X509_SECTION) == Some(x509) && TemplateOf(v, SSH_SECTION) == Some(ssh)
  {
    FieldNamesDiffer();
  }

  /** Durations as Smallstep reads them. */
  datatype Durations = Durations(standard: string, longest: string)

  datatype Role = UserRole | HostRole

  const ENABLE_SSH_CA := "enableSSHCA"

  function SshClaims(role: Role, d: Durations): map<string, Value> {
    match role
    case UserRole =>
      map["defaultUserSSHCertDuration" := Str(d.standard), "maxUserSSHCertDuration" := Str(d.longest),
          ENABLE_SSH_CA := Bool(true)]
    case HostRole =>
      map["defaultHostSSHCertDuration" := Str(d.standard), "maxHostSSHCertDuration" := Str(d.longest),
          ENABLE_SSH_CA := Bool(true)]
  }

  lemma SshClaimsNotEmpty(role: Role, d: Durations)
    ensures SshClaims(role, d) != map[]
  {
    assert ENABLE_SSH_CA in SshClaims(role, d);
  }

  function X509Claims(ttl: string): map<string, Value> {
    map["defaultTLSCertDuration" := Str(ttl), "maxTLSCertDuration" := Str(ttl),
        "disableRenewal" := Bool(true), ENABLE_SSH_CA := Bool(false)]
  }

  // ---- Site policy ----

  /** The active policy issuer of a role: its own and its renewal durations, and its inline templates. */
  datatype Enroller = Enroller(name: string, kind: string, own: Durations, renewal: Durations, options: Value)

  /** The fixed templates by which renewal provisioners refuse the other credential type. */
  datatype Denials = Denials(user: string, host: string, ssh: string)

  /** A declared certificate; `body` is the rendered template body, absent without a name. */
  datatype Cert = Cert(host: string, name: string, active: bool, ttl: string, body: Option<string>)

  /** `ssh` renders the template body of each SSH enrollment policy permits. */
  datatype Policy = Policy(
    user: Option<Enroller>, host: Option<Enroller>, certs: seq<Cert>, ssh: map<Identity, string>, denials: Denials)
  {
    function EnrollerOf(role: Role): Option<Enroller> { if role.UserRole? then user else host }

    function DenialOf(role: Role): string { if role.UserRole? then denials.user else denials.host }
  }

  /** No issuer named by policy bears an X.509 renewal name. */
  predicate NoX509Issuer(policy: Policy) {
    && (policy.user.Some? ==> ParseX509(policy.user.value.name) == None)
    && (policy.host.Some? ==> ParseX509(policy.host.value.name) == None)
  }

  /** The SSH issuers of policy are JWK provisioners, as policy validation requires. */
  predicate JwkIssuers(policy: Policy) {
    && (policy.user.Some? ==> policy.user.value.kind == JWK)
    && (policy.host.Some? ==> policy.host.value.kind == JWK)
  }

  /** The first declaration of a certificate, when it is active. */
  function ActiveCert(certs: seq<Cert>, host: string, name: string): (c: Option<Cert>)
    ensures c.Some? ==> c.value in certs && c.value.active && c.value.host == host && c.value.name == name
  {
    if certs == [] then None
    else if certs[0].host == host && certs[0].name == name then (if certs[0].active then Some(certs[0]) else None)
    else ActiveCert(certs[1..], host, name)
  }

  /** The complete X.509-only provisioner of one enrollment. */
  function X509Issuer(policy: Policy, key: Value, cert: Cert, pin: Templates.CertificateKey): Result<Value, Refusal> {
    match cert.body
    case None => Err(Malformed)
    case Some(body) =>
      Ok(Issuer(ProvisionerName(Identity.X509(cert.host, cert.name)), key, X509Claims(cert.ttl),
                Options(Templates.X509Template(pin, body), policy.denials.ssh)))
  }

  lemma X509IssuerParts(policy: Policy, key: Value, cert: Cert, pin: Templates.CertificateKey)
    requires X509Issuer(policy, key, cert, pin).Ok?
    ensures var v := X509Issuer(policy, key, cert, pin).value;
            && NameOf(v) == Some(ProvisionerName(Identity.X509(cert.host, cert.name))) && KindOf(v) == Some(JWK)
            && KeyOf(v) == Some(key) && PinOf(v) == Some(pin)
  {
    var template := Templates.X509Template(pin, cert.body.value);
    IssuerParts(ProvisionerName(Identity.X509(cert.host, cert.name)), key, X509Claims(cert.ttl), template,
        policy.denials.ssh);
    Templates.TemplateKeepsKey(pin, cert.body.value);
  }

  // ---- Editing one provisioner ----

  function SetField(v: Value, field: string, x: Value): Value
    requires v.Obj?
  {
    Obj(v.fields[field := x])
  }

  lemma SetFieldKeeps(v: Value, field: string, x: Value)
    requires v.Obj?
    ensures Field(SetField(v, field, x), field) == Some(x)
    ensures forall other :: other != field ==> Field(SetField(v, field, x), other) == Field(v, other)
    ensures SetField(v, field, x) == v <==> Field(v, field) == Some(x)
  {
    if Field(v, field) == Some(x) { assert v.fields[field := x] == v.fields; }
  }

  /** Merge owned claims into a provisioner, with the changed flag of the source's loop. */
  function MergeClaims(item: Value, desired: map<string, Value>): Result<(Value, bool), Refusal> {
    if !item.Obj? || !Child(item, CLAIMS).Obj? then Err(Malformed)
    else
      var current := Child(item, CLAIMS).fields;
      Ok((SetField(item, CLAIMS, Obj(current + desired)), current + desired != current))
  }

  /** Merged claims hold every owned value, keep every other, and the flag reports exactly a change. */
  lemma MergeClaimsExact(item: Value, desired: map<string, Value>)
    requires desired != map[] && MergeClaims(item, desired).Ok?
    ensures var (next, changed) := MergeClaims(item, desired).value;
            && (changed <==> next != item)
            && MergeClaims(next, desired) == Ok((next, false))
            && (forall k :: k in desired ==> ClaimOf(next, k) == Some(desired[k]))
            && (forall k :: k !in desired ==> ClaimOf(next, k) == ClaimOf(item, k))
            && (forall f :: f != CLAIMS ==> Field(next, f) == Field(item, f))
            && FaceOf(next) == FaceOf(item)
  {
    var current := Child(item, CLAIMS).fields;
    var (next, changed) := MergeClaims(item, desired).value;
    SetFieldKeeps(item, CLAIMS, Obj(current + desired));
    assert (current + desired) + desired == current + desired;
    SetFieldKeeps(next, CLAIMS, Obj(current + desired));
    FieldNamesDiffer();
    var some :| some in desired;
    assert some in current + desired;
  }

  function MergeOptions(item: Value, options: Value): (Value, bool)
    requires item.Obj?
  {
    if Field(item, OPTIONS) == Some(options) then (item, false) else (SetField(item, OPTIONS, options), true)
  }

  lemma MergeOptionsExact(item: Value, options: Value)
    requires item.Obj?
    ensures var (next, changed) := MergeOptions(item, options);
            && (changed <==> next != item)
            && MergeOptions(next, options) == (next, false)
            && Field(next, OPTIONS) == Some(options)
            && (forall f :: f != OPTIONS ==> Field(next, f) == Field(item, f))
            && (!IsX509(item) ==> FaceOf(next) == FaceOf(item))
  {
    SetFieldKeeps(item, OPTIONS, options);
    FieldNamesDiffer();
  }

  // ---- Places in the array ----

  /** Indices of the provisioners with a name. */
  function Places(items: seq<Value>, name: string): (r: seq<nat>)
    ensures forall k :: 0 <= k < |r| ==> r[k] < |items|
  {
    if items == [] then []
    else
      var last := |items| - 1;
      Places(items[..last], name) + (if NameOf(items[last]) == Some(name) then [last] else [])
  }

  /** The places are exactly those of the name. */
  lemma {:induction false} PlacesExact(items: seq<Value>, name: string)
    ensures forall i :: i in Places(items, name) <==> 0 <= i < |items| && NameOf(items[i]) == Some(name)
  {
    if items != [] {
      var last := |items| - 1;
      PlacesExact(items[..last], name);
      forall i | 0 <= i < last ensures items[..last][i] == items[i] {}
    }
  }

  lemma {:induction false} PlacesIncrease(items: seq<Value>, name: string)
    ensures forall j, k :: 0 <= j < k < |Places(items, name)| ==> Places(items, name)[j] < Places(items, name)[k]
  {
    if items != [] { PlacesIncrease(items[..|items| - 1], name); }
  }

  predicate OnlyAt(items: seq<Value>, name: string, i: nat) {
    && i < |items| && NameOf(items[i]) == Some(name)
    && forall k :: 0 <= k < |items| && NameOf(items[k]) == Some(name) ==> k == i
  }

  lemma OnePlace(items: seq<Value>, name: string, i: nat)
    ensures Places(items, name) == [i] <==> OnlyAt(items, name, i)
    ensures Places(items, name) == [] <==> forall k :: 0 <= k < |items| ==> NameOf(items[k]) != Some(name)
  {
    var r := Places(items, name);
    PlacesExact(items, name);
    if OnlyAt(items, name, i) { UniquePlace(items, name, i); }
    if r == [i] {
      assert r[0] == i && i in r;
      forall k | 0 <= k < |items| && NameOf(items[k]) == Some(name) ensures k == i { assert k in r; }
    }
    if r != [] { assert r[0] in r; }
  }

  lemma UniquePlace(items: seq<Value>, name: string, i: nat)
    requires OnlyAt(items, name, i)
    ensures Places(items, name) == [i]
  {
    var r := Places(items, name);
    PlacesExact(items, name);
    PlacesIncrease(items, name);
    assert i in r;
    forall k | 0 <= k < |r| ensures r[k] == i { assert r[k] in r; }
    assert r[0] == i == r[|r| - 1];
  }

  /** The search loop every edit shares. */
  method FindPlaces(items: seq<Value>, name: string) returns (r: seq<nat>)
    ensures r == Places(items, name)
  {
    r := [];
    for i := 0 to |items|
      invariant r == Places(items[..i], name)
    {
      assert items[..i + 1][..i] == items[..i];
      if NameOf(items[i]) == Some(name) { r := r + [i]; }
    }
    assert items[..|items|] == items;
  }

  // ---- Upsert ----

  /** Install the exact desired provisioner; an existing one must hold the same key. */
  function Upsert(items: seq<Value>, desired: Value): Result<seq<Value>, Refusal> {
    match NameOf(desired)
    case None => Err(Malformed)
    case Some(name) =>
      var places := Places(items, name);
      if places == [] then Ok(items + [desired])
      else if |places| > 1 then Err(DuplicateIssuer)
      else if KeyOf(items[places[0]]) != KeyOf(desired) then Err(DifferentKey)
      else Ok(items[places[0] := desired])
  }

  /** Where an upsert puts the provisioner; nothing else moves. */
  lemma UpsertPlaces(items: seq<Value>, desired: Value) returns (i: nat)
    requires Upsert(items, desired).Ok?
    ensures var next := Upsert(items, desired).value;
            && i < |next| && next[i] == desired && |items| <= |next| <= |items| + 1
            && NameOf(desired).Some? && OnlyAt(next, NameOf(desired).value, i)
            && (forall k :: 0 <= k < |items| && k != i ==> next[k] == items[k])
            && (|next| == |items| ==> NameOf(items[i]) == NameOf(desired) && KeyOf(items[i]) == KeyOf(desired))
            && (|next| > |items| ==> i == |items|)
  {
    var name := NameOf(desired).value;
    var places := Places(items, name);
    if places == [] {
      i := |items|;
      OnePlace(items, name, 0);
    } else {
      i := places[0];
      OnePlace(items, name, i);
    }
  }

  lemma UpsertInPlace(items: seq<Value>, desired: Value, i: nat)
    requires NameOf(desired).Some? && OnlyAt(items, NameOf(desired).value, i) && KeyOf(items[i]) == KeyOf(desired)
    ensures Upsert(items, desired) == Ok(items[i := desired])
  {
    OnePlace(items, NameOf(desired).value, i);
  }

  /** Installing the same provisioner again changes nothing. */
  lemma UpsertAgain(items: seq<Value>, desired: Value)
    requires Upsert(items, desired).Ok?
    ensures Upsert(Upsert(items, desired).value, desired) == Upsert(items, desired)
  {
    var next := Upsert(items, desired).value;
    var i := UpsertPlaces(items, desired);
    UpsertInPlace(next, desired, i);
    assert next[i := desired] == next;
  }

  // ---- The required policy issuer ----

  /** Refresh the one live issuer policy names for a role. */
  function Require(items: seq<Value>, role: Role, e: Enroller): Result<seq<Value>, Refusal> {
    var places := Places(items, e.name);
    if places == [] then Err(MissingIssuer)
    else if |places| > 1 then Err(DuplicateIssuer)
    else match Refreshed(items[places[0]], role, e)
      case Err(refusal) => Err(refusal)
      case Ok(next) => Ok(items[places[0] := next])
  }

  function Refreshed(item: Value, role: Role, e: Enroller): Result<Value, Refusal> {
    if KindOf(item) != Some(e.kind) then Err(WrongType)
    else if KeyOf(item).None? || !KeyOf(item).value.Obj? then Err(NoKey)
    else match MergeClaims(item, SshClaims(role, e.own))
      case Err(refusal) => Err(refusal)
      case Ok((claimed, _)) => Ok(MergeOptions(claimed, e.options).0)
  }

  lemma RequirePlaces(items: seq<Value>, role: Role, e: Enroller) returns (i: nat)
    requires Require(items, role, e).Ok?
    ensures var next := Require(items, role, e).value;
            && OnlyAt(items, e.name, i) && |next| == |items|
            && (forall k :: 0 <= k < |items| && k != i ==> next[k] == items[k])
            && next[i].Obj? && KindOf(next[i]) == Some(e.kind) && KeyOf(next[i]).Some? && KeyOf(next[i]).value.Obj?
            && MergeClaims(next[i], SshClaims(role, e.own)) == Ok((next[i], false))
            && MergeOptions(next[i], e.options) == (next[i], false)
            && (!IsX509(items[i]) ==> FaceOf(next[i]) == FaceOf(items[i]))
            && NameOf(next[i]) == NameOf(items[i]) && KeyOf(next[i]) == KeyOf(items[i])
            && KindOf(next[i]) == KindOf(items[i]) && Field(next[i], OPTIONS) == Some(e.options)
  {
    i := Places(items, e.name)[0];
    OnePlace(items, e.name, i);
    var claims := SshClaims(role, e.own);
    SshClaimsNotEmpty(role, e.own);
    MergeClaimsExact(items[i], claims);
    var claimed := MergeClaims(items[i], claims).value.0;
    MergeOptionsExact(claimed, e.options);
    var next := MergeOptions(claimed, e.options).0;
    FieldNamesDiffer();
    assert Field(next, CLAIMS) == Field(claimed, CLAIMS);
    assert MergeClaims(claimed, claims) == Ok((claimed, false));
    SetFieldKeeps(next, CLAIMS, Obj(Child(next, CLAIMS).fields + claims));
  }

  // ---- Authorizing an enrollment ----

  /** Order-preserving removal. */
  function Retain(items: seq<Value>, keep: Value -> bool): (r: seq<Value>)
    ensures forall x :: x in r <==> x in items && keep(x)
    ensures |r| <= |items|
  {
    if items == [] then []
    else (if keep(items[0]) then [items[0]] else []) + Retain(items[1..], keep)
  }

  /** The second array is the first at the given places, in their order. */
  predicate InOrder(items: seq<Value>, next: seq<Value>, at: seq<nat>) {
    && |at| == |next| && (forall j, k :: 0 <= j < k < |at| ==> at[j] < at[k])
    && forall j :: 0 <= j < |at| ==> at[j] < |items| && next[j] == items[at[j]]
  }

  lemma {:induction false} RetainAll(items: seq<Value>, keep: Value -> bool)
    requires forall x :: x in items ==> keep(x)
    ensures Retain(items, keep) == items
  {
    if items != [] {
      assert forall x :: x in items[1..] ==> x in items;
      RetainAll(items[1..], keep);
      assert items == [items[0]] + items[1..];
    }
  }

  lemma {:induction false} RetainSnoc(items: seq<Value>, x: Value, keep: Value -> bool)
    ensures Retain(items + [x], keep) == Retain(items, keep) + (if keep(x) then [x] else [])
  {
    if items == [] {
      assert items + [x] == [x];
    } else {
      assert (items + [x])[1..] == items[1..] + [x];
      RetainSnoc(items[1..], x, keep);
    }
  }

  predicate KeptAt(items: seq<Value>, keep: Value -> bool, at: seq<nat>) {
    forall i :: 0 <= i < |items| ==> (keep(items[i]) <==> i in at)
  }

  /** The places retained, in order. */
  lemma {:induction false} RetainedPlaces(items: seq<Value>, keep: Value -> bool) returns (at: seq<nat>)
    ensures InOrder(items, Retain(items, keep), at) && KeptAt(items, keep, at)
  {
    at := [];
    if items != [] {
      var init, x := items[..|items| - 1], items[|items| - 1];
      var before := RetainedPlaces(init, keep);
      assert items == init + [x];
      at := RetainedSnoc(init, keep, before, x);
    }
  }

  lemma RetainedSnoc(init: seq<Value>, keep: Value -> bool, before: seq<nat>, x: Value) returns (at: seq<nat>)
    requires InOrder(init, Retain(init, keep), before) && KeptAt(init, keep, before)
    ensures InOrder(init + [x], Retain(init + [x], keep), at) && KeptAt(init + [x], keep, at)
  {
    var kept := Retain(init, keep);
    RetainSnoc(init, x, keep);
    InOrderSnoc(init, kept, before, x);
    KeptSnoc(init, keep, before, x);
    at := if keep(x) then before + [|init|] else before;
    assert Retain(init + [x], keep) == if keep(x) then kept + [x] else kept;
  }

  lemma KeptSnoc(init: seq<Value>, keep: Value -> bool, at: seq<nat>, x: Value)
    requires KeptAt(init, keep, at) && |init| !in at
    ensures KeptAt(init + [x], keep, if keep(x) then at + [|init|] else at)
  {
    var items := init + [x];
    assert items[|init|] == x && forall i :: 0 <= i < |init| ==> items[i] == init[i];
    assert forall i :: 0 <= i < |init| ==> (i in at + [|init|] <==> i in at);
  }

  lemma InOrderSnoc(items: seq<Value>, next: seq<Value>, at: seq<nat>, x: Value)
    requires InOrder(items, next, at)
    ensures InOrder(items + [x], next + [x], at + [|items|]) && InOrder(items + [x], next, at) && |items| !in at
  {}

  function WithoutSshpop(items: seq<Value>): (r: seq<Value>)
    ensures forall x :: x in r <==> x in items && KindOf(x) != Some(SSHPOP)
  {
    Retain(items, x => KindOf(x) != Some(SSHPOP))
  }

  /** The second whitespace-separated token of an OpenSSH public key line. */
  function Token(s: string): string {
    if s == "" || Templates.IsWhitespace(s[0]) then "" else [s[0]] + Token(s[1..])
  }

  lemma {:induction false} TokenIsPrefix(s: string)
    ensures Token(s) <= s && Templates.IsBlob(Token(s))
  {
    if s != "" && !Templates.IsWhitespace(s[0]) {
      TokenIsPrefix(s[1..]);
      assert s == [s[0]] + s[1..];
    }
  }

  function Blob(canonical: string): string {
    var line := Templates.TrimStart(canonical);
    TokenIsPrefix(line);
    Token(Templates.TrimStart(line[|Token(line)|..]))
  }

  lemma BlobIsBlob(canonical: string)
    ensures Templates.IsBlob(Blob(canonical))
  {
    var line := Templates.TrimStart(canonical);
    TokenIsPrefix(line);
    TokenIsPrefix(Templates.TrimStart(line[|Token(line)|..]));
  }

  /** An approval: the candidate record and the renewal JWK exactly as the request carries it. */
  datatype Request = Request(candidate: Record, jwk: Value)
  {
    predicate Valid() { candidate.PendingCandidate() && JwkMaterial(jwk) == Some(candidate.jwk) }
  }

  /** The provisioner an approval installs. */
  function Desired(policy: Policy, request: Request): Result<Value, Refusal> {
    match request.candidate.identity
    case X509(host, name) =>
      (match (ActiveCert(policy.certs, host, name), request.candidate.key)
       case (Some(cert), X509Key(pin)) => X509Issuer(policy, request.jwk, cert, pin)
       case _ => Err(NotPermitted))
    case id =>
      var role := if id.User? then UserRole else HostRole;
      match (policy.EnrollerOf(role), request.candidate.key)
      case (Some(e), SshKey(line)) =>
        if id !in policy.ssh then Err(NotPermitted)
        else (match Templates.BindSsh(policy.ssh[id], Blob(line))
              case None => Err(BadTemplate)
              case Some(template) =>
                Ok(Issuer(ProvisionerName(id), request.jwk, SshClaims(role, e.renewal),
                    Options(policy.DenialOf(role), template))))
      case _ => Err(NotPermitted)
  }

  /** The policy issuer an SSH approval refreshes alongside; a host approval also drops SSHPOP. */
  function RefreshIssuer(policy: Policy, items: seq<Value>, id: Identity): Result<seq<Value>, Refusal> {
    match id
    case X509(_, _) => Ok(items)
    case User(_, _) => if policy.user.None? then Err(NotPermitted) else Require(items, UserRole, policy.user.value)
    case Host(_) => if policy.host.None? then Err(NotPermitted)
      else Require(WithoutSshpop(items), HostRole, policy.host.value)
  }

  /** The provisioners an approval proposes. */
  function Authorize(policy: Policy, items: seq<Value>, request: Request): Result<seq<Value>, Refusal> {
    match Desired(policy, request)
    case Err(e) => Err(e)
    case Ok(desired) =>
      match RefreshIssuer(policy, items, request.candidate.identity)
      case Err(e) => Err(e)
      case Ok(prepared) => Upsert(prepared, desired)
  }

  /** A provisioner carries an enrollment's renewal key under its name. */
  predicate CarriesKey(f: Face, r: Record) {
    f.name == Some(ProvisionerName(r.identity)) && f.kind == Some(JWK) && f.Material() == Some(r.jwk)
  }

  /** A provisioner carries an enrollment: its name, its renewal key and, for X.509, its pinned key. */
  predicate Carries(f: Face, r: Record) {
    && CarriesKey(f, r)
    && (r.identity.X509? ==> r.key.X509Key? && f.pin == Some(r.key.der))
  }

  lemma ValidIsNameable(id: Identity)
    requires ValidIdentity(id)
    ensures id.Nameable()
  {}

  lemma X509DesiredCarries(policy: Policy, request: Request)
    requires request.Valid() && request.candidate.identity.X509? && Desired(policy, request).Ok?
    ensures Carries(FaceOf(Desired(policy, request).value), request.candidate)
    ensures KeyOf(Desired(policy, request).value) == Some(request.jwk)
  {
    var r := request.candidate;
    ValidIsNameable(r.identity);
    ParseInvertsBuild(r.identity);
    X509IssuerParts(policy, request.jwk, ActiveCert(policy.certs, r.identity.host, r.identity.name).value, r.key.der);
  }

  lemma SshDesiredCarries(policy: Policy, request: Request)
    requires request.Valid() && !request.candidate.identity.X509? && Desired(policy, request).Ok?
    ensures Carries(FaceOf(Desired(policy, request).value), request.candidate)
    ensures KeyOf(Desired(policy, request).value) == Some(request.jwk)
  {
    var r := request.candidate;
    var role := if r.identity.User? then UserRole else HostRole;
    var e := policy.EnrollerOf(role).value;
    var template := Templates.BindSsh(policy.ssh[r.identity], Blob(r.key.canonical)).value;
    IssuerParts(ProvisionerName(r.identity), request.jwk, SshClaims(role, e.renewal), policy.DenialOf(role), template);
  }

  lemma DesiredCarries(policy: Policy, request: Request)
    requires request.Valid() && Desired(policy, request).Ok?
    ensures Carries(FaceOf(Desired(policy, request).value), request.candidate)
    ensures KeyOf(Desired(policy, request).value) == Some(request.jwk)
  {
    if request.candidate.identity.X509? {
      X509DesiredCarries(policy, request);
    } else {
      SshDesiredCarries(policy, request);
    }
  }

  // ---- What an edit does to the faces ----

  function Faces(items: seq<Value>): (r: set<Face>)
    ensures forall i :: 0 <= i < |items| ==> FaceOf(items[i]) in r
  {
    set x | x in items :: FaceOf(x)
  }

  lemma FaceAt(items: seq<Value>, f: Face) returns (i: nat)
    requires f in Faces(items)
    ensures i < |items| && FaceOf(items[i]) == f
  {
    var x :| x in items && FaceOf(x) == f;
    i :| 0 <= i < |items| && items[i] == x;
  }

  predicate NotSshpop(f: Face) { f.kind != Some(SSHPOP) }

  /** Nothing appears, and only SSHPOP may disappear. */
  predicate KeepsFaces(items: seq<Value>, next: seq<Value>) {
    && Faces(next) <= Faces(items)
    && forall f :: f in Faces(items) && NotSshpop(f) ==> f in Faces(next)
  }

  lemma RequireKeepsFaces(items: seq<Value>, role: Role, e: Enroller)
    requires Require(items, role, e).Ok? && ParseX509(e.name) == None
    ensures KeepsFaces(items, Require(items, role, e).value)
  {
    var next := Require(items, role, e).value;
    var i := RequirePlaces(items, role, e);
    assert forall k :: 0 <= k < |items| ==> FaceOf(next[k]) == FaceOf(items[k]);
    forall f | f in Faces(next) ensures f in Faces(items) { var k := FaceAt(next, f); }
    forall f | f in Faces(items) ensures f in Faces(next) { var k := FaceAt(items, f); }
  }

  /** The pinned key an issuer's options carry. */
  function OptionsPin(options: Value): Option<Templates.CertificateKey> {
    match Field(options, X509_SECTION)
    case None => None
    case Some(section) =>
      match StrField(section, TEMPLATE) case None => None case Some(t) => Templates.FromTemplate(t)
  }

  /** Refreshing an issuer keeps its face exactly when it is no X.509 provisioner or its options carry the same pin. */
  lemma RefreshKeepsFaceExactly(items: seq<Value>, role: Role, e: Enroller, i: nat)
    requires Require(items, role, e).Ok? && OnlyAt(items, e.name, i)
    ensures FaceOf(Require(items, role, e).value[i]) == FaceOf(items[i])
            <==> !IsX509(items[i]) || OptionsPin(e.options) == PinOf(items[i])
  {
    var k := RequirePlaces(items, role, e);
    assert k == i;
    assert PinOf(Require(items, role, e).value[i]) == OptionsPin(e.options);
  }

  /** What is left of a face without its pin. */
  function Unpinned(f: Face): Face { f.(pin := None) }

  /** Some provisioner shows this face, but for its pin. */
  predicate KeyedAlike(items: seq<Value>, f: Face) { exists g :: g in Faces(items) && Unpinned(g) == Unpinned(f) }

  predicate KeepsKeys(items: seq<Value>, next: seq<Value>) { forall f :: f in Faces(next) ==> KeyedAlike(items, f) }

  lemma RequireKeepsKeys(items: seq<Value>, role: Role, e: Enroller)
    requires Require(items, role, e).Ok?
    ensures KeepsKeys(items, Require(items, role, e).value)
  {
    var next := Require(items, role, e).value;
    var i := RequirePlaces(items, role, e);
    forall f | f in Faces(next) ensures KeyedAlike(items, f) {
      var k := FaceAt(next, f);
      assert FaceOf(items[k]) in Faces(items) && Unpinned(FaceOf(items[k])) == Unpinned(f);
    }
  }

  lemma RefreshKeepsKeys(policy: Policy, items: seq<Value>, id: Identity)
    requires RefreshIssuer(policy, items, id).Ok?
    ensures KeepsKeys(items, RefreshIssuer(policy, items, id).value)
  {
    match id
    case X509(_, _) =>
    case User(_, _) => RequireKeepsKeys(items, UserRole, policy.user.value);
    case Host(_) =>
      WithoutSshpopKeepsFaces(items);
      RequireKeepsKeys(WithoutSshpop(items), HostRole, policy.host.value);
  }

  lemma WithoutSshpopKeepsFaces(items: seq<Value>)
    ensures KeepsFaces(items, WithoutSshpop(items))
  {
    var kept := WithoutSshpop(items);
    forall f | f in Faces(kept) ensures f in Faces(items) { var k := FaceAt(kept, f); assert kept[k] in items; }
    forall f | f in Faces(items) && NotSshpop(f)
      ensures f in Faces(kept)
    {
      var k := FaceAt(items, f);
      assert items[k] in kept;
    }
  }

  lemma RefreshKeepsFaces(policy: Policy, items: seq<Value>, id: Identity)
    requires NoX509Issuer(policy) && RefreshIssuer(policy, items, id).Ok?
    ensures KeepsFaces(items, RefreshIssuer(policy, items, id).value)
  {
    match id
    case X509(_, _) =>
    case User(_, _) => RequireKeepsFaces(items, UserRole, policy.user.value);
    case Host(_) =>
      WithoutSshpopKeepsFaces(items);
      RequireKeepsFaces(WithoutSshpop(items), HostRole, policy.host.value);
  }

  lemma UpsertFaces(items: seq<Value>, desired: Value)
    requires Upsert(items, desired).Ok?
    ensures var next, d := Upsert(items, desired).value, FaceOf(desired);
            && d in Faces(next) && Faces(next) <= Faces(items) + {d}
            && (forall f :: f in Faces(next) && f.name == d.name ==> f == d)
            && (forall f :: f in Faces(items) && f.name != d.name ==> f in Faces(next))
  {
    var next := Upsert(items, desired).value;
    var i := UpsertPlaces(items, desired);
    forall f | f in Faces(next)
      ensures (f in Faces(items) || f == FaceOf(desired)) && (f.name == NameOf(desired) ==> f == FaceOf(desired))
    {
      var k := FaceAt(next, f);
      assert k != i ==> f == FaceOf(items[k]);
    }
    forall f | f in Faces(items) && f.name != NameOf(desired) ensures f in Faces(next) {
      var k := FaceAt(items, f);
      assert k != i;
    }
  }

  /**
   Authorizing adds the request's provisioner and nothing else: every other provisioner looks as
   before, every other named one is still there, and no other one bears the request's name.
   */
  lemma AuthorizeExact(policy: Policy, items: seq<Value>, request: Request) returns (d: Face)
    requires NoX509Issuer(policy) && request.Valid() && Authorize(policy, items, request).Ok?
    ensures var next := Authorize(policy, items, request).value;
            && Carries(d, request.candidate) && d in Faces(next) && Faces(next) <= Faces(items) + {d}
            && (forall f :: f in Faces(next) && f.name == d.name ==> f == d)
            && (forall f :: f in Faces(items) && NotSshpop(f) && f.name != d.name ==> f in Faces(next))
  {
    var desired := Desired(policy, request).value;
    d := FaceOf(desired);
    DesiredCarries(policy, request);
    RefreshKeepsFaces(policy, items, request.candidate.identity);
    UpsertFaces(RefreshIssuer(policy, items, request.candidate.identity).value, desired);
  }

  lemma RequireAgain(items: seq<Value>, role: Role, e: Enroller, i: nat)
    requires OnlyAt(items, e.name, i) && KindOf(items[i]) == Some(e.kind)
    requires items[i].Obj? && KeyOf(items[i]).Some? && KeyOf(items[i]).value.Obj?
    requires MergeClaims(items[i], SshClaims(role, e.own)) == Ok((items[i], false))
    requires MergeOptions(items[i], e.options) == (items[i], false)
    ensures Require(items, role, e) == Ok(items)
  {
    OnePlace(items, e.name, i);
    assert items[i := items[i]] == items;
  }

  /** A refreshed issuer stays refreshed across the upsert of another name. */
  lemma UpsertLeavesRequired(items: seq<Value>, role: Role, e: Enroller, desired: Value)
    requires Require(items, role, e).Ok? && NameOf(desired) != Some(e.name)
    requires Upsert(Require(items, role, e).value, desired).Ok?
    ensures var next := Upsert(Require(items, role, e).value, desired).value; Require(next, role, e) == Ok(next)
  {
    var prepared := Require(items, role, e).value;
    var next := Upsert(prepared, desired).value;
    var i := RequirePlaces(items, role, e);
    var j := UpsertPlaces(prepared, desired);
    assert NameOf(prepared[i]) == Some(e.name);
    assert i != j && next[i] == prepared[i];
    forall k | 0 <= k < |next| && NameOf(next[k]) == Some(e.name) ensures k == i {
      assert k != j && NameOf(prepared[k]) == NameOf(items[k]);
    }
    RequireAgain(next, role, e, i);
  }

  lemma RequireKeepsKinds(items: seq<Value>, role: Role, e: Enroller)
    requires Require(items, role, e).Ok?
    ensures var next := Require(items, role, e).value;
            |next| == |items| && forall k :: 0 <= k < |next| ==> KindOf(next[k]) == KindOf(items[k])
  {
    var i := RequirePlaces(items, role, e);
  }

  lemma UpsertKeepsKinds(items: seq<Value>, desired: Value)
    requires (forall x :: x in items ==> KindOf(x) != Some(SSHPOP)) && KindOf(desired) != Some(SSHPOP)
    requires Upsert(items, desired).Ok?
    ensures WithoutSshpop(Upsert(items, desired).value) == Upsert(items, desired).value
  {
    var next := Upsert(items, desired).value;
    var j := UpsertPlaces(items, desired);
    forall k | 0 <= k < |next| && k != j ensures next[k] in items { assert next[k] == items[k]; }
    NoSshpopStays(next);
  }

  lemma NoSshpopStays(items: seq<Value>)
    requires forall k :: 0 <= k < |items| ==> KindOf(items[k]) != Some(SSHPOP)
    ensures WithoutSshpop(items) == items
  {
    RetainAll(items, x => KindOf(x) != Some(SSHPOP));
  }

  /** A provisioner the refresh of an issuer accepts. */
  predicate Refreshable(desired: Value, role: Role, e: Enroller) {
    && KindOf(desired) == Some(e.kind) && KeyOf(desired).Some? && KeyOf(desired).value.Obj?
    && MergeClaims(desired, SshClaims(role, e.own)).Ok?
  }

  lemma RefreshedKeeps(item: Value, role: Role, e: Enroller)
    requires Refreshable(item, role, e)
    ensures Refreshed(item, role, e).Ok?
    ensures var next := Refreshed(item, role, e).value; NameOf(next) == NameOf(item) && KeyOf(next) == KeyOf(item)
  {
    SshClaimsNotEmpty(role, e.own);
    MergeClaimsExact(item, SshClaims(role, e.own));
    MergeOptionsExact(MergeClaims(item, SshClaims(role, e.own)).value.0, e.options);
    FieldNamesDiffer();
  }

  /** Where the upsert replaced the issuer itself, refreshing it is undone by the next upsert. */
  lemma UpsertUndoesRefresh(items: seq<Value>, role: Role, e: Enroller, desired: Value, i: nat)
    requires OnlyAt(items, e.name, i) && items[i] == desired && Refreshable(desired, role, e)
    ensures Require(items, role, e).Ok? && Upsert(Require(items, role, e).value, desired) == Ok(items)
  {
    OnePlace(items, e.name, i);
    RefreshedKeeps(desired, role, e);
    var next := Require(items, role, e).value;
    assert next == items[i := Refreshed(desired, role, e).value];
    UpsertInPlace(next, desired, i);
    assert next[i := desired] == items;
  }

  /** Refreshing an issuer and installing the provisioner once more changes nothing. */
  lemma RequireUpsertAgain(items: seq<Value>, role: Role, e: Enroller, desired: Value)
    requires Require(items, role, e).Ok? && Upsert(Require(items, role, e).value, desired).Ok?
    requires Refreshable(desired, role, e)
    ensures var next := Upsert(Require(items, role, e).value, desired).value;
            Require(next, role, e).Ok? && Upsert(Require(next, role, e).value, desired) == Ok(next)
  {
    var prepared := Require(items, role, e).value;
    var next := Upsert(prepared, desired).value;
    var j := UpsertPlaces(prepared, desired);
    if NameOf(desired) == Some(e.name) {
      UpsertUndoesRefresh(next, role, e, desired, j);
    } else {
      UpsertLeavesRequired(items, role, e, desired);
      UpsertAgain(prepared, desired);
    }
  }

  /** A host approval leaves no SSHPOP provisioner to drop again. */
  lemma NothingLeftToDrop(items: seq<Value>, e: Enroller, desired: Value)
    requires Require(WithoutSshpop(items), HostRole, e).Ok? && KindOf(desired) != Some(SSHPOP)
    requires Upsert(Require(WithoutSshpop(items), HostRole, e).value, desired).Ok?
    ensures var next := Upsert(Require(WithoutSshpop(items), HostRole, e).value, desired).value;
            WithoutSshpop(next) == next
  {
    var kept := WithoutSshpop(items);
    var prepared := Require(kept, HostRole, e).value;
    RequireKeepsKinds(kept, HostRole, e);
    forall x | x in prepared ensures KindOf(x) != Some(SSHPOP) {
      var k :| 0 <= k < |prepared| && prepared[k] == x;
      assert kept[k] in kept;
    }
    UpsertKeepsKinds(prepared, desired);
  }

  lemma IssuerIsRefreshable(name: string, key: Value, claims: map<string, Value>, options: Value, role: Role,
                            e: Enroller)
    requires key.Obj? && e.kind == JWK
    ensures Refreshable(Issuer(name, key, claims, options), role, e)
  {
    FieldNamesDiffer();
  }

  lemma SshDesiredIsRefreshable(policy: Policy, request: Request, e: Enroller)
    requires request.Valid() && Desired(policy, request).Ok? && !request.candidate.identity.X509? && e.kind == JWK
    ensures var role := if request.candidate.identity.User? then UserRole else HostRole;
            Refreshable(Desired(policy, request).value, role, e)
  {
    var id := request.candidate.identity;
    var role := if id.User? then UserRole else HostRole;
    var issuer := policy.EnrollerOf(role).value;
    var template := Templates.BindSsh(policy.ssh[id], Blob(request.candidate.key.canonical)).value;
    IssuerIsRefreshable(ProvisionerName(id), request.jwk, SshClaims(role, issuer.renewal),
                        Options(policy.DenialOf(role), template), role, e);
  }

  /** An approval adds the request's provisioner, and every other one is, but for its pin, one that was there. */
  lemma AuthorizeKeepsKeys(policy: Policy, items: seq<Value>, request: Request) returns (d: Face)
    requires request.Valid() && Authorize(policy, items, request).Ok?
    ensures Carries(d, request.candidate)
    ensures forall f :: f in Faces(Authorize(policy, items, request).value) ==> f == d || KeyedAlike(items, f)
  {
    var desired := Desired(policy, request).value;
    d := FaceOf(desired);
    DesiredCarries(policy, request);
    RefreshKeepsKeys(policy, items, request.candidate.identity);
    UpsertKeepsKeys(items, RefreshIssuer(policy, items, request.candidate.identity).value, desired);
  }

  lemma UpsertKeepsKeys(items: seq<Value>, prepared: seq<Value>, desired: Value)
    requires KeepsKeys(items, prepared) && Upsert(prepared, desired).Ok?
    ensures forall f :: f in Faces(Upsert(prepared, desired).value) ==> f == FaceOf(desired) || KeyedAlike(items, f)
  {
    UpsertFaces(prepared, desired);
  }

  /** Approving again proposes the same provisioners. */
  lemma AuthorizeAgain(policy: Policy, items: seq<Value>, request: Request)
    requires JwkIssuers(policy) && request.Valid() && Authorize(policy, items, request).Ok?
    ensures Authorize(policy, Authorize(policy, items, request).value, request) == Authorize(policy, items, request)
  {
    var desired := Desired(policy, request).value;
    DesiredCarries(policy, request);
    match request.candidate.identity
    case X509(_, _) => UpsertAgain(items, desired);
    case User(_, _) =>
      SshDesiredIsRefreshable(policy, request, policy.user.value);
      RequireUpsertAgain(items, UserRole, policy.user.value, desired);
    case Host(_) =>
      SshDesiredIsRefreshable(policy, request, policy.host.value);
      RequireUpsertAgain(WithoutSshpop(items), HostRole, policy.host.value, desired);
      JwkIsNotSshpop();
      NothingLeftToDrop(items, policy.host.value, desired);
  }

  lemma JwkIsNotSshpop()
    ensures JWK != SSHPOP
  {
    assert JWK[0] == 'J' && SSHPOP[0] == 'S';
  }

  // ---- Removal ----

  /** The provisioners a revocation leaves. */
  function Remaining(items: seq<Value>, scope: Scope): (r: seq<Value>)
    ensures forall x :: x in r <==> x in items && !Removes(scope, NameOf(x), KindOf(x))
  {
    Retain(items, x => !Removes(scope, NameOf(x), KindOf(x)))
  }

  /** The names a revocation reports as removed; an unnamed provisioner goes unreported. */
  function RemovedNames(items: seq<Value>, scope: Scope): seq<string> {
    DroppedNames(items, x => Removes(scope, NameOf(x), KindOf(x)))
  }

  function DroppedNames(items: seq<Value>, drop: Value -> bool): seq<string> {
    if items == [] then []
    else
      (if drop(items[0]) && NameOf(items[0]).Some? then [NameOf(items[0]).value] else [])
      + DroppedNames(items[1..], drop)
  }

  lemma {:induction false} DroppedNamesSnoc(items: seq<Value>, x: Value, drop: Value -> bool)
    ensures DroppedNames(items + [x], drop) ==
            DroppedNames(items, drop) + (if drop(x) && NameOf(x).Some? then [NameOf(x).value] else [])
  {
    if items == [] {
      assert items + [x] == [x];
    } else {
      assert (items + [x])[1..] == items[1..] + [x];
      DroppedNamesSnoc(items[1..], x, drop);
    }
  }

  lemma {:induction false} NoDroppedNames(items: seq<Value>, drop: Value -> bool)
    ensures DroppedNames(items, drop) == [] <==> forall x :: x in items && NameOf(x).Some? ==> !drop(x)
  {
    if items != [] {
      NoDroppedNames(items[1..], drop);
      assert items == [items[0]] + items[1..] && items[0] in items;
    }
  }

  lemma NoRemovedNames(items: seq<Value>, scope: Scope)
    ensures RemovedNames(items, scope) == [] <==>
            forall x :: x in items && NameOf(x).Some? ==> !Removes(scope, NameOf(x), KindOf(x))
  {
    NoDroppedNames(items, x => Removes(scope, NameOf(x), KindOf(x)));
  }

  /** A second removal finds nothing. */
  lemma RemoveAgain(items: seq<Value>, scope: Scope)
    ensures Remaining(Remaining(items, scope), scope) == Remaining(items, scope)
    ensures RemovedNames(Remaining(items, scope), scope) == []
  {
    RetainAll(Remaining(items, scope), x => !Removes(scope, NameOf(x), KindOf(x)));
    NoRemovedNames(Remaining(items, scope), scope);
  }

  lemma RemainingFaces(items: seq<Value>, scope: Scope)
    ensures forall f :: f in Faces(Remaining(items, scope)) <==> f in Faces(items) && !Removes(scope, f.name, f.kind)
  {
    var next := Remaining(items, scope);
    forall f | f in Faces(next) ensures f in Faces(items) && !Removes(scope, f.name, f.kind) {
      var i := FaceAt(next, f);
      assert next[i] in next;
    }
    forall f | f in Faces(items) && !Removes(scope, f.name, f.kind) ensures f in Faces(next) {
      var i := FaceAt(items, f);
      assert items[i] in next;
    }
  }

  // ---- Import ----

  /** Bind one existing live renewal provisioner to its imported SSH key. */
  function Bind(items: seq<Value>, name: string, jwk: Value, blob: string,
                denials: Denials): Result<seq<Value>, Refusal> {
    var places := Places(items, name);
    if places == [] then Err(MissingIssuer)
    else if |places| > 1 then Err(DuplicateIssuer)
    else
      var item := items[places[0]];
      if KindOf(item) != Some(JWK) then Err(WrongType)
      else if KeyOf(item).None? then Err(NoKey)
      else if JwkMaterial(KeyOf(item).value).None? || JwkMaterial(jwk).None? then Err(Malformed)
      else if JwkMaterial(KeyOf(item).value) != JwkMaterial(jwk) then Err(DifferentKey)
      else if Field(item, OPTIONS).None? then Err(Malformed)
      else match BindOptions(Field(item, OPTIONS).value, name, blob, denials)
        case Err(e) => Err(e)
        case Ok(options) => Ok(items[places[0] := SetField(item, OPTIONS, options)])
  }

  /** The rewritten options: the family's X.509 deny template and the guarded SSH template. */
  function BindOptions(options: Value, name: string, blob: string, denials: Denials): Result<Value, Refusal> {
    if !options.Obj? then Err(Malformed)
    else if ParseHost(name).None? && ParseUser(name).None? then Err(NotPermitted)
    else
      var deny := Templated(if ParseHost(name).Some? then denials.host else denials.user);
      var denied := SetField(options, X509_SECTION, deny);
      match Field(denied, SSH_SECTION)
      case None => Err(Malformed)
      case Some(ssh) =>
        match BindSection(ssh, blob)
        case Err(e) => Err(e)
        case Ok(bound) => Ok(SetField(denied, SSH_SECTION, bound))
  }

  function BindSection(ssh: Value, blob: string): Result<Value, Refusal> {
    if !ssh.Obj? then Err(Malformed)
    else match StrField(ssh, TEMPLATE)
      case None => Err(BadTemplate)
      case Some(template) =>
        if !Text.StartsWith(Templates.TrimStart(template), "{") then Err(BadTemplate)
        else match Templates.BindSsh(template, blob)
          case None => Err(BadTemplate)
          case Some(bound) => Ok(SetField(ssh, TEMPLATE, Str(bound)))
  }

  lemma BoundTemplateStarts(template: string, blob: string)
    requires Templates.IsBlob(blob) && Templates.BindSsh(template, blob).Some?
    ensures Text.StartsWith(Templates.TrimStart(Templates.BindSsh(template, blob).value), "{")
  {
    var bound := Templates.BindSsh(template, blob).value;
    Templates.BindingIsExact(template, blob, blob);
    assert bound[0] == Templates.SshGuard(blob)[0] == Templates.SSH_MARKER_PREFIX[0] == '{';
  }

  lemma BindSectionExact(ssh: Value, blob: string)
    requires Templates.IsBlob(blob) && BindSection(ssh, blob).Ok?
    ensures var next := BindSection(ssh, blob).value;
            && next.Obj? && StrField(next, TEMPLATE).Some?
            && Text.StartsWith(StrField(next, TEMPLATE).value, Templates.SshGuard(blob))
            && BindSection(next, blob) == Ok(next)
  {
    var template := StrField(ssh, TEMPLATE).value;
    var bound := Templates.BindSsh(template, blob).value;
    SetFieldKeeps(ssh, TEMPLATE, Str(bound));
    Templates.BindingIsExact(template, blob, blob);
    BoundTemplateStarts(template, blob);
    SetFieldKeeps(SetField(ssh, TEMPLATE, Str(bound)), TEMPLATE, Str(bound));
  }

  /** Options that deny X.509 and guard SSH by one key. */
  predicate Bound(options: Value, name: string, blob: string, denials: Denials) {
    && Field(options, X509_SECTION) == Some(Templated(if ParseHost(name).Some? then denials.host else denials.user))
    && Field(options, SSH_SECTION).Some? && StrField(Field(options, SSH_SECTION).value, TEMPLATE).Some?
    && Text.StartsWith(StrField(Field(options, SSH_SECTION).value, TEMPLATE).value, Templates.SshGuard(blob))
  }

  /** Binding sets both templates, and binding the result again changes nothing. */
  lemma BindOptionsExact(options: Value, name: string, blob: string, denials: Denials)
    requires Templates.IsBlob(blob) && BindOptions(options, name, blob, denials).Ok?
    ensures var next := BindOptions(options, name, blob, denials).value;
            Bound(next, name, blob, denials) && BindOptions(next, name, blob, denials) == Ok(next)
  {
    var deny := Templated(if ParseHost(name).Some? then denials.host else denials.user);
    var denied := SetField(options, X509_SECTION, deny);
    var ssh := Field(denied, SSH_SECTION).value;
    var bound := BindSection(ssh, blob).value;
    var next := SetField(denied, SSH_SECTION, bound);
    FieldNamesDiffer();
    SetFieldKeeps(options, X509_SECTION, deny);
    BindSectionExact(ssh, blob);
    SetFieldKeeps(denied, SSH_SECTION, bound);
    SetFieldKeeps(next, X509_SECTION, deny);
    SetFieldKeeps(next, SSH_SECTION, bound);
  }

  /** What an import's options do to the provisioner it finds. */
  lemma BoundItem(item: Value, id: Identity, blob: string, denials: Denials, options: Value)
    requires item.Obj? && !id.X509? && NameOf(item) == Some(ProvisionerName(id))
    requires Bound(options, ProvisionerName(id), blob, denials)
    ensures var next := SetField(item, OPTIONS, options);
            && FaceOf(next) == FaceOf(item) && Field(next, OPTIONS) == Some(options)
            && SetField(next, OPTIONS, options) == next
            && TemplateOf(next, SSH_SECTION).Some?
            && Text.StartsWith(TemplateOf(next, SSH_SECTION).value, Templates.SshGuard(blob))
            && TemplateOf(next, X509_SECTION) == Some(if id.Host? then denials.host else denials.user)
  {
    NotX509(item, id);
    OptionsKeepFace(item, options);
    TemplateOfOptions(item, options, SSH_SECTION);
    TemplateOfOptions(item, options, X509_SECTION);
  }

  lemma TemplateOfOptions(item: Value, options: Value, section: string)
    requires item.Obj?
    ensures TemplateOf(SetField(item, OPTIONS, options), section) ==
            match Field(options, section) case Some(s) => StrField(s, TEMPLATE) case None => None
  {
    SetFieldKeeps(item, OPTIONS, options);
  }

  lemma NotX509(v: Value, id: Identity)
    requires !id.X509? && NameOf(v) == Some(ProvisionerName(id))
    ensures !IsX509(v) && (ParseHost(ProvisionerName(id)).Some? <==> id.Host?)
  {
    ParseInvertsBuild(id);
  }

  /** New options leave the face of a provisioner that has no X.509 name. */
  lemma OptionsKeepFace(item: Value, options: Value)
    requires item.Obj? && !IsX509(item)
    ensures var next := SetField(item, OPTIONS, options);
            FaceOf(next) == FaceOf(item) && Field(next, OPTIONS) == Some(options)
                && SetField(next, OPTIONS, options) == next
  {
    FieldNamesDiffer();
    SetFieldKeeps(item, OPTIONS, options);
    SetFieldKeeps(SetField(item, OPTIONS, options), OPTIONS, options);
  }

  /** The provisioner an import finds, and what it puts in its place. */
  lemma BindPlaces(items: seq<Value>, name: string, jwk: Value, blob: string, denials: Denials) returns (i: nat)
    requires Bind(items, name, jwk, blob, denials).Ok?
    ensures OnlyAt(items, name, i) && KindOf(items[i]) == Some(JWK)
    ensures JwkMaterial(jwk).Some? && FaceOf(items[i]).Material() == JwkMaterial(jwk)
    ensures Field(items[i], OPTIONS).Some? && BindOptions(Field(items[i], OPTIONS).value, name, blob, denials).Ok?
    ensures Bind(items, name, jwk, blob, denials).value
            == items[i := SetField(items[i], OPTIONS, BindOptions(Field(items[i], OPTIONS).value, name, blob,
                denials).value)]
  {
    i := Places(items, name)[0];
    OnePlace(items, name, i);
  }

  lemma BindInPlace(items: seq<Value>, name: string, jwk: Value, blob: string, denials: Denials, i: nat)
    requires OnlyAt(items, name, i) && KindOf(items[i]) == Some(JWK)
    requires JwkMaterial(jwk).Some? && FaceOf(items[i]).Material() == JwkMaterial(jwk)
    requires Field(items[i], OPTIONS).Some? && BindOptions(Field(items[i], OPTIONS).value, name, blob, denials).Ok?
    ensures Bind(items, name, jwk, blob, denials)
            == Ok(items[i := SetField(items[i], OPTIONS, BindOptions(Field(items[i], OPTIONS).value, name, blob,
                denials).value)])
  {
    OnePlace(items, name, i);
  }

  /**
   An import changes no provisioner's name, type or key; it finds the one carrying the imported
   renewal key, leaves it bound to the imported SSH key, and a second import finds nothing to do.
   */
  lemma BindExact(items: seq<Value>, id: Identity, jwk: Value, blob: string, denials: Denials) returns (i: nat)
    requires !id.X509? && Templates.IsBlob(blob) && Bind(items, ProvisionerName(id), jwk, blob, denials).Ok?
    ensures var name, next := ProvisionerName(id), Bind(items, ProvisionerName(id), jwk, blob, denials).value;
            && Bind(next, name, jwk, blob, denials) == Ok(next)
            && OnlyAt(next, name, i) && |next| == |items| && FaceOf(next[i]) == FaceOf(items[i])
            && (forall k :: 0 <= k < |items| && k != i ==> next[k] == items[k])
            && KindOf(next[i]) == Some(JWK) && JwkMaterial(jwk).Some? && FaceOf(next[i]).Material() == JwkMaterial(jwk)
            && TemplateOf(next[i], SSH_SECTION).Some?
            && Text.StartsWith(TemplateOf(next[i], SSH_SECTION).value, Templates.SshGuard(blob))
            && TemplateOf(next[i], X509_SECTION) == Some(if id.Host? then denials.host else denials.user)
  {
    var name := ProvisionerName(id);
    var next := Bind(items, name, jwk, blob, denials).value;
    i := BindPlaces(items, name, jwk, blob, denials);
    BindOptionsExact(Field(items[i], OPTIONS).value, name, blob, denials);
    BoundItem(items[i], id, blob, denials, BindOptions(Field(items[i], OPTIONS).value, name, blob, denials).value);
    assert FaceOf(next[i]) == FaceOf(items[i]);
    BindInPlace(next, name, jwk, blob, denials, i);
    assert next[i := next[i]] == next;
  }
}
