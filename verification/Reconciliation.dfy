/**
 `apply ca`: reconciliation of live CA state against policy (`reconcile_claims`,
 `remove_retired_provisioners` and `require_x509_deny` in src/runtime_provisioners.rs,
 `reconcile_live` and `is_revoked` in src/x509.rs).
 */
module Reconciliation {
  import opened Wrappers
  import opened Json
  import opened Names
  import opened Issuers
  import opened Ledger
  import Registry
  import Templates
  import AuthorityPolicy

  const ACME := "ACME"

  // ---- Retired provisioners ----

  /** Whether an X.509 provisioner holds a tombstoned key; unreadable keys are refused. */
  function HoldsTombstone(x509: seq<Tombstone>, f: Face): Result<bool, Refusal> {
    match (f.Material(), f.pin)
    case (None, _) => Err(NoKey)
    case (_, None) => Err(NoPinnedKey)
    case (Some(jwk), Some(pin)) => Ok(exists t :: t in x509 && (t.jwk == jwk || t.key == Registry.X509Key(pin)))
  }

  function Retired(x509: seq<Tombstone>, f: Face): Result<bool, Refusal> {
    if f.kind == Some(ACME) then Ok(true) else if f.IsX509() then HoldsTombstone(x509, f) else Ok(false)
  }

  function Survivors(x509: seq<Tombstone>, items: seq<Value>): (r: seq<Value>)
    ensures forall x :: x in r <==> x in items && Retired(x509, FaceOf(x)) == Ok(false)
  {
    Retain(items, x => Retired(x509, FaceOf(x)) == Ok(false))
  }

  function DisplayName(item: Value): string { match NameOf(item) case Some(name) => name case None => "<unnamed>" }

  /** Drop retired provisioners in one pass, reporting their names; the first unreadable one refuses. */
  function RemoveRetired(x509: seq<Tombstone>, items: seq<Value>): (r: Result<(seq<Value>, seq<string>), Refusal>) {
    if items == [] then Ok(([], []))
    else match Retired(x509, FaceOf(items[0]))
      case Err(e) => Err(e)
      case Ok(retired) =>
        match RemoveRetired(x509, items[1..])
        case Err(e) => Err(e)
        case Ok((kept, removed)) =>
          if retired then Ok((kept, [DisplayName(items[0])] + removed)) else Ok(([items[0]] + kept, removed))
  }

  lemma {:induction false} RemoveRetiredExact(x509: seq<Tombstone>, items: seq<Value>)
    ensures RemoveRetired(x509, items).Ok? <==> forall x :: x in items ==> Retired(x509, FaceOf(x)).Ok?
    ensures RemoveRetired(x509, items).Ok? ==>
              var (kept, removed) := RemoveRetired(x509, items).value;
              && kept == Survivors(x509, items)
              && (removed == [] <==> kept == items)
  {
    if items != [] {
      RemoveRetiredExact(x509, items[1..]);
      assert items == [items[0]] + items[1..] && items[0] in items;
      if RemoveRetired(x509, items).Ok? && Retired(x509, FaceOf(items[0])) == Ok(true) {
        assert |Survivors(x509, items[1..])| <= |items| - 1;
      }
    }
  }

  // ---- One provisioner ----

  /** Rebuild a live X.509 provisioner from policy, keeping its JWK and pinned key. */
  function Rebuild(policy: Policy, item: Value): Result<Value, Refusal> {
    match ParseX509(match NameOf(item) case Some(name) => name case None => "")
    case None => Err(NotPermitted)
    case Some((host, name)) =>
      match (ActiveCert(policy.certs, host, name), KeyOf(item), PinOf(item))
      case (None, _, _) => Err(NotPermitted)
      case (_, None, _) => Err(NoKey)
      case (_, _, None) => Err(NoPinnedKey)
      case (Some(cert), Some(key), Some(pin)) =>
        match Templates.ParsePem(Templates.Pem(pin))
        case None => Err(NoPinnedKey)
        case Some(parsed) => X509Issuer(policy, key, cert, parsed)
  }

  /** A rebuilt provisioner looks like the live one and is its own rebuilding. */
  lemma RebuildExact(policy: Policy, item: Value)
    requires KindOf(item) == Some(JWK) && Rebuild(policy, item).Ok?
    ensures FaceOf(Rebuild(policy, item).value) == FaceOf(item) && IsX509(item)
    ensures Rebuild(policy, Rebuild(policy, item).value) == Rebuild(policy, item)
  {
    var (host, name) := ParseX509(NameOf(item).value).value;
    var (cert, pin) := (ActiveCert(policy.certs, host, name).value, PinOf(item).value);
    Templates.PemRoundTrip(pin);
    ParseX509Exact(NameOf(item).value, host, name);
    X509IssuerParts(policy, KeyOf(item).value, cert, pin);
  }

  /** Which durations a named SSH provisioner is held to. */
  function OwnedClaims(user: Enroller, host: Enroller, name: string): Option<map<string, Value>> {
    if name == user.name then Some(SshClaims(UserRole, user.own))
    else if ParseUser(name).Some? then Some(SshClaims(UserRole, user.renewal))
    else if name == host.name then Some(SshClaims(HostRole, host.own))
    else if ParseHost(name).Some? then Some(SshClaims(HostRole, host.renewal))
    else None
  }

  function OwnedOptions(user: Enroller, host: Enroller, name: string): Option<Value> {
    if name == user.name then Some(user.options) else if name == host.name then Some(host.options) else None
  }

  function ReconcileSsh(user: Enroller, host: Enroller, item: Value, name: string): Result<(Value, bool), Refusal> {
    match OwnedClaims(user, host, name)
    case None => Ok((item, false))
    case Some(claims) =>
      match MergeClaims(item, claims)
      case Err(e) => Err(e)
      case Ok((claimed, claimsChanged)) =>
        match OwnedOptions(user, host, name)
        case None => Ok((claimed, claimsChanged))
        case Some(options) =>
          var (next, optionsChanged) := MergeOptions(claimed, options);
          Ok((next, claimsChanged || optionsChanged))
  }

  lemma ReconcileSshExact(user: Enroller, host: Enroller, item: Value, name: string)
    requires NameOf(item) == Some(name) && !IsX509(item)
    requires ReconcileSsh(user, host, item, name).Ok?
    ensures var (next, changed) := ReconcileSsh(user, host, item, name).value;
            && FaceOf(next) == FaceOf(item) && (changed <==> next != item)
            && ReconcileSsh(user, host, next, name) == Ok((next, false))
  {
    var claims := OwnedClaims(user, host, name);
    if claims.Some? {
      SshClaimsNotEmpty(UserRole, user.own);
      SshClaimsNotEmpty(UserRole, user.renewal);
      SshClaimsNotEmpty(HostRole, host.own);
      SshClaimsNotEmpty(HostRole, host.renewal);
      MergeClaimsExact(item, claims.value);
      var claimed := MergeClaims(item, claims.value).value.0;
      var options := OwnedOptions(user, host, name);
      if options.Some? {
        MergeOptionsExact(claimed, options.value);
        var next := MergeOptions(claimed, options.value).0;
        FieldNamesDiffer();
        assert Field(next, CLAIMS) == Field(claimed, CLAIMS);
        var merged := Child(claimed, CLAIMS).fields + claims.value;
        SetFieldKeeps(claimed, CLAIMS, Obj(merged));
        SetFieldKeeps(next, CLAIMS, Obj(merged));
        if next == item { assert claimed == item; }
      }
    }
  }

  function ReconcileItem(policy: Policy, user: Enroller, host: Enroller, item: Value): Result<(Value, bool), Refusal> {
    match NameOf(item)
    case None => Ok((item, false))
    case Some(name) =>
      if IsX509(item) then
        match Rebuild(policy, item) case Err(e) => Err(e) case Ok(desired) => Ok((desired, desired != item))
      else ReconcileSsh(user, host, item, name)
  }

  lemma ReconcileItemExact(policy: Policy, user: Enroller, host: Enroller, item: Value)
    requires ReconcileItem(policy, user, host, item).Ok?
    ensures var (next, changed) := ReconcileItem(policy, user, host, item).value;
            && FaceOf(next) == FaceOf(item) && (changed <==> next != item)
            && ReconcileItem(policy, user, host, next) == Ok((next, false))
  {
    if NameOf(item).Some? {
      if IsX509(item) {
        RebuildExact(policy, item);
      } else {
        ReconcileSshExact(user, host, item, NameOf(item).value);
        var next := ReconcileSsh(user, host, item, NameOf(item).value).value.0;
        assert NameOf(next) == NameOf(item) && KindOf(next) == KindOf(item);
      }
    }
  }

  // ---- The whole array ----

  function ReconcileAll(policy: Policy, user: Enroller, host: Enroller, items: seq<Value>)
    : Result<(seq<Value>, seq<string>), Refusal>
  {
    if items == [] then Ok(([], []))
    else match ReconcileItem(policy, user, host, items[0])
      case Err(e) => Err(e)
      case Ok((next, changed)) =>
        match ReconcileAll(policy, user, host, items[1..])
        case Err(e) => Err(e)
        case Ok((rest, names)) => Ok(([next] + rest, (if changed then [DisplayName(items[0])] else []) + names))
  }

  /** The same provisioners in the same order, by face. */
  predicate Aligned(items: seq<Value>, next: seq<Value>) {
    |next| == |items| && forall i :: 0 <= i < |items| ==> FaceOf(next[i]) == FaceOf(items[i])
  }

  predicate Settled(policy: Policy, user: Enroller, host: Enroller, item: Value) {
    ReconcileItem(policy, user, host, item) == Ok((item, false))
  }

  predicate AllSettled(policy: Policy, user: Enroller, host: Enroller, items: seq<Value>) {
    forall i :: 0 <= i < |items| ==> Settled(policy, user, host, items[i])
  }

  /** An array is left alone exactly when each of its provisioners is. */
  lemma {:induction false} SettledStays(policy: Policy, user: Enroller, host: Enroller, items: seq<Value>)
    requires AllSettled(policy, user, host, items)
    ensures ReconcileAll(policy, user, host, items) == Ok((items, []))
  {
    if items != [] {
      assert Settled(policy, user, host, items[0]);
      SettledStays(policy, user, host, items[1..]);
      var none: seq<string> := [];
      assert none + none == none && items == [items[0]] + items[1..];
    }
  }

  lemma {:induction false} UnchangedIsSettled(policy: Policy, user: Enroller, host: Enroller, items: seq<Value>)
    requires ReconcileAll(policy, user, host, items) == Ok((items, []))
    ensures AllSettled(policy, user, host, items)
  {
    if items != [] {
      var (next, changed) := ReconcileItem(policy, user, host, items[0]).value;
      var (rest, names) := ReconcileAll(policy, user, host, items[1..]).value;
      var name := DisplayName(items[0]);
      assert |(if changed then [name] else []) + names| == 0;
      assert ([next] + rest)[0] == next && ([next] + rest)[1..] == rest;
      UnchangedIsSettled(policy, user, host, items[1..]);
      ConsSettled(policy, user, host, items[0], items[1..]);
      assert items == [items[0]] + items[1..];
    }
  }

  lemma ConsSettled(policy: Policy, user: Enroller, host: Enroller, first: Value, rest: seq<Value>)
    requires Settled(policy, user, host, first) && AllSettled(policy, user, host, rest)
    ensures AllSettled(policy, user, host, [first] + rest)
  {}

  /** Position by position, each provisioner keeps its face and settles. */
  lemma {:induction false} ReconcileAllSettles(policy: Policy, user: Enroller, host: Enroller, items: seq<Value>)
    requires ReconcileAll(policy, user, host, items).Ok?
    ensures var next := ReconcileAll(policy, user, host, items).value.0;
            Aligned(items, next) && AllSettled(policy, user, host, next)
  {
    if items != [] {
      ReconcileAllSettles(policy, user, host, items[1..]);
      ReconcileItemExact(policy, user, host, items[0]);
      ConsSettled(policy, user, host, ReconcileItem(policy, user, host, items[0]).value.0,
                  ReconcileAll(policy, user, host, items[1..]).value.0);
    }
  }

  lemma {:induction false} NamesReportChanges(policy: Policy, user: Enroller, host: Enroller, items: seq<Value>)
    requires ReconcileAll(policy, user, host, items).Ok?
    ensures var (next, names) := ReconcileAll(policy, user, host, items).value;
            names == [] <==> next == items
  {
    if items != [] {
      NamesReportChanges(policy, user, host, items[1..]);
      ReconcileItemExact(policy, user, host, items[0]);
      var first, rest := ReconcileItem(policy, user, host, items[0]).value.0,
          ReconcileAll(policy, user, host, items[1..]).value.0;
      assert items == [items[0]] + items[1..];
      if [first] + rest == items {
        assert first == ([first] + rest)[0] && rest == ([first] + rest)[1..];
      }
    }
  }

  /** A pass keeps every face in place, a second pass finds nothing, and an update is reported exactly on a change. */
  lemma ReconcileAllExact(policy: Policy, user: Enroller, host: Enroller, items: seq<Value>)
    requires ReconcileAll(policy, user, host, items).Ok?
    ensures var (next, names) := ReconcileAll(policy, user, host, items).value;
            && Aligned(items, next) && ReconcileAll(policy, user, host, next) == Ok((next, []))
            && (names == [] <==> next == items)
  {
    ReconcileAllSettles(policy, user, host, items);
    SettledStays(policy, user, host, ReconcileAll(policy, user, host, items).value.0);
    NamesReportChanges(policy, user, host, items);
  }

  /** Every JWK outside the pinned X.509 provisioners carries a lone-fail X.509 template. */
  predicate Denied(item: Value) {
    KindOf(item) == Some(JWK) && !IsX509(item) ==>
      TemplateOf(item, X509_SECTION).Some? && Templates.IsDeny(TemplateOf(item, X509_SECTION).value)
  }

  /** Retire, reconcile, then require the deny templates. */
  function ReconcileProvisioners(policy: Policy, x509: seq<Tombstone>, items: seq<Value>)
    : Result<(seq<Value>, seq<string>, seq<string>), Refusal>
  {
    if policy.user.None? || policy.host.None? then Err(NotPermitted)
    else match RemoveRetired(x509, items)
      case Err(e) => Err(e)
      case Ok((kept, removed)) =>
        match ReconcileAll(policy, policy.user.value, policy.host.value, kept)
        case Err(e) => Err(e)
        case Ok((next, updated)) =>
          if forall x :: x in next ==> Denied(x) then Ok((next, updated, removed)) else Err(NotDenied)
  }

  /**
   Reconciling is idempotent, keeps the survivors in order with their faces, and reports an
   update or a removal exactly when the array changed.
   */
  lemma ReconcileProvisionersAgain(policy: Policy, x509: seq<Tombstone>, items: seq<Value>)
    requires ReconcileProvisioners(policy, x509, items).Ok?
    ensures var (next, updated, removed) := ReconcileProvisioners(policy, x509, items).value;
            && ReconcileProvisioners(policy, x509, next) == Ok((next, [], []))
            && (updated == [] && removed == [] <==> next == items)
            && Aligned(Survivors(x509, items), next)
  {
    var (next, updated, removed) := ReconcileProvisioners(policy, x509, items).value;
    var kept := Survivors(x509, items);
    RemoveRetiredExact(x509, items);
    ReconcileAllExact(policy, policy.user.value, policy.host.value, kept);
    forall x | x in next ensures Retired(x509, FaceOf(x)) == Ok(false) {
      var i :| 0 <= i < |next| && next[i] == x;
      assert kept[i] in kept;
      assert FaceOf(next[i]) == FaceOf(kept[i]);
    }
    RemoveRetiredExact(x509, next);
    RetainAll(next, x => Retired(x509, FaceOf(x)) == Ok(false));
    if next == items {
      assert kept == items by {
        assert |kept| == |items|;
        RetainEverything(items, x => Retired(x509, FaceOf(x)) == Ok(false));
      }
    }
  }

  lemma ReconciledParts(policy: Policy, x509: seq<Tombstone>, items: seq<Value>)
    requires ReconcileProvisioners(policy, x509, items).Ok?
    ensures RemoveRetired(x509, items).Ok?
            && Aligned(Survivors(x509, items), ReconcileProvisioners(policy, x509, items).value.0)
  {
    ReconcileProvisionersAgain(policy, x509, items);
  }

  lemma {:induction false} RetainEverything(items: seq<Value>, keep: Value -> bool)
    requires |Retain(items, keep)| == |items|
    ensures Retain(items, keep) == items
  {
    if items != [] {
      assert |Retain(items[1..], keep)| <= |items| - 1;
      RetainEverything(items[1..], keep);
      assert items == [items[0]] + items[1..];
    }
  }

  /**
   After a successful reconciliation no ACME provisioner is left, and every JWK either cannot
   issue X.509 at all or bears an exactly canonical X.509 name, equals the provisioner built from
   an active declaration of that name, and holds no tombstoned key.
   */
  lemma OnlyPinnedIssuersRemain(policy: Policy, x509: seq<Tombstone>, items: seq<Value>, x: Value)
    requires ReconcileProvisioners(policy, x509, items).Ok?
    requires x in ReconcileProvisioners(policy, x509, items).value.0
    ensures KindOf(x) != Some(ACME)
    ensures KindOf(x) == Some(JWK) && !IsX509(x) ==>
              TemplateOf(x, X509_SECTION).Some? && Templates.IsDeny(TemplateOf(x, X509_SECTION).value)
    ensures IsX509(x) ==> exists cert :: BuiltFrom(policy, x, cert)
    ensures IsX509(x) ==>
              && FaceOf(x).Material().Some? && PinOf(x).Some?
              && forall t :: t in x509 ==>
              t.jwk != FaceOf(x).Material().value && t.key != Registry.X509Key(PinOf(x).value)
    ensures IsX509(x) ==>
              && TemplateOf(x, X509_SECTION).Some?
              && forall csr :: Templates.AdmitsKey(TemplateOf(x, X509_SECTION).value, csr) <==> Some(csr) == PinOf(x)
  {
    var next := ReconcileProvisioners(policy, x509, items).value.0;
    ReconcileProvisionersAgain(policy, x509, items);
    SettledFacts(policy, x509, next, x);
    NotRetiredFacts(x509, FaceOf(x));
    if IsX509(x) {
      RebuiltFrom(policy, x);
      RebuiltAdmitsPin(policy, x);
    }
  }

  /** Read as text, the template of a rebuilt provisioner admits its pinned key alone. */
  lemma RebuiltAdmitsPin(policy: Policy, x: Value)
    requires IsX509(x) && Rebuild(policy, x) == Ok(x)
    ensures TemplateOf(x, X509_SECTION).Some?
    ensures forall csr :: Templates.AdmitsKey(TemplateOf(x, X509_SECTION).value, csr) <==> Some(csr) == PinOf(x)
  {
    RebuiltFrom(policy, x);
    var cert :| BuiltFrom(policy, x, cert);
    BuiltAdmitsPin(policy, x, KeyOf(x).value, cert, PinOf(x).value);
  }

  lemma BuiltAdmitsPin(policy: Policy, x: Value, key: Value, cert: Cert, pin: Templates.CertificateKey)
    requires X509Issuer(policy, key, cert, pin) == Ok(x)
    ensures TemplateOf(x, X509_SECTION).Some?
    ensures forall csr :: Templates.AdmitsKey(TemplateOf(x, X509_SECTION).value, csr) <==> csr == pin
  {
    var template := Templates.X509Template(pin, cert.body.value);
    IssuerParts(ProvisionerName(Identity.X509(cert.host, cert.name)), key, X509Claims(cert.ttl), template,
                policy.denials.ssh);
    forall csr ensures Templates.AdmitsKey(template, csr) <==> csr == pin {
      Templates.TemplateAdmitsOneKey(pin, csr, cert.body.value);
    }
  }

  lemma SettledFacts(policy: Policy, x509: seq<Tombstone>, next: seq<Value>, x: Value)
    requires ReconcileProvisioners(policy, x509, next) == Ok((next, [], [])) && x in next
    ensures Retired(x509, FaceOf(x)) == Ok(false) && Denied(x)
    ensures IsX509(x) ==> Rebuild(policy, x) == Ok(x)
  {
    RemoveRetiredExact(x509, next);
    ReconcileAllExact(policy, policy.user.value, policy.host.value, next);
    UnchangedIsSettled(policy, policy.user.value, policy.host.value, next);
    var i :| 0 <= i < |next| && next[i] == x;
    assert Settled(policy, policy.user.value, policy.host.value, next[i]);
  }

  /** What goes is ACME, or holds a tombstoned JWK or pinned key. */
  lemma RetiredExactly(x509: seq<Tombstone>, items: seq<Value>, x: Value)
    requires RemoveRetired(x509, items).Ok? && x in items
    ensures x !in Survivors(x509, items) <==>
            KindOf(x) == Some("ACME")
            || (IsX509(x)
                && exists t ::
                     t in x509
                     && (Some(t.jwk) == FaceOf(x).Material() || (t.key.X509Key? && Some(t.key.der) == PinOf(x))))
  {
    RemoveRetiredExact(x509, items);
    assert Retired(x509, FaceOf(x)).Ok?;
    RetiredSays(x509, x);
  }

  lemma RetiredSays(x509: seq<Tombstone>, x: Value)
    requires Retired(x509, FaceOf(x)).Ok?
    ensures Retired(x509, FaceOf(x)) == Ok(true) <==>
            KindOf(x) == Some("ACME")
            || (IsX509(x)
                && exists t ::
                     t in x509
                     && (Some(t.jwk) == FaceOf(x).Material() || (t.key.X509Key? && Some(t.key.der) == PinOf(x))))
  {
    assert "ACME"[0] == 'A' && JWK[0] == 'J';
  }

  lemma NotRetiredFacts(x509: seq<Tombstone>, f: Face)
    requires Retired(x509, f) == Ok(false)
    ensures f.kind != Some(ACME)
    ensures f.IsX509() ==>
              && f.Material().Some? && f.pin.Some?
              && forall t :: t in x509 ==> t.jwk != f.Material().value && t.key != Registry.X509Key(f.pin.value)
  {}

  /** The provisioner policy builds for a declaration around a live JWK and pinned key. */
  predicate BuiltFrom(policy: Policy, x: Value, cert: Cert) {
    && cert in policy.certs && cert.active && NameOf(x) == Some(ProvisionerName(Identity.X509(cert.host, cert.name)))
    && KeyOf(x).Some? && PinOf(x).Some? && Ok(x) == X509Issuer(policy, KeyOf(x).value, cert, PinOf(x).value)
  }

  lemma RebuiltFrom(policy: Policy, x: Value)
    requires IsX509(x) && Rebuild(policy, x) == Ok(x)
    ensures exists cert :: BuiltFrom(policy, x, cert)
  {
    var (host, name) := ParseX509(NameOf(x).value).value;
    ParseX509Exact(NameOf(x).value, host, name);
    Templates.PemRoundTrip(PinOf(x).value);
    assert BuiltFrom(policy, x, ActiveCert(policy.certs, host, name).value);
  }

  // ---- The whole configuration ----

  const AUTHORITY := "authority"
  const PROVISIONERS_PATH: Path := [AUTHORITY, "provisioners"]

  datatype Report = Report(config: Value, policyUpdated: bool, updated: seq<string>, removed: seq<string>)
  {
    /** What makes `apply ca` skip the installation. */
    predicate Current() { !policyUpdated && updated == [] && removed == [] }
  }

  /** `desired` is the rendered authority policy. */
  function ReconcileClaims(policy: Policy, x509: seq<Tombstone>, desired: Value,
                           config: Value): Result<Report, Refusal> {
    if Field(config, AUTHORITY).None? || !Field(config, AUTHORITY).value.Obj? then Err(Malformed)
    else
      var live := Child(Field(config, AUTHORITY).value, "policy");
      match AuthorityPolicy.Reconciled(live, desired)
      case None => Err(Malformed)
      case Some(merged) =>
        match Put(config, AuthorityPolicy.POLICY_PATH, merged)
        case None => Err(Malformed)
        case Some(withPolicy) =>
          match Get(withPolicy, PROVISIONERS_PATH)
          case Some(Arr(items)) =>
            (match ReconcileProvisioners(policy, x509, items)
             case Err(e) => Err(e)
             case Ok((next, updated, removed)) =>
               match Put(withPolicy, PROVISIONERS_PATH, Arr(next))
               case None => Err(Malformed)
               case Some(result) => Ok(Report(result, merged != live, updated, removed)))
          case _ => Err(Malformed)
  }

  lemma PathsApart()
    ensures Apart(AuthorityPolicy.POLICY_PATH, PROVISIONERS_PATH)
  {
    assert "policy"[1] == 'o' && "provisioners"[1] == 'r';
    assert AuthorityPolicy.POLICY_PATH[1] == "policy" && PROVISIONERS_PATH[1] == "provisioners";
  }

  /** Merged policy is a fixed point, and it holds something. */
  lemma MergedPolicySettles(desired: Value, live: Value)
    requires AuthorityPolicy.Reconciled(live, desired).Some?
    ensures var merged := AuthorityPolicy.Reconciled(live, desired).value;
            AuthorityPolicy.Reconciled(merged, desired) == Some(merged) && merged != EMPTY
  {
    var elsewhere := ["-"];
    forall p | p in AuthorityPolicy.MANAGED ensures Apart(p, elsewhere) { assert p[0][0] != '-'; }
    AuthorityPolicy.ReconciledExactly(live, desired, elsewhere, AuthorityPolicy.Updates(desired));
    var p := AuthorityPolicy.MANAGED[0];
    assert p in AuthorityPolicy.MANAGED;
    assert Get(AuthorityPolicy.Reconciled(live, desired).value, p).Some? && Get(EMPTY, p).None?;
  }

  /** The policy step as two path updates of the configuration. */
  lemma ReconcileClaimsShape(policy: Policy, x509: seq<Tombstone>, desired: Value, config: Value)
    requires ReconcileClaims(policy, x509, desired, config).Ok?
    ensures var report := ReconcileClaims(policy, x509, desired, config).value;
            && Get(report.config, AuthorityPolicy.POLICY_PATH).Some?
            && Get(report.config, PROVISIONERS_PATH).Some? && Get(report.config, PROVISIONERS_PATH).value.Arr?
            && Get(config, PROVISIONERS_PATH).Some? && Get(config, PROVISIONERS_PATH).value.Arr?
            && ReconcileProvisioners(policy, x509, Get(config, PROVISIONERS_PATH).value.items)
               == Ok((Get(report.config, PROVISIONERS_PATH).value.items, report.updated, report.removed))
            && AuthorityPolicy.Reconciled(Child(Field(config, AUTHORITY).value, "policy"), desired)
               == Get(report.config, AuthorityPolicy.POLICY_PATH)
            && forall other :: Apart(AuthorityPolicy.POLICY_PATH, other) && Apart(PROVISIONERS_PATH, other) ==>
                 Get(report.config, other) == Get(config, other)
  {
    PathsApart();
    var report := ReconcileClaims(policy, x509, desired, config).value;
    var live := Child(Field(config, AUTHORITY).value, "policy");
    var merged := AuthorityPolicy.Reconciled(live, desired).value;
    var withPolicy := Put(config, AuthorityPolicy.POLICY_PATH, merged).value;
    var next := ReconcileProvisioners(policy, x509, Get(withPolicy, PROVISIONERS_PATH).value.items).value.0;
    GetPut(config, AuthorityPolicy.POLICY_PATH, merged);
    GetPutApart(config, AuthorityPolicy.POLICY_PATH, merged, PROVISIONERS_PATH);
    GetPut(withPolicy, PROVISIONERS_PATH, Arr(next));
    GetPutApart(withPolicy, PROVISIONERS_PATH, Arr(next), AuthorityPolicy.POLICY_PATH);
    forall other | Apart(AuthorityPolicy.POLICY_PATH, other) && Apart(PROVISIONERS_PATH, other)
      ensures Get(report.config, other) == Get(config, other)
    {
      GetPutApart(config, AuthorityPolicy.POLICY_PATH, merged, other);
      GetPutApart(withPolicy, PROVISIONERS_PATH, Arr(next), other);
    }
  }

  lemma PolicyAt(config: Value)
    ensures Get(config, AuthorityPolicy.POLICY_PATH) ==
            match Field(config, AUTHORITY) case None => None case Some(authority) => Field(authority, "policy")
  {
    var path := AuthorityPolicy.POLICY_PATH;
    assert path[0] == AUTHORITY && path[1..] == ["policy"] && ["policy"][1..] == [];
    if Field(config, AUTHORITY).Some? {
      var authority := Field(config, AUTHORITY).value;
      assert Get(authority, ["policy"]) == Field(authority, "policy");
      assert Get(config, path) == Get(authority, path[1..]);
    }
  }

  lemma SettledConfig(policy: Policy, x509: seq<Tombstone>, desired: Value, config: Value, merged: Value,
                      items: seq<Value>)
    requires Get(config, AuthorityPolicy.POLICY_PATH) == Some(merged)
             && AuthorityPolicy.Reconciled(merged, desired) == Some(merged)
    requires Get(config, PROVISIONERS_PATH) == Some(Arr(items))
             && ReconcileProvisioners(policy, x509, items) == Ok((items, [], []))
    requires Field(config, AUTHORITY).Some? && Field(config, AUTHORITY).value.Obj?
    ensures ReconcileClaims(policy, x509, desired, config) == Ok(Report(config, false, [], []))
  {
    PolicyAt(config);
    PutSame(config, AuthorityPolicy.POLICY_PATH, merged);
    PutSame(config, PROVISIONERS_PATH, Arr(items));
  }

  /** `apply ca` right after a successful `apply ca` is current. */
  lemma ReconcileClaimsAgain(policy: Policy, x509: seq<Tombstone>, desired: Value, config: Value)
    requires ReconcileClaims(policy, x509, desired, config).Ok?
    ensures var next := ReconcileClaims(policy, x509, desired, config).value.config;
            ReconcileClaims(policy, x509, desired, next) == Ok(Report(next, false, [], []))
  {
    var next := ReconcileClaims(policy, x509, desired, config).value.config;
    var live := Child(Field(config, AUTHORITY).value, "policy");
    ReconcileClaimsShape(policy, x509, desired, config);
    ReconcileProvisionersAgain(policy, x509, Get(config, PROVISIONERS_PATH).value.items);
    MergedPolicySettles(desired, live);
    PolicyAt(next);
    SettledConfig(policy, x509, desired, next, AuthorityPolicy.Reconciled(live, desired).value,
        Get(next, PROVISIONERS_PATH).value.items);
  }

  lemma UnchangedIsCurrent(policy: Policy, x509: seq<Tombstone>, desired: Value, config: Value)
    requires ReconcileClaims(policy, x509, desired, config).Ok?
    requires ReconcileClaims(policy, x509, desired, config).value.config == config
    ensures ReconcileClaims(policy, x509, desired, config).value.Current()
  {
    ReconcileClaimsAgain(policy, x509, desired, config);
  }

  /** Empty reports mean that the policy merged into itself and the provisioners were left alone. */
  lemma QuietParts(policy: Policy, x509: seq<Tombstone>, desired: Value, config: Value)
    requires ReconcileClaims(policy, x509, desired, config).Ok?
    requires ReconcileClaims(policy, x509, desired, config).value.Current()
    ensures var live := Child(Field(config, AUTHORITY).value, "policy");
            AuthorityPolicy.Reconciled(live, desired) == Some(live)
                && Get(config, AuthorityPolicy.POLICY_PATH) == Some(live)
    ensures Get(config, PROVISIONERS_PATH).Some? && Get(config, PROVISIONERS_PATH).value.Arr?
    ensures var items := Get(config, PROVISIONERS_PATH).value.items;
            ReconcileProvisioners(policy, x509, items) == Ok((items, [], []))
  {
    ReconcileClaimsShape(policy, x509, desired, config);
    ReconcileProvisionersAgain(policy, x509, Get(config, PROVISIONERS_PATH).value.items);
    QuietPolicy(policy, x509, desired, config);
  }

  lemma QuietPolicy(policy: Policy, x509: seq<Tombstone>, desired: Value, config: Value)
    requires ReconcileClaims(policy, x509, desired, config).Ok?
    requires !ReconcileClaims(policy, x509, desired, config).value.policyUpdated
    ensures var live := Child(Field(config, AUTHORITY).value, "policy");
            AuthorityPolicy.Reconciled(live, desired) == Some(live)
                && Get(config, AuthorityPolicy.POLICY_PATH) == Some(live)
  {
    var live := Child(Field(config, AUTHORITY).value, "policy");
    MergedPolicySettles(desired, live);
    PolicyAt(config);
  }

  lemma CurrentIsUnchanged(policy: Policy, x509: seq<Tombstone>, desired: Value, config: Value)
    requires ReconcileClaims(policy, x509, desired, config).Ok?
    requires ReconcileClaims(policy, x509, desired, config).value.Current()
    ensures ReconcileClaims(policy, x509, desired, config).value.config == config
  {
    QuietParts(policy, x509, desired, config);
    SettledConfig(policy, x509, desired, config, Child(Field(config, AUTHORITY).value, "policy"),
        Get(config, PROVISIONERS_PATH).value.items);
  }

  /** The three reports are empty exactly when the configuration is unchanged. */
  lemma CurrentExactly(policy: Policy, x509: seq<Tombstone>, desired: Value, config: Value)
    requires ReconcileClaims(policy, x509, desired, config).Ok?
    ensures var report := ReconcileClaims(policy, x509, desired, config).value;
            report.Current() <==> report.config == config
  {
    if ReconcileClaims(policy, x509, desired, config).value.Current() {
      CurrentIsUnchanged(policy, x509, desired, config);
    }
    if ReconcileClaims(policy, x509, desired, config).value.config == config {
      UnchangedIsCurrent(policy, x509, desired, config);
    }
  }
}
