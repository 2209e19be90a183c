/**
 First materialization of a staged `ca.json`: runtime placeholders are replaced by JWK objects and
 the live renewal provisioners are carried over (`merge_materialized` in
 src/runtime_provisioners.rs, placeholder names in src/render.rs).
 */
module Materialize {
  import opened Wrappers
  import opened Json
  import opened Names
  import opened Issuers
  import opened Ledger
  import opened Reconciliation
  import Rows
  import Templates
  import Text

  const PLACEHOLDER := "RUNTIME_SECRET_PLACEHOLDER:"
  const SECRET_HEAD := "GRAFHOME_CA_PROVISIONER_"
  const SECRET_TAIL := "_JSON"
  const ENCRYPTED_KEY := "encryptedKey"

  predicate IsPlaceholder(v: Value) { v.Str? && Text.StartsWith(v.s, PLACEHOLDER) }

  /** Letters are raised, digits kept, every other byte becomes an underscore. */
  function SecretChar(b: Text.Byte): char {
    if 0x61 <= b <= 0x7A then (b - 0x20) as char
    else if 0x41 <= b <= 0x5A || 0x30 <= b <= 0x39 then b as char
    else '_'
  }

  function SecretName(bytes: seq<Text.Byte>): string {
    if bytes == [] then "" else [SecretChar(bytes[0])] + SecretName(bytes[1..])
  }

  function PlaceholderOf(name: string): string {
    PLACEHOLDER + SECRET_HEAD + SecretName(Text.EncodeUtf8(name)) + SECRET_TAIL
  }

  // ---- Placeholders ----

  /** Replace placeholders from the left, each consuming its replacement. */
  function Substitute(staged: seq<Value>, replacements: map<string, Value>): Option<(seq<Value>, map<string, Value>)>
    decreases |staged|
  {
    if staged == [] then Some(([], replacements))
    else if !IsPlaceholder(staged[0]) then
      match Substitute(staged[1..], replacements) case None => None case Some((rest, left)) => Some(([staged[0]] + rest,
          left))
    else if staged[0].s !in replacements then None
    else
      match Substitute(staged[1..], replacements - {staged[0].s})
      case None => None
      case Some((rest, left)) => Some(([replacements[staged[0].s]] + rest, left))
  }

  /** Position by position, with no replacement used twice. */
  predicate Substituted(staged: seq<Value>, next: seq<Value>, replacements: map<string, Value>, left: map<string,
                        Value>) {
    && |next| == |staged| && left.Keys <= replacements.Keys
    && (forall i :: 0 <= i < |staged| ==>
          if IsPlaceholder(staged[i])
            then staged[i].s in replacements && staged[i].s !in left && next[i] == replacements[staged[i].s]
          else next[i] == staged[i])
    && (forall i, j :: 0 <= i < j < |staged| && IsPlaceholder(staged[i]) && IsPlaceholder(staged[j]) ==>
        staged[i].s != staged[j].s)
    && (forall k :: k in replacements && k !in left ==>
        exists i ::
          0 <= i < |staged| && staged[i] == Str(k) && IsPlaceholder(staged[i]))
  }

  lemma {:induction false} SubstituteExact(staged: seq<Value>, replacements: map<string, Value>)
    requires Substitute(staged, replacements).Some?
    ensures var (next, left) := Substitute(staged, replacements).value; Substituted(staged, next, replacements, left)
    decreases |staged|
  {
    if staged != [] {
      var head, tail := staged[0], staged[1..];
      var others := if IsPlaceholder(head) then replacements - {head.s} else replacements;
      SubstituteExact(tail, others);
      var (rest, left) := Substitute(tail, others).value;
      var next := Substitute(staged, replacements).value.0;
      assert forall i :: 0 < i < |staged| ==> staged[i] == tail[i - 1] && next[i] == rest[i - 1];
      forall k | k in replacements && k !in left
        ensures exists i :: 0 <= i < |staged| && staged[i] == Str(k) && IsPlaceholder(staged[i])
      {
        if k in others {
          var i :| 0 <= i < |tail| && tail[i] == Str(k) && IsPlaceholder(tail[i]);
          assert staged[i + 1] == Str(k);
        } else {
          assert staged[0] == Str(k);
        }
      }
    }
  }

  // ---- Live JWK provisioners ----

  /** Live JWK provisioners by name; an unnamed or repeated one is refused. */
  function LiveJwks(items: seq<Value>): Option<map<string, Value>> {
    if items == [] then Some(map[])
    else match LiveJwks(items[..|items| - 1])
      case None => None
      case Some(live) =>
        var item := items[|items| - 1];
        if KindOf(item) != Some(JWK) then Some(live)
        else match NameOf(item)
          case None => None
          case Some(name) => if name in live then None else Some(live[name := item])
  }

  lemma {:induction false} LiveJwksExact(items: seq<Value>)
    requires LiveJwks(items).Some?
    ensures var live := LiveJwks(items).value;
            && (forall name :: name in live ==>
                live[name] in items && KindOf(live[name]) == Some(JWK) && NameOf(live[name]) == Some(name))
            && (forall x :: x in items && KindOf(x) == Some(JWK) ==>
                NameOf(x).Some? && NameOf(x).value in live && live[NameOf(x).value] == x)
  {
    if items != [] {
      LiveJwksExact(items[..|items| - 1]);
      assert items == items[..|items| - 1] + [items[|items| - 1]];
    }
  }

  // ---- Carrying renewal provisioners over ----

  function WithoutField(v: Value, field: string): Value
    requires v.Obj?
  {
    Obj(v.fields - {field})
  }

  /** What becomes of one live JWK: carried, skipped, or a reason to refuse the merge. */
  function CarryOne(policy: Policy, x509: seq<Tombstone>, user: Enroller, host: Enroller, name: string, item: Value)
    : Result<Option<Value>, Refusal>
  {
    if ParseX509(name).Some? then
      match HoldsTombstone(x509, FaceOf(item))
      case Err(e) => Err(e)
      case Ok(true) => Ok(None)
      case Ok(false) => (match Rebuild(policy, item) case Err(e) => Err(e) case Ok(next) => Ok(Some(next)))
    else
      var role := if ParseUser(name).Some? then UserRole else HostRole;
      if ParseUser(name).None? && ParseHost(name).None? then Ok(None)
      else if KeyOf(item).None? then Err(NoKey)
      else match MergeClaims(WithoutField(item, ENCRYPTED_KEY),
          SshClaims(role, (if role == UserRole then user else host).renewal))
        case Err(e) => Err(e)
        case Ok((next, _)) => Ok(Some(next))
  }

  predicate RenewalName(name: string) { ParseX509(name).Some? || ParseUser(name).Some? || ParseHost(name).Some? }

  lemma WithoutFieldKeeps(v: Value, field: string)
    requires v.Obj?
    ensures Field(WithoutField(v, field), field) == None
    ensures forall other :: other != field ==> Field(WithoutField(v, field), other) == Field(v, other)
  {}

  lemma EncryptedKeyIsOther()
    ensures ENCRYPTED_KEY != NAME && ENCRYPTED_KEY != TYPE && ENCRYPTED_KEY != KEY && ENCRYPTED_KEY != CLAIMS
            && ENCRYPTED_KEY != OPTIONS
  {
    assert ENCRYPTED_KEY[0] == 'e' && NAME[0] == 'n' && TYPE[0] == 't' && KEY[0] == 'k' && CLAIMS[0] == 'c'
        && OPTIONS[0] == 'o';
  }

  /** A carried provisioner for a live one: same name, type and JWK, and no encrypted signing key. */
  predicate CarriedFrom(next: Value, item: Value, name: string) {
    && NameOf(next) == Some(name) && KindOf(next) == Some(JWK) && KeyOf(next) == KeyOf(item)
    && Field(next, ENCRYPTED_KEY) == None
  }

  lemma BuiltHasNoOther(name: string, key: Value, claims: map<string, Value>, options: Value)
    ensures Field(Issuer(name, key, claims, options), ENCRYPTED_KEY) == None
  {
    EncryptedKeyIsOther();
  }

  lemma RebuiltIsBuilt(policy: Policy, item: Value)
    requires Rebuild(policy, item).Ok?
    ensures Field(Rebuild(policy, item).value, ENCRYPTED_KEY) == None
  {
    var (host, name) := ParseX509(match NameOf(item) case Some(n) => n case None => "").value;
    var cert, pin := ActiveCert(policy.certs, host, name).value,
        Templates.ParsePem(Templates.Pem(PinOf(item).value)).value;
    BuiltHasNoOther(ProvisionerName(Identity.X509(cert.host, cert.name)), KeyOf(item).value, X509Claims(cert.ttl),
                    Options(Templates.X509Template(pin, cert.body.value), policy.denials.ssh));
  }

  lemma RebuiltIsCarried(policy: Policy, item: Value, name: string)
    requires KindOf(item) == Some(JWK) && NameOf(item) == Some(name) && Rebuild(policy, item).Ok?
    ensures CarriedFrom(Rebuild(policy, item).value, item, name)
  {
    RebuildExact(policy, item);
    RebuiltIsBuilt(policy, item);
    var next := Rebuild(policy, item).value;
    assert FaceOf(next).name == FaceOf(item).name && FaceOf(next).kind == FaceOf(item).kind
        && FaceOf(next).key == FaceOf(item).key;
  }

  lemma ReclaimedIsCarried(item: Value, name: string, claims: map<string, Value>)
    requires KindOf(item) == Some(JWK) && NameOf(item) == Some(name) && claims != map[]
    requires MergeClaims(WithoutField(item, ENCRYPTED_KEY), claims).Ok?
    ensures CarriedFrom(MergeClaims(WithoutField(item, ENCRYPTED_KEY), claims).value.0, item, name)
  {
    EncryptedKeyIsOther();
    WithoutFieldKeeps(item, ENCRYPTED_KEY);
    FieldNamesDiffer();
    MergeClaimsExact(WithoutField(item, ENCRYPTED_KEY), claims);
  }

  /** Exactly the renewal provisioners that hold no tombstone are carried. */
  lemma CarryOneExact(policy: Policy, x509: seq<Tombstone>, user: Enroller, host: Enroller, name: string, item: Value)
    requires KindOf(item) == Some(JWK) && NameOf(item) == Some(name)
             && CarryOne(policy, x509, user, host, name, item).Ok?
    ensures CarryOne(policy, x509, user, host, name, item).value.Some? <==> ToCarry(x509, name, item)
    ensures CarryOne(policy, x509, user, host, name, item).value.Some? ==>
              CarriedFrom(CarryOne(policy, x509, user, host, name, item).value.value, item, name)
  {
    if ParseX509(name).Some? {
      CarryX509Exact(policy, x509, user, host, name, item);
    } else {
      CarrySshExact(policy, x509, user, host, name, item);
    }
  }

  lemma CarryX509Exact(policy: Policy, x509: seq<Tombstone>, user: Enroller, host: Enroller, name: string, item: Value)
    requires KindOf(item) == Some(JWK) && NameOf(item) == Some(name) && ParseX509(name).Some?
    requires CarryOne(policy, x509, user, host, name, item).Ok?
    ensures var carried := CarryOne(policy, x509, user, host, name, item).value;
            (carried.Some? <==> HoldsTombstone(x509, FaceOf(item)) != Ok(true))
                && (carried.Some? ==> CarriedFrom(carried.value, item, name))
  {
    if CarryOne(policy, x509, user, host, name, item).value.Some? { RebuiltIsCarried(policy, item, name); }
  }

  lemma CarrySshExact(policy: Policy, x509: seq<Tombstone>, user: Enroller, host: Enroller, name: string, item: Value)
    requires KindOf(item) == Some(JWK) && NameOf(item) == Some(name) && ParseX509(name).None?
    requires CarryOne(policy, x509, user, host, name, item).Ok?
    ensures var carried := CarryOne(policy, x509, user, host, name, item).value;
            (carried.Some? <==> RenewalName(name)) && (carried.Some? ==> CarriedFrom(carried.value, item, name))
  {
    if RenewalName(name) {
      var role := if ParseUser(name).Some? then UserRole else HostRole;
      var durations := (if role == UserRole then user else host).renewal;
      SshClaimsNotEmpty(role, durations);
      ReclaimedIsCarried(item, name, SshClaims(role, durations));
    }
  }

  predicate ToCarry(x509: seq<Tombstone>, name: string, item: Value) {
    RenewalName(name) && (ParseX509(name).Some? ==> HoldsTombstone(x509, FaceOf(item)) != Ok(true))
  }

  /** Carry live provisioners over in name order, refusing a name that is already taken. */
  function Carry(policy: Policy, x509: seq<Tombstone>, user: Enroller, host: Enroller,
                 names: seq<string>, live: map<string, Value>, taken: set<string>): Result<seq<Value>, Refusal>
    requires forall n :: n in names ==> n in live
    decreases |names|
  {
    if names == [] then Ok([])
    else match CarryOne(policy, x509, user, host, names[0], live[names[0]])
      case Err(e) => Err(e)
      case Ok(None) => Carry(policy, x509, user, host, names[1..], live, taken)
      case Ok(Some(next)) =>
        if names[0] in taken then Err(DuplicateIssuer)
        else match Carry(policy, x509, user, host, names[1..], live, taken + {names[0]})
          case Err(e) => Err(e)
          case Ok(rest) => Ok([next] + rest)
  }

  function NamesIn(items: seq<Value>): set<string> { set x | x in items && NameOf(x).Some? :: NameOf(x).value }

  /** `replacements` maps each active issuer's placeholder to the object built from its live or local key. */
  function Merge(policy: Policy, x509: seq<Tombstone>, live: seq<Value>, staged: seq<Value>, replacements: map<string,
                 Value>)
    : Result<seq<Value>, Refusal>
  {
    match (LiveJwks(live), Substitute(staged, replacements))
    case (None, _) => Err(DuplicateIssuer)
    case (_, None) => Err(MissingIssuer)
    case (Some(jwks), Some((next, left))) =>
      if left != map[] then Err(MissingIssuer)
      else if policy.user.None? || policy.host.None? then Err(NotPermitted)
      else match Carry(policy, x509, policy.user.value, policy.host.value, Rows.SortedKeys(jwks.Keys), jwks,
          NamesIn(next))
        case Err(e) => Err(e)
        case Ok(carried) => Ok(next + carried)
  }

  // ---- What a merge guarantees ----

  predicate DistinctNames(items: seq<Value>) {
    forall i, j :: 0 <= i < j < |items| ==> NameOf(items[i]) != NameOf(items[j])
  }

  predicate OneLiveItem(live: map<string, Value>) {
    forall n :: n in live ==> KindOf(live[n]) == Some(JWK) && NameOf(live[n]) == Some(n)
  }

  /** Carried names are distinct, free, and those of the live provisioners to carry. */
  predicate CarriedAll(carried: seq<Value>, x509: seq<Tombstone>, names: seq<string>, live: map<string, Value>,
                       taken: set<string>)
    requires forall n :: n in names ==> n in live
  {
    && DistinctNames(carried)
    && (forall x :: x in carried ==> CarriedSome(x, x509, names, live, taken))
    && (forall n :: n in names && ToCarry(x509, n, live[n]) ==> n in NamesIn(carried))
  }

  predicate CarriedSome(x: Value, x509: seq<Tombstone>, names: seq<string>, live: map<string, Value>,
                        taken: set<string>)
    requires forall n :: n in names ==> n in live
  {
    NameOf(x).Some? && NameOf(x).value in names && NameOf(x).value !in taken
    && ToCarry(x509, NameOf(x).value, live[NameOf(x).value]) && CarriedFrom(x, live[NameOf(x).value], NameOf(x).value)
  }

  lemma DistinctCons(next: Value, rest: seq<Value>)
    requires DistinctNames(rest) && forall x :: x in rest ==> NameOf(x) != NameOf(next)
    ensures DistinctNames([next] + rest)
  {
    var all := [next] + rest;
    forall i, j | 0 <= i < j < |all| ensures NameOf(all[i]) != NameOf(all[j]) {
      assert all[j] == rest[j - 1] && rest[j - 1] in rest;
      if i > 0 { assert all[i] == rest[i - 1]; }
    }
  }

  lemma CarriedCons(next: Value, rest: seq<Value>, x509: seq<Tombstone>, names: seq<string>, live: map<string, Value>,
                    taken: set<string>)
    requires names != [] && (forall n :: n in names ==> n in live) && Rows.Distinct(names) && names[0] !in taken
    requires (forall n :: n in names[1..] ==> n in names)
             && CarriedAll(rest, x509, names[1..], live, taken + {names[0]})
    requires ToCarry(x509, names[0], live[names[0]]) && CarriedFrom(next, live[names[0]], names[0])
    ensures CarriedAll([next] + rest, x509, names, live, taken)
  {
    var all, first := [next] + rest, names[0];
    assert forall x :: x in all <==> x == next || x in rest;
    assert CarriedSome(next, x509, names, live, taken);
    forall x | x in rest ensures NameOf(x) != NameOf(next) && CarriedSome(x, x509, names, live, taken) {
      assert CarriedSome(x, x509, names[1..], live, taken + {first});
    }
    DistinctCons(next, rest);
    NamesCons(next, rest);
    assert forall n :: n in names ==> n == first || n in names[1..];
  }

  lemma NamesCons(next: Value, rest: seq<Value>)
    ensures forall n :: n in NamesIn([next] + rest) <==> n in NamesIn(rest) || NameOf(next) == Some(n)
  {
    assert forall x :: x in [next] + rest <==> x == next || x in rest;
  }

  lemma {:induction false} CarryExact(policy: Policy, x509: seq<Tombstone>, user: Enroller, host: Enroller,
                                      names: seq<string>, live: map<string, Value>, taken: set<string>)
    requires (forall n :: n in names ==> n in live) && OneLiveItem(live) && Rows.Distinct(names)
    requires Carry(policy, x509, user, host, names, live, taken).Ok?
    ensures CarriedAll(Carry(policy, x509, user, host, names, live, taken).value, x509, names, live, taken)
    decreases |names|
  {
    if names != [] {
      var n, rest := names[0], names[1..];
      assert names == [n] + rest && forall m :: m in rest ==> m in names;
      assert Rows.Distinct(rest) by { assert forall i :: 0 <= i < |rest| ==> rest[i] == names[i + 1]; }
      CarryOneExact(policy, x509, user, host, n, live[n]);
      match CarryOne(policy, x509, user, host, n, live[n]).value {
        case None =>
          CarryExact(policy, x509, user, host, rest, live, taken);
          SkippedOne(Carry(policy, x509, user, host, rest, live, taken).value, x509, names, live, taken);
        case Some(next) =>
          CarryExact(policy, x509, user, host, rest, live, taken + {n});
          CarriedCons(next, Carry(policy, x509, user, host, rest, live, taken + {n}).value, x509, names, live, taken);
      }
    }
  }

  lemma SkippedOne(carried: seq<Value>, x509: seq<Tombstone>, names: seq<string>, live: map<string, Value>,
                   taken: set<string>)
    requires names != [] && (forall n :: n in names ==> n in live) && (forall n :: n in names[1..] ==> n in names)
    requires CarriedAll(carried, x509, names[1..], live, taken) && !ToCarry(x509, names[0], live[names[0]])
    ensures CarriedAll(carried, x509, names, live, taken)
  {
    assert names == [names[0]] + names[1..];
    forall x | x in carried
      ensures CarriedSome(x, x509, names, live, taken)
    {
      assert CarriedSome(x, x509, names[1..], live, taken);
    }
  }

  /**
   A successful merge leaves no runtime placeholder, has used each replacement at exactly one staged
   position, and ends with each live host, user and non-tombstoned X.509 renewal provisioner once:
   its JWK unchanged, without an encrypted key, under a name that nothing staged bears.
   */
  lemma MergeIsComplete(policy: Policy, x509: seq<Tombstone>, live: seq<Value>, staged: seq<Value>,
                        replacements: map<string, Value>)
    requires Merge(policy, x509, live, staged, replacements).Ok? && forall k :: k in replacements ==>
             replacements[k].Obj?
    ensures var merged := Merge(policy, x509, live, staged, replacements).value;
            && |staged| <= |merged| && (forall x :: x in merged ==> !IsPlaceholder(x))
            && Substituted(staged, merged[..|staged|], replacements, map[])
            && LiveJwks(live).Some?
            && var jwks := LiveJwks(live).value;
               CarriedAll(merged[|staged|..], x509, Rows.SortedKeys(jwks.Keys), jwks, NamesIn(merged[..|staged|]))
  {
    LiveJwksExact(live);
    SubstituteExact(staged, replacements);
    var jwks, next := LiveJwks(live).value, Substitute(staged, replacements).value.0;
    CarryExact(policy, x509, policy.user.value, policy.host.value, Rows.SortedKeys(jwks.Keys), jwks, NamesIn(next));
    var carried := Carry(policy, x509, policy.user.value, policy.host.value, Rows.SortedKeys(jwks.Keys), jwks,
        NamesIn(next)).value;
    assert (next + carried)[..|staged|] == next && (next + carried)[|staged|..] == carried;
    NoPlaceholderCarried(carried, x509, Rows.SortedKeys(jwks.Keys), jwks, NamesIn(next));
    NoPlaceholderStaged(staged, next, replacements);
  }

  lemma NoPlaceholderStaged(staged: seq<Value>, next: seq<Value>, replacements: map<string, Value>)
    requires Substituted(staged, next, replacements, map[]) && forall k :: k in replacements ==> replacements[k].Obj?
    ensures forall x :: x in next ==> !IsPlaceholder(x)
  {}

  lemma NoPlaceholderCarried(carried: seq<Value>, x509: seq<Tombstone>, names: seq<string>, live: map<string, Value>,
                             taken: set<string>)
    requires (forall n :: n in names ==> n in live) && CarriedAll(carried, x509, names, live, taken)
    ensures forall x :: x in carried ==> !IsPlaceholder(x)
  {
    forall x | x in carried ensures !IsPlaceholder(x) { assert CarriedSome(x, x509, names, live, taken); }
  }

  // ---- Replacements ----

  /**
   An active JWK issuer of policy; `public` is its local public JWK, absent when its credential
   files are not in order.
   */
  datatype ActiveIssuer = ActiveIssuer(name: string, claims: Value, options: Option<Value>, public: Option<Value>)

  function WithOptions(v: Value, options: Option<Value>): Value
    requires v.Obj?
  {
    match options case Some(o) => SetField(v, OPTIONS, o) case None => v
  }

  /** The object for one active issuer: the live one with its key proved equal, or one from the local files. */
  function RuntimeObject(a: ActiveIssuer, live: map<string, Value>): Result<Value, Refusal> {
    if a.public.None? || JwkMaterial(a.public.value).None? then Err(NoKey)
    else if a.name !in live then
      Ok(WithOptions(Obj(map[TYPE := Str(JWK), NAME := Str(a.name), KEY := a.public.value, CLAIMS := a.claims]),
          a.options))
    else
      var item := live[a.name];
      if KeyOf(item).None? then Err(NoKey)
      else if FaceOf(item).Material() != JwkMaterial(a.public.value) then Err(DifferentKey)
      else
        var named := SetField(SetField(WithoutField(item, ENCRYPTED_KEY), TYPE, Str(JWK)), NAME, Str(a.name));
        Ok(WithOptions(SetField(named, CLAIMS, a.claims), a.options))
  }

  /** A later issuer with the same placeholder replaces an earlier one's object. */
  function Replacements(active: seq<ActiveIssuer>, live: map<string, Value>): Result<map<string, Value>, Refusal> {
    if active == [] then Ok(map[])
    else
      var last := active[|active| - 1];
      match (Replacements(active[..|active| - 1], live), RuntimeObject(last, live))
      case (Ok(others), Ok(built)) => Ok(others[PlaceholderOf(last.name) := built])
      case (Err(e), _) => Err(e)
      case (_, Err(e)) => Err(e)
  }

  /** A replacement is a JWK object of its issuer's name, key, claims and options, without an encrypted signing key. */
  predicate RuntimeFor(v: Value, a: ActiveIssuer) {
    && RuntimeBase(v, a) && (a.options.Some? ==> Field(v, OPTIONS) == a.options)
  }

  predicate RuntimeBase(v: Value, a: ActiveIssuer) {
    && v.Obj? && NameOf(v) == Some(a.name) && KindOf(v) == Some(JWK) && Field(v, ENCRYPTED_KEY) == None
    && a.public.Some? && FaceOf(v).Material() == JwkMaterial(a.public.value) && Field(v, CLAIMS) == Some(a.claims)
  }

  lemma WithOptionsKeeps(v: Value, options: Option<Value>, a: ActiveIssuer)
    requires RuntimeBase(v, a) && options == a.options
    ensures RuntimeFor(WithOptions(v, options), a)
    ensures forall field :: field != OPTIONS || options.None? ==>
            Field(WithOptions(v, options), field) == Field(v, field)
  {
    if options.Some? {
      FieldNamesDiffer();
      EncryptedKeyIsOther();
      SetFieldKeeps(v, OPTIONS, options.value);
    }
  }

  /** The fields an issuer's replacement does not take from the live object. */
  predicate OwnField(a: ActiveIssuer, field: string) {
    field == TYPE || field == NAME || field == CLAIMS || field == ENCRYPTED_KEY || (field == OPTIONS && a.options.Some?)
  }

  /** A replacement is its issuer's, and whatever else the live object holds is kept. */
  lemma RuntimeObjectExact(a: ActiveIssuer, live: map<string, Value>)
    requires RuntimeObject(a, live).Ok?
    ensures RuntimeFor(RuntimeObject(a, live).value, a)
    ensures a.name in live ==>
              forall field :: !OwnField(a, field) ==>
                  Field(RuntimeObject(a, live).value, field) == Field(live[a.name], field)
  {
    if a.name in live { RuntimeFromLive(a, live[a.name]); } else { RuntimeFromFiles(a); }
  }

  /** The live object with type, name and claims rewritten and the encrypted key removed. */
  function Restated(a: ActiveIssuer, item: Value): Value
    requires item.Obj?
  {
    SetField(SetField(SetField(WithoutField(item, ENCRYPTED_KEY), TYPE, Str(JWK)), NAME, Str(a.name)), CLAIMS, a.claims)
  }

  lemma RestatedFields(a: ActiveIssuer, item: Value)
    requires item.Obj?
    ensures var v := Restated(a, item);
            && v.Obj? && NameOf(v) == Some(a.name) && KindOf(v) == Some(JWK) && Field(v, CLAIMS) == Some(a.claims)
            && Field(v, ENCRYPTED_KEY) == None
            && forall field :: field != TYPE && field != NAME && field != CLAIMS && field != ENCRYPTED_KEY ==>
                 Field(v, field) == Field(item, field)
  {
    FieldNamesDiffer();
    EncryptedKeyIsOther();
    var bare := WithoutField(item, ENCRYPTED_KEY);
    WithoutFieldKeeps(item, ENCRYPTED_KEY);
    var typed := SetField(bare, TYPE, Str(JWK));
    SetFieldKeeps(bare, TYPE, Str(JWK));
    var named := SetField(typed, NAME, Str(a.name));
    SetFieldKeeps(typed, NAME, Str(a.name));
    SetFieldKeeps(named, CLAIMS, a.claims);
  }

  lemma RuntimeFromLive(a: ActiveIssuer, item: Value)
    requires item.Obj? && a.public.Some? && FaceOf(item).Material() == JwkMaterial(a.public.value)
    ensures var v := WithOptions(Restated(a, item), a.options);
            RuntimeFor(v, a) && forall field :: !OwnField(a, field) ==> Field(v, field) == Field(item, field)
  {
    FieldNamesDiffer();
    EncryptedKeyIsOther();
    RestatedFields(a, item);
    assert KeyOf(Restated(a, item)) == KeyOf(item);
    WithOptionsKeeps(Restated(a, item), a.options, a);
  }

  lemma RuntimeFromFiles(a: ActiveIssuer)
    requires a.public.Some?
    ensures RuntimeFor(WithOptions(Obj(map[TYPE := Str(JWK), NAME := Str(a.name), KEY := a.public.value,
            CLAIMS := a.claims]), a.options), a)
  {
    FieldNamesDiffer();
    EncryptedKeyIsOther();
    WithOptionsKeeps(Obj(map[TYPE := Str(JWK), NAME := Str(a.name), KEY := a.public.value, CLAIMS := a.claims]),
        a.options, a);
  }

  predicate DistinctPlaceholders(active: seq<ActiveIssuer>) {
    forall i, j :: 0 <= i < j < |active| ==> PlaceholderOf(active[i].name) != PlaceholderOf(active[j].name)
  }

  predicate ForSome(v: Value, k: string, active: seq<ActiveIssuer>) {
    exists a :: a in active && k == PlaceholderOf(a.name) && RuntimeFor(v, a)
  }

  /** Every replacement stands for an active issuer, and every active issuer's placeholder has one. */
  lemma {:induction false} ReplacementsExact(active: seq<ActiveIssuer>, live: map<string, Value>)
    requires Replacements(active, live).Ok?
    ensures var table := Replacements(active, live).value;
            && (forall k :: k in table ==> ForSome(table[k], k, active))
            && (forall a :: a in active ==> PlaceholderOf(a.name) in table)
  {
    if active != [] {
      var init, last := active[..|active| - 1], active[|active| - 1];
      assert active == init + [last];
      ReplacementsExact(init, live);
      RuntimeObjectExact(last, live);
      var others := Replacements(init, live).value;
      forall k | k in others ensures ForSome(others[k], k, active) {
        var a :| a in init && k == PlaceholderOf(a.name) && RuntimeFor(others[k], a);
        assert a in active;
      }
      assert last in active && ForSome(RuntimeObject(last, live).value, PlaceholderOf(last.name), active);
    }
  }

  /** Each active issuer's placeholder stands for that issuer. */
  predicate EachHasItsOwn(active: seq<ActiveIssuer>, table: map<string, Value>) {
    forall a :: a in active ==> PlaceholderOf(a.name) in table && RuntimeFor(table[PlaceholderOf(a.name)], a)
  }

  predicate DistinctIssuers(active: seq<ActiveIssuer>) {
    forall i, j :: 0 <= i < j < |active| ==> active[i].name != active[j].name
  }

  lemma OwnReplacement(active: seq<ActiveIssuer>, live: map<string, Value>, a: ActiveIssuer)
    requires Replacements(active, live).Ok? && DistinctPlaceholders(active) && a in active
    ensures PlaceholderOf(a.name) in Replacements(active, live).value
            && RuntimeFor(Replacements(active, live).value[PlaceholderOf(a.name)], a)
  {
    ReplacementsExact(active, live);
    var v := Replacements(active, live).value[PlaceholderOf(a.name)];
    var b :| b in active && PlaceholderOf(a.name) == PlaceholderOf(b.name) && RuntimeFor(v, b);
    var i :| 0 <= i < |active| && active[i] == a;
    var j :| 0 <= j < |active| && active[j] == b;
    assert i == j;
  }

  /** Of distinctly named issuers, each gets its own replacement exactly when no two share a placeholder. */
  lemma DistinctReplacements(active: seq<ActiveIssuer>, live: map<string, Value>)
    requires Replacements(active, live).Ok? && DistinctIssuers(active)
    ensures EachHasItsOwn(active, Replacements(active, live).value) <==> DistinctPlaceholders(active)
  {
    var table := Replacements(active, live).value;
    if DistinctPlaceholders(active) {
      forall a | a in active ensures PlaceholderOf(a.name) in table && RuntimeFor(table[PlaceholderOf(a.name)], a) {
        OwnReplacement(active, live, a);
      }
    }
    if EachHasItsOwn(active, table) {
      forall i, j | 0 <= i < j < |active| ensures PlaceholderOf(active[i].name) != PlaceholderOf(active[j].name) {
        NamedAfterOwner(active, table, active[i]);
        NamedAfterOwner(active, table, active[j]);
      }
    }
  }

  lemma NamedAfterOwner(active: seq<ActiveIssuer>, table: map<string, Value>, a: ActiveIssuer)
    requires EachHasItsOwn(active, table) && a in active
    ensures PlaceholderOf(a.name) in table && NameOf(table[PlaceholderOf(a.name)]) == Some(a.name)
  {}

  // ---- What colliding placeholders do to a merge ----

  /** The staged array as it is rendered: one placeholder for each active issuer, in policy order. */
  function Rendered(active: seq<ActiveIssuer>): (r: seq<Value>)
    ensures |r| == |active| && forall i :: 0 <= i < |r| ==> r[i] == Str(PlaceholderOf(active[i].name))
  {
    seq(|active|, i requires 0 <= i < |active| => Str(PlaceholderOf(active[i].name)))
  }

  lemma RenderedIsPlaceholder(name: string)
    ensures IsPlaceholder(Str(PlaceholderOf(name)))
  {
    assert PlaceholderOf(name) == PLACEHOLDER + (SECRET_HEAD + SecretName(Text.EncodeUtf8(name)) + SECRET_TAIL);
  }

  /** Distinct placeholders that all have a replacement are all replaced, and use up exactly those. */
  lemma {:induction false} SubstitutesDistinct(staged: seq<Value>, replacements: map<string, Value>)
    requires forall i :: 0 <= i < |staged| ==> IsPlaceholder(staged[i]) && staged[i].s in replacements
    requires forall i, j :: 0 <= i < j < |staged| ==> staged[i] != staged[j]
    ensures Substitute(staged, replacements).Some?
    ensures Substitute(staged, replacements).value.1.Keys == set k | k in replacements && Str(k) !in staged
    decreases |staged|
  {
    if staged == [] {
      assert (set k | k in replacements && Str(k) !in staged) == replacements.Keys;
    } else {
      var others := replacements - {staged[0].s};
      assert staged == [staged[0]] + staged[1..];
      assert forall i :: 0 <= i < |staged| - 1 ==> staged[1..][i] == staged[i + 1] && staged[0] != staged[i + 1];
      SubstitutesDistinct(staged[1..], others);
    }
  }

  /**
   Over the rendered array every placeholder finds its replacement and none is left over exactly when
   no two active issuers share a placeholder.
   */
  lemma RenderedSubstitutesExactly(active: seq<ActiveIssuer>, live: map<string, Value>)
    requires Replacements(active, live).Ok?
    ensures var r := Substitute(Rendered(active), Replacements(active, live).value);
            DistinctPlaceholders(active) <==> r.Some? && r.value.1 == map[]
  {
    var staged, table := Rendered(active), Replacements(active, live).value;
    RenderedHasReplacements(active, live);
    if DistinctPlaceholders(active) {
      SubstitutesDistinct(staged, table);
      ReplacementsExact(active, live);
      forall k | k in table ensures Str(k) in staged { NeededBySome(active, table, k); }
      assert Substitute(staged, table).value.1.Keys == {};
    } else {
      RenderedCollision(active, table);
    }
  }

  lemma RenderedHasReplacements(active: seq<ActiveIssuer>, live: map<string, Value>)
    requires Replacements(active, live).Ok?
    ensures forall i :: 0 <= i < |active| ==>
              IsPlaceholder(Rendered(active)[i]) && Rendered(active)[i].s in Replacements(active, live).value
  {
    ReplacementsExact(active, live);
    forall i | 0 <= i < |active| ensures IsPlaceholder(Rendered(active)[i]) { RenderedIsPlaceholder(active[i].name); }
  }

  lemma RenderedCollision(active: seq<ActiveIssuer>, table: map<string, Value>)
    requires !DistinctPlaceholders(active)
    ensures Substitute(Rendered(active), table).None?
  {
    var i, j :| 0 <= i < j < |active| && PlaceholderOf(active[i].name) == PlaceholderOf(active[j].name);
    var staged := Rendered(active);
    RenderedIsPlaceholder(active[i].name);
    RenderedIsPlaceholder(active[j].name);
    if Substitute(staged, table).Some? { SubstituteExact(staged, table); }
  }

  lemma NeededBySome(active: seq<ActiveIssuer>, table: map<string, Value>, k: string)
    requires k in table && ForSome(table[k], k, active)
    ensures Str(k) in Rendered(active)
  {
    var a :| a in active && k == PlaceholderOf(a.name) && RuntimeFor(table[k], a);
    var i :| 0 <= i < |active| && active[i] == a;
    assert Rendered(active)[i] == Str(k);
  }

  /** Colliding placeholders refuse every merge of a rendered array. */
  lemma CollisionRefusesMerge(policy: Policy, x509: seq<Tombstone>, live: seq<Value>, active: seq<ActiveIssuer>,
                              table: map<string, Value>)
    requires !DistinctPlaceholders(active)
    ensures Merge(policy, x509, live, Rendered(active), table).Err?
  {
    RenderedCollision(active, table);
  }

  /** Distinct issuer names can share a placeholder. */
  lemma PlaceholdersCollide()
    ensures PlaceholderOf("-") == PlaceholderOf(".") && "-" != "."
  {
    assert Text.EncodeUtf8("-") == [0x2D] + Text.EncodeUtf8([]) && Text.EncodeUtf8(".") == [0x2E] + Text.EncodeUtf8([]);
    assert [0x2D as Text.Byte][1..] == [] && [0x2E as Text.Byte][1..] == [];
    assert "-"[0] != "."[0];
  }

  function SampleIssuer(name: string): ActiveIssuer { ActiveIssuer(name, Obj(map[]), None, Some(SampleKey())) }

  /** Two issuers of one placeholder get one replacement between them. */
  lemma SharedReplacement(first: string, second: string)
    requires PlaceholderOf(first) == PlaceholderOf(second)
    ensures var r := Replacements([SampleIssuer(first), SampleIssuer(second)], map[]);
            r.Ok? && r.value.Keys == {PlaceholderOf(second)}
  {
    var a, b := SampleIssuer(first), SampleIssuer(second);
    SampleKeyIsMaterial();
    assert RuntimeObject(a, map[]).Ok? && RuntimeObject(b, map[]).Ok?;
    assert [a, b][..1] == [a] && [a][..0] == [];
    assert Replacements([], map[]) == Ok(map[]);
    assert Replacements([a], map[]).Ok? && Replacements([a], map[]).value.Keys == {PlaceholderOf(first)};
  }

  /** The issuers "-" and "." get one replacement between them, and the merge of their rendered array is refused. */
  lemma CollidingIssuersAreRefused(policy: Policy, x509: seq<Tombstone>)
    ensures var active := [SampleIssuer("-"), SampleIssuer(".")];
            && DistinctIssuers(active) && Replacements(active, map[]).Ok?
            && Replacements(active, map[]).value.Keys == {PlaceholderOf(".")}
            && Rendered(active) == [Str(PlaceholderOf("-")), Str(PlaceholderOf("."))]
            && Merge(policy, x509, [], Rendered(active), Replacements(active, map[]).value) == Err(MissingIssuer)
  {
    var active := [SampleIssuer("-"), SampleIssuer(".")];
    PlaceholdersCollide();
    SharedReplacement("-", ".");
    assert PlaceholderOf(active[0].name) == PlaceholderOf(active[1].name);
    RenderedCollision(active, Replacements(active, map[]).value);
  }

  // ---- The loops ----

  function Then(items: seq<Value>,
                rest: Option<(seq<Value>, map<string, Value>)>): Option<(seq<Value>, map<string, Value>)> {
    match rest case None => None case Some((more, left)) => Some((items + more, left))
  }

  lemma ThenTwice(items: seq<Value>, next: Value, rest: Option<(seq<Value>, map<string, Value>)>)
    ensures Then(items, Then([next], rest)) == Then(items + [next], rest)
  {
    if rest.Some? { assert items + ([next] + rest.value.0) == items + [next] + rest.value.0; }
  }

  /** The placeholder loop, in place over the staged array. */
  method SubstituteEach(staged: seq<Value>, replacements: map<string, Value>)
    returns (r: Option<(seq<Value>, map<string, Value>)>)
    ensures r == Substitute(staged, replacements)
  {
    var items, left := staged, replacements;
    if Substitute(staged, replacements).Some? {
      assert [] + Substitute(staged, replacements).value.0 == Substitute(staged, replacements).value.0;
    }
    assert staged[0..] == staged;
    for i := 0 to |staged|
      invariant |items| == |staged| && items[i..] == staged[i..]
      invariant Substitute(staged, replacements) == Then(items[..i], Substitute(staged[i..], left))
    {
      var item := items[i];
      assert item == items[i..][0] == staged[i..][0] && staged[i..][1..] == staged[i + 1..];
      var next := item;
      if IsPlaceholder(item) {
        if item.s !in left { return None; }
        next := left[item.s];
        left := left - {item.s};
      }
      ThenTwice(items[..i], next, Substitute(staged[i + 1..], left));
      assert items[i := next][..i + 1] == items[..i] + [next] && items[i := next][i + 1..] == items[i..][1..];
      items := items[i := next];
    }
    assert items[..|staged|] + [] == items;
    r := Some((items, left));
  }
}
