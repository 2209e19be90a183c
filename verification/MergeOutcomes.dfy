/**
 What a first materialization puts into `ca.json`, provisioner by provisioner, and exactly when it
 succeeds (`merge_materialized` in src/runtime_provisioners.rs).
 */
module MergeOutcomes {
  import opened Wrappers
  import opened Json
  import opened Names
  import opened Issuers
  import opened Ledger
  import opened Reconciliation
  import opened Materialize
  import opened Admission
  import Contents
  import Rows
  import Templates
  import Text

  // ---- Placeholder names ----

  /** Letters raised, digits kept, every other byte an underscore. */
  predicate Raised(b: int, c: char) {
    if 'a' as int <= b <= 'z' as int then c as int == b - ('a' as int - 'A' as int)
    else if 'A' as int <= b <= 'Z' as int || '0' as int <= b <= '9' as int then c as int == b
    else c == '_'
  }

  lemma {:induction false} SecretNameExact(bytes: seq<Text.Byte>)
    ensures |SecretName(bytes)| == |bytes|
    ensures forall i :: 0 <= i < |bytes| ==> Raised(bytes[i] as int, SecretName(bytes)[i])
  {
    if bytes != [] { SecretNameExact(bytes[1..]); }
  }

  lemma PlaceholderSpelled(name: string) returns (middle: string)
    ensures PlaceholderOf(name) == "RUNTIME_SECRET_PLACEHOLDER:" + "GRAFHOME_CA_PROVISIONER_" + middle + "_JSON"
    ensures |middle| == |Text.EncodeUtf8(name)|
    ensures forall i :: 0 <= i < |middle| ==> Raised(Text.EncodeUtf8(name)[i] as int, middle[i])
  {
    middle := SecretName(Text.EncodeUtf8(name));
    SecretNameExact(Text.EncodeUtf8(name));
  }

  /** A string that stands for a runtime provisioner. */
  predicate StandsIn(v: Value) { v.Str? && "RUNTIME_SECRET_PLACEHOLDER:" <= v.s }

  // ---- A carried provisioner ----

  /** What is to be carried: user and host renewal provisioners, and X.509 ones that no tombstone revokes. */
  predicate Survives(x509: seq<Tombstone>, name: string, item: Value) {
    if ParseX509(name).Some? then !Revoked(x509, item) else ParseUser(name).Some? || ParseHost(name).Some?
  }

  /** Nothing but owned claims and the encrypted signing key, which is gone, differs. */
  ghost predicate RestCarried(item: Value, x: Value) {
    && Field(x, "encryptedKey") == None
    && (forall f :: f != "claims" && f != "encryptedKey" ==> Field(x, f) == Field(item, f))
    && (forall c :: !Contents.OwnedClaim(c) ==> ClaimOf(x, c) == ClaimOf(item, c))
  }

  /** A carried provisioner: rebuilt from policy, or held to the renewal durations of its role. */
  ghost predicate Holds(policy: Policy, item: Value, x: Value, name: string) {
    && policy.user.Some? && policy.host.Some? && NameOf(x) == Some(name)
    && if ParseX509(name).Some? then
         KeyOf(item).Some? && PinOf(item).Some?
         && exists cert ::
              cert in policy.certs && cert.active && Some((cert.host, cert.name)) == ParseX509(name)
              && Contents.CertificateProvisioner(x, policy, cert, KeyOf(item).value, PinOf(item).value)
       else if ParseUser(name).Some? then Contents.UserClaims(x, policy.user.value.renewal) && RestCarried(item, x)
       else Contents.HostClaims(x, policy.host.value.renewal) && RestCarried(item, x)
  }

  lemma SurvivesExactly(x509: seq<Tombstone>, name: string, item: Value)
    requires NameOf(item) == Some(name) && KindOf(item) == Some(JWK)
    requires ParseX509(name).Some? ==> HoldsTombstone(x509, FaceOf(item)).Ok?
    ensures ToCarry(x509, name, item) <==> Survives(x509, name, item)
  {
    if ParseX509(name).Some? { TombstoneSays(x509, item); }
  }

  lemma SshCarries(policy: Policy, user: Enroller, host: Enroller, name: string, item: Value)
    requires policy.user == Some(user) && policy.host == Some(host) && ParseX509(name).None?
    requires KindOf(item) == Some(JWK) && NameOf(item) == Some(name)
    requires CarryOne(policy, [], user, host, name, item).Ok?
    requires CarryOne(policy, [], user, host, name, item).value.Some?
    ensures Holds(policy, item, CarryOne(policy, [], user, host, name, item).value.value, name)
  {
    var role := if ParseUser(name).Some? then UserRole else HostRole;
    var durations := (if role == UserRole then user else host).renewal;
    var bare := WithoutField(item, ENCRYPTED_KEY);
    var x := CarryOne(policy, [], user, host, name, item).value.value;
    EncryptedKeyIsOther();
    WithoutFieldKeeps(item, ENCRYPTED_KEY);
    Contents.MergedClaims(bare, role, durations);
    SshClaimsNotEmpty(role, durations);
    MergeClaimsExact(bare, SshClaims(role, durations));
    forall f | f != "claims" && f != "encryptedKey" ensures Field(x, f) == Field(item, f) {
      assert Field(x, f) == Field(bare, f);
    }
  }

  lemma OneHolds(policy: Policy, x509: seq<Tombstone>, user: Enroller, host: Enroller, name: string, item: Value)
    requires policy.user == Some(user) && policy.host == Some(host)
    requires KindOf(item) == Some(JWK) && NameOf(item) == Some(name)
    requires CarryOne(policy, x509, user, host, name, item).Ok?
    ensures CarryOne(policy, x509, user, host, name, item).value.Some? <==> Survives(x509, name, item)
    ensures CarryOne(policy, x509, user, host, name, item).value.Some? ==>
              Holds(policy, item, CarryOne(policy, x509, user, host, name, item).value.value, name)
  {
    CarryOneExact(policy, x509, user, host, name, item);
    SurvivesExactly(x509, name, item);
    if CarryOne(policy, x509, user, host, name, item).value.Some? {
      if ParseX509(name).Some? {
        Contents.CertificateItemApplied(policy, item);
      } else {
        SshCarries(policy, user, host, name, item);
      }
    }
  }

  // ---- The carried provisioners ----

  /** The carried provisioners stand for the kept names, in their order, each as it should be. */
  predicate InOrderBy(names: seq<string>, carried: seq<Value>, at: seq<nat>, keep: string -> bool,
                      good: (string, Value) -> bool) {
    && |at| == |carried| && (forall j, k :: 0 <= j < k < |at| ==> at[j] < at[k])
    && (forall j :: 0 <= j < |at| ==> at[j] < |names| && good(names[at[j]], carried[j]))
    && (forall i :: 0 <= i < |names| ==> (i in at <==> keep(names[i])))
  }

  function Shifted(at: seq<nat>): (r: seq<nat>)
    ensures |r| == |at| && forall j :: 0 <= j < |at| ==> r[j] == at[j] + 1
  {
    seq(|at|, j requires 0 <= j < |at| => at[j] + 1)
  }

  lemma ShiftedIn(at: seq<nat>, i: nat)
    ensures 0 !in Shifted(at) && (i in at <==> i + 1 in Shifted(at))
  {
    if i in at {
      var j :| 0 <= j < |at| && at[j] == i;
      assert Shifted(at)[j] == i + 1;
    }
  }

  lemma Later(names: seq<string>, carried: seq<Value>, at: seq<nat>, keep: string -> bool,
              good: (string, Value) -> bool)
    requires names != [] && InOrderBy(names[1..], carried, at, keep, good) && !keep(names[0])
    ensures InOrderBy(names, carried, Shifted(at), keep, good)
  {
    forall i | 0 <= i < |names| ensures i in Shifted(at) <==> keep(names[i]) {
      if i == 0 { ShiftedIn(at, 0); } else { ShiftedIn(at, i - 1); }
    }
  }

  lemma First(names: seq<string>, next: Value, carried: seq<Value>, at: seq<nat>, keep: string -> bool,
              good: (string, Value) -> bool)
    requires names != [] && InOrderBy(names[1..], carried, at, keep, good) && keep(names[0]) && good(names[0], next)
    ensures InOrderBy(names, [next] + carried, [0] + Shifted(at), keep, good)
  {
    FirstPlaces(at);
    var places, all := [0] + Shifted(at), [next] + carried;
    forall i | 0 <= i < |names| ensures i in places <==> keep(names[i]) {
      if i > 0 { assert i - 1 in at <==> i in places; }
    }
    forall j | 0 <= j < |places| ensures places[j] < |names| && good(names[places[j]], all[j]) {
      if j > 0 { assert names[places[j]] == names[1..][at[j - 1]]; }
    }
  }

  lemma FirstPlaces(at: seq<nat>)
    requires forall j, k :: 0 <= j < k < |at| ==> at[j] < at[k]
    ensures var places := [0] + Shifted(at);
            && |places| == |at| + 1 && places[0] == 0 && 0 in places
            && (forall j :: 0 < j < |places| ==> places[j] == at[j - 1] + 1)
            && (forall j, k :: 0 <= j < k < |places| ==> places[j] < places[k])
            && forall i: nat :: i > 0 ==> (i in places <==> i - 1 in at)
  {
    var places := [0] + Shifted(at);
    forall i: nat | i > 0 ensures i in places <==> i - 1 in at { ShiftedIn(at, i - 1); }
  }

  lemma {:induction false} EachHolds(policy: Policy, x509: seq<Tombstone>, user: Enroller, host: Enroller,
                                     names: seq<string>, live: map<string, Value>, taken: set<string>,
                                     keep: string -> bool, good: (string, Value) -> bool) returns (at: seq<nat>)
    requires policy.user == Some(user) && policy.host == Some(host)
    requires (forall n :: n in names ==> n in live) && OneLiveItem(live)
    requires forall n :: n in live ==> (keep(n) <==> Survives(x509, n, live[n]))
    requires forall n, x :: n in live && Holds(policy, live[n], x, n) ==> good(n, x)
    requires Carry(policy, x509, user, host, names, live, taken).Ok?
    ensures InOrderBy(names, Carry(policy, x509, user, host, names, live, taken).value, at, keep, good)
    decreases |names|
  {
    at := [];
    if names != [] {
      var n, rest := names[0], names[1..];
      assert n in names && forall m :: m in rest ==> m in names;
      OneHolds(policy, x509, user, host, n, live[n]);
      match CarryOne(policy, x509, user, host, n, live[n]).value {
        case None =>
          at := EachHolds(policy, x509, user, host, rest, live, taken, keep, good);
          Later(names, Carry(policy, x509, user, host, rest, live, taken).value, at, keep, good);
          at := Shifted(at);
        case Some(next) =>
          at := EachHolds(policy, x509, user, host, rest, live, taken + {n}, keep, good);
          First(names, next, Carry(policy, x509, user, host, rest, live, taken + {n}).value, at, keep, good);
          at := [0] + Shifted(at);
      }
    }
  }

  /** The staged array with every placeholder replaced, and nothing else. */
  predicate Replaced(staged: seq<Value>, next: seq<Value>, replacements: map<string, Value>) {
    && |next| == |staged|
    && (forall i :: 0 <= i < |staged| ==>
          if StandsIn(staged[i]) then staged[i].s in replacements && next[i] == replacements[staged[i].s]
          else next[i] == staged[i])
    && (forall k :: k in replacements ==> exists i :: 0 <= i < |staged| && StandsIn(staged[i]) && staged[i].s == k)
    && (forall i, j :: 0 <= i < j < |staged| && StandsIn(staged[i]) && StandsIn(staged[j]) ==>
          staged[i].s != staged[j].s)
  }

  /** The live JWK provisioners by their names, which are distinct. */
  predicate Table(live: seq<Value>, jwks: map<string, Value>) {
    && (forall name :: name in jwks ==>
          jwks[name] in live && KindOf(jwks[name]) == Some("JWK") && NameOf(jwks[name]) == Some(name))
    && (forall x :: x in live && KindOf(x) == Some("JWK") ==>
          NameOf(x).Some? && NameOf(x).value in jwks && jwks[NameOf(x).value] == x)
  }

  lemma ReplacedExactly(staged: seq<Value>, replacements: map<string, Value>)
    requires Substitute(staged, replacements).Some? && Substitute(staged, replacements).value.1 == map[]
    ensures Replaced(staged, Substitute(staged, replacements).value.0, replacements)
  {
    SubstituteExact(staged, replacements);
    assert forall v :: StandsIn(v) <==> IsPlaceholder(v);
    forall k | k in replacements ensures exists i :: 0 <= i < |staged| && StandsIn(staged[i]) && staged[i].s == k {
      var i :| 0 <= i < |staged| && staged[i] == Str(k) && IsPlaceholder(staged[i]);
      assert StandsIn(staged[i]);
    }
  }

  /**
   A merge gives the staged array with its placeholders replaced, then the surviving live provisioners in
   the order of their names, each with what policy gives it.
   */
  lemma MergedContents(policy: Policy, x509: seq<Tombstone>, live: seq<Value>, staged: seq<Value>,
                       replacements: map<string, Value>)
    returns (jwks: map<string, Value>, names: seq<string>, at: seq<nat>)
    requires Merge(policy, x509, live, staged, replacements).Ok?
    ensures var merged := Merge(policy, x509, live, staged, replacements).value;
            && |staged| <= |merged| && Replaced(staged, merged[..|staged|], replacements)
            && Table(live, jwks) && (forall n :: n in names <==> n in jwks)
            && Rows.InOrder(names) && Rows.Distinct(names)
            && CarriedInOrder(policy, x509, names, jwks, merged[|staged|..], at)
  {
    LiveJwksExact(live);
    ReplacedExactly(staged, replacements);
    jwks := LiveJwks(live).value;
    names := Rows.SortedKeys(jwks.Keys);
    Rows.KeysInOrder(jwks.Keys);
    var next := Substitute(staged, replacements).value.0;
    var table := jwks;
    var keep := (n: string) => n in table && Survives(x509, n, table[n]);
    var good := (n: string, x: Value) => n in table && Holds(policy, table[n], x, n);
    at := EachHolds(policy, x509, policy.user.value, policy.host.value, names, jwks, NamesIn(next), keep, good);
    var merged := Merge(policy, x509, live, staged, replacements).value;
    assert merged[..|staged|] == next;
    assert merged[|staged|..] == merged[|next|..];
    CarriedByHolding(policy, x509, names, jwks, merged[|staged|..], at, keep, good);
  }

  ghost predicate CarriedInOrder(policy: Policy, x509: seq<Tombstone>, names: seq<string>, live: map<string, Value>,
                                 carried: seq<Value>, at: seq<nat>)
    requires forall n :: n in names ==> n in live
  {
    && |at| == |carried| && (forall j, k :: 0 <= j < k < |at| ==> at[j] < at[k])
    && (forall j :: 0 <= j < |at| ==>
          at[j] < |names| && Holds(policy, live[names[at[j]]], carried[j], names[at[j]]))
    && (forall i :: 0 <= i < |names| ==> (i in at <==> Survives(x509, names[i], live[names[i]])))
  }

  lemma CarriedByHolding(policy: Policy, x509: seq<Tombstone>, names: seq<string>, live: map<string, Value>,
                         carried: seq<Value>, at: seq<nat>, keep: string -> bool, good: (string, Value) -> bool)
    requires forall n :: n in names ==> n in live
    requires forall n :: n in live ==> (keep(n) <==> Survives(x509, n, live[n]))
    requires forall n, x :: n in live && good(n, x) ==> Holds(policy, live[n], x, n)
    requires InOrderBy(names, carried, at, keep, good)
    ensures CarriedInOrder(policy, x509, names, live, carried, at)
  {}

  // ---- When a merge succeeds ----

  /** Every live JWK provisioner is named, and no two alike. */
  predicate NamedOnce(live: seq<Value>) {
    && (forall x :: x in live && KindOf(x) == Some("JWK") ==> NameOf(x).Some?)
    && (forall i, j :: 0 <= i < j < |live| && KindOf(live[i]) == Some("JWK") && KindOf(live[j]) == Some("JWK") ==>
          NameOf(live[i]) != NameOf(live[j]))
  }

  lemma {:induction false} LiveJwksExactly(items: seq<Value>)
    ensures LiveJwks(items).Some? <==> NamedOnce(items)
  {
    if items != [] {
      var init, x := items[..|items| - 1], items[|items| - 1];
      LiveJwksExactly(init);
      assert items == init + [x];
      NamedSnoc(init, x);
      if LiveJwks(init).Some? { LiveJwksExact(init); }
    }
  }

  lemma NamedSnoc(init: seq<Value>, x: Value)
    ensures NamedOnce(init + [x]) <==>
            && NamedOnce(init)
            && (KindOf(x) == Some("JWK") ==>
                  NameOf(x).Some? && forall y :: y in init && KindOf(y) == Some("JWK") ==> NameOf(y) != NameOf(x))
  {
    var items := init + [x];
    assert items[|init|] == x && forall i :: 0 <= i < |init| ==> items[i] == init[i];
    if NamedOnce(items) {
      forall y | y in init && KindOf(y) == Some("JWK")
        ensures NameOf(y).Some? && (KindOf(x) == Some("JWK") ==> NameOf(y) != NameOf(x))
      {
        var k :| 0 <= k < |init| && init[k] == y;
        assert items[k] == y && y in items;
      }
      assert x in items;
    }
  }

  /** Every placeholder of the staged array has a replacement, and no two are the same. */
  predicate Matched(staged: seq<Value>, replacements: map<string, Value>) {
    && (forall x :: x in staged && StandsIn(x) ==> x.s in replacements)
    && (forall i, j :: 0 <= i < j < |staged| && StandsIn(staged[i]) && StandsIn(staged[j]) ==>
          staged[i].s != staged[j].s)
  }

  predicate Stands(staged: seq<Value>, k: string) { exists x :: x in staged && StandsIn(x) && x.s == k }

  lemma {:induction false} SubstituteWorks(staged: seq<Value>, replacements: map<string, Value>)
    requires Matched(staged, replacements)
    ensures Substitute(staged, replacements).Some?
    ensures forall k :: k in Substitute(staged, replacements).value.1 <==> k in replacements && !Stands(staged, k)
    decreases |staged|
  {
    if staged != [] {
      var head, tail := staged[0], staged[1..];
      assert staged == [head] + tail && forall i :: 0 <= i < |tail| ==> tail[i] == staged[i + 1];
      assert StandsIn(head) <==> IsPlaceholder(head);
      var others := if StandsIn(head) then replacements - {head.s} else replacements;
      forall x | x in tail && StandsIn(x) ensures x.s in others {
        var i :| 0 <= i < |tail| && tail[i] == x;
        assert staged[i + 1] == x;
      }
      SubstituteWorks(tail, others);
      forall k ensures Stands(staged, k) <==> Stands(tail, k) || (StandsIn(head) && head.s == k) {}
    }
  }

  lemma SubstitutesExactly(staged: seq<Value>, replacements: map<string, Value>)
    ensures var r := Substitute(staged, replacements);
            (r.Some? <==> Matched(staged, replacements))
                && (r.Some? ==> (r.value.1 == map[] <==> forall k :: k in replacements ==> Stands(staged, k)))
  {
    if Matched(staged, replacements) {
      SubstituteWorks(staged, replacements);
      var left := Substitute(staged, replacements).value.1;
      SubstituteExact(staged, replacements);
      if forall k :: k in replacements ==> Stands(staged, k) { assert left.Keys == {}; }
    }
    if Substitute(staged, replacements).Some? {
      SubstituteExact(staged, replacements);
      assert forall v :: StandsIn(v) <==> IsPlaceholder(v);
    }
  }

  /** What policy makes of a live JWK provisioner can be built. */
  predicate Carryable(policy: Policy, x509: seq<Tombstone>, name: string, item: Value) {
    if ParseX509(name).Some? then KeysReadable(item) && (Revoked(x509, item) || Rebuildable(policy, item))
    else
      var held := ParseUser(name).Some? || ParseHost(name).Some?;
      held ==> KeyOf(item).Some? && (Field(item, "claims").Some? ==> Field(item, "claims").value.Obj?)
  }

  lemma CarriesExactly(policy: Policy, x509: seq<Tombstone>, user: Enroller, host: Enroller, name: string, item: Value)
    requires KindOf(item) == Some(JWK) && NameOf(item) == Some(name)
    ensures CarryOne(policy, x509, user, host, name, item).Ok? <==> Carryable(policy, x509, name, item)
  {
    if ParseX509(name).Some? {
      CertificateCarriesExactly(policy, x509, user, host, name, item);
    } else {
      SshCarriesExactly(policy, x509, user, host, name, item);
    }
  }

  lemma CertificateCarriesExactly(policy: Policy, x509: seq<Tombstone>, user: Enroller, host: Enroller, name: string,
                                  item: Value)
    requires KindOf(item) == Some(JWK) && NameOf(item) == Some(name) && ParseX509(name).Some?
    ensures CarryOne(policy, x509, user, host, name, item).Ok? <==>
            KeysReadable(item) && (Revoked(x509, item) || Rebuildable(policy, item))
  {
    RebuildsExactly(policy, item);
    TombstoneSays(x509, item);
    CertificateCarriesInParts(policy, x509, user, host, name, item);
  }

  lemma TombstoneSays(x509: seq<Tombstone>, item: Value)
    requires IsX509(item)
    ensures HoldsTombstone(x509, FaceOf(item)).Ok? <==> KeysReadable(item)
    ensures HoldsTombstone(x509, FaceOf(item)) == Ok(true) <==> KeysReadable(item) && Revoked(x509, item)
  {
    RetirementSays(x509, item);
    assert "ACME"[0] == 'A' && JWK[0] == 'J';
  }

  lemma CertificateCarriesInParts(policy: Policy, x509: seq<Tombstone>, user: Enroller, host: Enroller, name: string,
                                  item: Value)
    requires ParseX509(name).Some?
    ensures CarryOne(policy, x509, user, host, name, item).Ok? <==>
            && HoldsTombstone(x509, FaceOf(item)).Ok?
            && (HoldsTombstone(x509, FaceOf(item)) == Ok(true) || Rebuild(policy, item).Ok?)
  {}

  lemma SshCarriesExactly(policy: Policy, x509: seq<Tombstone>, user: Enroller, host: Enroller, name: string,
                          item: Value)
    requires NameOf(item) == Some(name) && ParseX509(name).None?
    ensures CarryOne(policy, x509, user, host, name, item).Ok? <==> Carryable(policy, x509, name, item)
  {
    MergesClaimsExactly(item);
  }

  lemma MergesClaimsExactly(item: Value)
    requires item.Obj?
    ensures forall claims: map<string, Value> ::
              MergeClaims(WithoutField(item, ENCRYPTED_KEY), claims).Ok? <==>
              (Field(item, "claims").Some? ==> Field(item, "claims").value.Obj?)
  {
    EncryptedKeyIsOther();
    WithoutFieldKeeps(item, ENCRYPTED_KEY);
  }

  /** One provisioner can be carried, under a name that is not taken if it is. */
  predicate CanCarry(policy: Policy, x509: seq<Tombstone>, name: string, item: Value, taken: set<string>) {
    Carryable(policy, x509, name, item) && (Survives(x509, name, item) ==> name !in taken)
  }

  lemma {:induction false} CarryExactly(policy: Policy, x509: seq<Tombstone>, user: Enroller, host: Enroller,
                                        names: seq<string>, live: map<string, Value>, taken: set<string>)
    requires policy.user == Some(user) && policy.host == Some(host)
    requires (forall n :: n in names ==> n in live) && OneLiveItem(live) && Rows.Distinct(names)
    ensures Carry(policy, x509, user, host, names, live, taken).Ok? <==>
            forall n :: n in names ==> CanCarry(policy, x509, n, live[n], taken)
    decreases |names|
  {
    if names != [] {
      var n, rest := names[0], names[1..];
      assert names == [n] + rest && forall m :: m in rest ==> m in names;
      assert Rows.Distinct(rest) && n !in rest by {
        assert forall i :: 0 <= i < |rest| ==> rest[i] == names[i + 1] && names[0] != names[i + 1];
      }
      FirstCarries(policy, x509, user, host, n, live[n]);
      CarryExactly(policy, x509, user, host, rest, live, taken);
      CarryExactly(policy, x509, user, host, rest, live, taken + {n});
    }
  }

  lemma FirstCarries(policy: Policy, x509: seq<Tombstone>, user: Enroller, host: Enroller, name: string, item: Value)
    requires policy.user == Some(user) && policy.host == Some(host)
    requires KindOf(item) == Some(JWK) && NameOf(item) == Some(name)
    ensures var carried := CarryOne(policy, x509, user, host, name, item);
            && (carried.Ok? <==> Carryable(policy, x509, name, item))
            && (carried.Ok? ==> (carried.value.Some? <==> Survives(x509, name, item)))
  {
    CarriesExactly(policy, x509, user, host, name, item);
    if CarryOne(policy, x509, user, host, name, item).Ok? { OneHolds(policy, x509, user, host, name, item); }
  }

  /** Nothing that will stand in the staged array bears the name. */
  predicate Free(staged: seq<Value>, replacements: map<string, Value>, name: string) {
    && (forall x :: x in staged && !StandsIn(x) ==> NameOf(x) != Some(name))
    && (forall k :: k in replacements ==> NameOf(replacements[k]) != Some(name))
  }

  lemma FreeExactly(staged: seq<Value>, replacements: map<string, Value>, next: seq<Value>, name: string)
    requires Replaced(staged, next, replacements)
    ensures Free(staged, replacements, name) <==> name !in NamesIn(next)
  {
    if name in NamesIn(next) {
      var y :| y in next && NameOf(y) == Some(name);
      var i :| 0 <= i < |next| && next[i] == y;
      assert staged[i] in staged;
    } else {
      forall x | x in staged && !StandsIn(x) ensures NameOf(x) != Some(name) {
        var i :| 0 <= i < |staged| && staged[i] == x;
        assert next[i] in next;
      }
      forall k | k in replacements ensures NameOf(replacements[k]) != Some(name) {
        var i :| 0 <= i < |staged| && StandsIn(staged[i]) && staged[i].s == k;
        assert next[i] in next;
      }
    }
  }

  /** The provisioner can be carried, under a name that is free if it is. */
  predicate Fits(policy: Policy, x509: seq<Tombstone>, staged: seq<Value>, replacements: map<string, Value>,
                 name: string, item: Value) {
    Carryable(policy, x509, name, item) && (Survives(x509, name, item) ==> Free(staged, replacements, name))
  }

  lemma CarriesAll(policy: Policy, x509: seq<Tombstone>, user: Enroller, host: Enroller, table: map<string, Value>,
                   staged: seq<Value>, replacements: map<string, Value>, next: seq<Value>)
    requires policy.user == Some(user) && policy.host == Some(host) && OneLiveItem(table)
    requires Replaced(staged, next, replacements)
    ensures Carry(policy, x509, user, host, Rows.SortedKeys(table.Keys), table, NamesIn(next)).Ok? <==>
            forall n :: n in table ==> Fits(policy, x509, staged, replacements, n, table[n])
  {
    CarryExactly(policy, x509, user, host, Rows.SortedKeys(table.Keys), table, NamesIn(next));
    forall n | n in table ensures Free(staged, replacements, n) <==> n !in NamesIn(next) {
      FreeExactly(staged, replacements, next, n);
    }
  }

  lemma MergesInParts(policy: Policy, x509: seq<Tombstone>, live: seq<Value>, staged: seq<Value>,
                      replacements: map<string, Value>)
    ensures var jwks, substituted := LiveJwks(live), Substitute(staged, replacements);
            Merge(policy, x509, live, staged, replacements).Ok? <==>
            && jwks.Some? && substituted.Some? && substituted.value.1 == map[]
            && policy.user.Some? && policy.host.Some?
            && Carry(policy, x509, policy.user.value, policy.host.value, Rows.SortedKeys(jwks.value.Keys), jwks.value,
                     NamesIn(substituted.value.0)).Ok?
  {}

  /** What holds of each entry of the table holds of each live JWK provisioner under its name. */
  lemma OfTable(live: seq<Value>, jwks: map<string, Value>, good: (string, Value) -> bool)
    requires Table(live, jwks)
    ensures (forall n :: n in jwks ==> good(n, jwks[n])) <==>
            forall x :: x in live && KindOf(x) == Some("JWK") && NameOf(x).Some? ==> good(NameOf(x).value, x)
  {}

  /**
   A merge succeeds exactly when the live JWK provisioners are named apart, the staged placeholders and the
   replacements match one to one, both policy issuers are active, and each live renewal provisioner can be
   carried under a name that is free.
   */
  lemma MergesExactly(policy: Policy, x509: seq<Tombstone>, live: seq<Value>, staged: seq<Value>,
                      replacements: map<string, Value>)
    ensures Merge(policy, x509, live, staged, replacements).Ok? <==>
            && NamedOnce(live) && Matched(staged, replacements)
            && (forall k :: k in replacements ==> Stands(staged, k)) && policy.user.Some? && policy.host.Some?
            && forall x :: x in live && KindOf(x) == Some("JWK") && NameOf(x).Some? ==>
                 Fits(policy, x509, staged, replacements, NameOf(x).value, x)
  {
    MergesInParts(policy, x509, live, staged, replacements);
    LiveJwksExactly(live);
    SubstitutesExactly(staged, replacements);
    var jwks, substituted := LiveJwks(live), Substitute(staged, replacements);
    if jwks.Some? && substituted.Some? && substituted.value.1 == map[] && policy.user.Some? && policy.host.Some? {
      LiveJwksExact(live);
      ReplacedExactly(staged, replacements);
      CarriesAll(policy, x509, policy.user.value, policy.host.value, jwks.value, staged, replacements,
                 substituted.value.0);
      OfTable(live, jwks.value, (n, x) => Fits(policy, x509, staged, replacements, n, x));
    }
  }

  // ---- Replacements ----

  /** A replacement can be built exactly when the local key is readable and a live one is the same. */
  lemma ReplacementExactly(a: ActiveIssuer, live: map<string, Value>)
    ensures RuntimeObject(a, live).Ok? <==>
            && a.public.Some? && JwkMaterial(a.public.value).Some?
            && (a.name in live ==> FaceOf(live[a.name]).Material() == JwkMaterial(a.public.value))
  {}

  /** The fields of a replacement, and what it keeps of a live provisioner. */
  lemma ReplacementContents(a: ActiveIssuer, live: map<string, Value>)
    requires RuntimeObject(a, live).Ok?
    ensures var v := RuntimeObject(a, live).value;
            && NameOf(v) == Some(a.name) && KindOf(v) == Some("JWK") && Field(v, "claims") == Some(a.claims)
            && Field(v, "encryptedKey") == None && a.public.Some?
            && (a.options.Some? ==> Field(v, "options") == a.options)
            && (if a.name in live
                then KeyOf(v) == KeyOf(live[a.name]) && FaceOf(v).Material() == JwkMaterial(a.public.value)
                else KeyOf(v) == a.public)
            && (a.name !in live && a.options.None? ==> Field(v, "options") == None)
            && (a.name in live ==>
                  forall f ::
                    f != "type" && f != "name" && f != "claims" && f != "encryptedKey"
                    && (f != "options" || a.options.None?) ==>
                      Field(v, f) == Field(live[a.name], f))
  {
    FieldNamesDiffer();
    EncryptedKeyIsOther();
    RuntimeObjectExact(a, live);
  }

  /** A table of replacements is built exactly when each of them can be. */
  lemma {:induction false} ReplacementsExactly(active: seq<ActiveIssuer>, live: map<string, Value>)
    ensures Replacements(active, live).Ok? <==> forall a :: a in active ==> RuntimeObject(a, live).Ok?
  {
    if active != [] {
      ReplacementsExactly(active[..|active| - 1], live);
      assert active == active[..|active| - 1] + [active[|active| - 1]];
    }
  }
}
