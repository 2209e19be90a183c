/**
 Renewal provisioner names (src/enrollment.rs and the name codec of src/x509.rs),
 and the raw string tests that select provisioners for revocation.
 */
module Names {
  import opened Wrappers
  import opened Text

  const USER_PREFIX := "grafhome-user-"
  const HOST_PREFIX := "grafhome-host-"
  const X509_PREFIX := "grafhome-x509-"

  /** The logical identity one renewal provisioner is bound to. */
  datatype Identity =
    | Host(host: string)
    | User(user: string, host: string)
    | X509(host: string, name: string)
  {
    /** The X.509 parser refuses empty parts; the SSH parsers do not. */
    predicate Nameable() { X509? ==> host != "" && name != "" }
  }

  // ---- Hex identity codec ----

  function HexDigit(n: int): char
    requires 0 <= n < 16
  {
    if n < 10 then ('0' as int + n) as char else ('a' as int + n - 10) as char
  }

  function DigitValue(c: char): Option<int> {
    if '0' <= c <= '9' then Some(c as int - '0' as int)
    else if 'a' <= c <= 'f' then Some(c as int - 'a' as int + 10)
    else if 'A' <= c <= 'F' then Some(c as int - 'A' as int + 10)
    else None
  }

  function EncodeBytes(bytes: seq<Byte>): string {
    if bytes == [] then ""
    else [HexDigit(bytes[0] / 16), HexDigit(bytes[0] % 16)] + EncodeBytes(bytes[1..])
  }

  /** Radix-16 parsing of one pair; the library routine also accepts a leading plus sign. */
  function PairValue(high: char, low: char): (r: Option<Byte>)
  {
    match (DigitValue(high), DigitValue(low))
    case (Some(h), Some(l)) => Some(16 * h + l)
    case (None, Some(l)) => if high == '+' then Some(l) else None
    case (_, None) => None
  }

  function DecodeBytes(s: string): Option<seq<Byte>> {
    if s == "" then Some([])
    else if |s| == 1 then None
    else
      match (PairValue(s[0], s[1]), DecodeBytes(s[2..]))
      case (Some(b), Some(rest)) => Some([b] + rest)
      case _ => None
  }

  function EncodeIdentity(value: string): string { EncodeBytes(EncodeUtf8(value)) }

  function DecodeIdentity(value: string): Option<string> {
    match DecodeBytes(value)
    case None => None
    case Some(bytes) => DecodeUtf8(bytes)
  }

  lemma HexPair(b: Byte)
    ensures PairValue(HexDigit(b / 16), HexDigit(b % 16)) == Some(b)
    ensures HexDigit(b / 16) != '-' && HexDigit(b % 16) != '-'
  {
    assert 16 * (b / 16) + b % 16 == b;
  }

  lemma {:induction false} DecodeEncodedBytes(bytes: seq<Byte>)
    ensures DecodeBytes(EncodeBytes(bytes)) == Some(bytes)
    ensures '-' !in EncodeBytes(bytes)
    ensures bytes != [] ==> EncodeBytes(bytes) != ""
  {
    if bytes != [] {
      DecodeEncodedBytes(bytes[1..]);
      HexPair(bytes[0]);
      assert EncodeBytes(bytes)[2..] == EncodeBytes(bytes[1..]);
      assert [bytes[0]] + bytes[1..] == bytes;
    }
  }

  /** Decoding inverts encoding, encoded identities hold no separator, and encoding is injective. */
  lemma IdentityRoundTrip(value: string)
    ensures DecodeIdentity(EncodeIdentity(value)) == Some(value)
    ensures '-' !in EncodeIdentity(value)
    ensures forall other :: EncodeIdentity(other) == EncodeIdentity(value) ==> other == value
  {
    forall v: string ensures DecodeIdentity(EncodeIdentity(v)) == Some(v) {
      DecodeEncodedBytes(EncodeUtf8(v));
      Utf8RoundTrip(v);
    }
    DecodeEncodedBytes(EncodeUtf8(value));
  }

  // ---- Name builders and parsers ----

  function UserPrefix(user: string): string { USER_PREFIX + EncodeIdentity(user) + "-" }

  function UserHostSuffix(host: string): string { "-" + EncodeIdentity(host) }

  function ProvisionerName(id: Identity): string {
    match id
    case Host(host) => HOST_PREFIX + EncodeIdentity(host)
    case User(user, host) => UserPrefix(user) + EncodeIdentity(host)
    case X509(host, name) => X509_PREFIX + EncodeIdentity(host) + "-" + EncodeIdentity(name)
  }

  function ParseHost(name: string): Option<string> {
    match StripPrefix(name, HOST_PREFIX)
    case None => None
    case Some(encoded) => DecodeIdentity(encoded)
  }

  /** Decode `<hex>-<hex>` into its two identities. */
  function ParsePair(encoded: string): Option<(string, string)> {
    match SplitOnce(encoded, '-')
    case None => None
    case Some((left, right)) =>
      match (DecodeIdentity(left), DecodeIdentity(right))
      case (Some(first), Some(second)) => Some((first, second))
      case _ => None
  }

  function ParseUser(name: string): Option<(string, string)> {
    match StripPrefix(name, USER_PREFIX)
    case None => None
    case Some(encoded) => ParsePair(encoded)
  }

  /** Only the builder's exact spelling parses. */
  function ParseX509(name: string): Option<(string, string)> {
    match StripPrefix(name, X509_PREFIX)
    case None => None
    case Some(encoded) =>
      match ParsePair(encoded)
      case None => None
      case Some((host, certificate)) =>
        if host != "" && certificate != "" && ProvisionerName(X509(host, certificate)) == name
        then Some((host, certificate)) else None
  }

  lemma PairRoundTrip(first: string, second: string)
    ensures ParsePair(EncodeIdentity(first) + "-" + EncodeIdentity(second)) == Some((first, second))
  {
    IdentityRoundTrip(first);
    IdentityRoundTrip(second);
    SplitOnceFinds(EncodeIdentity(first), '-', EncodeIdentity(second));
  }

  /** The three families' prefixes exclude each other. */
  lemma FamiliesDisjoint(name: string)
    ensures StartsWith(name, USER_PREFIX) ==> !StartsWith(name, HOST_PREFIX) && !StartsWith(name, X509_PREFIX)
    ensures StartsWith(name, HOST_PREFIX) ==> !StartsWith(name, X509_PREFIX)
  {
    assert USER_PREFIX[9] == 'u' && HOST_PREFIX[9] == 'h' && X509_PREFIX[9] == 'x';
    assert StartsWith(name, USER_PREFIX) ==> name[9] == USER_PREFIX[9];
    assert StartsWith(name, HOST_PREFIX) ==> name[9] == HOST_PREFIX[9];
    assert StartsWith(name, X509_PREFIX) ==> name[9] == X509_PREFIX[9];
  }

  function Prefix(id: Identity): string {
    match id case Host(_) => HOST_PREFIX case User(_, _) => USER_PREFIX case X509(_, _) => X509_PREFIX
  }

  /** What follows the family prefix. */
  function Encoded(id: Identity): string {
    match id
    case Host(host) => EncodeIdentity(host)
    case User(user, host) => EncodeIdentity(user) + "-" + EncodeIdentity(host)
    case X509(host, name) => EncodeIdentity(host) + "-" + EncodeIdentity(name)
  }

  lemma BuiltName(id: Identity)
    ensures ProvisionerName(id) == Prefix(id) + Encoded(id)
    ensures StartsWith(ProvisionerName(id), Prefix(id))
    ensures StripPrefix(ProvisionerName(id), Prefix(id)) == Some(Encoded(id))
  {
    StripBuilt(Prefix(id), Encoded(id));
    match id
    case Host(_) =>
    case User(user, host) => Regroup(USER_PREFIX, EncodeIdentity(user), "-", EncodeIdentity(host));
    case X509(host, name) => Regroup(X509_PREFIX, EncodeIdentity(host), "-", EncodeIdentity(name));
  }

  /** Every built name parses back to its identity and parses as nothing else. */
  lemma ParseInvertsBuild(id: Identity)
    requires id.Nameable()
    ensures ParseHost(ProvisionerName(id)) == if id.Host? then Some(id.host) else None
    ensures ParseUser(ProvisionerName(id)) == if id.User? then Some((id.user, id.host)) else None
    ensures ParseX509(ProvisionerName(id)) == if id.X509? then Some((id.host, id.name)) else None
  {
    FamiliesDisjoint(ProvisionerName(id));
    BuiltName(id);
    match id
    case Host(host) => IdentityRoundTrip(host);
    case User(user, host) => PairRoundTrip(user, host);
    case X509(host, certificate) => PairRoundTrip(host, certificate);
  }

  /** Names are collision-free across and within the families. */
  lemma NamesInjective(a: Identity, b: Identity)
    requires a.Nameable() && b.Nameable()
    ensures ProvisionerName(a) == ProvisionerName(b) ==> a == b
  {
    ParseInvertsBuild(a);
    ParseInvertsBuild(b);
  }

  /** The X.509 parser accepts exactly the builder's image on non-empty names. */
  lemma ParseX509Exact(name: string, host: string, certificate: string)
    ensures ParseX509(name) == Some((host, certificate)) <==>
            host != "" && certificate != "" && name == ProvisionerName(X509(host, certificate))
  {
    if host != "" && certificate != "" {
      ParseInvertsBuild(X509(host, certificate));
    }
  }

  lemma {:induction false} OddLengthRefused(s: string)
    requires |s| % 2 == 1
    ensures DecodeBytes(s) == None
    decreases |s|
  {
    if |s| > 1 { OddLengthRefused(s[2..]); }
  }

  lemma OddPartRefused(left: string, right: string)
    requires '-' !in left && |right| % 2 == 1
    ensures ParseX509(X509_PREFIX + (left + "-" + right)) == None
  {
    StripBuilt(X509_PREFIX, left + "-" + right);
    SplitOnceFinds(left, '-', right);
    OddLengthRefused(right);
  }

  /** The retired ACME name never qualifies as an X.509 provisioner. */
  lemma AcmeNameRefused()
    ensures ParseX509(RETIRED_ACME_NAME) == None
  {
    AcmeSpelling();
    OddPartRefused("ca", "proxy");
  }

  const RETIRED_ACME_NAME := "grafhome-x509-ca-proxy"

  lemma AcmeSpelling()
    ensures RETIRED_ACME_NAME == X509_PREFIX + ("ca" + "-" + "proxy")
  {}

  lemma DecodeOneAscii(high: char, low: char, b: Byte)
    requires PairValue(high, low) == Some(b) && b < 0x80
    ensures DecodeIdentity([high, low]) == Some([b as char])
  {
    assert DecodeBytes([high, low][2..]) == Some([]);
    assert DecodeBytes([high, low]) == Some([b] + []) && [b] + [] == [b];
    assert DecodeUtf8([b][1..]) == Some([]);
    assert DecodeUtf8([b]) == Some([b as char] + []) && [b as char] + [] == [b as char];
  }

  /** The SSH parsers are not injective: other spellings of the same hex decode to the same host. */
  lemma HostNameAliases()
    ensures ParseHost("grafhome-host-6A") == ParseHost("grafhome-host-6a") == Some("j")
    ensures ParseHost("grafhome-host-+a") == ParseHost("grafhome-host-0a") == Some("\n")
  {
    StripBuilt(HOST_PREFIX, "6A");
    StripBuilt(HOST_PREFIX, "6a");
    StripBuilt(HOST_PREFIX, "+a");
    StripBuilt(HOST_PREFIX, "0a");
    DecodeOneAscii('6', 'A', 0x6A);
    DecodeOneAscii('6', 'a', 0x6A);
    DecodeOneAscii('+', 'a', 0x0A);
    DecodeOneAscii('0', 'a', 0x0A);
  }

  /** A user name in upper-case hex is not the built one and decodes to the same user. */
  lemma UserNameAliases()
    ensures ParseUser(RESPELLED_NAME) == ParseUser(ProvisionerName(User("j", "h"))) == Some(("j", "h"))
    ensures RESPELLED_NAME != ProvisionerName(User("j", "h"))
  {
    ParseInvertsBuild(User("j", "h"));
    RespelledParses();
    RespelledPrefix();
    assert StartsWith(ProvisionerName(User("j", "h")), UserPrefix("j"));
  }

  lemma RespelledParses()
    ensures ParseUser(RESPELLED_NAME) == Some(("j", "h"))
  {
    assert DecodeIdentity("6A") == Some("j") by { DecodeOneAscii('6', 'A', 0x6A); }
    assert DecodeIdentity("68") == Some("h") by { DecodeOneAscii('6', '8', 0x68); }
    UserNameOfTwo("6A", "68");
    RespelledSpelling();
  }

  lemma RespelledSpelling()
    ensures RESPELLED_NAME == USER_PREFIX + ("6A" + "-" + "68")
  {}

  const RESPELLED_NAME := "grafhome-user-6A-68"

  lemma UserNameOfTwo(left: string, right: string)
    requires '-' !in left && DecodeIdentity(left).Some? && DecodeIdentity(right).Some?
    ensures ParseUser(USER_PREFIX + (left + "-" + right)) == Some((DecodeIdentity(left).value,
            DecodeIdentity(right).value))
  {
    StripBuilt(USER_PREFIX, left + "-" + right);
    SplitOnceFinds(left, '-', right);
  }

  lemma EncodeOneAscii(c: char, b: Byte)
    requires c as int == b as int < 0x80
    ensures EncodeIdentity([c]) == [HexDigit(b / 16), HexDigit(b % 16)]
  {
    assert [c][1..] == [] && EncodeUtf8([c]) == [b] + EncodeUtf8([]);
    assert EncodeUtf8([c]) == [b] && [b][1..] == [];
    assert EncodeBytes([b]) == [HexDigit(b / 16), HexDigit(b % 16)] + EncodeBytes([]);
  }

  lemma RespelledPrefix()
    ensures !StartsWith(RESPELLED_NAME, UserPrefix("j"))
  {
    EncodeOneAscii('j', 0x6A);
    var prefix := UserPrefix("j");
    assert prefix[|USER_PREFIX| + 1] == EncodeIdentity("j")[1] == 'a';
    assert RESPELLED_NAME[15] == 'A' && |USER_PREFIX| == 14;
  }

  // ---- Revocation scopes ----

  datatype Scope =
    | OfUser(user: string, onHost: Option<string>)
    | OfHost(host: string)
    | OfX509(host: string, name: string)

  /** Which identities a scope selects in the registry. */
  predicate Covers(scope: Scope, id: Identity) {
    match scope
    case OfUser(user, onHost) => id.User? && id.user == user && (onHost == None || onHost == Some(id.host))
    case OfHost(host) => id.host == host
    case OfX509(host, name) => id == X509(host, name)
  }

  /** The live inventory: identities decoded from provisioner names. */
  function Inventoried(scope: Scope, name: string): Option<Identity> {
    match scope
    case OfUser(user, onHost) =>
      (match ParseUser(name)
       case Some((u, h)) => if u == user && (onHost == None || onHost == Some(h)) then Some(User(u, h)) else None
       case None => None)
    case OfHost(host) =>
      if name == ProvisionerName(Host(host)) then Some(Host(host))
      else if ParseUser(name).Some? && ParseUser(name).value.1 == host then Some(User(ParseUser(name).value.0, host))
      else if ParseX509(name).Some? && ParseX509(name).value.0 == host then Some(X509(host, ParseX509(name).value.1))
      else None
    case OfX509(host, certificate) =>
      if name == ProvisionerName(X509(host, certificate)) then Some(X509(host, certificate)) else None
  }

  /** The removal test applied to a provisioner's raw name and type. */
  predicate Removes(scope: Scope, name: Option<string>, kind: Option<string>) {
    match scope
    case OfUser(user, None) => name.Some? && StartsWith(name.value, UserPrefix(user))
    case OfUser(user, Some(host)) => name == Some(ProvisionerName(User(user, host)))
    case OfHost(host) =>
      || name == Some(ProvisionerName(Host(host)))
      || (name.Some? && (|| (StartsWith(name.value, USER_PREFIX) && EndsWith(name.value, UserHostSuffix(host)))
                         || (ParseX509(name.value).Some? && ParseX509(name.value).value.0 == host)))
      || kind == Some("SSHPOP")
    case OfX509(host, certificate) => name == Some(ProvisionerName(X509(host, certificate)))
  }

  /** The prefix and suffix tests on a two-part user name compare exactly one part. */
  lemma UserNameTests(left: string, right: string, user: string, host: string)
    requires '-' !in left && '-' !in right
    ensures StartsWith(USER_PREFIX + left + "-" + right, UserPrefix(user)) <==> left == EncodeIdentity(user)
    ensures EndsWith(USER_PREFIX + left + "-" + right, UserHostSuffix(host)) <==> right == EncodeIdentity(host)
  {
    var name := USER_PREFIX + left + "-" + right;
    IdentityRoundTrip(user);
    IdentityRoundTrip(host);
    PrefixBeforeSeparator(left, '-', right, EncodeIdentity(user));
    assert name[|USER_PREFIX|..] == left + ['-'] + right;
    assert UserPrefix(user)[|USER_PREFIX|..] == EncodeIdentity(user) + ['-'];
    assert StartsWith(name, UserPrefix(user)) <==>
           StartsWith(name[|USER_PREFIX|..], UserPrefix(user)[|USER_PREFIX|..]) by {
      assert name == USER_PREFIX + name[|USER_PREFIX|..];
      assert UserPrefix(user) == USER_PREFIX + UserPrefix(user)[|USER_PREFIX|..];
      assert forall k :: 0 <= k < |left| + 1 + |right| ==> name[|USER_PREFIX| + k] == name[|USER_PREFIX|..][k];
      assert forall k :: 0 <= k < |EncodeIdentity(user)| + 1 ==>
          UserPrefix(user)[|USER_PREFIX| + k] == UserPrefix(user)[|USER_PREFIX|..][k];
    }
    SuffixAfterSeparator(USER_PREFIX + left, '-', right, EncodeIdentity(host));
    assert name == USER_PREFIX + left + ['-'] + right;
    assert UserHostSuffix(host) == ['-'] + EncodeIdentity(host);
  }

  /**
   On the names approval builds, the raw tests agree with the decoded identity: both the
   inventory and the removal select exactly the scope's identities (plus legacy SSHPOP for a host).
   */
  lemma SelectionIsExact(scope: Scope, id: Identity, kind: Option<string>)
    requires id.Nameable()
    ensures Inventoried(scope, ProvisionerName(id)) == if Covers(scope, id) then Some(id) else None
    ensures Removes(scope, Some(ProvisionerName(id)), kind) <==>
            Covers(scope, id) || (scope.OfHost? && kind == Some("SSHPOP"))
  {
    ParseInvertsBuild(id);
    FamiliesDisjoint(ProvisionerName(id));
    if id.User? { BuiltUserTests(id.user, id.host, scope); }
    match scope
    case OfUser(user, None) => PrefixesNest(user);
    case OfUser(user, Some(host)) => NameOfOther(id, User(user, host));
    case OfHost(host) => NameOfOther(id, Host(host));
    case OfX509(host, name) => NameOfX509(id, host, name);
  }

  /** The raw tests a scope applies to a built user name. */
  lemma BuiltUserTests(user: string, host: string, scope: Scope)
    ensures var name := ProvisionerName(User(user, host));
            && StartsWith(name, USER_PREFIX)
            && (scope.OfUser? ==> (StartsWith(name, UserPrefix(scope.user)) <==> scope.user == user))
            && (scope.OfHost? ==> (EndsWith(name, UserHostSuffix(scope.host)) <==> scope.host == host))
  {
    BuiltName(User(user, host));
    IdentityRoundTrip(user);
    IdentityRoundTrip(host);
    UserNameTests(EncodeIdentity(user), EncodeIdentity(host),
                  if scope.OfUser? then scope.user else "", if scope.OfHost? then scope.host else "");
  }

  lemma PrefixesNest(user: string)
    ensures forall name :: StartsWith(name, UserPrefix(user)) ==> StartsWith(name, USER_PREFIX)
  {
    StripBuilt(USER_PREFIX, EncodeIdentity(user) + "-");
    assert UserPrefix(user) == USER_PREFIX + (EncodeIdentity(user) + "-");
    forall name | StartsWith(name, UserPrefix(user)) ensures StartsWith(name, USER_PREFIX) {
      PrefixTransitive(USER_PREFIX, UserPrefix(user), name);
    }
  }

  lemma NameOfOther(a: Identity, b: Identity)
    requires a.Nameable() && !b.X509?
    ensures ProvisionerName(a) == ProvisionerName(b) ==> a == b
  {
    NamesInjective(a, b);
  }

  /** Injectivity against an X.509 name whose parts may be empty. */
  lemma NameOfX509(a: Identity, host: string, certificate: string)
    requires a.Nameable()
    ensures ProvisionerName(a) == ProvisionerName(X509(host, certificate)) ==> a == X509(host, certificate)
  {
    BuiltName(X509(host, certificate));
    PairRoundTrip(host, certificate);
    if ProvisionerName(a) == ProvisionerName(X509(host, certificate)) {
      FamiliesDisjoint(ProvisionerName(a));
      BuiltName(a);
      if a.X509? { PairRoundTrip(a.host, a.name); }
    }
  }

  /** The encoded parts of a user name, when it has two. */
  function UserParts(name: string): Option<(string, string)> {
    match StripPrefix(name, USER_PREFIX)
    case None => None
    case Some(encoded) => SplitOnce(encoded, '-')
  }

  lemma {:induction false} DecodableHasNoSeparator(s: string)
    requires DecodeBytes(s).Some?
    ensures '-' !in s
    decreases |s|
  {
    if |s| >= 2 {
      DecodableHasNoSeparator(s[2..]);
      assert s == [s[0], s[1]] + s[2..];
    }
  }

  /**
   Exactly when an inventoried provisioner survives the removal: its name spells the selected
   part of a user identity in some way other than the builder's hex.
   */
  lemma SweepMissesRespelledNames(scope: Scope, name: string, kind: Option<string>)
    requires Inventoried(scope, name).Some? && kind != Some("SSHPOP")
    ensures Removes(scope, Some(name), kind) <==>
            match scope
            case OfX509(_, _) => true
            case OfUser(user, None) => UserParts(name).value.0 == EncodeIdentity(user)
            case OfUser(user, Some(host)) => UserParts(name) == Some((EncodeIdentity(user), EncodeIdentity(host)))
            case OfHost(host) => ParseUser(name).Some? ==> UserParts(name).value.1 == EncodeIdentity(host)
  {
    match scope
    case OfX509(_, _) =>
    case OfUser(user, None) => SweepOfUserName(name);
    case OfUser(user, Some(host)) =>
      SweepOfUserName(name);
      BuiltUserParts(user, host);
    case OfHost(host) => SweepOfHost(host, name, kind);
  }

  /** The identity a provisioner name decodes to, however its hex is spelled. */
  function Decoded(name: string): Option<Identity> {
    if ParseHost(name).Some? then Some(Host(ParseHost(name).value))
    else if ParseUser(name).Some? then Some(User(ParseUser(name).value.0, ParseUser(name).value.1))
    else if ParseX509(name).Some? then Some(X509(ParseX509(name).value.0, ParseX509(name).value.1))
    else None
  }

  predicate NameInScope(scope: Scope, name: string) { Decoded(name).Some? && Covers(scope, Decoded(name).value) }

  /** The name spells what the scope selects by as the builder does: a host wholly, of a user the selected parts. */
  predicate SpelledAsBuilt(scope: Scope, name: string) {
    match (Decoded(name), scope)
    case (Some(Host(host)), _) => name == ProvisionerName(Host(host))
    case (Some(User(_, _)), OfUser(user, None)) =>
      UserParts(name).Some? && UserParts(name).value.0 == EncodeIdentity(user)
    case (Some(User(_, _)), OfUser(user, Some(host))) =>
      UserParts(name) == Some((EncodeIdentity(user), EncodeIdentity(host)))
    case (Some(User(_, _)), OfHost(host)) =>
      UserParts(name).Some? && UserParts(name).value.1 == EncodeIdentity(host)
    case _ => true
  }

  /** Of the names that decode into a scope, the removal takes exactly those spelled as built. */
  lemma SweepExactly(scope: Scope, name: string, kind: Option<string>)
    requires NameInScope(scope, name) && kind != Some("SSHPOP")
    ensures Removes(scope, Some(name), kind) <==> SpelledAsBuilt(scope, name)
  {
    match Decoded(name).value
    case Host(host) => SweepOfHostName(host, name, kind);
    case User(_, _) =>
      SweepOfUserName(name);
      UserInventoried(scope, name);
      SweepMissesRespelledNames(scope, name, kind);
    case X509(host, certificate) => ParseX509Exact(name, host, certificate);
  }

  /** A name that decodes to a host is removed with that host exactly when it is the built name. */
  lemma SweepOfHostName(host: string, name: string, kind: Option<string>)
    requires ParseHost(name) == Some(host) && kind != Some("SSHPOP")
    ensures Removes(OfHost(host), Some(name), kind) <==> name == ProvisionerName(Host(host))
    ensures Decoded(name) == Some(Host(host)) && ParseUser(name) == None && ParseX509(name) == None
  {
    FamiliesDisjoint(name);
  }

  lemma UserInventoried(scope: Scope, name: string)
    requires NameInScope(scope, name) && Decoded(name).value.User?
    ensures Inventoried(scope, name) == Decoded(name)
  {
    FamiliesDisjoint(name);
    if scope.OfHost? { BuiltName(Host(scope.host)); }
  }

  /** The inventory misses a name of the scope only when it is a host's and not the built one. */
  lemma InventoryMissesRespelledHosts(scope: Scope, name: string)
    requires NameInScope(scope, name)
    ensures Inventoried(scope, name) == None <==> Decoded(name).value.Host? && !SpelledAsBuilt(scope, name)
  {
    match Decoded(name).value
    case Host(host) => SweepOfHostName(host, name, None);
    case User(_, _) => UserInventoried(scope, name);
    case X509(host, certificate) =>
      ParseX509Exact(name, host, certificate);
      FamiliesDisjoint(name);
  }

  const RESPELLED_HOST_NAME := "grafhome-host-6A"

  /** One such host name: neither the inventory nor the removal sees it. */
  lemma RespelledHostEscapes(kind: Option<string>)
    requires kind != Some("SSHPOP")
    ensures Decoded(RESPELLED_HOST_NAME) == Some(Host("j")) && Inventoried(OfHost("j"), RESPELLED_HOST_NAME) == None
    ensures !Removes(OfHost("j"), Some(RESPELLED_HOST_NAME), kind)
  {
    HostNameAliases();
    EncodeOneAscii('j', 0x6A);
    assert ProvisionerName(Host("j"))[|HOST_PREFIX| + 1] == 'a';
    assert RESPELLED_HOST_NAME[15] == 'A' && |HOST_PREFIX| == 14;
    SweepOfHostName("j", RESPELLED_HOST_NAME, kind);
    InventoryMissesRespelledHosts(OfHost("j"), RESPELLED_HOST_NAME);
  }

  /** One such name: it is inventoried for its user, and the raw prefix test misses it. */
  lemma RespelledNameEscapes(kind: Option<string>)
    ensures Inventoried(OfUser("j", None), RESPELLED_NAME) == Some(User("j", "h"))
    ensures !Removes(OfUser("j", None), Some(RESPELLED_NAME), kind)
  {
    UserNameAliases();
    RespelledPrefix();
  }

  lemma SweepOfHost(host: string, name: string, kind: Option<string>)
    requires Inventoried(OfHost(host), name).Some? && kind != Some("SSHPOP")
    ensures Removes(OfHost(host), Some(name), kind) <==>
            (ParseUser(name).Some? ==> UserParts(name).Some? && UserParts(name).value.1 == EncodeIdentity(host))
  {
    if ParseUser(name).Some? {
      ParseInvertsBuild(Host(host));
      UserNameIsNotX509(name);
      SweepOfUserName(name);
    }
  }

  lemma UserNameIsNotX509(name: string)
    requires ParseUser(name).Some?
    ensures ParseX509(name) == None
  {
    FamiliesDisjoint(name);
  }

  /** The raw prefix and suffix tests on a user name that decodes. */
  lemma SweepOfUserName(name: string)
    requires ParseUser(name).Some?
    ensures UserParts(name).Some? && StartsWith(name, USER_PREFIX)
    ensures var (user, host) := ParseUser(name).value;
            && (StartsWith(name, UserPrefix(user)) <==> UserParts(name).value.0 == EncodeIdentity(user))
            && (EndsWith(name, UserHostSuffix(host)) <==> UserParts(name).value.1 == EncodeIdentity(host))
            && (UserParts(name) == Some((EncodeIdentity(user), EncodeIdentity(host))) ==>
                name == ProvisionerName(User(user, host)))
  {
    var (left, right) := UserParts(name).value;
    var (user, host) := ParseUser(name).value;
    UserNameParts(name);
    UserNameTests(left, right, user, host);
  }

  lemma UserNameParts(name: string)
    requires ParseUser(name).Some?
    ensures UserParts(name).Some?
    ensures var (left, right) := UserParts(name).value;
            name == USER_PREFIX + left + "-" + right && '-' !in left && '-' !in right
  {
    var (left, right) := UserParts(name).value;
    DecodableHasNoSeparator(right);
    Regroup(USER_PREFIX, left, "-", right);
  }

  lemma BuiltUserParts(user: string, host: string)
    ensures UserParts(ProvisionerName(User(user, host))) == Some((EncodeIdentity(user), EncodeIdentity(host)))
  {
    BuiltName(User(user, host));
    IdentityRoundTrip(user);
    SplitOnceFinds(EncodeIdentity(user), '-', EncodeIdentity(host));
  }
}
