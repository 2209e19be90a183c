/**
 Canonical policy documents and the normalized policy (`load` and `canonical_files` in
 src/policy/document.rs), with TOML text abstracted away.
 */
module PolicyDocuments {
  import opened Wrappers
  import opened Rows
  import Ledger
  import Registry

  datatype Status = Active | Planned | Disabled

  // ---- The normalized policy ----

  datatype Endpoint = Endpoint(role: string, dnsName: string, target: string, address: string, port: nat,
      scheme: string)

  datatype Host = Host(host: string, sshRoles: set<string>, principals: seq<string>)

  datatype User = User(user: string, principal: string, provisioner: string, certTtl: string, sshAdmin: bool,
      status: Status)

  datatype Provisioner = Provisioner(
    role: string, name: string, kind: string, defaultTtl: string, maxTtl: string,
    renewalDefaultTtl: Option<string>, renewalMaxTtl: Option<string>, status: Status)
  {
    function RenewalDefault(): string { match renewalDefaultTtl case Some(ttl) => ttl case None => defaultTtl }
  }

  /** Who may enroll from where. */
  datatype Client = Client(host: string, user: string, effectivelyInfinite: bool, status: Status)

  /** Who may log in where, as which account. */
  datatype Remote = Remote(user: string, host: string, account: string, allowSsh: bool, status: Status)

  datatype CertBody = CertBody(role: string, names: seq<string>, ttl: string, endpoint: string, status: Status)

  datatype Cert = Cert(host: string, name: string, body: CertBody, afterRenew: seq<string>)

  datatype Policy = Policy(
    endpoints: seq<Endpoint>, hosts: seq<Host>, users: seq<User>, requireSshAdmin: bool, provisioners: seq<Provisioner>,
    clients: seq<Client>, remotes: seq<Remote>, revoked: Ledger.Ledger, certs: seq<Cert>)

  // ---- The documents ----

  datatype EndpointPolicy = EndpointPolicy(dnsName: string, target: string, address: string, port: nat)

  datatype ProvisionerPolicy = ProvisionerPolicy(
    name: string, defaultTtl: string, maxTtl: string, renewalDefaultTtl: Option<string>, renewalMaxTtl: Option<string>,
        status: Status)

  datatype UserPolicy = UserPolicy(principal: Option<string>, certTtl: string, sshAdmin: bool, status: Status)

  datatype Enrollment = Enabled(value: bool) | Options(effectivelyInfinite: Option<bool>, status: Option<Status>)

  datatype Login = Login(account: string, status: Status)

  datatype Access = Access(enrollment: Option<Enrollment>, logins: seq<Login>)

  datatype CertPolicy = CertPolicy(body: CertBody, afterRenew: Option<seq<string>>)

  datatype HostDocument = HostDocument(
    sshRoles: set<string>, principals: seq<string>, access: map<string, Access>, certs: map<string, CertPolicy>)

  datatype Revocations = Revocations(formatVersion: nat, keys: Ledger.Ledger)

  datatype Documents = Documents(
    endpoints: map<string, EndpointPolicy>, provisioners: map<string, ProvisionerPolicy>, requireSshAdmin: bool,
    users: map<string, UserPolicy>, revocations: Option<Revocations>, hosts: map<string, HostDocument>)

  datatype Rejection =
    | UnknownRole
    | NoUserProvisioner
    | BadFormatVersion
    | UnsafeHostName
    | EmptyHook
    | BadEnrollment

  // ---- Provisioner roles ----

  const HOST_BOOTSTRAP := "host_bootstrap"
  const USER_ENROLLMENT := "user_enrollment"
  const PROXY_X509 := "proxy_x509"
  const UNLIMITED := "unlimited"

  /** Roles by rank, which is how loading sorts them. */
  const ROLES: seq<string> := [HOST_BOOTSTRAP, USER_ENROLLMENT, PROXY_X509]

  function ExpectedKind(role: string): Option<string> {
    if role == HOST_BOOTSTRAP || role == USER_ENROLLMENT then Some("JWK")
    else if role == PROXY_X509 then Some("ACME")
    else None
  }

  lemma RolesAreKnown(role: string)
    ensures role in ROLES <==> ExpectedKind(role).Some?
    ensures Distinct(ROLES)
  {
    assert HOST_BOOTSTRAP[0] == 'h' && USER_ENROLLMENT[0] == 'u' && PROXY_X509[0] == 'p';
    assert ROLES[0] == HOST_BOOTSTRAP && ROLES[1] == USER_ENROLLMENT && ROLES[2] == PROXY_X509;
    forall i, j | 0 <= i < j < 3 ensures ROLES[i] != ROLES[j] { assert ROLES[i][0] != ROLES[j][0]; }
  }

  // ---- Inferred renewal maximum ----

  /** `max_by_key`: the last longest candidate. */
  function LastLongest(candidates: seq<string>, length: string -> nat): (r: string)
    requires candidates != []
    ensures r in candidates && forall c :: c in candidates ==> length(c) <= length(r)
  {
    if |candidates| == 1 then candidates[0]
    else
      var last, best := candidates[|candidates| - 1], LastLongest(candidates[..|candidates| - 1], length);
      assert candidates == candidates[..|candidates| - 1] + [last];
      if length(last) >= length(best) then last else best
  }

  /** Lifetimes of the active users of a provisioner, in policy order. */
  function UserTtls(users: seq<User>, provisioner: string): (r: seq<string>)
    ensures forall t :: t in r <==>
            exists u ::
              u in users && u.status == Active && u.provisioner == provisioner && u.certTtl == t
  {
    if users == [] then []
    else
      assert users == [users[0]] + users[1..];
      (if users[0].status == Active && users[0].provisioner == provisioner then [users[0].certTtl] else [])
      + UserTtls(users[1..], provisioner)
  }

  /** `length` measures a duration; an unreadable one measures zero. */
  function Inferred(users: seq<User>, p: Provisioner, length: string -> nat): string {
    if p.maxTtl != UNLIMITED then p.maxTtl else LastLongest(UserTtls(users, p.name) + [p.RenewalDefault()], length)
  }

  function RenewalMax(users: seq<User>, p: Provisioner, length: string -> nat): string {
    match p.renewalMaxTtl case Some(ttl) => ttl case None => Inferred(users, p, length)
  }

  // ---- Writing ----

  function WriteEndpoint(e: Endpoint): EndpointPolicy { EndpointPolicy(e.dnsName, e.target, e.address, e.port) }

  /** A renewal setting that says what would be inferred anyway is left out. */
  function Unless(ttl: Option<string>, usual: string): Option<string> { if ttl == Some(usual) then None else ttl }

  function WriteProvisioner(p: Provisioner, users: seq<User>, length: string -> nat): ProvisionerPolicy {
    ProvisionerPolicy(p.name, p.defaultTtl, p.maxTtl, Unless(p.renewalDefaultTtl, p.defaultTtl),
                      Unless(p.renewalMaxTtl, Inferred(users, p, length)), p.status)
  }

  function WriteUser(u: User): UserPolicy {
    UserPolicy(if u.principal != u.user then Some(u.principal) else None, u.certTtl, u.sshAdmin, u.status)
  }

  function WriteEnrollment(c: Client): Enrollment {
    if !c.effectivelyInfinite && c.status == Active then Enabled(true)
    else
      Options(if c.effectivelyInfinite then Some(true) else None, if c.status != Active then Some(c.status) else None)
  }

  /** An active deny is kept as inert history: presence of an active row is what authorizes. */
  function WriteLogin(r: Remote): Login {
    Login(r.account, if r.allowSsh || r.status != Active then r.status else Disabled)
  }

  function WriteLogins(rows: seq<Remote>): (r: seq<Login>)
    ensures |r| == |rows| && forall i :: 0 <= i < |r| ==> r[i] == WriteLogin(rows[i])
  {
    seq(|rows|, i requires 0 <= i < |rows| => WriteLogin(rows[i]))
  }

  function ClientsAt(rows: seq<Client>, host: string, user: string): seq<Client> {
    Filter(rows, (c: Client) => c.host == host && c.user == user)
  }

  function RemotesAt(rows: seq<Remote>, host: string, user: string): seq<Remote> {
    Filter(rows, (r: Remote) => r.host == host && r.user == user)
  }

  function CertsAt(rows: seq<Cert>, host: string): seq<Cert> { Filter(rows, (c: Cert) => c.host == host) }

  /** One user's entry in a host document; of several enrollment rows the last is written. */
  function WriteAccess(p: Policy, host: string, user: string): Access {
    var clients := ClientsAt(p.clients, host, user);
    Access(if clients == [] then None else Some(WriteEnrollment(clients[|clients| - 1])),
           WriteLogins(RemotesAt(p.remotes, host, user)))
  }

  function AccessUsers(p: Policy, host: string): set<string> {
    (set c | c in p.clients && c.host == host :: c.user) + (set r | r in p.remotes && r.host == host :: r.user)
  }

  function WriteCert(c: Cert): CertPolicy {
    CertPolicy(c.body, if c.afterRenew == [] then None else Some(c.afterRenew))
  }

  function WriteHost(p: Policy, h: Host): HostDocument {
    HostDocument(h.sshRoles, h.principals, map u | u in AccessUsers(p, h.host) :: WriteAccess(p, h.host, u),
                 Collect(CertsAt(p.certs, h.host), CertName, WriteCert))
  }

  function WriteRevocations(l: Ledger.Ledger): Option<Revocations> {
    if l.ssh == [] && l.x509 == [] then None else Some(Revocations(1, l))
  }

  function EndpointRole(e: Endpoint): string { e.role }

  function ProvisionerRole(v: Provisioner): string { v.role }

  function UserName(u: User): string { u.user }

  function HostName(h: Host): string { h.host }

  function CertName(c: Cert): string { c.name }

  function Documented(p: Policy, length: string -> nat): Documents {
    Documents(
      Collect(p.endpoints, EndpointRole, WriteEndpoint),
      Collect(p.provisioners, ProvisionerRole, v => WriteProvisioner(v, p.users, length)),
      p.requireSshAdmin, Collect(p.users, UserName, WriteUser), WriteRevocations(p.revoked),
      Collect(p.hosts, HostName, h => WriteHost(p, h)))
  }

  function CanonicalFiles(p: Policy, length: string -> nat): Result<Documents, Rejection> {
    if exists h :: h in p.hosts && !Registry.ValidHostName(h.host) then Err(UnsafeHostName)
      else Ok(Documented(p, length))
  }

  // ---- Reading ----

  function ReadEndpoint(role: string, e: EndpointPolicy): Endpoint {
    Endpoint(role, e.dnsName, e.target, e.address, e.port, "https")
  }

  function ReadProvisioner(role: string, kind: string, v: ProvisionerPolicy): Provisioner {
    Provisioner(role, v.name, kind, v.defaultTtl, v.maxTtl, v.renewalDefaultTtl, v.renewalMaxTtl, v.status)
  }

  function ReadUser(user: string, v: UserPolicy, provisioner: string): User {
    User(user, match v.principal case Some(principal) => principal case None => user, provisioner, v.certTtl,
        v.sshAdmin, v.status)
  }

  predicate ReadableEnrollment(e: Enrollment) {
    match e case Enabled(value) => value case Options(infinite, status) => infinite.Some? || status.Some?
  }

  function ReadEnrollment(host: string, user: string, e: Enrollment): Client {
    match e
    case Enabled(_) => Client(host, user, false, Active)
    case Options(infinite, status) =>
      Client(host, user, match infinite case Some(b) => b case None => false,
          match status case Some(s) => s case None => Active)
  }

  function ReadLogins(host: string, user: string, logins: seq<Login>): (r: seq<Remote>)
    ensures |r| == |logins| && forall i :: 0 <= i < |r| ==>
            r[i] == Remote(user, host, logins[i].account, true, logins[i].status)
  {
    seq(|logins|, i requires 0 <= i < |logins| => Remote(user, host, logins[i].account, true, logins[i].status))
  }

  const NO_HOST := HostDocument({}, [], map[], map[])
  const NO_ACCESS := Access(None, [])

  function HostAt(d: Documents, host: string): HostDocument { if host in d.hosts then d.hosts[host] else NO_HOST }

  function AccessAt(h: HostDocument, user: string): Access { if user in h.access then h.access[user] else NO_ACCESS }

  function ReadClient(host: string, h: HostDocument, user: string): seq<Client> {
    match AccessAt(h, user).enrollment case None => [] case Some(e) => [ReadEnrollment(host, user, e)]
  }

  function HostClients(host: string, h: HostDocument): seq<Client> {
    Concat(SortedKeys(h.access.Keys), u => ReadClient(host, h, u))
  }

  function HostRemotes(host: string, h: HostDocument): seq<Remote> {
    Concat(SortedKeys(h.access.Keys), u => ReadLogins(host, u, AccessAt(h, u).logins))
  }

  function ReadCert(host: string, h: HostDocument, name: string): seq<Cert> {
    if name !in h.certs then []
    else [Cert(host, name, h.certs[name].body, match h.certs[name].afterRenew case Some(argv) => argv case None => [])]
  }

  function HostCerts(host: string, h: HostDocument): seq<Cert> {
    Concat(SortedKeys(h.certs.Keys), n => ReadCert(host, h, n))
  }

  predicate Readable(h: HostDocument) {
    && (forall n :: n in h.certs ==> h.certs[n].afterRenew != Some([]))
    && (forall u :: u in h.access && h.access[u].enrollment.Some? ==> ReadableEnrollment(h.access[u].enrollment.value))
  }

  /** The user issuer's name, which every loaded user is bound to. */
  function UserProvisioner(d: Documents): string {
    if USER_ENROLLMENT in d.provisioners then d.provisioners[USER_ENROLLMENT].name else ""
  }

  function ProvisionerAt(d: Documents, role: string): seq<Provisioner> {
    if role in d.provisioners && ExpectedKind(role).Some?
    then [ReadProvisioner(role, ExpectedKind(role).value, d.provisioners[role])] else []
  }

  function LoadedUser(d: Documents, user: string): seq<User> {
    if user in d.users then [ReadUser(user, d.users[user], UserProvisioner(d))] else []
  }

  function LoadedEndpoint(d: Documents, role: string): seq<Endpoint> {
    if role in d.endpoints then [ReadEndpoint(role, d.endpoints[role])] else []
  }

  function LoadedHost(d: Documents, host: string): seq<Host> {
    if host in d.hosts then [Host(host, d.hosts[host].sshRoles, d.hosts[host].principals)] else []
  }

  const EXTENSION := ".toml"

  function FilesOf(hosts: set<string>): set<string> { set h | h in hosts :: h + EXTENSION }

  function Stem(file: string): string { if |file| < |EXTENSION| then file else file[..|file| - |EXTENSION|] }

  lemma StemOfFile(host: string)
    ensures Stem(host + EXTENSION) == host
  {}

  lemma StemsOfFiles(hosts: set<string>, files: seq<string>)
    requires (forall f :: f in files <==> f in FilesOf(hosts)) && Distinct(files)
    ensures var stems := Stems(files); (forall h :: h in stems <==> h in hosts) && Distinct(stems)
  {
    var stems := Stems(files);
    forall i | 0 <= i < |files| ensures stems[i] in hosts && files[i] == stems[i] + EXTENSION {
      assert files[i] in files;
      var h :| h in hosts && files[i] == h + EXTENSION;
      StemOfFile(h);
    }
    forall h | h in hosts ensures h in stems {
      assert h + EXTENSION in files;
      var i :| 0 <= i < |files| && files[i] == h + EXTENSION;
      StemOfFile(h);
      assert stems[i] == h;
    }
  }

  function Stems(files: seq<string>): seq<string> { seq(|files|, i requires 0 <= i < |files| => Stem(files[i])) }

  /** Hosts in the order of their document files, which differs from that of their names. */
  function HostOrder(hosts: set<string>): (r: seq<string>)
    ensures forall h :: h in r <==> h in hosts
    ensures Distinct(r)
  {
    StemsOfFiles(hosts, SortedKeys(FilesOf(hosts)));
    Stems(SortedKeys(FilesOf(hosts)))
  }

  function LoadedUsers(d: Documents): seq<User> { Concat(SortedKeys(d.users.Keys), user => LoadedUser(d, user)) }

  function LoadedProvisioners(d: Documents): seq<Provisioner> { Concat(ROLES, role => ProvisionerAt(d, role)) }

  function Loaded(d: Documents): Policy {
    Policy(
      Concat(SortedKeys(d.endpoints.Keys), role => LoadedEndpoint(d, role)),
      Concat(HostOrder(d.hosts.Keys), host => LoadedHost(d, host)),
      LoadedUsers(d),
      d.requireSshAdmin,
      LoadedProvisioners(d),
      Concat(HostOrder(d.hosts.Keys), host => HostClients(host, HostAt(d, host))),
      Concat(HostOrder(d.hosts.Keys), host => HostRemotes(host, HostAt(d, host))),
      match d.revocations case Some(r) => r.keys case None => Ledger.Ledger([], []),
      Concat(HostOrder(d.hosts.Keys), host => HostCerts(host, HostAt(d, host))))
  }

  function Load(d: Documents): Result<Policy, Rejection> {
    if d.revocations.Some? && d.revocations.value.formatVersion != 1 then Err(BadFormatVersion)
    else if exists role :: role in d.provisioners && ExpectedKind(role).None? then Err(UnknownRole)
    else if d.users != map[] && USER_ENROLLMENT !in d.provisioners then Err(NoUserProvisioner)
    else if exists h :: h in d.hosts && !Registry.ValidHostName(h) then Err(UnsafeHostName)
    else if exists h ::
            h in d.hosts
            && exists n :: n in d.hosts[h].certs && d.hosts[h].certs[n].afterRenew == Some([]) then Err(EmptyHook)
    else if exists h :: h in d.hosts && !Readable(d.hosts[h]) then Err(BadEnrollment)
    else Ok(Loaded(d))
  }

  // ---- Documents the writer produces ----

  predicate NormalEnrollment(e: Enrollment) {
    match e
    case Enabled(value) => value
    case Options(infinite, status) =>
        infinite != Some(false) && status != Some(Active)
        && (infinite.Some? || status.Some?)
  }

  predicate NormalAccess(a: Access) {
    (a.enrollment.Some? || a.logins != []) && (a.enrollment.Some? ==> NormalEnrollment(a.enrollment.value))
  }

  predicate NormalHost(h: HostDocument) {
    && (forall u :: u in h.access ==> NormalAccess(h.access[u]))
    && (forall n :: n in h.certs ==> h.certs[n].afterRenew != Some([]))
  }

  /** No setting is spelled out that the reader would fill in. */
  predicate Normal(d: Documents) {
    && PlainPrincipals(d.users)
    && (forall r :: r in d.provisioners ==> d.provisioners[r].renewalDefaultTtl != Some(d.provisioners[r].defaultTtl))
    && (d.revocations.Some? ==>
          d.revocations.value.formatVersion == 1
              && (d.revocations.value.keys.ssh != [] || d.revocations.value.keys.x509 != []))
    && (forall h :: h in d.hosts ==> NormalHost(d.hosts[h]))
  }

  lemma EnrollmentRoundTrip(host: string, user: string, c: Client, e: Enrollment)
    ensures NormalEnrollment(WriteEnrollment(c)) && ReadableEnrollment(WriteEnrollment(c))
    ensures c.host == host && c.user == user ==> ReadEnrollment(host, user, WriteEnrollment(c)) == c
    ensures NormalEnrollment(e) ==> WriteEnrollment(ReadEnrollment(host, user, e)) == e
  {}

  /** An entry is written only for a user with a row, and an enrollment is written from one. */
  lemma WrittenAccess(p: Policy, host: string, user: string)
    requires user in AccessUsers(p, host)
    ensures NormalAccess(WriteAccess(p, host, user))
    ensures WriteAccess(p, host, user).enrollment.Some? ==>
            ReadableEnrollment(WriteAccess(p, host, user).enrollment.value)
  {
    var clients, remotes := ClientsAt(p.clients, host, user), RemotesAt(p.remotes, host, user);
    UserHasRows(p, host, user);
    assert |WriteLogins(remotes)| == |remotes|;
    if clients != [] { EnrollmentRoundTrip(host, user, clients[|clients| - 1], Enabled(true)); }
  }

  lemma WrittenHostIsNormal(p: Policy, h: Host)
    ensures NormalHost(WriteHost(p, h)) && Readable(WriteHost(p, h))
  {
    forall u | u in AccessUsers(p, h.host)
      ensures NormalAccess(WriteAccess(p, h.host, u))
      ensures WriteAccess(p, h.host, u).enrollment.Some? ==>
              ReadableEnrollment(WriteAccess(p, h.host, u).enrollment.value)
    {
      WrittenAccess(p, h.host, u);
    }
    CollectIn(CertsAt(p.certs, h.host), CertName, WriteCert);
  }

  lemma WrittenIsNormal(p: Policy, length: string -> nat)
    ensures Normal(Documented(p, length)) && forall h :: h in Documented(p, length).hosts ==>
            Readable(Documented(p, length).hosts[h])
  {
    var d := Documented(p, length);
    CollectIn(p.users, UserName, WriteUser);
    CollectIn(p.provisioners, ProvisionerRole, v => WriteProvisioner(v, p.users, length));
    CollectIn(p.hosts, HostName, h => WriteHost(p, h));
    forall h | h in d.hosts ensures NormalHost(d.hosts[h]) && Readable(d.hosts[h]) {
      var x :| x in p.hosts && x.host == h && d.hosts[h] == WriteHost(p, x);
      WrittenHostIsNormal(p, x);
    }
  }

  // ---- Reading a host back ----

  /** Rows loaded for one host and user are exactly what its document says. */
  lemma LoadedClientsAt(d: Documents, host: string, user: string)
    ensures ClientsAt(Loaded(d).clients, host, user) ==
            if host in d.hosts then ReadClient(host, HostAt(d, host), user) else []
  {
    var keep := (c: Client) => c.host == host && c.user == user;
    FilterOne(HostOrder(d.hosts.Keys), h => HostClients(h, HostAt(d, h)), keep, host);
    HostClientsAt(host, HostAt(d, host), user);
  }

  lemma HostClientsAt(host: string, doc: HostDocument, user: string)
    ensures ClientsAt(HostClients(host, doc), host, user) == ReadClient(host, doc, user)
  {
    var keep := (c: Client) => c.host == host && c.user == user;
    var piece := u => ReadClient(host, doc, u);
    assert forall u, c :: c in piece(u) ==> c.host == host && c.user == u;
    FilterOne(SortedKeys(doc.access.Keys), piece, keep, user);
    FilterAll(piece(user), keep);
  }

  lemma LoadedRemotesAt(d: Documents, host: string, user: string)
    ensures RemotesAt(Loaded(d).remotes, host, user) ==
            if host in d.hosts then ReadLogins(host, user, AccessAt(HostAt(d, host), user).logins) else []
  {
    var keep := (r: Remote) => r.host == host && r.user == user;
    FilterOne(HostOrder(d.hosts.Keys), h => HostRemotes(h, HostAt(d, h)), keep, host);
    HostRemotesAt(host, HostAt(d, host), user);
  }

  lemma HostRemotesAt(host: string, doc: HostDocument, user: string)
    ensures RemotesAt(HostRemotes(host, doc), host, user) == ReadLogins(host, user, AccessAt(doc, user).logins)
  {
    var keep := (r: Remote) => r.host == host && r.user == user;
    FilterOne(SortedKeys(doc.access.Keys), u => ReadLogins(host, u, AccessAt(doc, u).logins), keep, user);
    FilterAll(ReadLogins(host, user, AccessAt(doc, user).logins), keep);
  }

  lemma LoadedCertsAt(d: Documents, host: string)
    requires host in d.hosts
    ensures CertsAt(Loaded(d).certs, host) == HostCerts(host, d.hosts[host])
  {
    var keep := (c: Cert) => c.host == host;
    FilterOne(HostOrder(d.hosts.Keys), h => HostCerts(h, HostAt(d, h)), keep, host);
    FilterAll(HostCerts(host, d.hosts[host]), keep);
  }

  lemma LoginRoundTrip(host: string, user: string, logins: seq<Login>)
    ensures WriteLogins(ReadLogins(host, user, logins)) == logins
  {}

  /** A user's entry survives reading and writing. */
  lemma AccessRewritten(d: Documents, host: string, user: string)
    requires host in d.hosts && NormalHost(d.hosts[host])
    ensures WriteAccess(Loaded(d), host, user) == AccessAt(d.hosts[host], user)
  {
    var access := AccessAt(d.hosts[host], user);
    LoadedClientsAt(d, host, user);
    LoadedRemotesAt(d, host, user);
    LoginRoundTrip(host, user, access.logins);
    if access.enrollment.Some? {
      EnrollmentRoundTrip(host, user, Client(host, user, false, Active), access.enrollment.value);
    }
  }

  lemma UserHasRows(p: Policy, host: string, user: string)
    ensures user in AccessUsers(p, host) <==>
            ClientsAt(p.clients, host, user) != []
            || RemotesAt(p.remotes, host, user) != []
  {
    var clients, remotes := ClientsAt(p.clients, host, user), RemotesAt(p.remotes, host, user);
    if clients != [] { assert clients[0] in clients; }
    if remotes != [] { assert remotes[0] in remotes; }
    forall c | c in p.clients && c.host == host && c.user == user ensures clients != [] { assert c in clients; }
    forall r | r in p.remotes && r.host == host && r.user == user ensures remotes != [] { assert r in remotes; }
  }

  /** Exactly the users a document mentions have rows again. */
  lemma UsersRewritten(d: Documents, p: Policy, host: string, user: string)
    requires p == Loaded(d) && host in d.hosts && NormalHost(d.hosts[host])
    ensures user in AccessUsers(p, host) <==> user in d.hosts[host].access
  {
    LoadedClientsAt(d, host, user);
    LoadedRemotesAt(d, host, user);
    UserHasRows(p, host, user);
  }

  lemma CertsRewritten(d: Documents, host: string)
    requires host in d.hosts && NormalHost(d.hosts[host])
    ensures Collect(CertsAt(Loaded(d).certs, host), CertName, WriteCert) == d.hosts[host].certs
  {
    var doc := d.hosts[host];
    LoadedCertsAt(d, host);
    CollectPieces(SortedKeys(doc.certs.Keys), n => ReadCert(host, doc, n), CertName, WriteCert, doc.certs);
  }

  lemma HostFromParts(p: Policy, host: string, doc: HostDocument)
    requires forall u :: u in AccessUsers(p, host) <==> u in doc.access
    requires forall u :: u in doc.access ==> WriteAccess(p, host, u) == doc.access[u]
    requires Collect(CertsAt(p.certs, host), CertName, WriteCert) == doc.certs
    ensures WriteHost(p, Host(host, doc.sshRoles, doc.principals)) == doc
  {
    assert (map u | u in AccessUsers(p, host) :: WriteAccess(p, host, u)) == doc.access;
  }

  lemma HostRewritten(d: Documents, p: Policy, host: string)
    requires p == Loaded(d) && host in d.hosts && NormalHost(d.hosts[host])
    ensures WriteHost(p, Host(host, d.hosts[host].sshRoles, d.hosts[host].principals)) == d.hosts[host]
  {
    CertsRewritten(d, host);
    forall u ensures u in AccessUsers(p, host) <==> u in d.hosts[host].access { UsersRewritten(d, p, host, u); }
    forall u | u in d.hosts[host].access
      ensures WriteAccess(p, host, u) == d.hosts[host].access[u]
    {
      AccessRewritten(d, host, u);
    }
    HostFromParts(p, host, d.hosts[host]);
  }

  // ---- The fixed point ----

  lemma HostsRewritten(d: Documents, p: Policy)
    requires Normal(d) && p == Loaded(d)
    ensures Collect(p.hosts, HostName, h => WriteHost(p, h)) == d.hosts
  {
    forall host | host in d.hosts
      ensures WriteHost(p, Host(host, d.hosts[host].sshRoles, d.hosts[host].principals)) == d.hosts[host]
    {
      HostRewritten(d, p, host);
    }
    CollectPieces(HostOrder(d.hosts.Keys), host => LoadedHost(d, host), HostName, h => WriteHost(p, h), d.hosts);
  }

  predicate PlainPrincipals(users: map<string, UserPolicy>) { forall u :: u in users ==> users[u].principal != Some(u) }

  lemma UserRoundTrip(user: string, v: UserPolicy, provisioner: string)
    requires v.principal != Some(user)
    ensures WriteUser(ReadUser(user, v, provisioner)) == v
  {}

  lemma UsersTableRewritten(d: Documents)
    requires PlainPrincipals(d.users)
    ensures Collect(LoadedUsers(d), UserName, WriteUser) == d.users
  {
    var keys, provisioner := SortedKeys(d.users.Keys), UserProvisioner(d);
    forall k | k in keys
      ensures LoadedUser(d, k) == [ReadUser(k, d.users[k], provisioner)]
              && WriteUser(ReadUser(k, d.users[k], provisioner)) == d.users[k]
    {
      UserRoundTrip(k, d.users[k], provisioner);
    }
    CollectPieces(keys, user => LoadedUser(d, user), UserName, WriteUser, d.users);
  }

  lemma EndpointsRewritten(d: Documents)
    ensures Collect(Loaded(d).endpoints, EndpointRole, WriteEndpoint) == d.endpoints
  {
    CollectPieces(SortedKeys(d.endpoints.Keys), role => LoadedEndpoint(d, role), EndpointRole, WriteEndpoint,
        d.endpoints);
  }

  predicate KnownRoles(d: Documents) { forall role :: role in d.provisioners ==> ExpectedKind(role).Some? }

  /** What writing makes of one loaded provisioner. */
  function Rewritten(d: Documents, role: string, users: seq<User>, length: string -> nat): ProvisionerPolicy
    requires KnownRoles(d) && role in d.provisioners
  {
    WriteProvisioner(ReadProvisioner(role, ExpectedKind(role).value, d.provisioners[role]), users, length)
  }

  lemma ProvisionersRewritten(d: Documents, users: seq<User>, length: string -> nat)
    requires KnownRoles(d)
    ensures Collect(LoadedProvisioners(d), ProvisionerRole, v => WriteProvisioner(v, users, length))
            == map role | role in d.provisioners :: Rewritten(d, role, users, length)
  {
    var table := map role | role in d.provisioners :: Rewritten(d, role, users, length);
    RolesAreKnown("");
    forall role | role in d.provisioners ensures role in ROLES { RolesAreKnown(role); }
    CollectPieces(ROLES, role => ProvisionerAt(d, role), ProvisionerRole, v => WriteProvisioner(v, users, length),
        table);
  }

  /** Every renewal maximum spelled out differs from what a reader of these documents infers. */
  predicate SettledTtls(d: Documents, length: string -> nat)
    requires KnownRoles(d)
  {
    forall role :: role in d.provisioners ==> Settled(d, role, LoadedUsers(d), length)
  }

  predicate Settled(d: Documents, role: string, users: seq<User>, length: string -> nat)
    requires KnownRoles(d) && role in d.provisioners
  {
    d.provisioners[role].renewalMaxTtl
    != Some(Inferred(users, ReadProvisioner(role, ExpectedKind(role).value, d.provisioners[role]), length))
  }

  lemma SettledExactly(d: Documents, role: string, users: seq<User>, length: string -> nat)
    requires Normal(d) && KnownRoles(d) && role in d.provisioners
    ensures Rewritten(d, role, users, length) == d.provisioners[role] <==> Settled(d, role, users, length)
  {}

  lemma DocumentedFromParts(d: Documents, p: Policy, length: string -> nat, provisioners: map<string,
                            ProvisionerPolicy>)
    requires Collect(p.endpoints, EndpointRole, WriteEndpoint) == d.endpoints
             && Collect(p.users, UserName, WriteUser) == d.users
    requires Collect(p.hosts, HostName, h => WriteHost(p, h)) == d.hosts && WriteRevocations(p.revoked) == d.revocations
    requires p.requireSshAdmin == d.requireSshAdmin
    requires Collect(p.provisioners, ProvisionerRole, v => WriteProvisioner(v, p.users, length)) == provisioners
    ensures Documented(p, length) == d.(provisioners := provisioners)
  {}

  /** Reading normal documents and writing them again changes at most the lifetimes of provisioners. */
  lemma RewriteChangesLifetimes(d: Documents, length: string -> nat)
    requires Normal(d) && KnownRoles(d)
    ensures Documented(Loaded(d), length)
            == d.(provisioners := map role | role in d.provisioners :: Rewritten(d, role, LoadedUsers(d), length))
  {
    var p := Loaded(d);
    EndpointsRewritten(d);
    UsersTableRewritten(d);
    HostsRewritten(d, p);
    ProvisionersRewritten(d, p.users, length);
    DocumentedFromParts(d, p, length, map role | role in d.provisioners :: Rewritten(d, role, p.users, length));
  }

  /** Reading normal documents and writing them again reproduces them exactly when their lifetimes are settled. */
  lemma RewriteIsExact(d: Documents, length: string -> nat)
    requires Normal(d) && KnownRoles(d)
    ensures Documented(Loaded(d), length) == d <==> SettledTtls(d, length)
  {
    var users := LoadedUsers(d);
    RewriteChangesLifetimes(d, length);
    SameTable(d, users, length);
    forall role | role in d.provisioners
      ensures Rewritten(d, role, users, length) == d.provisioners[role] <==> Settled(d, role, users, length)
    {
      SettledExactly(d, role, users, length);
    }
  }

  lemma SameTable(d: Documents, users: seq<User>, length: string -> nat)
    requires KnownRoles(d)
    ensures (map role | role in d.provisioners :: Rewritten(d, role, users, length)) == d.provisioners
            <==> forall role :: role in d.provisioners ==> Rewritten(d, role, users, length) == d.provisioners[role]
  {
    var table := map role | role in d.provisioners :: Rewritten(d, role, users, length);
    if table == d.provisioners {
      forall role | role in d.provisioners ensures Rewritten(d, role, users, length) == d.provisioners[role] {
        assert table[role] == d.provisioners[role];
      }
    }
  }

  /** A second pass is always a fixed point. */
  lemma TwoPassesSuffice(d: Documents, length: string -> nat)
    requires Normal(d) && KnownRoles(d)
    ensures var next := Documented(Loaded(d), length); Documented(Loaded(next), length) == next
  {
    var next := Documented(Loaded(d), length);
    RewriteChangesLifetimes(d, length);
    WrittenIsNormal(Loaded(d), length);
    assert KnownRoles(next);
    SameLoadedUsers(d, next);
    forall role | role in next.provisioners ensures Settled(next, role, LoadedUsers(next), length) {
      assert next.provisioners[role] == Rewritten(d, role, LoadedUsers(d), length);
      InferredAgain(d, role, LoadedUsers(d), length);
    }
    RewriteIsExact(next, length);
  }

  lemma InferredAgain(d: Documents, role: string, users: seq<User>, length: string -> nat)
    requires KnownRoles(d) && role in d.provisioners
    ensures var kind := ExpectedKind(role).value;
            Rewritten(d, role, users, length).renewalMaxTtl
            != Some(Inferred(users, ReadProvisioner(role, kind, Rewritten(d, role, users, length)), length))
  {}

  lemma SameLoadedUsers(d: Documents, next: Documents)
    requires next.users == d.users && next.provisioners.Keys == d.provisioners.Keys
    requires forall role :: role in d.provisioners ==> next.provisioners[role].name == d.provisioners[role].name
    ensures LoadedUsers(next) == LoadedUsers(d)
  {
    SamePieces(SortedKeys(d.users.Keys), user => LoadedUser(d, user), user => LoadedUser(next, user));
  }

  // ---- Writing a valid policy and reading it back ----

  /** One enrollment row a host and user, and rows only for hosts of the inventory. */
  ghost predicate RowsValid(p: Policy) {
    && UniqueKeys(p.hosts, HostName)
    && (forall c :: c in p.clients ==> exists h :: h in p.hosts && h.host == c.host)
    && (forall r :: r in p.remotes ==> exists h :: h in p.hosts && h.host == r.host)
    && (forall host, user :: |ClientsAt(p.clients, host, user)| <= 1)
  }

  /** Roles are unique, and every user is bound to the user issuer. */
  ghost predicate UsersValid(p: Policy) {
    && UniqueKeys(p.users, UserName) && UniqueKeys(p.provisioners, ProvisionerRole)
    && (forall u :: u in p.users ==>
        exists v ::
          v in p.provisioners && v.name == u.provisioner && v.role == USER_ENROLLMENT)
  }

  /** What `Policy::validate` guarantees that the documents rely on. */
  ghost predicate WellFormed(p: Policy) {
    && UniqueKeys(p.endpoints, EndpointRole) && RowsValid(p) && UsersValid(p)
    && (forall v :: v in p.provisioners && ExpectedKind(v.role).Some? ==> ExpectedKind(v.role) == Some(v.kind))
  }

  const CA_API := "ca_api"
  const CA_ORIGIN := "ca_origin"

  /** Both endpoint roles, once each, over https and on known hosts. */
  ghost predicate EndpointsValid(p: Policy) {
    && UniqueKeys(p.endpoints, EndpointRole)
    && (forall e :: e in p.endpoints ==>
          (e.role == CA_API || e.role == CA_ORIGIN) && e.scheme == "https" &&
              exists h ::
                h in p.hosts && h.host == e.target)
    && (exists e :: e in p.endpoints && e.role == CA_API) && (exists e :: e in p.endpoints && e.role == CA_ORIGIN)
  }

  /** Only the user issuer is unlimited, and no default or active user's lifetime exceeds the renewal maximum. */
  predicate LifetimesValid(p: Policy, length: string -> nat) {
    && (forall v :: v in p.provisioners ==>
          (v.maxTtl == UNLIMITED ==> v.role == USER_ENROLLMENT)
          && length(v.RenewalDefault()) <= length(RenewalMax(p.users, v, length)))
    && (forall u, v :: u in p.users && u.status == Active && v in p.provisioners && v.name == u.provisioner ==>
          length(u.certTtl) <= length(RenewalMax(p.users, v, length)))
  }

  function Principal(u: User): string { u.principal }

  function ProvisionerName(v: Provisioner): string { v.name }

  /** Nothing but endpoints, hosts, users and provisioners, and no administrators. */
  predicate Bare(p: Policy) {
    && p.clients == [] && p.remotes == [] && p.certs == [] && p.revoked == Ledger.Ledger([], [])
    && !p.requireSshAdmin && (forall u :: u in p.users ==> !u.sshAdmin)
    && (forall h :: h in p.hosts ==> h.principals == [])
  }

  /** What validation asks of such a policy, given readable durations. */
  ghost predicate BareValidated(p: Policy, length: string -> nat) {
    && Bare(p) && WellFormed(p) && EndpointsValid(p) && LifetimesValid(p, length)
    && UniqueKeys(p.users, Principal) && UniqueKeys(p.provisioners, ProvisionerName)
    && (forall u :: u in p.users ==> u.user != "root" && u.principal != "root")
  }

  const SAMPLE_HOST := Host("h", {}, [])

  /** A policy of one host bearing both endpoints, with the given users and provisioners. */
  function Sample(users: seq<User>, provisioners: seq<Provisioner>): Policy {
    Policy([Endpoint(CA_API, "ca.test", "h", "192.0.2.1", 443, "https"),
            Endpoint(CA_ORIGIN, "origin.test", "h", "192.0.2.1", 8443, "https")], [SAMPLE_HOST],
           users, false, provisioners, [], [], Ledger.Ledger([], []), [])
  }

  lemma SampleEndpointsValid(users: seq<User>, provisioners: seq<Provisioner>)
    ensures EndpointsValid(Sample(users, provisioners)) && RowsValid(Sample(users, provisioners))
  {
    var p := Sample(users, provisioners);
    assert CA_API[3] == 'a' && CA_ORIGIN[3] == 'o';
    assert SAMPLE_HOST in p.hosts;
    assert p.endpoints[0] in p.endpoints && p.endpoints[1] in p.endpoints;
  }

  predicate RolesKnown(p: Policy) { forall v :: v in p.provisioners ==> ExpectedKind(v.role).Some? }

  lemma ProvisionerKeys(p: Policy, length: string -> nat)
    ensures KnownRoles(Documented(p, length)) <==> RolesKnown(p)
    ensures UsersValid(p) && p.users != [] ==> USER_ENROLLMENT in Documented(p, length).provisioners
  {
    var d := Documented(p, length);
    CollectExact(p.provisioners, ProvisionerRole, v => WriteProvisioner(v, p.users, length));
    forall v | v in p.provisioners ensures v.role in d.provisioners {}
    if UsersValid(p) && p.users != [] {
      var v :| v in p.provisioners && v.name == p.users[0].provisioner && v.role == USER_ENROLLMENT;
    }
  }

  lemma HostKeys(p: Policy, length: string -> nat)
    requires CanonicalFiles(p, length).Ok?
    ensures forall h :: h in Documented(p, length).hosts ==> Registry.ValidHostName(h)
  {
    CollectExact(p.hosts, HostName, h => WriteHost(p, h));
  }

  lemma ReadableLoads(d: Documents)
    requires Normal(d) && (forall h :: h in d.hosts ==> Registry.ValidHostName(h) && Readable(d.hosts[h]))
    requires d.users != map[] && KnownRoles(d) ==> USER_ENROLLMENT in d.provisioners
    ensures Load(d).Ok? <==> KnownRoles(d)
  {
    forall h | h in d.hosts ensures forall n :: n in d.hosts[h].certs ==> d.hosts[h].certs[n].afterRenew != Some([]) {
      assert Readable(d.hosts[h]);
    }
  }

  /** The documents of a valid policy load exactly when each of its provisioner roles is one the reader knows. */
  lemma LoadsExactly(p: Policy, length: string -> nat)
    requires WellFormed(p) && CanonicalFiles(p, length).Ok?
    ensures Load(CanonicalFiles(p, length).value).Ok? <==> RolesKnown(p)
  {
    var d := Documented(p, length);
    ProvisionerKeys(p, length);
    HostKeys(p, length);
    WrittenIsNormal(p, length);
    if p.users == [] { assert d.users == map[]; }
    ReadableLoads(d);
  }

  const UNKNOWN := Provisioner("x", "n", "OIDC", "1h", "1h", None, None, Active)

  /** An unknown role passes validation and is written, and then the documents are refused. */
  lemma UnknownRoleIsRefused(length: string -> nat)
    ensures var p := Sample([], [UNKNOWN]);
            BareValidated(p, length) && CanonicalFiles(p, length).Ok? && Load(CanonicalFiles(p, length).value).Err?
  {
    var p := Sample([], [UNKNOWN]);
    assert |HOST_BOOTSTRAP| > 1 && |USER_ENROLLMENT| > 1 && |PROXY_X509| > 1 && |"x"| == 1;
    assert "1h" != UNLIMITED by { assert |UNLIMITED| == 9; }
    SampleEndpointsValid([], [UNKNOWN]);
    assert UNKNOWN in p.provisioners && RenewalMax(p.users, UNKNOWN, length) == "1h";
    assert Registry.ValidHostName("h");
    LoadsExactly(p, length);
  }

  /** A document's entry for a user, present or not, is what the writer makes of the user's rows. */
  lemma AccessWritten(p: Policy, d: Documents, h: Host, user: string)
    requires h in p.hosts && h.host in d.hosts && d.hosts[h.host] == WriteHost(p, h)
    ensures AccessAt(HostAt(d, h.host), user) == WriteAccess(p, h.host, user)
  {
    UserHasRows(p, h.host, user);
  }

  lemma RowsNeedHost(p: Policy, host: string, user: string)
    requires RowsValid(p) && !exists h :: h in p.hosts && h.host == host
    ensures ClientsAt(p.clients, host, user) == [] && RemotesAt(p.remotes, host, user) == []
  {
    FilterNone(p.clients, (c: Client) => c.host == host && c.user == user);
    FilterNone(p.remotes, (r: Remote) => r.host == host && r.user == user);
  }

  lemma HostTable(p: Policy, length: string -> nat)
    requires RowsValid(p)
    ensures var d := Documented(p, length);
            && (forall h :: h in d.hosts <==> exists x :: x in p.hosts && x.host == h)
            && (forall x :: x in p.hosts ==> x.host in d.hosts && d.hosts[x.host] == WriteHost(p, x))
  {
    CollectExact(p.hosts, HostName, h => WriteHost(p, h));
  }

  lemma ClientsRead(rows: seq<Client>, host: string, user: string)
    requires |rows| <= 1 && forall c :: c in rows ==> c.host == host && c.user == user
    ensures rows == if rows == [] then [] else [ReadEnrollment(host, user, WriteEnrollment(rows[|rows| - 1]))]
  {
    if rows != [] {
      assert rows[0] in rows;
      EnrollmentRoundTrip(host, user, rows[0], Enabled(true));
    }
  }

  lemma HostClientsKept(p: Policy, length: string -> nat, h: Host, user: string)
    requires RowsValid(p) && h in p.hosts
    ensures ReadClient(h.host, HostAt(Documented(p, length), h.host), user) == ClientsAt(p.clients, h.host, user)
  {
    HostTable(p, length);
    AccessWritten(p, Documented(p, length), h, user);
    ClientsRead(ClientsAt(p.clients, h.host, user), h.host, user);
  }

  /** The enrollment rows of each host and user come back unchanged. */
  lemma ClientsKept(p: Policy, length: string -> nat, host: string, user: string)
    requires RowsValid(p)
    ensures ClientsAt(Loaded(Documented(p, length)).clients, host, user) == ClientsAt(p.clients, host, user)
  {
    HostTable(p, length);
    LoadedClientsAt(Documented(p, length), host, user);
    if h :| h in p.hosts && h.host == host {
      HostClientsKept(p, length, h, user);
    } else {
      RowsNeedHost(p, host, user);
    }
  }

  /** What the documents make of a login row. */
  function Recorded(r: Remote): Remote { r.(allowSsh := true, status := WriteLogin(r).status) }

  predicate AllRecorded(rows: seq<Remote>, again: seq<Remote>) {
    |again| == |rows| && forall i :: 0 <= i < |rows| ==> again[i] == Recorded(rows[i])
  }

  lemma LoginsRead(rows: seq<Remote>, host: string, user: string)
    requires forall r :: r in rows ==> r.host == host && r.user == user
    ensures AllRecorded(rows, ReadLogins(host, user, WriteLogins(rows)))
  {
    forall i | 0 <= i < |rows|
      ensures ReadLogins(host, user, WriteLogins(rows))[i] == Recorded(rows[i])
    {
      assert rows[i] in rows;
    }
  }

  lemma RemotesKept(p: Policy, length: string -> nat, host: string, user: string)
    requires RowsValid(p)
    ensures AllRecorded(RemotesAt(p.remotes, host, user), RemotesAt(Loaded(Documented(p, length)).remotes, host, user))
  {
    var d, rows := Documented(p, length), RemotesAt(p.remotes, host, user);
    HostTable(p, length);
    LoadedRemotesAt(d, host, user);
    if h :| h in p.hosts && h.host == host {
      AccessWritten(p, d, h, user);
      LoginsRead(rows, host, user);
    } else {
      RowsNeedHost(p, host, user);
    }
  }

  lemma UserTable(p: Policy, length: string -> nat)
    requires UsersValid(p)
    ensures var d := Documented(p, length);
            && (forall u :: u in d.users <==> exists x :: x in p.users && x.user == u)
            && (forall x :: x in p.users ==> LoadedUser(d, x.user) == [x])
  {
    CollectExact(p.users, UserName, WriteUser);
    forall x | x in p.users ensures LoadedUser(Documented(p, length), x.user) == [x] { UserReadBack(p, length, x); }
  }

  lemma UserReadBack(p: Policy, length: string -> nat, x: User)
    requires UsersValid(p) && x in p.users
    ensures LoadedUser(Documented(p, length), x.user) == [x]
  {
    BoundToIssuer(p, length, x);
    CollectExact(p.users, UserName, WriteUser);
    assert Collect(p.users, UserName, WriteUser)[UserName(x)] == WriteUser(x);
    assert ReadUser(x.user, WriteUser(x), x.provisioner) == x;
  }

  /** The user issuer's name in the documents is the one every user was bound to. */
  lemma BoundToIssuer(p: Policy, length: string -> nat, x: User)
    requires UsersValid(p) && x in p.users
    ensures UserProvisioner(Documented(p, length)) == x.provisioner
  {
    var v :| v in p.provisioners && v.name == x.provisioner && v.role == USER_ENROLLMENT;
    ProvisionerTable(p, length, v);
  }

  /** Users come back unchanged, bound to the one user issuer. */
  lemma UsersKept(p: Policy, length: string -> nat, u: User)
    requires UsersValid(p)
    ensures u in LoadedUsers(Documented(p, length)) <==> u in p.users
  {
    var d := Documented(p, length);
    UserTable(p, length);
    var piece := user => LoadedUser(d, user);
    if u in LoadedUsers(d) {
      var k :| k in SortedKeys(d.users.Keys) && u in piece(k);
      var x :| x in p.users && x.user == k;
    }
    if u in p.users { assert u in piece(u.user) && u.user in SortedKeys(d.users.Keys); }
  }

  // ---- What the policy allows ----

  /** A login is authorized by an active row with `allow_ssh` of an active user. */
  ghost predicate Authorizes(p: Policy, user: string, host: string, account: string) {
    && GrantsTo(RemotesAt(p.remotes, host, user), account)
    && (exists u :: u in p.users && u.user == user && u.status == Active)
  }

  /** Enrollment needs an active user and an active row for the source host. */
  ghost predicate MayEnroll(p: Policy, user: string, host: string) {
    && (exists c :: c in ClientsAt(p.clients, host, user) && c.status == Active)
    && (exists u :: u in p.users && u.user == user && u.status == Active)
  }

  predicate GrantsTo(rows: seq<Remote>, account: string) {
    exists r :: r in rows && r.account == account && r.allowSsh && r.status == Active
  }

  lemma RecordedGrants(rows: seq<Remote>, again: seq<Remote>, account: string)
    requires AllRecorded(rows, again)
    ensures GrantsTo(again, account) <==> GrantsTo(rows, account)
  {
    if GrantsTo(again, account) {
      var r :| r in again && r.account == account && r.allowSsh && r.status == Active;
      var i :| 0 <= i < |again| && again[i] == r;
      assert rows[i] in rows;
    }
    if GrantsTo(rows, account) {
      var r :| r in rows && r.account == account && r.allowSsh && r.status == Active;
      var i :| 0 <= i < |rows| && rows[i] == r;
      assert again[i] in again;
    }
  }

  /**
   Writing a valid policy and loading it back keeps every user and enrollment row, and authorizes a
   login or an enrollment exactly when the original did.
   */
  lemma AuthorizationKept(p: Policy, length: string -> nat, user: string, host: string, account: string)
    requires WellFormed(p)
    ensures var q := Loaded(Documented(p, length));
            && (Authorizes(q, user, host, account) <==> Authorizes(p, user, host, account))
            && (MayEnroll(q, user, host) <==> MayEnroll(p, user, host))
            && ClientsAt(q.clients, host, user) == ClientsAt(p.clients, host, user)
  {
    var q := Loaded(Documented(p, length));
    RemotesKept(p, length, host, user);
    RecordedGrants(RemotesAt(p.remotes, host, user), RemotesAt(q.remotes, host, user), account);
    ClientsKept(p, length, host, user);
    forall u ensures u in q.users <==> u in p.users { UsersKept(p, length, u); }
    SameAuthorization(p, q, user, host, account);
  }

  lemma SameAuthorization(p: Policy, q: Policy, user: string, host: string, account: string)
    requires GrantsTo(RemotesAt(q.remotes, host, user), account) <==>
             GrantsTo(RemotesAt(p.remotes, host, user), account)
    requires ClientsAt(q.clients, host, user) == ClientsAt(p.clients, host, user) && forall u :: u in q.users <==>
             u in p.users
    ensures Authorizes(q, user, host, account) <==> Authorizes(p, user, host, account)
    ensures MayEnroll(q, user, host) <==> MayEnroll(p, user, host)
  {}

  lemma ProvisionerTable(p: Policy, length: string -> nat, v: Provisioner)
    requires UsersValid(p) && v in p.provisioners
    ensures v.role in Documented(p, length).provisioners
    ensures Documented(p, length).provisioners[v.role] == WriteProvisioner(v, p.users, length)
  {
    CollectExact(p.provisioners, ProvisionerRole, w => WriteProvisioner(w, p.users, length));
  }

  lemma InLoadedProvisioners(d: Documents, role: string)
    requires role in d.provisioners && ExpectedKind(role).Some?
    ensures ReadProvisioner(role, ExpectedKind(role).value, d.provisioners[role]) in LoadedProvisioners(d)
  {
    RolesAreKnown(role);
    var piece := role => ProvisionerAt(d, role);
    assert role in ROLES && ReadProvisioner(role, ExpectedKind(role).value, d.provisioners[role]) in piece(role);
  }

  /** The effective renewal lifetimes of a provisioner keep their length, however its settings are spelled. */
  lemma RenewalLifetimesKept(p: Policy, length: string -> nat, v: Provisioner)
    requires WellFormed(p) && RolesKnown(p) && v in p.provisioners
    ensures var d, again := Documented(p, length), ReadProvisioner(v.role, v.kind,
            WriteProvisioner(v, p.users, length));
            && again in LoadedProvisioners(d)
            && again.RenewalDefault() == v.RenewalDefault()
            && length(RenewalMax(LoadedUsers(d), again, length)) == length(RenewalMax(p.users, v, length))
  {
    var d := Documented(p, length);
    ProvisionerTable(p, length, v);
    InLoadedProvisioners(d, v.role);
    forall u ensures u in LoadedUsers(d) <==> u in p.users { UsersKept(p, length, u); }
    SameLongest(p.users, LoadedUsers(d), v, ReadProvisioner(v.role, v.kind, WriteProvisioner(v, p.users, length)),
        length);
  }

  /** The longest candidate's length does not depend on the order of the users. */
  lemma SameLongest(users: seq<User>, others: seq<User>, v: Provisioner, w: Provisioner, length: string -> nat)
    requires (forall u :: u in users <==> u in others) && v.name == w.name && v.maxTtl == w.maxTtl
             && v.RenewalDefault() == w.RenewalDefault()
    ensures length(Inferred(users, v, length)) == length(Inferred(others, w, length))
  {
    var a, b := UserTtls(users, v.name) + [v.RenewalDefault()], UserTtls(others, w.name) + [w.RenewalDefault()];
    assert forall t :: t in a <==> t in b;
  }

  // ---- When one pass is a fixed point ----

  function Names(users: seq<User>): seq<string> { seq(|users|, i requires 0 <= i < |users| => users[i].user) }

  function Named(users: seq<User>, name: string): seq<User> { Filter(users, (u: User) => u.user == name) }

  /** Users in key order. */
  function SortedUsers(users: seq<User>): seq<User> {
    Concat(SortedKeys(SetOf(Names(users))), name => Named(users, name))
  }

  lemma NamedFinds(users: seq<User>, x: User)
    requires UniqueKeys(users, UserName) && x in users
    ensures Named(users, x.user) == [x]
  {
    FilterUnique(users, UserName, (u: User) => u.user == x.user, x);
  }

  /** Sorting changes nothing when the users are already in key order. */
  lemma SortedInOrder(users: seq<User>)
    requires UniqueKeys(users, UserName) && InOrder(Names(users))
    ensures SortedUsers(users) == users
  {
    var names, piece := Names(users), name => Named(users, name);
    assert Distinct(names) by { assert forall i :: 0 <= i < |users| ==> names[i] == UserName(users[i]); }
    SortingOrdered(names);
    forall i | 0 <= i < |names| ensures piece(names[i]) == [users[i]] { NamedFinds(users, users[i]); }
    ConcatSingles(names, piece, users);
  }

  lemma UserKeys(p: Policy, length: string -> nat)
    requires UsersValid(p)
    ensures Documented(p, length).users.Keys == SetOf(Names(p.users))
  {
    var d := Documented(p, length);
    UserTable(p, length);
    forall u ensures u in d.users <==> u in Names(p.users) {
      if u in Names(p.users) { var i :| 0 <= i < |p.users| && Names(p.users)[i] == u; assert p.users[i] in p.users; }
      if x :| x in p.users && x.user == u {
        var i :| 0 <= i < |p.users| && p.users[i] == x;
        assert Names(p.users)[i] == u;
      }
    }
  }

  /** Loading reads the users back in key order. */
  lemma UsersLoadSorted(p: Policy, length: string -> nat)
    requires UsersValid(p)
    ensures LoadedUsers(Documented(p, length)) == SortedUsers(p.users)
  {
    var d, keys := Documented(p, length), SortedKeys(SetOf(Names(p.users)));
    UserTable(p, length);
    UserKeys(p, length);
    forall u | u in keys ensures LoadedUser(d, u) == Named(p.users, u) {
      assert u in d.users;
      var x :| x in p.users && x.user == u;
      NamedFinds(p.users, x);
    }
    SamePieces(keys, u => LoadedUser(d, u), u => Named(p.users, u));
  }

  /**
   The provisioner spells out the renewal maximum that its users in key order infer, while in their
   own order they infer another spelling.
   */
  predicate OrderMatters(users: seq<User>, v: Provisioner, length: string -> nat) {
    var sorted := Inferred(SortedUsers(users), v, length);
    v.renewalMaxTtl == Some(sorted) && Inferred(users, v, length) != sorted
  }

  lemma SettledWhenOrderIsIdle(p: Policy, length: string -> nat, v: Provisioner)
    requires WellFormed(p) && RolesKnown(p) && v in p.provisioners
    ensures var d := Documented(p, length);
            && KnownRoles(d) && v.role in d.provisioners
            && (Settled(d, v.role, LoadedUsers(d), length) <==> !OrderMatters(p.users, v, length))
  {
    var d := Documented(p, length);
    ProvisionerKeys(p, length);
    ProvisionerTable(p, length, v);
    UsersLoadSorted(p, length);
    InferredFromWritten(SortedUsers(p.users), v, ReadProvisioner(v.role, v.kind, WriteProvisioner(v, p.users, length)),
        length);
  }

  lemma InferredFromWritten(users: seq<User>, v: Provisioner, w: Provisioner, length: string -> nat)
    requires v.name == w.name && v.maxTtl == w.maxTtl && v.RenewalDefault() == w.RenewalDefault()
    ensures Inferred(users, v, length) == Inferred(users, w, length)
  {}

  /** The documents of a policy come back unchanged from one more pass exactly when the order of its users is idle. */
  lemma OnePassIsExact(p: Policy, length: string -> nat)
    requires WellFormed(p) && RolesKnown(p)
    ensures Documented(Loaded(Documented(p, length)), length) == Documented(p, length)
            <==> forall v :: v in p.provisioners ==> !OrderMatters(p.users, v, length)
  {
    var d := Documented(p, length);
    ProvisionerKeys(p, length);
    WrittenIsNormal(p, length);
    RewriteIsExact(d, length);
    CollectExact(p.provisioners, ProvisionerRole, v => WriteProvisioner(v, p.users, length));
    forall v | v in p.provisioners
      ensures v.role in d.provisioners
              && (Settled(d, v.role, LoadedUsers(d), length) <==> !OrderMatters(p.users, v, length))
    {
      SettledWhenOrderIsIdle(p, length, v);
    }
  }

  /** With its users in key order, every valid policy needs one pass only. */
  lemma OrderedUsersNeedOnePass(p: Policy, length: string -> nat)
    requires WellFormed(p) && RolesKnown(p) && InOrder(Names(p.users))
    ensures Documented(Loaded(Documented(p, length)), length) == Documented(p, length)
  {
    SortedInOrder(p.users);
    OnePassIsExact(p, length);
  }

  // ---- One pass is not always enough ----

  const LATER := User("b", "b", "n", "1h", false, Active)
  const EARLIER := User("a", "a", "n", "60m", false, Active)
  const ISSUER := Provisioner(USER_ENROLLMENT, "n", "JWK", "30m", UNLIMITED, None, Some("1h"), Active)

  /** Two users out of key order whose lifetimes are equally long but spelled differently. */
  function Unsorted(): Policy { Sample([LATER, EARLIER], [ISSUER]) }

  lemma SortedPair()
    ensures SortedKeys({"a", "b"}) == ["a", "b"]
  {
    var keys := {"a", "b"};
    assert Before("a", "b") && !Before("b", "a");
    assert Least(keys) == "a";
    assert keys - {"a"} == {"b"};
    assert Least({"b"}) == "b" && {"b"} - {"b"} == {};
  }

  lemma InferredInOrder(first: User, second: User, v: Provisioner, length: string -> nat)
    requires first.status == Active && second.status == Active && first.provisioner == v.name
             && second.provisioner == v.name
    requires v.maxTtl == UNLIMITED && length(first.certTtl) == length(second.certTtl) > length(v.RenewalDefault())
    ensures Inferred([first, second], v, length) == second.certTtl
  {
    assert UserTtls([second], v.name) == [second.certTtl];
    assert [first, second][1..] == [second];
    var all := UserTtls([first, second], v.name) + [v.RenewalDefault()];
    assert all == [first.certTtl, second.certTtl, v.RenewalDefault()];
    assert all[..2] == [first.certTtl, second.certTtl] && all[..2][..1] == [first.certTtl];
    assert LastLongest(all[..2], length) == second.certTtl;
  }

  lemma UnsortedIsWellFormed()
    ensures WellFormed(Unsorted()) && RolesKnown(Unsorted())
  {
    SampleEndpointsValid([LATER, EARLIER], [ISSUER]);
    assert ISSUER in Unsorted().provisioners;
    assert LATER.user[0] == 'b' && EARLIER.user[0] == 'a';
  }

  lemma UnsortedLifetimes(length: string -> nat)
    requires length("1h") == length("60m") > length("30m")
    ensures LifetimesValid(Unsorted(), length)
  {
    assert ISSUER.RenewalDefault() == "30m" && RenewalMax(Unsorted().users, ISSUER, length) == "1h";
  }

  lemma UnsortedNames()
    ensures UniqueKeys(Unsorted().users, Principal)
    ensures forall u :: u in Unsorted().users ==> u.user != "root" && u.principal != "root"
  {
    assert LATER.principal[0] == 'b' && EARLIER.principal[0] == 'a';
    assert |"root"| == 4 && |LATER.user| == 1 && |EARLIER.user| == 1;
  }

  lemma UnsortedIsValidated(length: string -> nat)
    requires length("1h") == length("60m") > length("30m")
    ensures BareValidated(Unsorted(), length)
  {
    UnsortedIsWellFormed();
    SampleEndpointsValid([LATER, EARLIER], [ISSUER]);
    UnsortedLifetimes(length);
    UnsortedNames();
  }

  lemma SwappedSorted(first: User, second: User)
    requires first.user == "a" && second.user == "b"
    ensures SortedUsers([second, first]) == [first, second]
  {
    var users, piece := [second, first], name => Named([second, first], name);
    assert Names(users) == ["b", "a"];
    assert SetOf(Names(users)) == {"a", "b"} by { assert Names(users)[0] == "b" && Names(users)[1] == "a"; }
    SwappedNamed(first, second);
    SortedPair();
    ConcatSingles(["a", "b"], piece, [first, second]);
  }

  lemma SwappedNamed(first: User, second: User)
    requires first.user == "a" && second.user == "b"
    ensures Named([second, first], "a") == [first] && Named([second, first], "b") == [second]
  {
    assert UserName(first)[0] != UserName(second)[0];
    NamedFinds([second, first], first);
    NamedFinds([second, first], second);
  }

  /**
   The inferred maximum depends on the order of the users, so this valid policy's first rewriting is
   rewritten once more.
   */
  lemma OnePassIsNotEnough(length: string -> nat)
    requires length("1h") == length("60m") > length("30m")
    ensures BareValidated(Unsorted(), length) && RolesKnown(Unsorted())
    ensures Documented(Loaded(Documented(Unsorted(), length)), length) != Documented(Unsorted(), length)
  {
    UnsortedIsValidated(length);
    UnsortedIsWellFormed();
    SwappedSorted(EARLIER, LATER);
    InferredInOrder(LATER, EARLIER, ISSUER, length);
    InferredInOrder(EARLIER, LATER, ISSUER, length);
    assert |"1h"| == 2 && |"60m"| == 3;
    assert ISSUER in Unsorted().provisioners && OrderMatters(Unsorted().users, ISSUER, length);
    OnePassIsExact(Unsorted(), length);
  }
}
