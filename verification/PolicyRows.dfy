/**
 What reading canonical documents gives row by row, in what order, and exactly which documents are
 refused (`load` in src/policy/document.rs).
 */
module PolicyRows {
  import opened Wrappers
  import opened Rows
  import opened PolicyDocuments
  import Ledger
  import Registry

  // ---- Which documents are refused ----

  /** An enrollment that is allowed, or says at least one thing about itself. */
  predicate Meaningful(e: Enrollment) { e != Enabled(false) && e != Options(None, None) }

  predicate Sound(host: string, h: HostDocument) {
    && Registry.ValidHostName(host) && (forall n :: n in h.certs ==> h.certs[n].afterRenew != Some([]))
    && (forall u :: u in h.access && h.access[u].enrollment.Some? ==> Meaningful(h.access[u].enrollment.value))
  }

  lemma SoundExactly(host: string, h: HostDocument)
    ensures Sound(host, h) <==> Registry.ValidHostName(host) && Readable(h)
  {
    forall e: Enrollment ensures Meaningful(e) <==> ReadableEnrollment(e) {}
  }

  /**
   Documents load exactly when their revocations are of format 1, each provisioner has one of the three
   roles, there is a user issuer if there are users, and every host document is sound.
   */
  lemma DocumentsLoadExactly(d: Documents)
    ensures Load(d).Ok? <==>
            && (d.revocations.Some? ==> d.revocations.value.formatVersion == 1)
            && (forall role :: role in d.provisioners ==>
                  role == "host_bootstrap" || role == "user_enrollment" || role == "proxy_x509")
            && (d.users != map[] ==> "user_enrollment" in d.provisioners)
            && (forall h :: h in d.hosts ==> Sound(h, d.hosts[h]))
  {
    forall h | h in d.hosts ensures Sound(h, d.hosts[h]) <==> Registry.ValidHostName(h) && Readable(d.hosts[h]) {
      SoundExactly(h, d.hosts[h]);
    }
    forall role | role in d.provisioners
      ensures ExpectedKind(role).Some? <==>
              role == "host_bootstrap" || role == "user_enrollment" || role == "proxy_x509"
    {}
  }

  // ---- What the rows hold ----

  lemma PieceOf<T(!new)>(keys: seq<string>, piece: string -> seq<T>, x: T) returns (k: string)
    requires x in Concat(keys, piece)
    ensures k in keys && x in piece(k)
  {
    k :| k in keys && x in piece(k);
  }

  /** An endpoint row is its document over https. */
  lemma EndpointRows(d: Documents, e: Endpoint)
    ensures e in Loaded(d).endpoints <==>
            e.role in d.endpoints && e.scheme == "https"
            && d.endpoints[e.role] == EndpointPolicy(e.dnsName, e.target, e.address, e.port)
  {
    var piece := role => LoadedEndpoint(d, role);
    if e in Loaded(d).endpoints { var k := PieceOf(SortedKeys(d.endpoints.Keys), piece, e); }
    if e.role in d.endpoints { assert e.role in SortedKeys(d.endpoints.Keys) && |piece(e.role)| == 1; }
    if e.role in d.endpoints && e in piece(e.role) { assert e in Loaded(d).endpoints; }
  }

  /** A provisioner row is its document, of the one type its role allows. */
  lemma ProvisionerRows(d: Documents, v: Provisioner)
    requires KnownRoles(d)
    ensures v in Loaded(d).provisioners <==>
            && v.role in d.provisioners && v.kind == (if v.role == "proxy_x509" then "ACME" else "JWK")
            && d.provisioners[v.role] == ProvisionerPolicy(v.name, v.defaultTtl, v.maxTtl, v.renewalDefaultTtl,
                v.renewalMaxTtl, v.status)
  {
    var piece := role => ProvisionerAt(d, role);
    KindsExactly(v.role);
    if v in Loaded(d).provisioners { var k := PieceOf(ROLES, piece, v); }
    if v.role in d.provisioners && v in ProvisionerAt(d, v.role) {
      RolesAreKnown(v.role);
      assert v in piece(v.role) && v.role in ROLES;
    }
  }

  lemma KindsExactly(role: string)
    ensures ExpectedKind(role).Some? ==> ExpectedKind(role) == Some(if role == "proxy_x509" then "ACME" else "JWK")
  {
    assert HOST_BOOTSTRAP[0] == 'h' && USER_ENROLLMENT[0] == 'u' && PROXY_X509[0] == 'p';
  }

  /** A user row is its document, bound to the user issuer; a principal left out is the user's own name. */
  lemma UserRows(d: Documents, u: User)
    requires "user_enrollment" in d.provisioners
    ensures u in Loaded(d).users <==>
            && u.user in d.users && u.provisioner == d.provisioners["user_enrollment"].name
            && u.certTtl == d.users[u.user].certTtl && u.sshAdmin == d.users[u.user].sshAdmin
            && u.status == d.users[u.user].status
            && (match d.users[u.user].principal case Some(p) => u.principal == p case None => u.principal == u.user)
  {
    var piece := user => LoadedUser(d, user);
    if u in Loaded(d).users { var k := PieceOf(SortedKeys(d.users.Keys), piece, u); }
    if u.user in d.users { assert u.user in SortedKeys(d.users.Keys) && |piece(u.user)| == 1; }
    if u.user in d.users && u in piece(u.user) { assert u in Concat(SortedKeys(d.users.Keys), piece); }
  }

  /** A host row is its document. */
  lemma HostRows(d: Documents, h: Host)
    ensures h in Loaded(d).hosts <==>
            h.host in d.hosts && h.sshRoles == d.hosts[h.host].sshRoles && h.principals == d.hosts[h.host].principals
  {
    var piece := host => LoadedHost(d, host);
    if h in Loaded(d).hosts { var k := PieceOf(HostOrder(d.hosts.Keys), piece, h); }
    if h.host in d.hosts { assert h.host in HostOrder(d.hosts.Keys) && |piece(h.host)| == 1; }
    if h.host in d.hosts && h in piece(h.host) { assert h in Concat(HostOrder(d.hosts.Keys), piece); }
  }

  /** Hosts come in the order of their file names, and every other table in the order of its keys. */
  lemma {:induction false} HostsInFileOrder(hosts: set<string>)
    ensures forall i, j :: 0 <= i < j < |HostOrder(hosts)| ==>
              Before(HostOrder(hosts)[i] + ".toml", HostOrder(hosts)[j] + ".toml")
  {
    var files := SortedKeys(FilesOf(hosts));
    KeysInOrder(FilesOf(hosts));
    StemsOfFiles(hosts, files);
    forall i | 0 <= i < |files| ensures files[i] == HostOrder(hosts)[i] + ".toml" {
      assert files[i] in files;
      var h :| h in hosts && files[i] == h + EXTENSION;
      StemOfFile(h);
    }
  }

  // ---- The inferred renewal maximum ----

  /** The last of the longest candidates. */
  predicate LastOfLongest(candidates: seq<string>, length: string -> nat, i: nat) {
    && i < |candidates| && (forall j :: 0 <= j < i ==> length(candidates[j]) <= length(candidates[i]))
    && (forall j :: i < j < |candidates| ==> length(candidates[j]) < length(candidates[i]))
  }

  lemma LastOfLongestSnoc(init: seq<string>, last: string, length: string -> nat, k: nat)
    requires LastOfLongest(init, length, k)
    ensures LastOfLongest(init + [last], length, if length(last) >= length(init[k]) then |init| else k)
  {
    var all := init + [last];
    assert all[|init|] == last && forall j :: 0 <= j < |init| ==> all[j] == init[j];
  }

  lemma {:induction false} LastLongestIsLast(candidates: seq<string>, length: string -> nat) returns (i: nat)
    requires candidates != []
    ensures LastOfLongest(candidates, length, i) && LastLongest(candidates, length) == candidates[i]
  {
    var last := |candidates| - 1;
    i := last;
    if last > 0 {
      var k := LastLongestIsLast(candidates[..last], length);
      LastOfLongestSnoc(candidates[..last], candidates[last], length, k);
      assert candidates == candidates[..last] + [candidates[last]];
      i := if length(candidates[last]) >= length(candidates[k]) then last else k;
    }
  }

  // ---- What writing and reading keep ----

  /** Writing a valid policy and reading it back keeps every endpoint over https, every host and every revocation. */
  lemma RestKept(p: Policy, length: string -> nat)
    requires WellFormed(p) && forall e :: e in p.endpoints ==> e.scheme == "https"
    ensures var q := Loaded(Documented(p, length));
            && (forall e :: e in q.endpoints <==> e in p.endpoints) && (forall h :: h in q.hosts <==> h in p.hosts)
            && q.requireSshAdmin == p.requireSshAdmin && q.revoked == p.revoked
  {
    var d := Documented(p, length);
    CollectExact(p.endpoints, EndpointRole, WriteEndpoint);
    forall e ensures e in Loaded(d).endpoints <==> e in p.endpoints { EndpointKept(p, length, e); }
    forall h ensures h in Loaded(d).hosts <==> h in p.hosts { HostKept(p, length, h); }
  }

  lemma EndpointKept(p: Policy, length: string -> nat, e: Endpoint)
    requires UniqueKeys(p.endpoints, EndpointRole) && forall x :: x in p.endpoints ==> x.scheme == "https"
    ensures e in Loaded(Documented(p, length)).endpoints <==> e in p.endpoints
  {
    var d := Documented(p, length);
    EndpointRows(d, e);
    CollectExact(p.endpoints, EndpointRole, WriteEndpoint);
    if e.role in d.endpoints {
      var x :| x in p.endpoints && EndpointRole(x) == e.role;
      assert d.endpoints[EndpointRole(x)] == WriteEndpoint(x);
    }
    if e in p.endpoints { assert d.endpoints[EndpointRole(e)] == WriteEndpoint(e); }
  }

  lemma HostKept(p: Policy, length: string -> nat, h: Host)
    requires RowsValid(p)
    ensures h in Loaded(Documented(p, length)).hosts <==> h in p.hosts
  {
    var d := Documented(p, length);
    HostRows(d, h);
    HostTable(p, length);
    if h.host in d.hosts {
      var x :| x in p.hosts && x.host == h.host;
      assert d.hosts[x.host] == WriteHost(p, x);
    }
  }
}
