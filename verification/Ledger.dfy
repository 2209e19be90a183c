/**
 The tracked revocation ledger and the update a revocation prepares for it
 (`prepare_revocation_policy_update` in src/bin/grafhome-ca.rs, `Policy::validate_revocations`).
 */
module Ledger {
  import opened Wrappers
  import opened Names
  import opened Registry
  import Json

  datatype Tombstone = Tombstone(
    identity: Identity, key: CertifiedKey, jwk: Json.Value, at: Instant, reason: Option<string>)

  /** SSH and X.509 tombstones, in file order. */
  datatype Ledger = Ledger(ssh: seq<Tombstone>, x509: seq<Tombstone>)

  function ToTombstone(r: Record, at: Instant, reason: Option<string>): Tombstone {
    Tombstone(r.identity, r.key, r.jwk, at, reason)
  }

  /** The key two tombstones of one list may not share: SSH users and hosts are counted apart. */
  datatype Slot = Slot(user: bool, key: CertifiedKey)

  function SlotOf(identity: Identity, key: CertifiedKey): Slot { Slot(identity.User?, key) }

  predicate Unique(list: seq<Tombstone>) {
    forall i, j :: 0 <= i < j < |list| ==>
      SlotOf(list[i].identity, list[i].key) != SlotOf(list[j].identity, list[j].key) && list[i].jwk != list[j].jwk
  }

  predicate LedgerValid(l: Ledger) {
    && Unique(l.ssh) && Unique(l.x509)
    && (forall t :: t in l.ssh ==> !t.identity.X509?) && (forall t :: t in l.x509 ==> t.identity.X509?)
  }

  /** Approval's check: either key, across every credential type. */
  predicate Tombstoned(l: Ledger, key: CertifiedKey, jwk: Json.Value) {
    exists t :: t in l.ssh + l.x509 && (t.key == key || t.jwk == jwk)
  }

  predicate Extends(l: Ledger, next: Ledger) { l.ssh <= next.ssh && l.x509 <= next.x509 }

  /** The list a record's tombstone belongs to. */
  function ListFor(l: Ledger, id: Identity): seq<Tombstone> { if id.X509? then l.x509 else l.ssh }

  /** Whether the ledger already holds a record's certified key in the record's own slot. */
  predicate Recorded(l: Ledger, r: Record) {
    exists t :: t in ListFor(l, r.identity) && SlotOf(t.identity, t.key) == SlotOf(r.identity, r.key)
  }

  function Append(l: Ledger, r: Record, at: Instant, reason: Option<string>): Ledger {
    if Recorded(l, r) then l
    else if r.identity.X509? then l.(x509 := l.x509 + [ToTombstone(r, at, reason)])
    else l.(ssh := l.ssh + [ToTombstone(r, at, reason)])
  }

  function AppendAll(l: Ledger, records: seq<Record>, at: Instant, reason: Option<string>): Ledger
    decreases |records|
  {
    if records == [] then l else AppendAll(Append(l, records[0], at, reason), records[1..], at, reason)
  }

  /** The prepared update: appended tombstones, refused when the result is not a valid policy. */
  function Prepare(l: Ledger, records: seq<Record>, at: Instant, reason: Option<string>): Option<Ledger> {
    var next := AppendAll(l, records, at, reason);
    if LedgerValid(next) then Some(next) else None
  }

  lemma RecordedStays(l: Ledger, next: Ledger, r: Record)
    requires Extends(l, next) && Recorded(l, r)
    ensures Recorded(next, r)
  {
    var t :| t in ListFor(l, r.identity) && SlotOf(t.identity, t.key) == SlotOf(r.identity, r.key);
    assert t in ListFor(next, r.identity);
  }

  lemma AppendRecords(l: Ledger, r: Record, at: Instant, reason: Option<string>)
    ensures Extends(l, Append(l, r, at, reason)) && Recorded(Append(l, r, at, reason), r)
  {
    if !Recorded(l, r) {
      assert ToTombstone(r, at, reason) in ListFor(Append(l, r, at, reason), r.identity);
    }
  }

  /** Tombstones are only appended, and afterwards every selected key is recorded. */
  lemma {:induction false} AppendAllRecords(l: Ledger, records: seq<Record>, at: Instant, reason: Option<string>)
    ensures Extends(l, AppendAll(l, records, at, reason))
    ensures forall r :: r in records ==> Recorded(AppendAll(l, records, at, reason), r)
    decreases |records|
  {
    if records != [] {
      var next := Append(l, records[0], at, reason);
      AppendRecords(l, records[0], at, reason);
      AppendAllRecords(next, records[1..], at, reason);
      RecordedStays(next, AppendAll(l, records, at, reason), records[0]);
    }
  }

  /** Nothing is added for keys already recorded. */
  lemma {:induction false} AppendRecordedAgain(l: Ledger, records: seq<Record>, at: Instant, reason: Option<string>)
    requires forall r :: r in records ==> Recorded(l, r)
    ensures AppendAll(l, records, at, reason) == l
    decreases |records|
  {
    if records != [] { AppendRecordedAgain(l, records[1..], at, reason); }
  }

  /** Each tombstone carries the identity kind and both keys of some record. */
  predicate Backed(l: Ledger, records: seq<Record>) {
    forall t :: t in l.ssh + l.x509 ==>
      exists r :: r in records && r.key == t.key && r.jwk == t.jwk && r.identity.X509? == t.identity.X509?
          && r.identity.User? == t.identity.User?
  }

  /** An unrecorded record of the registry shares neither its slot nor its JWK with the ledger. */
  lemma UnrecordedIsNew(l: Ledger, registry: seq<Record>, r: Record, t: Tombstone)
    requires Backed(l, registry) && Distinct(registry) && r in registry && !Recorded(l, r)
    requires t in ListFor(l, r.identity)
    ensures t.jwk != r.jwk && SlotOf(t.identity, t.key) != SlotOf(r.identity, r.key)
  {
    assert t in l.ssh + l.x509;
    var b :| b in registry && b.key == t.key && b.jwk == t.jwk && b.identity.X509? == t.identity.X509?
        && b.identity.User? == t.identity.User?;
    if t.jwk == r.jwk {
      SharedKeyMeansSame(registry, b, r);
    }
  }

  lemma AppendKeepsUnique(list: seq<Tombstone>, t: Tombstone)
    requires Unique(list)
    requires forall x :: x in list ==> SlotOf(x.identity, x.key) != SlotOf(t.identity, t.key) && x.jwk != t.jwk
    ensures Unique(list + [t])
  {
    forall i, j | 0 <= i < j < |list + [t]|
      ensures SlotOf((list + [t])[i].identity, (list + [t])[i].key)
              != SlotOf((list + [t])[j].identity, (list + [t])[j].key)
      ensures (list + [t])[i].jwk != (list + [t])[j].jwk
    {
      assert (list + [t])[i] == list[i] && list[i] in list;
    }
  }

  lemma AppendKeepsLedger(l: Ledger, registry: seq<Record>, r: Record, at: Instant, reason: Option<string>)
    requires LedgerValid(l) && Backed(l, registry) && Distinct(registry) && r in registry
    ensures LedgerValid(Append(l, r, at, reason))
  {
    if !Recorded(l, r) {
      var list, t := ListFor(l, r.identity), ToTombstone(r, at, reason);
      forall x | x in list ensures SlotOf(x.identity, x.key) != SlotOf(t.identity, t.key) && x.jwk != t.jwk {
        UnrecordedIsNew(l, registry, r, x);
      }
      AppendKeepsUnique(list, t);
    }
  }

  lemma AppendKeepsBacked(l: Ledger, registry: seq<Record>, r: Record, at: Instant, reason: Option<string>)
    requires Backed(l, registry) && r in registry
    ensures Backed(Append(l, r, at, reason), registry)
  {
    var next := Append(l, r, at, reason);
    forall t | t in next.ssh + next.x509
      ensures exists r ::
                r in registry && r.key == t.key && r.jwk == t.jwk && r.identity.X509? == t.identity.X509?
                && r.identity.User? == t.identity.User?
    {
      if t !in l.ssh + l.x509 { assert t == ToTombstone(r, at, reason); }
    }
  }

  lemma SharedKeyMeansSame(registry: seq<Record>, a: Record, b: Record)
    requires Distinct(registry) && a in registry && b in registry && a.SharesKey(b)
    ensures a == b
  {
    var i :| 0 <= i < |registry| && registry[i] == a;
    var j :| 0 <= j < |registry| && registry[j] == b;
    var x, y := registry[i], registry[j];
    assert (i < j ==> Compatible(x, y)) && (j < i ==> Compatible(y, x));
  }

  /** When the registry backs the ledger, revoking its records never produces an invalid ledger. */
  lemma {:induction false} PrepareNeverRefused(
    l: Ledger, registry: seq<Record>, records: seq<Record>, at: Instant, reason: Option<string>)
    requires LedgerValid(l) && Backed(l, registry) && Distinct(registry)
    requires forall r :: r in records ==> r in registry
    ensures Prepare(l, records, at, reason) == Some(AppendAll(l, records, at, reason))
    ensures Backed(AppendAll(l, records, at, reason), registry)
    decreases |records|
  {
    if records != [] {
      var next := Append(l, records[0], at, reason);
      assert records[0] in registry;
      AppendKeepsLedger(l, registry, records[0], at, reason);
      AppendKeepsBacked(l, registry, records[0], at, reason);
      PrepareNeverRefused(next, registry, records[1..], at, reason);
    }
  }

  /** A recorded key is tombstoned. */
  lemma RecordedIsTombstoned(l: Ledger, r: Record)
    requires Recorded(l, r)
    ensures Tombstoned(l, r.key, r.jwk)
  {
    var t :| t in ListFor(l, r.identity) && SlotOf(t.identity, t.key) == SlotOf(r.identity, r.key);
    assert t in l.ssh + l.x509;
  }

  lemma TombstonedStays(l: Ledger, next: Ledger, key: CertifiedKey, jwk: Json.Value)
    requires Extends(l, next) && Tombstoned(l, key, jwk)
    ensures Tombstoned(next, key, jwk)
  {
    var t :| t in l.ssh + l.x509 && (t.key == key || t.jwk == jwk);
    assert t in next.ssh + next.x509;
  }

  function Slots(list: seq<Tombstone>): set<Slot> { set t | t in list :: SlotOf(t.identity, t.key) }

  /** The source's loop: two sets of seen keys decide which records are pushed. */
  method PrepareUpdate(l: Ledger, records: seq<Record>, at: Instant, reason: Option<string>)
    returns (next: Option<Ledger>)
    ensures next == Prepare(l, records, at, reason)
  {
    var ssh, x509 := l.ssh, l.x509;
    var seenSsh, seenX509 := Slots(ssh), Slots(x509);
    for i := 0 to |records|
      invariant seenSsh == Slots(ssh) && seenX509 == Slots(x509)
      invariant AppendAll(Ledger(ssh, x509), records[i..], at, reason) == AppendAll(l, records, at, reason)
    {
      var r := records[i];
      ghost var current := Ledger(ssh, x509);
      assert records[i..][0] == r && records[i..][1..] == records[i + 1..];
      var entry := ToTombstone(r, at, reason);
      var slot := SlotOf(r.identity, r.key);
      assert Recorded(current, r) <==> slot in Slots(ListFor(current, r.identity));
      if r.identity.X509? {
        if slot !in seenX509 {
          assert forall t :: t in x509 + [entry] <==> t in x509 || t == entry;
          seenX509 := seenX509 + {slot};
          x509 := x509 + [entry];
        }
      } else if slot !in seenSsh {
        assert forall t :: t in ssh + [entry] <==> t in ssh || t == entry;
        seenSsh := seenSsh + {slot};
        ssh := ssh + [entry];
      }
      assert Ledger(ssh, x509) == Append(current, r, at, reason);
    }
    next := if LedgerValid(Ledger(ssh, x509)) then Some(Ledger(ssh, x509)) else None;
  }
}
