/** Rerunning an interrupted command of the CA origin to completion. */
module CaRecovery {
  import opened Wrappers
  import opened Json
  import opened Names
  import opened Registry
  import opened Ledger
  import opened Issuers
  import opened CaOrigin
  import opened CaSafety
  import opened CaActive
  import Text

  // ---- Equality up to timestamps ----

  predicate SameTombstones(a: seq<Tombstone>, b: seq<Tombstone>) {
    |a| == |b| && forall i :: 0 <= i < |a| ==> a[i] == b[i].(at := a[i].at, reason := a[i].reason)
  }

  predicate SameLedger(l: Ledger, m: Ledger) { SameTombstones(l.ssh, m.ssh) && SameTombstones(l.x509, m.x509) }

  predicate SameRegistry(a: seq<Record>, b: seq<Record>) {
    |a| == |b| && forall i :: 0 <= i < |a| ==>
      (a[i].revokedAt.Some? <==> b[i].revokedAt.Some?)
          && a[i] == b[i].(enrolledAt := a[i].enrolledAt, revokedAt := a[i].revokedAt)
  }

  /** Stores equal up to the times and reasons they record. */
  predicate SameStore(a: Store, b: Store) {
    a.ca == b.ca && SameLedger(a.ledger, b.ledger) && SameRegistry(a.registry, b.registry)
  }

  lemma SameStoreTransitive(a: Store, b: Store, c: Store)
    requires SameStore(a, b) && SameStore(b, c)
    ensures SameStore(a, c)
  {}

  lemma SameRecorded(l: Ledger, m: Ledger, r: Record)
    requires SameLedger(l, m) && Recorded(l, r)
    ensures Recorded(m, r)
  {
    var list := ListFor(l, r.identity);
    var t :| t in list && SlotOf(t.identity, t.key) == SlotOf(r.identity, r.key);
    var i :| 0 <= i < |list| && list[i] == t;
    assert ListFor(m, r.identity)[i] in ListFor(m, r.identity);
  }

  lemma SameLedgerValid(l: Ledger, m: Ledger)
    requires SameLedger(l, m) && LedgerValid(l)
    ensures LedgerValid(m)
  {
    forall t | t in m.ssh
      ensures !t.identity.X509?
    {
      var i :| 0 <= i < |m.ssh| && m.ssh[i] == t;
      assert l.ssh[i] in l.ssh;
    }
    forall t | t in m.x509
      ensures t.identity.X509?
    {
      var i :| 0 <= i < |m.x509| && m.x509[i] == t;
      assert l.x509[i] in l.x509;
    }
  }

  lemma SameAppend(l: Ledger, m: Ledger, r: Record, at: Instant, at': Instant, reason: Option<string>,
                   reason': Option<string>)
    requires SameLedger(l, m)
    ensures SameLedger(Append(l, r, at, reason), Append(m, r, at', reason'))
  {
    if Recorded(l, r) { SameRecorded(l, m, r); }
    if Recorded(m, r) { SameRecorded(m, l, r); }
  }

  lemma {:induction false} SameAppendAll(l: Ledger, m: Ledger, records: seq<Record>, at: Instant, at': Instant,
                                         reason: Option<string>, reason': Option<string>)
    requires SameLedger(l, m)
    ensures SameLedger(AppendAll(l, records, at, reason), AppendAll(m, records, at', reason'))
    decreases |records|
  {
    if records != [] {
      SameAppend(l, m, records[0], at, at', reason, reason');
      SameAppendAll(Append(l, records[0], at, reason), Append(m, records[0], at', reason'), records[1..], at, at',
          reason, reason');
    }
  }

  // ---- A revocation that runs through ----

  const UNDISTURBED := Revocation(Lands, SMOOTH, Lands)

  lemma {:induction false} NothingMarked(records: seq<Record>, selected: seq<Record>, at: Instant)
    ensures CountSelected(records, selected) == 0 <==> forall r :: r in records && r.Live() ==> !Selected(selected, r)
    ensures CountSelected(records, selected) == 0 ==> MarkRevoked(records, selected, at) == records
  {
    if records != [] {
      var init := records[..|records| - 1];
      NothingMarked(init, selected, at);
      assert records == init + [records[|records| - 1]];
      if CountSelected(records, selected) == 0 {
        forall i | 0 <= i < |records| ensures MarkRevoked(records, selected, at)[i] == records[i] {
          assert records[i] in records;
        }
      }
    }
  }

  lemma SmoothInstall(st: Store, ca: seq<Value>)
    ensures Install(st, ca, None, SMOOTH) == (st.(ca := ca), Done)
  {}

  lemma UndisturbedRecorded(st: Store, scope: Scope, at: Instant)
    ensures var records := MarkRevoked(st.registry, Select(st.registry, scope), at);
            var done := Store(records, st.ledger, SweptCa(st, scope));
            && (Valid(records) ==> RevokeRecorded(st, scope, at, UNDISTURBED) == (done, Done))
            && (RevokeRecorded(st, scope, at, UNDISTURBED).1 == Done ==>
                RevokeRecorded(st, scope, at, UNDISTURBED).0 == done)
  {
    SmoothInstall(st, Remaining(st.ca, scope));
    assert RemoveIssuers(st, scope, SMOOTH) == (st.(ca := SweptCa(st, scope)), Done);
    SmoothMark(st.(ca := SweptCa(st, scope)), Select(st.registry, scope), at);
  }

  lemma SmoothMark(st: Store, selected: seq<Record>, at: Instant)
    ensures var records := MarkRevoked(st.registry, selected, at);
            && (Valid(records) ==> MarkSelected(st, selected, at, Lands) == (st.(registry := records), Done))
            && (MarkSelected(st, selected, at, Lands).1 == Done ==>
                MarkSelected(st, selected, at, Lands).0 == st.(registry := records))
  {
    NothingMarked(st.registry, selected, at);
  }

  /** The store and outcome of an undisturbed revocation. */
  lemma UndisturbedRevocation(st: Store, scope: Scope, at: Instant, reason: Option<string>)
    requires CheckRevocation(st, scope, at, reason).Ok?
    ensures var records := MarkRevoked(st.registry, Select(st.registry, scope), at);
            var done := Store(records, AppendAll(st.ledger, Select(st.registry, scope), at, reason),
                SweptCa(st, scope));
            && (Valid(records) ==> Revoke(st, scope, at, reason, UNDISTURBED) == (done, Done))
            && (Revoke(st, scope, at, reason, UNDISTURBED).1 == Done ==>
                Revoke(st, scope, at, reason, UNDISTURBED).0 == done)
  {
    UndisturbedRecorded(st.(ledger := CheckRevocation(st, scope, at, reason).value), scope, at);
  }

  /** Every provisioner the inventory decodes into the scope is one the removal takes. */
  predicate AllSwept(items: seq<Value>, scope: Scope) {
    forall x :: x in items && InInventory(scope, x) ==> Removes(scope, NameOf(x), KindOf(x))
  }

  predicate InInventory(scope: Scope, x: Value) { EntryOf(scope, FaceOf(x)) != Outside }

  lemma {:induction false} EmptyInventory(items: seq<Value>, scope: Scope)
    requires forall x :: x in items ==> !InInventory(scope, x)
    ensures Inventory(items, scope) == Some(map[])
  {
    if items != [] {
      var init, x := items[..|items| - 1], items[|items| - 1];
      assert x in items && forall y :: y in init ==> y in items;
      EmptyInventory(init, scope);
    }
  }

  lemma SweptInventory(st: Store, scope: Scope)
    requires AllSwept(st.ca, scope)
    ensures forall x :: x in SweptCa(st, scope) ==> !InInventory(scope, x)
    ensures Inventory(SweptCa(st, scope), scope) == Some(map[])
  {
    SweptHasNoneRemovable(st, scope);
    EmptyInventory(SweptCa(st, scope), scope);
  }

  // ---- Rerunning an interrupted revocation ----

  /** How far an interrupted revocation got; each stage is the effect of one durable write. */
  lemma InterruptedAt(st: Store, scope: Scope, at: Instant, reason: Option<string>, faults: Revocation)
    requires CheckRevocation(st, scope, at, reason).Ok?
    ensures var mid := Revoke(st, scope, at, reason, faults).0;
            var recorded := st.(ledger := AppendAll(st.ledger, Select(st.registry, scope), at, reason));
            || mid == st || mid == recorded || mid == recorded.(ca := SweptCa(st, scope))
            || mid == recorded.(ca := SweptCa(st, scope), registry :=
                MarkRevoked(st.registry, Select(st.registry, scope), at))
  {
    RevokeLeaves(st, scope, at, reason, faults);
  }

  /** Whether a preparation succeeds does not depend on the time or the reason. */
  lemma CheckAnyTime(st: Store, scope: Scope, at: Instant, at': Instant, reason: Option<string>,
                     reason': Option<string>)
    requires CheckRevocation(st, scope, at, reason).Ok?
    ensures CheckRevocation(st, scope, at', reason').Ok?
    ensures SameLedger(CheckRevocation(st, scope, at', reason').value, CheckRevocation(st, scope, at, reason).value)
  {
    var selected := Select(st.registry, scope);
    SameAppendAll(st.ledger, st.ledger, selected, at, at', reason, reason');
    SameAppendAll(st.ledger, st.ledger, selected, at', at, reason', reason);
    SameLedgerValid(AppendAll(st.ledger, selected, at, reason), AppendAll(st.ledger, selected, at', reason'));
  }

  lemma MarkAnyTime(records: seq<Record>, selected: seq<Record>, at: Instant, at': Instant)
    requires AllWellFormed(records)
    ensures SameRegistry(MarkRevoked(records, selected, at'), MarkRevoked(records, selected, at))
    ensures Distinct(records) ==> Valid(MarkRevoked(records, selected, at'))
  {
    forall i | 0 <= i < |records|
      ensures MarkRevoked(records, selected, at')[i].revokedAt.Some? <==>
              MarkRevoked(records, selected, at)[i].revokedAt.Some?
    {
      assert WellFormed(records[i]);
    }
    if Distinct(records) { ApplyKeepsValid(records, Operation.Revoking(selected, at')); }
  }

  /** From before any write: a plain second run. */
  lemma RerunFromStart(st: Store, scope: Scope, at: Instant, at': Instant, reason: Option<string>,
                       reason': Option<string>)
    requires Valid(st.registry) && CheckRevocation(st, scope, at, reason).Ok?
    ensures var (again, outcome) := Revoke(st, scope, at', reason', UNDISTURBED);
            var goal := Revoke(st, scope, at, reason, UNDISTURBED).0;
            outcome == Done && SameStore(again, goal)
  {
    CheckAnyTime(st, scope, at, at', reason, reason');
    MarkAnyTime(st.registry, Select(st.registry, scope), at, at');
    MarkAnyTime(st.registry, Select(st.registry, scope), at', at);
    UndisturbedRevocation(st, scope, at, reason);
    UndisturbedRevocation(st, scope, at', reason');
  }

  /** A ledger that already records the selection is left as it is. */
  lemma PreparedAgain(l: Ledger, selected: seq<Record>, at: Instant, at': Instant, reason: Option<string>,
                      reason': Option<string>)
    requires LedgerValid(AppendAll(l, selected, at, reason))
    ensures var next := AppendAll(l, selected, at, reason);
            Prepare(next, selected, at', reason') == Some(next) && AppendAll(next, selected, at', reason') == next
  {
    AppendAllRecords(l, selected, at, reason);
    AppendRecordedAgain(AppendAll(l, selected, at, reason), selected, at', reason');
  }

  /** From after the ledger write, with or without the `ca.json` write. */
  lemma RerunFromLedger(st: Store, scope: Scope, at: Instant, at': Instant, reason: Option<string>,
                        reason': Option<string>, mid: Store)
    requires Valid(st.registry) && CheckRevocation(st, scope, at, reason).Ok? && AllSwept(st.ca, scope)
    requires mid.registry == st.registry && mid.ledger == AppendAll(st.ledger, Select(st.registry, scope), at, reason)
    requires mid.ca == st.ca || mid.ca == SweptCa(st, scope)
    ensures var (again, outcome) := Revoke(mid, scope, at', reason', UNDISTURBED);
            var goal := Revoke(st, scope, at, reason, UNDISTURBED).0;
            outcome == Done && again.ca == goal.ca && again.ledger == goal.ledger
                && SameRegistry(again.registry, goal.registry)
  {
    PreparedAgain(st.ledger, Select(st.registry, scope), at, at', reason, reason');
    SweptInventory(st, scope);
    SweptTwice(st, scope, mid);
    assert CheckRevocation(mid, scope, at', reason') == Ok(mid.ledger);
    MarkAnyTime(st.registry, Select(st.registry, scope), at, at');
    MarkAnyTime(st.registry, Select(st.registry, scope), at', at);
    UndisturbedRevocation(st, scope, at, reason);
    UndisturbedRevocation(mid, scope, at', reason');
  }

  /** Sweeping what was swept, by the same registry, changes nothing. */
  lemma SweptTwice(st: Store, scope: Scope, mid: Store)
    requires mid.registry == st.registry && (mid.ca == st.ca || mid.ca == SweptCa(st, scope))
    ensures SweptCa(mid, scope) == SweptCa(st, scope)
  {
    RemoveAgain(st.ca, scope);
  }

  lemma SelectedBefore(records: seq<Record>, scope: Scope, at: Instant, r: Record)
    requires Selected(Select(MarkRevoked(records, Select(records, scope), at), scope), r)
    ensures Selected(Select(records, scope), r)
  {
    var marked := MarkRevoked(records, Select(records, scope), at);
    var s :| s in Select(marked, scope) && s.SameKeys(r);
    var i :| 0 <= i < |marked| && marked[i] == s;
    assert records[i] in Select(records, scope) && records[i].SameKeys(r);
  }

  /** What is left of the selection once its records are marked. */
  lemma MarkedSelection(records: seq<Record>, scope: Scope, at: Instant, l: Ledger)
    requires forall r :: r in Select(records, scope) ==> Recorded(l, r)
    ensures var marked := MarkRevoked(records, Select(records, scope), at);
            && !AnyLive(Select(marked, scope))
            && (forall r :: r in Select(marked, scope) ==> Recorded(l, r))
            && CountSelected(marked, Select(marked, scope)) == 0
  {
    var selected := Select(records, scope);
    var marked := MarkRevoked(records, selected, at);
    forall r | r in Select(marked, scope) ensures !r.Live() && Recorded(l, r) && Selected(selected, r) {
      var i :| 0 <= i < |marked| && marked[i] == r;
      assert records[i] in selected && records[i].SameKeys(r);
      assert Recorded(l, records[i]);
    }
    forall r | r in marked && r.Live() ensures !Selected(Select(marked, scope), r) {
      var i :| 0 <= i < |marked| && marked[i] == r;
      if Selected(Select(marked, scope), r) { SelectedBefore(records, scope, at, r); }
    }
    NothingMarked(marked, Select(marked, scope), at);
  }

  /** From after the registry write: nothing is left to do. */
  lemma RerunFromEnd(st: Store, scope: Scope, at: Instant, at': Instant, reason: Option<string>,
                     reason': Option<string>)
    requires Valid(st.registry) && CheckRevocation(st, scope, at, reason).Ok? && AllSwept(st.ca, scope)
    ensures var goal := Revoke(st, scope, at, reason, UNDISTURBED).0;
            Revoke(goal, scope, at', reason', UNDISTURBED) == (goal, Done)
  {
    var selected := Select(st.registry, scope);
    MarkAnyTime(st.registry, selected, at, at);
    UndisturbedRevocation(st, scope, at, reason);
    var goal := Revoke(st, scope, at, reason, UNDISTURBED).0;
    AppendAllRecords(st.ledger, selected, at, reason);
    MarkedSelection(st.registry, scope, at, goal.ledger);
    AppendRecordedAgain(goal.ledger, Select(goal.registry, scope), at', reason');
    SweptInventory(st, scope);
    RemoveAgain(st.ca, scope);
    NoRemovedNames(st.ca, scope);
    assert !Restarts(goal, scope);
    assert CheckRevocation(goal, scope, at', reason') == Ok(goal.ledger);
  }

  /**
   From every point where a revocation can stop, running it again ends as if it had not been
   disturbed, up to the recorded times and reasons.
   */
  lemma RevocationConverges(st: Store, scope: Scope, at: Instant, at': Instant, reason: Option<string>,
                            reason': Option<string>, faults: Revocation)
    requires Valid(st.registry) && CheckRevocation(st, scope, at, reason).Ok? && AllSwept(st.ca, scope)
    ensures var goal := Revoke(st, scope, at, reason, UNDISTURBED);
            var (again, outcome) := Revoke(Revoke(st, scope, at, reason, faults).0, scope, at', reason', UNDISTURBED);
            && goal.1 == Done && outcome == Done
            && SameStore(again, goal.0)
  {
    var mid := Revoke(st, scope, at, reason, faults).0;
    InterruptedAt(st, scope, at, reason, faults);
    RerunFromStart(st, scope, at, at', reason, reason');
    MarkAnyTime(st.registry, Select(st.registry, scope), at, at);
    UndisturbedRevocation(st, scope, at, reason);
    if mid != st {
      if mid.registry == st.registry {
        RerunFromLedger(st, scope, at, at', reason, reason', mid);
      } else {
        RerunFromEnd(st, scope, at, at', reason, reason');
      }
    }
  }

  datatype Attempt = Attempt(at: Instant, reason: Option<string>, faults: Revocation)

  /** The same revocation attempted over and over, each attempt with its own faults. */
  function Attempted(st: Store, scope: Scope, attempts: seq<Attempt>): Store
    decreases |attempts|
  {
    if attempts == [] then st
    else Attempted(Revoke(st, scope, attempts[0].at, attempts[0].reason, attempts[0].faults).0, scope, attempts[1..])
  }

  /** An interrupted revocation leaves a store that the same revocation is accepted from. */
  lemma StaysRevocable(st: Store, scope: Scope, at: Instant, at': Instant, reason: Option<string>,
                       reason': Option<string>, faults: Revocation)
    requires Valid(st.registry) && CheckRevocation(st, scope, at, reason).Ok? && AllSwept(st.ca, scope)
    ensures var mid := Revoke(st, scope, at, reason, faults).0;
            Valid(mid.registry) && CheckRevocation(mid, scope, at', reason').Ok? && AllSwept(mid.ca, scope)
  {
    InterruptedAt(st, scope, at, reason, faults);
    SweptInventory(st, scope);
    MarkAnyTime(st.registry, Select(st.registry, scope), at, at);
    RevocationConverges(st, scope, at, at', reason, reason', faults);
  }

  /** However often a revocation is interrupted, completing it ends as if it had run once undisturbed. */
  lemma {:induction false} RepeatedRevocationConverges(st: Store, scope: Scope, attempts: seq<Attempt>, at: Instant,
                                                       reason: Option<string>)
    requires Valid(st.registry) && CheckRevocation(st, scope, at, reason).Ok? && AllSwept(st.ca, scope)
    ensures Revoke(Attempted(st, scope, attempts), scope, at, reason, UNDISTURBED).1 == Done
    ensures SameStore(Revoke(Attempted(st, scope, attempts), scope, at, reason, UNDISTURBED).0,
            Revoke(st, scope, at, reason, UNDISTURBED).0)
    decreases |attempts|
  {
    RerunFromStart(st, scope, at, at, reason, reason);
    if attempts != [] {
      var first := attempts[0];
      var mid := Revoke(st, scope, first.at, first.reason, first.faults).0;
      CheckAnyTime(st, scope, at, first.at, reason, first.reason);
      StaysRevocable(st, scope, first.at, at, first.reason, reason, first.faults);
      RevocationConverges(st, scope, first.at, at, first.reason, reason, first.faults);
      RerunFromStart(st, scope, at, first.at, reason, first.reason);
      RepeatedRevocationConverges(mid, scope, attempts[1..], at, reason);
      SameStoreTransitive(Revoke(mid, scope, at, reason, UNDISTURBED).0,
                          Revoke(st, scope, first.at, first.reason, UNDISTURBED).0,
                          Revoke(st, scope, at, reason, UNDISTURBED).0);
      SameStoreTransitive(Revoke(Attempted(mid, scope, attempts[1..]), scope, at, reason, UNDISTURBED).0,
                          Revoke(mid, scope, at, reason, UNDISTURBED).0, Revoke(st, scope, at, reason, UNDISTURBED).0);
    }
  }

  /** A provisioner whose name decodes to an identity of the scope, however it is spelled. */
  predicate InScope(scope: Scope, x: Value) { NameOf(x).Some? && NameInScope(scope, NameOf(x).value) }

  /** Every provisioner of the scope is one the removal takes. */
  predicate ScopeSwept(items: seq<Value>, scope: Scope) {
    forall x :: x in items && InScope(scope, x) ==> Removes(scope, NameOf(x), KindOf(x))
  }

  lemma ScopeIsSwept(st: Store, scope: Scope)
    ensures (forall x :: x in SweptCa(st, scope) ==> !InScope(scope, x)) <==> ScopeSwept(st.ca, scope)
  {
    SweptHasNoneRemovable(st, scope);
    if !ScopeSwept(st.ca, scope) {
      var x :| x in st.ca && InScope(scope, x) && !Removes(scope, NameOf(x), KindOf(x));
      assert x in SweptCa(st, scope);
    }
  }

  /**
   What a completed revocation leaves: no live record of the scope, each of its keys recorded once, and
   no provisioner of the scope, or none its own inventory lists, exactly when the removal took them all.
   */
  lemma RevocationIsComplete(st: Store, scope: Scope, at: Instant, reason: Option<string>)
    requires Valid(st.registry) && CheckRevocation(st, scope, at, reason).Ok?
    ensures var goal := Revoke(st, scope, at, reason, UNDISTURBED).0;
            && (forall r :: r in goal.registry && Covers(scope, r.identity) ==>
                r.status == Revoked && Recorded(goal.ledger, r))
            && LedgerValid(goal.ledger)
            && ((forall x :: x in goal.ca ==> !InScope(scope, x)) <==> ScopeSwept(st.ca, scope))
            && ((forall x :: x in goal.ca ==> !InInventory(scope, x)) <==> AllSwept(st.ca, scope))
  {
    var selected := Select(st.registry, scope);
    MarkAnyTime(st.registry, selected, at, at);
    UndisturbedRevocation(st, scope, at, reason);
    AppendAllRecords(st.ledger, selected, at, reason);
    var goal := Revoke(st, scope, at, reason, UNDISTURBED).0;
    MarkedSelection(st.registry, scope, at, goal.ledger);
    forall r | r in goal.registry && Covers(scope, r.identity) ensures r.status == Revoked && Recorded(goal.ledger, r) {
      assert r in Select(goal.registry, scope);
    }
    ScopeIsSwept(st, scope);
    if AllSwept(st.ca, scope) {
      SweptInventory(st, scope);
    } else {
      var x :| x in st.ca && InInventory(scope, x) && !Removes(scope, NameOf(x), KindOf(x));
      assert x in goal.ca;
    }
  }

  lemma {:induction false} InventoryFinds(items: seq<Value>, scope: Scope, x: Value)
    requires x in items && InInventory(scope, x)
    ensures Inventory(items, scope) != Some(map[])
  {
    var init, last := items[..|items| - 1], items[|items| - 1];
    if x in init {
      InventoryFinds(init, scope, x);
    } else {
      assert x == last;
    }
    if Inventory(init, scope).Some? { AddedEntryShows(Inventory(init, scope).value, EntryOf(scope, FaceOf(last))); }
  }

  lemma AddedEntryShows(live: map<string, Value>, entry: Entry)
    requires live != map[] || entry != Outside
    ensures AddEntry(live, entry) != Some(map[])
  {
    if entry.Enrolled? { assert entry.text in live[entry.text := entry.jwk]; }
  }

  lemma NothingCovers(selected: seq<Record>, live: Option<map<string, Value>>)
    requires !AnyLive(selected) && live != Some(map[]) && live.Some?
    ensures !Coverage(selected, live.value)
  {
    assert live.value != map[];
    var text :| text in live.value;
  }

  /** A provisioner whose respelled name escaped the removal makes every later retry refuse. */
  lemma SurvivorBlocksRetry(st: Store, scope: Scope, at: Instant, at': Instant, reason: Option<string>,
                            reason': Option<string>)
    requires Valid(st.registry) && CheckRevocation(st, scope, at, reason).Ok? && !AllSwept(st.ca, scope)
    ensures CheckRevocation(Revoke(st, scope, at, reason, UNDISTURBED).0, scope, at', reason').Err?
  {
    var selected := Select(st.registry, scope);
    MarkAnyTime(st.registry, selected, at, at);
    UndisturbedRevocation(st, scope, at, reason);
    AppendAllRecords(st.ledger, selected, at, reason);
    var goal := Revoke(st, scope, at, reason, UNDISTURBED).0;
    MarkedSelection(st.registry, scope, at, goal.ledger);
    var x :| x in st.ca && InInventory(scope, x) && !Removes(scope, NameOf(x), KindOf(x));
    assert x in goal.ca;
    InventoryFinds(goal.ca, scope, x);
    if Inventory(goal.ca, scope).Some? { NothingCovers(Select(goal.registry, scope), Inventory(goal.ca, scope)); }
  }

  /**
   Whatever interrupts it, a revocation can be completed by a rerun exactly when its removal takes
   all it inventories.
   */
  lemma RevocationConvergesExactly(st: Store, scope: Scope, at: Instant, at': Instant,
                                   reason: Option<string>, reason': Option<string>)
    requires Valid(st.registry) && CheckRevocation(st, scope, at, reason).Ok?
    ensures (forall faults :: RerunCompletes(st, scope, at, at', reason, reason', faults)) <==> AllSwept(st.ca, scope)
  {
    if AllSwept(st.ca, scope) {
      forall faults ensures RerunCompletes(st, scope, at, at', reason, reason', faults) {
        RevocationConverges(st, scope, at, at', reason, reason', faults);
      }
    } else {
      SurvivorBlocksRetry(st, scope, at, at', reason, reason');
      assert !RerunCompletes(st, scope, at, at', reason, reason', UNDISTURBED);
    }
  }

  /** After an attempt with the given faults, one undisturbed attempt runs through. */
  predicate RerunCompletes(st: Store, scope: Scope, at: Instant, at': Instant,
                           reason: Option<string>, reason': Option<string>, faults: Revocation) {
    Revoke(Revoke(st, scope, at, reason, faults).0, scope, at', reason', UNDISTURBED).1 == Done
  }

  // ---- A provisioner that escapes its revocation ----

  /** A provisioner of a host of the scope under another spelling of its name. */
  predicate RespelledHost(scope: Scope, x: Value) {
    && InScope(scope, x) && KindOf(x) != Some(SSHPOP)
    && Decoded(NameOf(x).value).value.Host? && !SpelledAsBuilt(scope, NameOf(x).value)
  }

  /**
   A revocation of the scope leaves a provisioner of it behind and its retry runs through all the same
   exactly when a respelled host is live and nothing the inventory lists escapes.
   */
  lemma EscapeIsSilentExactly(st: Store, scope: Scope, at: Instant, at': Instant, reason: Option<string>,
                              reason': Option<string>)
    requires Valid(st.registry) && CheckRevocation(st, scope, at, reason).Ok?
    ensures var goal := Revoke(st, scope, at, reason, UNDISTURBED).0;
            (exists x :: x in goal.ca && InScope(scope, x)) && Revoke(goal, scope, at', reason', UNDISTURBED).1 == Done
            <==> AllSwept(st.ca, scope) && exists x :: x in st.ca && RespelledHost(scope, x)
  {
    RevocationIsComplete(st, scope, at, reason);
    forall x | x in st.ca && Escapes(scope, x) ensures InInventory(scope, x) || RespelledHost(scope, x) {
      EscapingItem(scope, x);
    }
    forall x | x in st.ca && RespelledHost(scope, x) ensures Escapes(scope, x) {
      RespelledHostEscapesRemoval(scope, x);
    }
    if AllSwept(st.ca, scope) {
      RerunFromEnd(st, scope, at, at', reason, reason');
    } else {
      SurvivorBlocksRetry(st, scope, at, at', reason, reason');
    }
  }

  predicate Escapes(scope: Scope, x: Value) { InScope(scope, x) && !Removes(scope, NameOf(x), KindOf(x)) }

  lemma EscapingItem(scope: Scope, x: Value)
    requires Escapes(scope, x)
    ensures InInventory(scope, x) || RespelledHost(scope, x)
  {
    InventoryMissesRespelledHosts(scope, NameOf(x).value);
  }

  lemma RespelledHostEscapesRemoval(scope: Scope, x: Value)
    requires RespelledHost(scope, x)
    ensures Escapes(scope, x)
  {
    SweepExactly(scope, NameOf(x).value, KindOf(x));
  }

  const RESPELLED := Obj(map[TYPE := Str(JWK), NAME := Str(RESPELLED_NAME), KEY := SampleKey()])

  function RespelledStore(): Store {
    Store([Record(User("j", "h"), Active, SshKey("k"), SampleKey(), 0, None)], Ledger([], []), [RESPELLED])
  }

  lemma RespelledFields()
    ensures NameOf(RESPELLED) == Some(RESPELLED_NAME) && KindOf(RESPELLED) == Some(JWK)
            && KeyOf(RESPELLED) == Some(SampleKey())
  {
    FieldNamesDiffer();
  }

  lemma EntryOfEnrolled(scope: Scope, f: Face, id: Identity)
    requires f.name.Some? && Inventoried(scope, f.name.value) == Some(id) && f.Material().Some?
    ensures EntryOf(scope, f) == Enrolled(IdentityText(id), f.Material().value)
  {}

  lemma RespelledEntry()
    ensures EntryOf(OfUser("j", None), FaceOf(RESPELLED)) == Enrolled(IdentityText(User("j", "h")), SampleKey())
  {
    RespelledFields();
    SampleKeyIsMaterial();
    var f := FaceOf(RESPELLED);
    assert f.name == Some(RESPELLED_NAME) && f.Material() == Some(SampleKey());
    RespelledNameEscapes(Some(JWK));
    EntryOfEnrolled(OfUser("j", None), f, User("j", "h"));
  }

  lemma OneEntry(x: Value, scope: Scope, text: string, jwk: Value)
    requires EntryOf(scope, FaceOf(x)) == Enrolled(text, jwk)
    ensures Inventory([x], scope) == Some(map[text := jwk])
  {
    assert [x][..0] == [] && [x][|[x]| - 1] == x;
    assert Inventory([], scope) == Some(map[]);
  }

  lemma OneRecordAppended(r: Record, at: Instant, reason: Option<string>)
    ensures LedgerValid(AppendAll(Ledger([], []), [r], at, reason))
  {
    assert AppendAll(Ledger([], []), [r], at, reason) == AppendAll(Append(Ledger([], []), r, at, reason), [r][1..], at,
        reason);
  }

  lemma OneRecordValid(r: Record)
    requires WellFormed(r)
    ensures Valid([r])
  {}

  lemma ActiveIsWellFormed(r: Record)
    requires ValidIdentity(r.identity) && !r.identity.X509? && r.key.SshKey? && JwkMaterial(r.jwk) == Some(r.jwk)
    requires r.status == Active && r.revokedAt == None
    ensures WellFormed(r)
  {}

  lemma RespelledRecord()
    ensures WellFormed(RespelledStore().registry[0])
  {
    OneLetterNames('j');
    OneLetterNames('h');
    SampleKeyIsMaterial();
    ActiveIsWellFormed(RespelledStore().registry[0]);
  }

  /** One covered provisioner of one live record can be revoked. */
  lemma OneIsRevocable(x: Value, r: Record, scope: Scope, at: Instant, reason: Option<string>)
    requires r.Live() && Covers(scope, r.identity)
    requires EntryOf(scope, FaceOf(x)) == Enrolled(IdentityText(r.identity), r.jwk)
    ensures CheckRevocation(Store([r], Ledger([], []), [x]), scope, at, reason).Ok?
  {
    OneEntry(x, scope, IdentityText(r.identity), r.jwk);
    assert Select([r], scope) == [r] + Select([r][1..], scope) && [r][1..] == [];
    OneRecordAppended(r, at, reason);
    var live := map[IdentityText(r.identity) := r.jwk];
    assert Coverage([r], live) by { assert r in [r]; }
  }

  lemma RespelledIsValid()
    ensures Valid(RespelledStore().registry)
  {
    RespelledRecord();
    OneRecordValid(RespelledStore().registry[0]);
  }

  lemma RespelledPassesCheck(at: Instant, reason: Option<string>)
    ensures CheckRevocation(RespelledStore(), OfUser("j", None), at, reason).Ok?
  {
    RespelledEntry();
    OneIsRevocable(RESPELLED, RespelledStore().registry[0], OfUser("j", None), at, reason);
  }

  lemma RespelledIsRevocable(at: Instant, reason: Option<string>)
    ensures var st := RespelledStore();
            Valid(st.registry) && CheckRevocation(st, OfUser("j", None), at, reason).Ok?
                && !AllSwept(st.ca, OfUser("j", None))
  {
    RespelledIsValid();
    RespelledPassesCheck(at, reason);
    RespelledStaysUnswept();
  }

  lemma RespelledStaysUnswept()
    ensures !AllSwept([RESPELLED], OfUser("j", None)) && Remaining([RESPELLED], OfUser("j", None)) == [RESPELLED]
  {
    var scope := OfUser("j", None);
    RespelledFields();
    RespelledEntry();
    RespelledNameEscapes(Some(JWK));
    assert RESPELLED in [RESPELLED] && InInventory(scope, RESPELLED);
    RetainAll([RESPELLED], x => !Removes(scope, NameOf(x), KindOf(x)));
  }

  /**
   The provisioner of user `j` from `h` under an upper-case spelling: revoking the user runs through
   and revokes the record, the provisioner stays live, and every retry is refused.
   */
  lemma RespelledProvisionerStays(at: Instant, at': Instant, reason: Option<string>, reason': Option<string>)
    ensures var (next, outcome) := Revoke(RespelledStore(), OfUser("j", None), at, reason, UNDISTURBED);
            && outcome == Done && next.ca == [RESPELLED] && next.registry[0].status == Revoked
            && CheckRevocation(next, OfUser("j", None), at', reason').Err?
    ensures Valid(RespelledStore().registry)
  {
    var st, scope := RespelledStore(), OfUser("j", None);
    RespelledIsRevocable(at, reason);
    MarkAnyTime(st.registry, Select(st.registry, scope), at, at);
    UndisturbedRevocation(st, scope, at, reason);
    SurvivorBlocksRetry(st, scope, at, at', reason, reason');
    RespelledStaysUnswept();
    assert st.registry[0] in Select(st.registry, scope);
  }

  const RESPELLED_HOST := Obj(map[TYPE := Str(JWK), NAME := Str(RESPELLED_HOST_NAME), KEY := SampleKey()])

  function RespelledHostStore(): Store {
    Store([Record(Host("j"), Active, SshKey("k"), SampleKey(), 0, None)], Ledger([], []), [RESPELLED_HOST])
  }

  lemma RespelledHostItem()
    ensures RespelledHost(OfHost("j"), RESPELLED_HOST) && !InInventory(OfHost("j"), RESPELLED_HOST)
    ensures AllSwept([RESPELLED_HOST], OfHost("j")) && Inventory([RESPELLED_HOST], OfHost("j")) == Some(map[])
    ensures Remaining([RESPELLED_HOST], OfHost("j")) == [RESPELLED_HOST]
  {
    var scope := OfHost("j");
    FieldNamesDiffer();
    JwkIsNotSshpop();
    assert NameOf(RESPELLED_HOST) == Some(RESPELLED_HOST_NAME) && KindOf(RESPELLED_HOST) == Some(JWK);
    RespelledHostEscapes(Some(JWK));
    SweepExactly(scope, RESPELLED_HOST_NAME, Some(JWK));
    assert EntryOf(scope, FaceOf(RESPELLED_HOST)) == Outside;
    EmptyInventory([RESPELLED_HOST], scope);
    RetainAll([RESPELLED_HOST], x => !Removes(scope, NameOf(x), KindOf(x)));
  }

  lemma RespelledHostRecord()
    ensures Valid(RespelledHostStore().registry)
  {
    OneLetterNames('j');
    SampleKeyIsMaterial();
    ActiveIsWellFormed(RespelledHostStore().registry[0]);
    OneRecordValid(RespelledHostStore().registry[0]);
  }

  lemma RespelledHostIsRevocable(at: Instant, reason: Option<string>)
    ensures CheckRevocation(RespelledHostStore(), OfHost("j"), at, reason).Ok?
    ensures Select(RespelledHostStore().registry, OfHost("j")) == RespelledHostStore().registry
  {
    var r := RespelledHostStore().registry[0];
    RespelledHostItem();
    assert Select([r], OfHost("j")) == [r] + Select([r][1..], OfHost("j")) && [r][1..] == [];
    OneRecordAppended(r, at, reason);
  }

  /**
   The provisioner of host `j` under an upper-case spelling: revoking the host runs through and revokes
   the record, the provisioner stays live, and a retry runs through and changes nothing.
   */
  lemma RespelledHostStays(at: Instant, at': Instant, reason: Option<string>, reason': Option<string>)
    ensures var (next, outcome) := Revoke(RespelledHostStore(), OfHost("j"), at, reason, UNDISTURBED);
            && outcome == Done && next.ca == [RESPELLED_HOST] && next.registry[0].status == Revoked
            && Revoke(next, OfHost("j"), at', reason', UNDISTURBED) == (next, Done)
    ensures Valid(RespelledHostStore().registry) && InScope(OfHost("j"), RESPELLED_HOST)
  {
    var st, scope := RespelledHostStore(), OfHost("j");
    RespelledHostItem();
    RespelledHostRecord();
    RespelledHostIsRevocable(at, reason);
    MarkAnyTime(st.registry, Select(st.registry, scope), at, at);
    UndisturbedRevocation(st, scope, at, reason);
    RerunFromEnd(st, scope, at, at', reason, reason');
    assert st.registry[0] in Select(st.registry, scope);
  }

  // ---- Legacy SSHPOP provisioners ----

  predicate Sshpop(x: Value) { KindOf(x) == Some(SSHPOP) }

  /** A host revocation would restart the CA: something of the host is named in `ca.json` or live in the registry. */
  predicate HostPresent(st: Store, host: string) {
    || (exists x :: x in st.ca && NameOf(x).Some? && Removes(OfHost(host), NameOf(x), KindOf(x)))
    || (exists r :: r in st.registry && r.identity.host == host && r.Live())
  }

  lemma RestartsExactly(st: Store, host: string)
    ensures Restarts(st, OfHost(host)) <==> HostPresent(st, host)
  {
    var selected := Select(st.registry, OfHost(host));
    NoRemovedNames(st.ca, OfHost(host));
    forall r | r in st.registry && r.identity.host == host && r.Live()
      ensures AnyLive(selected)
    {
      assert r in selected;
    }
  }

  /**
   A host revocation that runs through leaves an SSHPOP provisioner behind exactly when there is one
   and nothing of the host is named or live; every one of them is then left, and none has a name.
   */
  lemma SshpopSurvivesExactly(st: Store, host: string, at: Instant, reason: Option<string>)
    requires CheckRevocation(st, OfHost(host), at, reason).Ok?
             && Revoke(st, OfHost(host), at, reason, UNDISTURBED).1 == Done
    ensures var left := Revoke(st, OfHost(host), at, reason, UNDISTURBED).0.ca;
            && ((exists x :: x in left && Sshpop(x)) <==> !HostPresent(st, host) && exists x :: x in st.ca && Sshpop(x))
            && (!HostPresent(st, host) ==> left == st.ca && forall x :: x in left && Sshpop(x) ==> NameOf(x).None?)
  {
    RestartsExactly(st, host);
    UndisturbedRevocation(st, OfHost(host), at, reason);
  }

  const UNNAMED_SSHPOP := Obj(map[TYPE := Str(SSHPOP)])

  /** With nothing else of the host about, a completed revocation leaves an unnamed SSHPOP provisioner in place. */
  lemma UnnamedSshpopStays(at: Instant, reason: Option<string>)
    ensures var st := Store([], Ledger([], []), [UNNAMED_SSHPOP]);
            && Sshpop(UNNAMED_SSHPOP) && Removes(OfHost("h"), NameOf(UNNAMED_SSHPOP), KindOf(UNNAMED_SSHPOP))
            && Revoke(st, OfHost("h"), at, reason, UNDISTURBED) == (st, Done)
  {
    FieldNamesDiffer();
    var st := Store([], Ledger([], []), [UNNAMED_SSHPOP]);
    assert NameOf(UNNAMED_SSHPOP) == None;
    EmptyInventory(st.ca, OfHost("h"));
    assert Select(st.registry, OfHost("h")) == [];
    RestartsExactly(st, "h");
    UndisturbedRevocation(st, OfHost("h"), at, reason);
  }

  // ---- Rerunning an interrupted approval ----

  /** The same request at another time. */
  predicate SameRequest(a: Request, b: Request) {
    a.jwk == b.jwk && b.candidate == a.candidate.(enrolledAt := b.candidate.enrolledAt)
  }

  lemma {:induction false} SameCandidate(records: seq<Record>, a: Record, b: Record)
    requires b == a.(enrolledAt := b.enrolledAt)
    ensures CheckCandidate(records, a) == CheckCandidate(records, b)
            && MatchingStatus(records, a) == MatchingStatus(records, b)
  {
    if records != [] { SameCandidate(records[1..], a, b); }
  }

  lemma SameAuthorization(policy: Policy, items: seq<Value>, a: Request, b: Request)
    requires SameRequest(a, b)
    ensures Authorize(policy, items, a) == Authorize(policy, items, b)
  {
    assert Desired(policy, a) == Desired(policy, b);
  }

  /** The store of an undisturbed approval that passes its checks. */
  lemma UndisturbedApproval(st: Store, policy: Policy, request: Request)
    requires request.candidate.PendingCandidate() && Valid(st.registry)
    requires CheckApproval(st, request.candidate).Ok? && Authorize(policy, st.ca, request).Ok?
    ensures var activated := Apply(Apply(st.registry, Reserving(request.candidate)), Activating(request.candidate));
            Approve(st, policy, request, Lands, SMOOTH) == (Store(activated, st.ledger,
                Authorize(policy, st.ca, request).value), Done)
  {
    var candidate := request.candidate;
    var reserved := Apply(st.registry, Reserving(candidate));
    ApplyKeepsValid(st.registry, Reserving(candidate));
    ApplyKeepsValid(reserved, Activating(candidate));
    ApproveReaches(st, policy, request, Lands, SMOOTH);
    if MatchingStatus(reserved, candidate) == Some(Active) { ActiveStays(reserved, candidate); }
    SmoothSave(st.(registry := reserved), Authorize(policy, st.ca, request).value, Activated(reserved, candidate));
  }

  lemma SmoothSave(st: Store, ca: seq<Value>, records: seq<Record>)
    requires Valid(records)
    ensures Install(st, ca, Some(records), SMOOTH) == (st.(ca := ca, registry := records), Done)
  {}

  /** The proposed provisioners hold exactly one of the candidate's name, with its key. */
  lemma ProposedLiveKey(policy: Policy, items: seq<Value>, request: Request)
    requires request.Valid() && JwkIssuers(policy) && Authorize(policy, items, request).Ok?
    ensures LiveKey(Authorize(policy, items, request).value, ProvisionerName(request.candidate.identity))
            == Ok(Some(request.candidate.jwk))
  {
    var desired := Desired(policy, request).value;
    var prepared := RefreshIssuer(policy, items, request.candidate.identity).value;
    DesiredCarries(policy, request);
    var i := UpsertPlaces(prepared, desired);
    OnePlace(Upsert(prepared, desired).value, ProvisionerName(request.candidate.identity), i);
  }

  /** In a registry that holds the reserved candidate, the check passes as long as the live key agrees. */
  lemma RecheckReserved(st: Store, candidate: Record, again: Record, registry: seq<Record>, ca: seq<Value>)
    requires Valid(st.registry) && candidate.PendingCandidate() && again == candidate.(enrolledAt := again.enrolledAt)
    requires CheckApproval(st, candidate).Ok?
    requires registry == Apply(st.registry, Reserving(candidate))
    requires ca == st.ca || LiveKey(ca, ProvisionerName(candidate.identity)) == Ok(Some(candidate.jwk))
    ensures CheckApproval(st.(registry := registry, ca := ca), again) == Ok((registry, false))
  {
    CheckedReserve(st, candidate);
    CheckedLiveKey(st, candidate);
    ReservedAgain(st.registry, candidate, again);
    RecheckWith(st.(registry := registry, ca := ca), again);
  }

  lemma ReservedAgain(records: seq<Record>, candidate: Record, again: Record)
    requires Valid(records) && candidate.PendingCandidate() && again == candidate.(enrolledAt := again.enrolledAt)
    requires Reserve(records, candidate).Ok?
    ensures var next := Apply(records, Reserving(candidate));
            && Reserve(next, again) == Ok((next, false)) && MatchingStatus(next, again).Some?
            && (MatchingStatus(records, candidate) != Some(Active) ==> MatchingStatus(next, again) != Some(Active))
  {
    ApplyKeepsValid(records, Reserving(candidate));
    RetriesAreIdempotent(records, candidate, again);
    SameCandidate(Apply(records, Reserving(candidate)), candidate, again);
    if MatchingStatus(records, candidate) != Some(Active) { ReservedNotActive(records, candidate); }
  }

  /** A held candidate passes the check when its live provisioner agrees, or when none is live and it is not active. */
  lemma RecheckWith(st: Store, candidate: Record)
    requires !Tombstoned(st.ledger, candidate.key, candidate.jwk)
             && Reserve(st.registry, candidate) == Ok((st.registry, false))
    requires MatchingStatus(st.registry, candidate).Some?
    requires var live := LiveKey(st.ca, ProvisionerName(candidate.identity));
             live == Ok(Some(candidate.jwk))
                 || (live == Ok(None) && MatchingStatus(st.registry, candidate) != Some(Active))
    ensures CheckApproval(st, candidate) == Ok((st.registry, false))
  {}

  lemma RecheckActivated(st: Store, candidate: Record, again: Record, ca: seq<Value>)
    requires Valid(st.registry) && candidate.PendingCandidate() && again == candidate.(enrolledAt := again.enrolledAt)
    requires CheckApproval(st, candidate).Ok?
    ensures var activated := Apply(Apply(st.registry, Reserving(candidate)), Activating(candidate));
            var next := st.(registry := activated, ca := ca);
            && Reserve(activated, again) == Ok((activated, false)) && Apply(activated, Activating(again)) == activated
            && MatchingStatus(activated, again) == Some(Active)
            && (LiveKey(ca, ProvisionerName(candidate.identity)) == Ok(Some(candidate.jwk)) ==>
                CheckApproval(next, again) == Ok((activated, false)))
            && (LiveKey(ca, ProvisionerName(candidate.identity)) == Ok(None) ==>
                CheckApproval(next, again) == Err(ActiveButMissing))
  {
    var reserved := Apply(st.registry, Reserving(candidate));
    CheckedReserve(st, candidate);
    ApplyKeepsValid(st.registry, Reserving(candidate));
    ApplyKeepsValid(reserved, Activating(candidate));
    OwnReservationAccepted(st.registry, candidate);
    RetriesAreIdempotent(reserved, candidate, again);
    var activated := Apply(reserved, Activating(candidate));
    var i := AcceptedAt(reserved, candidate, Activating(candidate));
    HeldRecord(activated, i, again);
  }

  /** An approval stranded by its own rollback: its candidate stays active although nothing of its name is live. */
  predicate Strands(st: Store, policy: Policy, request: Request, reserve: Write, env: Installation) {
    && CheckApproval(st, request.candidate).Ok? && (CheckApproval(st, request.candidate).value.1 ==> reserve == Lands)
    && Authorize(policy, st.ca, request).Ok? && MatchingStatus(st.registry, request.candidate) != Some(Active)
    && env.SaveOutlivesRollback() && LiveKey(st.ca, ProvisionerName(request.candidate.identity)) == Ok(None)
  }

  /** How far an interrupted approval got. */
  lemma ApprovalInterruptedAt(st: Store, policy: Policy, request: Request, reserve: Write, env: Installation)
    requires CheckApproval(st, request.candidate).Ok? && Authorize(policy, st.ca, request).Ok?
    ensures var mid := Approve(st, policy, request, reserve, env).0;
            var reserved := Apply(st.registry, Reserving(request.candidate));
            var activated := Apply(reserved, Activating(request.candidate));
            var ca := Authorize(policy, st.ca, request).value;
            || mid == st || mid == st.(registry := reserved) || mid == st.(registry := reserved, ca := ca)
            || mid == st.(registry := activated, ca := ca)
            || (mid == st.(registry := activated) && env.SaveOutlivesRollback()
                && (CheckApproval(st, request.candidate).value.1 ==> reserve == Lands))
  {
    ApproveShape(st, policy, request, reserve, env);
    ApproveReservedLeaves(st.(registry := Apply(st.registry, Reserving(request.candidate))), policy, request, env);
  }

  /** At every stage of an approval the check passes again and asks for no reservation. */
  lemma RecheckStage(st: Store, candidate: Record, again: Record, registry: seq<Record>, ca: seq<Value>)
    requires Valid(st.registry) && candidate.PendingCandidate() && again == candidate.(enrolledAt := again.enrolledAt)
    requires CheckApproval(st, candidate).Ok?
    requires registry == Apply(st.registry, Reserving(candidate))
             || registry == Apply(Apply(st.registry, Reserving(candidate)), Activating(candidate))
    requires (ca == st.ca && registry == Apply(st.registry, Reserving(candidate)))
             || LiveKey(ca, ProvisionerName(candidate.identity)) == Ok(Some(candidate.jwk))
    ensures CheckApproval(st.(registry := registry, ca := ca), again) == Ok((registry, false))
    ensures Apply(registry, Activating(again)) == Apply(Apply(st.registry, Reserving(candidate)), Activating(candidate))
  {
    var reserved := Apply(st.registry, Reserving(candidate));
    CheckedReserve(st, candidate);
    if registry == reserved {
      RecheckReserved(st, candidate, again, registry, ca);
      SameActivation(reserved, candidate, again);
    } else {
      RecheckActivated(st, candidate, again, ca);
    }
  }

  /** Rerunning from a stage of the same approval. */
  lemma RerunApproval(st: Store, policy: Policy, request: Request, again: Request, registry: seq<Record>,
                      ca: seq<Value>)
    requires request.Valid() && again.Valid() && SameRequest(request, again) && JwkIssuers(policy) && Valid(st.registry)
    requires CheckApproval(st, request.candidate).Ok? && Authorize(policy, st.ca, request).Ok?
    requires registry == Apply(st.registry, Reserving(request.candidate))
             || registry == Apply(Apply(st.registry, Reserving(request.candidate)), Activating(request.candidate))
    requires ca == Authorize(policy, st.ca, request).value
             || (ca == st.ca && registry == Apply(st.registry, Reserving(request.candidate)))
             || (ca == st.ca && LiveKey(ca, ProvisionerName(request.candidate.identity))
                 == Ok(Some(request.candidate.jwk)))
    ensures Approve(st.(registry := registry, ca := ca), policy, again, Lands, SMOOTH)
            == Approve(st, policy, request, Lands, SMOOTH)
  {
    var reserved := Apply(st.registry, Reserving(request.candidate));
    var activated := Apply(reserved, Activating(request.candidate));
    var mid := st.(registry := registry, ca := ca);
    ApplyKeepsValid(st.registry, Reserving(request.candidate));
    ApplyKeepsValid(reserved, Activating(request.candidate));
    UndisturbedApproval(st, policy, request);
    ProposedLiveKey(policy, st.ca, request);
    AuthorizeAgain(policy, st.ca, request);
    SameAuthorization(policy, ca, request, again);
    RecheckStage(st, request.candidate, again.candidate, registry, ca);
    CheckedReserve(mid, again.candidate);
    UndisturbedApproval(mid, policy, again);
  }

  /** Activating a reserved candidate does not depend on the time of the request. */
  lemma SameActivation(records: seq<Record>, a: Record, b: Record)
    requires b == a.(enrolledAt := b.enrolledAt) && LiveIndex(records, a.identity).Some?
    ensures Apply(records, Activating(a)) == Apply(records, Activating(b))
  {
    SameCandidate(records, a, b);
  }

  /** From before any write the rerun enters its own time, and nothing else differs. */
  lemma ApprovalAnyTime(st: Store, policy: Policy, request: Request, again: Request)
    requires request.Valid() && again.Valid() && SameRequest(request, again) && Valid(st.registry)
    requires CheckApproval(st, request.candidate).Ok? && Authorize(policy, st.ca, request).Ok?
    ensures var (goal, rerun) := (Approve(st, policy, request, Lands, SMOOTH),
            Approve(st, policy, again, Lands, SMOOTH));
            && goal.1 == Done && rerun.1 == Done && rerun.0.ca == goal.0.ca && rerun.0.ledger == goal.0.ledger
            && SameRegistry(rerun.0.registry, goal.0.registry)
  {
    RecheckAnyTime(st, request.candidate, again.candidate);
    SameAuthorization(policy, st.ca, request, again);
    UndisturbedApproval(st, policy, request);
    UndisturbedApproval(st, policy, again);
    SameActivated(st.registry, request.candidate, again.candidate);
  }

  lemma RecheckAnyTime(st: Store, a: Record, b: Record)
    requires b == a.(enrolledAt := b.enrolledAt) && CheckApproval(st, a).Ok?
    ensures CheckApproval(st, b).Ok? && CheckCandidate(st.registry, a).Ok?
  {
    SameCandidate(st.registry, a, b);
    CheckedReserve(st, a);
  }

  lemma SameActivated(records: seq<Record>, a: Record, b: Record)
    requires b == a.(enrolledAt := b.enrolledAt) && CheckCandidate(records, a).Ok? && a.status == Pending
             && a.revokedAt == None
    ensures SameRegistry(Apply(Apply(records, Reserving(b)), Activating(b)),
            Apply(Apply(records, Reserving(a)), Activating(a)))
  {
    SameCandidate(records, a, b);
    if LiveIndex(records, a.identity).Some? {
      SameActivation(records, a, b);
    } else {
      NewlyActivated(records, a);
      NewlyActivated(records, b);
    }
  }

  lemma NewlyActivated(records: seq<Record>, candidate: Record)
    requires CheckCandidate(records, candidate).Ok? && LiveIndex(records, candidate.identity).None?
             && candidate.status == Pending
    ensures Apply(Apply(records, Reserving(candidate)), Activating(candidate))
            == records + [candidate.With(Active, None)]
  {
    var reserved := records + [candidate];
    OwnReservationAccepted(records, candidate);
    assert reserved[|records|] in reserved;
    var i := LiveIndex(reserved, candidate.identity).value;
    forall k | 0 <= k < |records| ensures !(reserved[k].Live() && reserved[k].identity == candidate.identity) {
      assert reserved[k] in records;
    }
    assert reserved[i := candidate.With(Active, None)] == records + [candidate.With(Active, None)];
  }

  /**
   From every point where an approval can stop, the same request approved again ends as if it had
   not been disturbed, except for the time it was first entered; the one exception is a stranded
   approval, whose retry is refused.
   */
  lemma ApprovalResumes(st: Store, policy: Policy, request: Request, again: Request, reserve: Write, env: Installation)
    requires request.Valid() && again.Valid() && SameRequest(request, again) && JwkIssuers(policy) && Valid(st.registry)
    requires CheckApproval(st, request.candidate).Ok? && Authorize(policy, st.ca, request).Ok?
    ensures var goal := Approve(st, policy, request, Lands, SMOOTH).0;
            var (rerun, outcome) := Approve(Approve(st, policy, request, reserve, env).0, policy, again, Lands, SMOOTH);
            if Strands(st, policy, request, reserve, env) then outcome == Refused(ActiveButMissing)
            else
              outcome == Done && rerun.ca == goal.ca && rerun.ledger == goal.ledger
              && SameRegistry(rerun.registry, goal.registry)
  {
    if Strands(st, policy, request, reserve, env) {
      StrandedRetry(st, policy, request, again, reserve, env);
    } else {
      UnstrandedResumes(st, policy, request, again, reserve, env);
    }
  }

  lemma StrandedRetry(st: Store, policy: Policy, request: Request, again: Request, reserve: Write, env: Installation)
    requires request.Valid() && again.Valid() && SameRequest(request, again) && Valid(st.registry)
    requires Strands(st, policy, request, reserve, env)
    ensures Approve(Approve(st, policy, request, reserve, env).0, policy, again, Lands, SMOOTH).1
            == Refused(ActiveButMissing)
  {
    StrandedStore(st, policy, request, reserve, env);
    RecheckActivated(st, request.candidate, again.candidate, st.ca);
    SameAuthorization(policy, st.ca, request, again);
    AuthorizedIsPermitted(policy, st.ca, again);
  }

  lemma UnstrandedResumes(st: Store, policy: Policy, request: Request, again: Request, reserve: Write,
                          env: Installation)
    requires request.Valid() && again.Valid() && SameRequest(request, again) && JwkIssuers(policy) && Valid(st.registry)
    requires CheckApproval(st, request.candidate).Ok? && Authorize(policy, st.ca, request).Ok?
    requires !Strands(st, policy, request, reserve, env)
    ensures var goal := Approve(st, policy, request, Lands, SMOOTH).0;
            var (rerun, outcome) := Approve(Approve(st, policy, request, reserve, env).0, policy, again, Lands, SMOOTH);
            outcome == Done && rerun.ca == goal.ca && rerun.ledger == goal.ledger
                && SameRegistry(rerun.registry, goal.registry)
  {
    var mid := Approve(st, policy, request, reserve, env).0;
    var reserved := Apply(st.registry, Reserving(request.candidate));
    var activated := Apply(reserved, Activating(request.candidate));
    ApprovalInterruptedAt(st, policy, request, reserve, env);
    ApprovalAnyTime(st, policy, request, again);
    if mid != st {
      if mid.registry == activated != reserved && mid.ca == st.ca != Authorize(policy, st.ca, request).value {
        OtherwiseLive(st, policy, request, reserve, env);
      }
      RerunApproval(st, policy, request, again, mid.registry, mid.ca);
    }
  }

  lemma StrandedStore(st: Store, policy: Policy, request: Request, reserve: Write, env: Installation)
    requires request.Valid() && Valid(st.registry) && Strands(st, policy, request, reserve, env)
    ensures var activated := Apply(Apply(st.registry, Reserving(request.candidate)), Activating(request.candidate));
            Approve(st, policy, request, reserve, env).0 == st.(registry := activated)
  {
    if Issued(st.ca, request.candidate) { IssuedHasLiveKey(st.ca, request.candidate); }
    LostStore(st, policy, request, reserve, env);
  }

  /** A save that outlives its rollback leaves a live key behind unless it strands the approval. */
  lemma OtherwiseLive(st: Store, policy: Policy, request: Request, reserve: Write, env: Installation)
    requires Valid(st.registry) && CheckApproval(st, request.candidate).Ok? && Authorize(policy, st.ca, request).Ok?
    requires !Strands(st, policy, request, reserve, env) && env.SaveOutlivesRollback()
    requires CheckApproval(st, request.candidate).value.1 ==> reserve == Lands
    requires Apply(Apply(st.registry, Reserving(request.candidate)), Activating(request.candidate))
             != Apply(st.registry, Reserving(request.candidate))
    ensures LiveKey(st.ca, ProvisionerName(request.candidate.identity)) == Ok(Some(request.candidate.jwk))
  {
    if MatchingStatus(st.registry, request.candidate) == Some(Active) { ActiveStays(st.registry, request.candidate); }
    CheckedLiveKey(st, request.candidate);
  }

  lemma CheckedLiveKey(st: Store, candidate: Record)
    requires CheckApproval(st, candidate).Ok?
    ensures var live := LiveKey(st.ca, ProvisionerName(candidate.identity));
            live == Ok(Some(candidate.jwk))
                || (live == Ok(None) && MatchingStatus(st.registry, candidate) != Some(Active))
  {}

  datatype Try = Try(request: Request, reserve: Write, env: Installation)

  /** The same request approved over and over, each time with its own faults. */
  function Tried(st: Store, policy: Policy, tries: seq<Try>): Store
    decreases |tries|
  {
    if tries == [] then st
    else Tried(Approve(st, policy, tries[0].request, tries[0].reserve, tries[0].env).0, policy, tries[1..])
  }

  /** Some try strands the approval. */
  predicate EverStrands(st: Store, policy: Policy, tries: seq<Try>)
    decreases |tries|
  {
    tries != []
    && (Strands(st, policy, tries[0].request, tries[0].reserve, tries[0].env)
        || EverStrands(Approve(st, policy, tries[0].request, tries[0].reserve, tries[0].env).0, policy, tries[1..]))
  }

  predicate AllSame(request: Request, tries: seq<Try>) {
    forall t :: t in tries ==> t.request.Valid() && SameRequest(request, t.request)
  }

  /** A stranded approval stays stranded: its retries are refused and write nothing. */
  lemma {:induction false} StrandedForGood(st: Store, policy: Policy, tries: seq<Try>, request: Request)
    requires AllSame(request, tries) && CheckApproval(st, request.candidate) == Err(ActiveButMissing)
    ensures Tried(st, policy, tries) == st
    decreases |tries|
  {
    if tries != [] {
      assert tries[0] in tries;
      SameRefusal(st, request.candidate, tries[0].request.candidate);
      StrandedForGood(st, policy, tries[1..], request);
    }
  }

  lemma SameRefusal(st: Store, a: Record, b: Record)
    requires b == a.(enrolledAt := b.enrolledAt) && CheckApproval(st, a) == Err(ActiveButMissing)
    ensures CheckApproval(st, b) == Err(ActiveButMissing)
  {
    SameCandidate(st.registry, a, b);
  }

  /** A refusal as active but missing comes from the check before any write. */
  lemma RefusedByCheck(st: Store, policy: Policy, request: Request, reserve: Write, env: Installation)
    ensures var outcome := Approve(st, policy, request, reserve, env).1;
            && (outcome == Refused(ActiveButMissing) ==> CheckApproval(st, request.candidate) == Err(ActiveButMissing))
            && (outcome == Done ==> CheckApproval(st, request.candidate).Ok? && Authorize(policy, st.ca, request).Ok?)
  {
    if Permitted(policy, request) && CheckApproval(st, request.candidate).Ok? {
      var reserved := st.(registry := CheckApproval(st, request.candidate).value.0);
      ReservedOutcome(reserved, policy, request, env);
    }
  }

  lemma ReservedOutcome(st: Store, policy: Policy, request: Request, env: Installation)
    ensures ApproveReserved(st, policy, request, env).1 != Refused(ActiveButMissing)
    ensures ApproveReserved(st, policy, request, env).1 == Done ==> Authorize(policy, st.ca, request).Ok?
  {
    var proposed := Authorize(policy, st.ca, request);
    if proposed.Ok? { InstallLeaves(st, proposed.value, Some(Activated(st.registry, request.candidate)), env); }
  }

  /**
   However often an approval is interrupted, completing it ends as if it had run once undisturbed,
   unless a try strands it; then it is refused for good.
   */
  lemma {:induction false} RepeatedApprovalResumes(st: Store, policy: Policy, tries: seq<Try>, request: Request)
    requires request.Valid() && AllSame(request, tries) && JwkIssuers(policy) && Valid(st.registry)
    requires CheckApproval(st, request.candidate).Ok? && Authorize(policy, st.ca, request).Ok?
    ensures var goal := Approve(st, policy, request, Lands, SMOOTH).0;
            var (last, outcome) := Approve(Tried(st, policy, tries), policy, request, Lands, SMOOTH);
            if EverStrands(st, policy, tries) then outcome == Refused(ActiveButMissing)
            else outcome == Done && SameStore(last, goal)
    decreases |tries|
  {
    if tries == [] {
      ApprovalAnyTime(st, policy, request, request);
    } else {
      var first := tries[0];
      assert first in tries;
      var mid := Approve(st, policy, first.request, first.reserve, first.env).0;
      RecheckAnyTime(st, request.candidate, first.request.candidate);
      SameAuthorization(policy, st.ca, request, first.request);
      ApprovalResumes(st, policy, first.request, request, first.reserve, first.env);
      RefusedByCheck(mid, policy, request, Lands, SMOOTH);
      if Strands(st, policy, first.request, first.reserve, first.env) {
        StrandedForGood(mid, policy, tries[1..], request);
      } else {
        ApproveKeepsValid(st, policy, first.request, first.reserve, first.env);
        RepeatedApprovalResumes(mid, policy, tries[1..], request);
        ApprovalAnyTime(st, policy, request, first.request);
        SameStoreTransitive(Approve(mid, policy, request, Lands, SMOOTH).0,
                            Approve(st, policy, first.request, Lands, SMOOTH).0,
                            Approve(st, policy, request, Lands, SMOOTH).0);
        if !EverStrands(mid, policy, tries[1..]) {
          SameStoreTransitive(Approve(Tried(mid, policy, tries[1..]), policy, request, Lands, SMOOTH).0,
                              Approve(mid, policy, request, Lands, SMOOTH).0,
                              Approve(st, policy, request, Lands, SMOOTH).0);
        }
      }
    }
  }

  // ---- Rerunning an import ----

  /** Where an interrupted import can leave the two files. */
  lemma ImportStages(st: Store, denials: Denials, candidate: Record, reformatted: bool, env: Installation)
    requires candidate.key.SshKey? && Import(st, denials, candidate, reformatted, SMOOTH).1 == Done
    ensures var ca := Bind(st.ca, ProvisionerName(candidate.identity), candidate.jwk, Blob(candidate.key.canonical),
            denials);
            var goal, mid := Import(st, denials, candidate, reformatted, SMOOTH).0,
                Import(st, denials, candidate, reformatted, env).0;
            && !Tombstoned(st.ledger, candidate.key, candidate.jwk) && CheckCandidate(st.registry, candidate).Ok?
            && ca == Ok(goal.ca) && goal.registry == Apply(st.registry, Activating(candidate))
            && goal.ledger == st.ledger
            && mid.ledger == st.ledger && (mid.ca == st.ca || mid.ca == goal.ca)
            && (mid.registry == st.registry || mid.registry == goal.registry)
  {
    ImportLeaves(st, denials, candidate, reformatted, env);
    CompletedImport(st, denials, candidate, reformatted);
  }

  lemma CompletedImport(st: Store, denials: Denials, candidate: Record, reformatted: bool)
    requires candidate.key.SshKey? && Import(st, denials, candidate, reformatted, SMOOTH).1 == Done
    ensures var ca := Bind(st.ca, ProvisionerName(candidate.identity), candidate.jwk, Blob(candidate.key.canonical),
            denials);
            && !Tombstoned(st.ledger, candidate.key, candidate.jwk) && CheckCandidate(st.registry, candidate).Ok?
            && ca.Ok?
            && Import(st, denials, candidate, reformatted, SMOOTH).0
               == Store(Apply(st.registry, Activating(candidate)), st.ledger, ca.value)
  {
    var ca := Bind(st.ca, ProvisionerName(candidate.identity), candidate.jwk, Blob(candidate.key.canonical), denials);
    var (proposed, changed) := Activate(st.registry, candidate).value;
    InstallLeaves(st, ca.value, if changed then Some(proposed) else None, SMOOTH);
  }

  /** Activating once more, at any time, changes nothing. */
  lemma ActivateAgain(records: seq<Record>, candidate: Record, again: Record)
    requires Valid(records) && candidate.PendingCandidate() && again == candidate.(enrolledAt := again.enrolledAt)
    requires CheckCandidate(records, candidate).Ok?
    ensures var next := Apply(records, Activating(candidate)); Activate(next, again) == Ok((next, false))
    ensures Activate(records, again).Ok?
            && SameRegistry(Activate(records, again).value.0, Apply(records, Activating(candidate)))
  {
    RetriesAreIdempotent(records, candidate, again);
    ActivateAnyTime(records, candidate, again);
  }

  lemma ActivateAnyTime(records: seq<Record>, a: Record, b: Record)
    requires b == a.(enrolledAt := b.enrolledAt) && CheckCandidate(records, a).Ok?
    ensures Activate(records, b).Ok? && SameRegistry(Activate(records, b).value.0, Apply(records, Activating(a)))
  {
    SameCandidate(records, a, b);
    if LiveIndex(records, a.identity).Some? { SameActivation(records, a, b); }
  }

  /** Importing the same export a second time changes neither file, and needs no installation. */
  lemma ImportTwice(st: Store, denials: Denials, candidate: Record, again: Record, reformatted: bool, env: Installation)
    requires Valid(st.registry) && candidate.PendingCandidate() && candidate.key.SshKey?
             && again == candidate.(enrolledAt := again.enrolledAt)
    requires Import(st, denials, candidate, reformatted, SMOOTH).1 == Done
    ensures var next := Import(st, denials, candidate, reformatted, SMOOTH).0;
            Import(next, denials, again, false, env) == (next, Done)
  {
    ImportStages(st, denials, candidate, reformatted, env);
    ActivateAgain(st.registry, candidate, again);
    BlobIsBlob(candidate.key.canonical);
    var i := BindExact(st.ca, candidate.identity, candidate.jwk, Blob(candidate.key.canonical), denials);
  }

  /** From every point where an import can stop, importing again ends as if it had not been disturbed. */
  lemma ImportConverges(st: Store, denials: Denials, candidate: Record, again: Record, reformatted: bool,
                        reformatted': bool, env: Installation)
    requires Valid(st.registry) && candidate.PendingCandidate() && candidate.key.SshKey?
             && again == candidate.(enrolledAt := again.enrolledAt)
    requires Import(st, denials, candidate, reformatted, SMOOTH).1 == Done
    ensures var goal := Import(st, denials, candidate, reformatted, SMOOTH).0;
            var (rerun, outcome) := Import(Import(st, denials, candidate, reformatted, env).0, denials, again,
                reformatted', SMOOTH);
            outcome == Done && rerun.ca == goal.ca && rerun.ledger == goal.ledger
                && SameRegistry(rerun.registry, goal.registry)
  {
    var mid := Import(st, denials, candidate, reformatted, env).0;
    ImportStages(st, denials, candidate, reformatted, env);
    ActivateAgain(st.registry, candidate, again);
    BlobIsBlob(candidate.key.canonical);
    var i := BindExact(st.ca, candidate.identity, candidate.jwk, Blob(candidate.key.canonical), denials);
    ApplyKeepsValid(st.registry, Activating(candidate));
    ApplyKeepsValid(mid.registry, Activating(again));
    UndisturbedImport(mid, denials, again, reformatted');
  }

  lemma UndisturbedImport(st: Store, denials: Denials, candidate: Record, reformatted: bool)
    requires candidate.key.SshKey? && !Tombstoned(st.ledger, candidate.key, candidate.jwk)
    requires Bind(st.ca, ProvisionerName(candidate.identity), candidate.jwk, Blob(candidate.key.canonical), denials).Ok?
    requires Activate(st.registry, candidate).Ok? && Valid(Activate(st.registry, candidate).value.0)
    ensures var ca := Bind(st.ca, ProvisionerName(candidate.identity), candidate.jwk, Blob(candidate.key.canonical),
            denials).value;
            Import(st, denials, candidate, reformatted, SMOOTH)
                == (Store(Activate(st.registry, candidate).value.0, st.ledger, ca), Done)
  {}
}
