/**
 Projection of site policy onto `authority.policy` in `ca.json`
 (`reconcile_authority_policy` and `reconcile_managed_value` in src/runtime_provisioners.rs).
 */
module AuthorityPolicy {
  import opened Wrappers
  import opened Json

  datatype Refusal =
    | ExpectedObject
    | MissingManagedField

  /** The paths Grafhome owns below `authority.policy`. */
  const MANAGED: seq<Path> := [
    ["x509", "allow", "dns"],
    ["x509", "allowWildcardNames"],
    ["ssh", "user", "allow", "principal"],
    ["ssh", "host", "allow", "dns"],
    ["ssh", "host", "allow", "ip"]
  ]

  const POLICY_PATH: Path := ["authority", "policy"]

  /** Recursive in-place update of one managed path, with its changed flag. */
  function ReconcileManaged(live: Value, desired: Value, path: Path): Result<(Value, bool), Refusal>
    decreases |path|
  {
    if path == [] then Ok((live, false))
    else match Field(desired, path[0])
      case None => Err(MissingManagedField)
      case Some(wanted) =>
        if !live.Obj? then Err(ExpectedObject)
        else if |path| == 1 then
          if Field(live, path[0]) == Some(wanted) then Ok((live, false))
          else Ok((Obj(live.fields[path[0] := wanted]), true))
        else match ReconcileManaged(Child(live, path[0]), wanted, path[1..])
          case Err(e) => Err(e)
          case Ok((child, changed)) => Ok((Obj(live.fields[path[0] := child]), changed))
  }

  /** The recursion is a single path update, and its flag reports exactly a change. */
  lemma {:induction false} ReconcileIsPut(live: Value, desired: Value, path: Path)
    requires path != []
    ensures ReconcileManaged(live, desired, path).Ok? <==>
            Get(desired, path).Some? && Put(live, path, Get(desired, path).value).Some?
    ensures match ReconcileManaged(live, desired, path)
            case Ok((v, changed)) => Put(live, path, Get(desired, path).value) == Some(v) && (changed <==> v != live)
            case Err(_) => true
    decreases |path|
  {
    if Field(desired, path[0]).Some? && live.Obj? {
      var wanted := Field(desired, path[0]).value;
      var child := Child(live, path[0]);
      if |path| == 1 {
        assert Get(desired, path) == Some(wanted);
        if Field(live, path[0]) == Some(wanted) { assert live.fields[path[0] := wanted] == live.fields; }
      } else {
        ReconcileIsPut(child, wanted, path[1..]);
        var inner := ReconcileManaged(child, wanted, path[1..]);
        if inner.Ok? {
          var v := Obj(live.fields[path[0] := inner.value.0]);
          GetPut(child, path[1..], Get(desired, path).value);
          if path[0] in live.fields {
            if inner.value.0 == child { assert v.fields == live.fields; }
          } else {
            assert Get(EMPTY, path[1..]) == None;
          }
          assert v.fields[path[0]] == inner.value.0;
        }
      }
    }
  }

  /** The site policy's updates, as absolute paths into `ca.json`. */
  function Updates(desired: Value): (r: seq<Update>)
    requires forall p :: p in MANAGED ==> Get(desired, p).Some?
    ensures |r| == |MANAGED|
    ensures forall i :: 0 <= i < |r| ==> r[i] == Update(MANAGED[i], Get(desired, MANAGED[i]).value)
  {
    seq(|MANAGED|, i requires 0 <= i < |MANAGED| => Update(MANAGED[i], Get(desired, MANAGED[i]).value))
  }

  lemma ManagedPathsApart()
    ensures forall i, j :: 0 <= i < j < |MANAGED| ==> Apart(MANAGED[i], MANAGED[j]) && Apart(MANAGED[j], MANAGED[i])
    ensures forall p :: p in MANAGED ==> p != []
  {
    forall i, j | 0 <= i < j < |MANAGED| ensures Apart(MANAGED[i], MANAGED[j]) && Apart(MANAGED[j], MANAGED[i]) {
      var p, q := MANAGED[i], MANAGED[j];
      assert p[0] != q[0] || p[1] != q[1] || p[3] != q[3];
    }
  }

  lemma UpdatesIndependent(desired: Value)
    requires forall p :: p in MANAGED ==> Get(desired, p).Some?
    ensures Independent(Updates(desired))
  {
    ManagedPathsApart();
    var us := Updates(desired);
    forall u, w | u in us && w in us && u != w ensures Apart(u.path, w.path) {
      var i :| 0 <= i < |us| && us[i] == u;
      var j :| 0 <= j < |us| && us[j] == w;
      assert i < j || j < i;
    }
    forall u | u in us ensures u.path != [] {
      var i :| 0 <= i < |us| && us[i] == u;
      assert MANAGED[i] in MANAGED;
    }
  }

  predicate Complete(desired: Value) { forall p :: p in MANAGED ==> Get(desired, p).Some? }

  /** The updates from the i-th on, applied as one batch. */
  function BatchFrom(live: Value, desired: Value, i: nat): Option<Value>
    requires i <= |MANAGED|
  {
    if Complete(desired) then
      UpdatesIndependent(desired);
      PutAll(live, Updates(desired)[i..])
    else None
  }

  /** The whole reconciliation: one batch of path updates below `authority.policy`. */
  function Reconciled(live: Value, desired: Value): Option<Value> { BatchFrom(live, desired, 0) }

  lemma BatchStep(live: Value, desired: Value, i: nat)
    requires i < |MANAGED| && Complete(desired)
    ensures MANAGED[i] != [] && Get(desired, MANAGED[i]).Some?
    ensures BatchFrom(live, desired, i) ==
            match Put(live, MANAGED[i], Get(desired, MANAGED[i]).value)
            case None => None
            case Some(next) => BatchFrom(next, desired, i + 1)
  {
    assert MANAGED[i] in MANAGED;
    var us := Updates(desired)[i..];
    assert us[0] == Updates(desired)[i] && us[1..] == Updates(desired)[i + 1..];
    UpdatesIndependent(desired);
    assert us[0] in Updates(desired);
  }

  /** One iteration: it sets the i-th path, leaves the others, and is one step of the batch. */
  lemma ManagedStep(current: Value, desired: Value, i: nat)
    requires i < |MANAGED|
    ensures var step := ReconcileManaged(current, desired, MANAGED[i]);
            && (Complete(desired) ==>
                  BatchFrom(current, desired, i) == if step.Err? then None else BatchFrom(step.value.0, desired, i + 1))
            && (step.Ok? ==>
                  && Get(desired, MANAGED[i]).Some? && Get(step.value.0, MANAGED[i]) == Get(desired, MANAGED[i])
                  && (step.value.1 <==> step.value.0 != current)
                  && (step.value.0 == current <==> Get(current, MANAGED[i]) == Get(desired, MANAGED[i]))
                  && forall k :: 0 <= k < |MANAGED| && k != i ==>
                      Get(step.value.0, MANAGED[k]) == Get(current, MANAGED[k]))
  {
    var path := MANAGED[i];
    ManagedPathsApart();
    assert path in MANAGED;
    if Complete(desired) { BatchStep(current, desired, i); }
    ReconcileIsPut(current, desired, path);
    if Get(desired, path).Some? && Put(current, path, Get(desired, path).value).Some? {
      var wanted := Get(desired, path).value;
      GetPut(current, path, wanted);
      PutSame(current, path, wanted);
      forall k | 0 <= k < |MANAGED| && k != i
        ensures Get(Put(current, path, wanted).value, MANAGED[k]) == Get(current, MANAGED[k])
      {
        GetPutApart(current, path, wanted, MANAGED[k]);
      }
    }
  }

  /** The first `i` paths are done: set in `current`, and `changed` if one of them differed. */
  predicate Progress(live: Value, desired: Value, current: Value, changed: bool, i: nat)
    requires i <= |MANAGED|
  {
    && (forall k :: 0 <= k < i ==>
        Get(desired, MANAGED[k]).Some? && Get(current, MANAGED[k]) == Get(desired, MANAGED[k]))
    && (forall k :: i <= k < |MANAGED| ==> Get(current, MANAGED[k]) == Get(live, MANAGED[k]))
    && (if changed then DiffersBefore(live, desired, i) else current == live)
    && (Complete(desired) ==> BatchFrom(current, desired, i) == Reconciled(live, desired))
  }

  predicate DiffersBefore(live: Value, desired: Value, i: nat)
    requires i <= |MANAGED|
  {
    exists k :: 0 <= k < i && Get(live, MANAGED[k]) != Get(desired, MANAGED[k])
  }

  lemma ProgressStarts(live: Value, desired: Value)
    ensures Progress(live, desired, live, false, 0)
  {}

  lemma ProgressStep(live: Value, desired: Value, current: Value, changed: bool, i: nat)
    requires i < |MANAGED| && Progress(live, desired, current, changed, i)
    requires ReconcileManaged(current, desired, MANAGED[i]).Ok?
    ensures var (next, updated) := ReconcileManaged(current, desired, MANAGED[i]).value;
            Progress(live, desired, next, changed || updated, i + 1)
  {
    var (next, updated) := ReconcileManaged(current, desired, MANAGED[i]).value;
    ManagedStep(current, desired, i);
    if updated { assert Get(live, MANAGED[i]) != Get(desired, MANAGED[i]); }
    if changed || updated { assert DiffersBefore(live, desired, i + 1); }
  }

  /** A path that cannot be set stops the batch. */
  lemma ProgressStops(live: Value, desired: Value, current: Value, changed: bool, i: nat)
    requires i < |MANAGED| && Progress(live, desired, current, changed, i)
    requires ReconcileManaged(current, desired, MANAGED[i]).Err?
    ensures Reconciled(live, desired) == None
  {
    ManagedStep(current, desired, i);
  }

  lemma ProgressEnds(live: Value, desired: Value, current: Value, changed: bool)
    requires Progress(live, desired, current, changed, |MANAGED|)
    ensures Reconciled(live, desired) == Some(current) && (changed <==> current != live)
  {
    forall p | p in MANAGED ensures Get(desired, p).Some? { var k :| 0 <= k < |MANAGED| && MANAGED[k] == p; }
    assert Updates(desired)[|MANAGED|..] == [];
  }

  /**
   The loop over the managed paths. `live` is the value of `authority.policy`, an empty object
   when the operator has none.
   */
  method ReconcilePolicy(live: Value, desired: Value) returns (r: Result<(Value, bool), Refusal>)
    ensures r.Ok? <==> Reconciled(live, desired).Some?
    ensures r.Ok? ==> Reconciled(live, desired) == Some(r.value.0) && (r.value.1 <==> r.value.0 != live)
  {
    var current, changed, i := live, false, 0;
    ProgressStarts(live, desired);
    while i < |MANAGED|
      invariant 0 <= i <= |MANAGED|
      invariant Progress(live, desired, current, changed, i)
    {
      var step := ReconcileManaged(current, desired, MANAGED[i]);
      if step.Err? {
        ProgressStops(live, desired, current, changed, i);
        return Err(step.error);
      }
      ProgressStep(live, desired, current, changed, i);
      current, changed := step.value.0, changed || step.value.1;
      i := i + 1;
    }
    ProgressEnds(live, desired, current, changed);
    r := Ok((current, changed));
  }

  /**
   What the reconciliation means: each managed path holds the rendered value, every path apart
   from them is untouched, running it again changes nothing, and any other processing order
   gives the same tree.
   */
  lemma ReconciledExactly(live: Value, desired: Value, other: Path, order: seq<Update>)
    requires Reconciled(live, desired).Some?
    requires forall p :: p in MANAGED ==> Apart(p, other)
    requires multiset(order) == multiset(Updates(desired))
    ensures forall p :: p in MANAGED ==> Get(Reconciled(live, desired).value, p) == Get(desired, p)
    ensures Get(Reconciled(live, desired).value, other) == Get(live, other)
    ensures Reconciled(Reconciled(live, desired).value, desired) == Reconciled(live, desired)
    ensures Independent(order) && PutAll(live, order) == Reconciled(live, desired)
  {
    var us := Updates(desired);
    UpdatesIndependent(desired);
    PutAllSets(live, us);
    forall p | p in MANAGED ensures Get(Reconciled(live, desired).value, p) == Get(desired, p) {
      var i :| 0 <= i < |MANAGED| && MANAGED[i] == p;
      assert us[i] in us;
    }
    forall u | u in us ensures u.path in MANAGED {
      var i :| 0 <= i < |us| && us[i] == u;
    }
    PutAllKeeps(live, us, other);
    PutAllSame(Reconciled(live, desired).value, us);
    SameMembers(order, us);
    OrderIrrelevant(live, us, order);
  }
}
