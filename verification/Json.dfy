/** JSON trees, path updates on them, and JWK public material. */
module Json {
  import opened Wrappers

  datatype Value =
    | Null
    | Bool(b: bool)
    | Number(text: string)
    | Str(s: string)
    | Arr(items: seq<Value>)
    | Obj(fields: map<string, Value>)

  type Path = seq<string>

  const EMPTY := Obj(map[])

  function Field(v: Value, key: string): Option<Value> {
    if v.Obj? && key in v.fields then Some(v.fields[key]) else None
  }

  function StrField(v: Value, key: string): Option<string> {
    match Field(v, key)
    case Some(Str(s)) => Some(s)
    case _ => None
  }

  function Get(v: Value, path: Path): Option<Value> {
    if path == [] then Some(v)
    else match Field(v, path[0]) case Some(child) => Get(child, path[1..]) case None => None
  }

  function Child(v: Value, key: string): Value
    requires v.Obj?
  {
    if key in v.fields then v.fields[key] else EMPTY
  }

  /** Set one path, creating the objects it passes through; refused at a non-object. */
  function Put(v: Value, path: Path, x: Value): Option<Value>
    requires path != []
    decreases |path|
  {
    if !v.Obj? then None
    else if |path| == 1 then Some(Obj(v.fields[path[0] := x]))
    else
      match Put(Child(v, path[0]), path[1..], x)
      case None => None
      case Some(child) => Some(Obj(v.fields[path[0] := child]))
  }

  /** Neither path lies at or below the other. */
  predicate Apart(p: Path, q: Path) { !(p <= q) && !(q <= p) }

  lemma ApartTails(p: Path, q: Path)
    requires Apart(p, q) && p[0] == q[0]
    ensures |p| > 1 && |q| > 1 && Apart(p[1..], q[1..])
  {
    assert p == [p[0]] + p[1..] && q == [q[0]] + q[1..];
  }

  lemma {:induction false} GetPut(v: Value, path: Path, x: Value)
    requires path != [] && Put(v, path, x).Some?
    ensures Get(Put(v, path, x).value, path) == Some(x)
    decreases |path|
  {
    if |path| > 1 { GetPut(Child(v, path[0]), path[1..], x); }
  }

  lemma {:induction false} GetPutApart(v: Value, path: Path, x: Value, other: Path)
    requires path != [] && Put(v, path, x).Some? && Apart(path, other)
    ensures Get(Put(v, path, x).value, other) == Get(v, other)
    decreases |path|
  {
    if path[0] == other[0] {
      ApartTails(path, other);
      GetPutApart(Child(v, path[0]), path[1..], x, other[1..]);
    }
  }

  /** Setting a path to the value it already has changes nothing, and only then. */
  lemma {:induction false} PutSame(v: Value, path: Path, x: Value)
    requires path != []
    ensures Put(v, path, x) == Some(v) <==> Get(v, path) == Some(x)
    decreases |path|
  {
    if v.Obj? {
      if Get(v, path) == Some(x) {
        assert v.fields == v.fields[path[0] := v.fields[path[0]]];
        if |path| > 1 { PutSame(v.fields[path[0]], path[1..], x); }
      } else if Put(v, path, x) == Some(v) {
        GetPut(v, path, x);
      }
    }
  }

  /** Put after an optional earlier Put. */
  function AndPut(v: Option<Value>, path: Path, x: Value): Option<Value>
    requires path != []
  {
    match v case None => None case Some(tree) => Put(tree, path, x)
  }

  lemma PutsUnderOneKey(v: Value, p: Path, x: Value, q: Path, y: Value)
    requires |p| > 1 && |q| > 1 && p[0] == q[0] && v.Obj?
    ensures AndPut(Put(v, p, x), q, y) ==
            match AndPut(Put(Child(v, p[0]), p[1..], x), q[1..], y)
            case None => None
            case Some(child) => Some(Obj(v.fields[p[0] := child]))
  {
    var first := Put(Child(v, p[0]), p[1..], x);
    if first.Some? {
      var second := Put(first.value, q[1..], y);
      if second.Some? {
        assert v.fields[p[0] := first.value][p[0] := second.value] == v.fields[p[0] := second.value];
      }
    }
  }

  /** A put changes one top-level field, to a value that depends on that field alone. */
  lemma PutTouchesOneField(v: Value, w: Value, p: Path, x: Value)
    requires p != [] && v.Obj? && w.Obj? && Child(v, p[0]) == Child(w, p[0])
    ensures match (Put(v, p, x), Put(w, p, x))
            case (Some(a), Some(b)) =>
              && a.Obj? && b.Obj? && p[0] in a.fields && p[0] in b.fields && a.fields[p[0]] == b.fields[p[0]]
              && a.fields == v.fields[p[0] := a.fields[p[0]]] && b.fields == w.fields[p[0] := a.fields[p[0]]]
            case (None, None) => true
            case _ => false
  {}

  lemma PutsUnderTwoKeys(v: Value, p: Path, x: Value, q: Path, y: Value)
    requires p != [] && q != [] && p[0] != q[0] && v.Obj?
    ensures AndPut(Put(v, p, x), q, y) == AndPut(Put(v, q, y), p, x)
  {
    var a, b := Put(v, p, x), Put(v, q, y);
    if a.Some? { PutTouchesOneField(v, a.value, q, y); }
    if b.Some? { PutTouchesOneField(v, b.value, p, x); }
    if a.Some? && b.Some? {
      var c, d := a.value.fields[p[0]], b.value.fields[q[0]];
      assert v.fields[p[0] := c][q[0] := d] == v.fields[q[0] := d][p[0] := c];
    }
  }

  lemma {:induction false} PutsCommute(v: Value, p: Path, x: Value, q: Path, y: Value)
    requires p != [] && q != [] && Apart(p, q)
    ensures AndPut(Put(v, p, x), q, y) == AndPut(Put(v, q, y), p, x)
    decreases |p|
  {
    if v.Obj? && p[0] == q[0] {
      ApartTails(p, q);
      PutsCommute(Child(v, p[0]), p[1..], x, q[1..], y);
      PutsUnderOneKey(v, p, x, q, y);
      PutsUnderOneKey(v, q, y, p, x);
    } else if v.Obj? {
      PutsUnderTwoKeys(v, p, x, q, y);
    }
  }

  datatype Update = Update(path: Path, x: Value)

  function PutAll(v: Value, updates: seq<Update>): Option<Value>
    requires forall u :: u in updates ==> u.path != []
    decreases |updates|
  {
    if updates == [] then Some(v)
    else match Put(v, updates[0].path, updates[0].x)
         case None => None
         case Some(next) => PutAll(next, updates[1..])
  }

  /** Distinct updates touch paths that do not meet. */
  predicate Independent(updates: seq<Update>) {
    && (forall u :: u in updates ==> u.path != [])
    && (forall u, w :: u in updates && w in updates && u != w ==> Apart(u.path, w.path))
  }

  lemma {:induction false} PutAllKeeps(v: Value, updates: seq<Update>, other: Path)
    requires Independent(updates) && PutAll(v, updates).Some?
    requires forall u :: u in updates ==> Apart(u.path, other)
    ensures Get(PutAll(v, updates).value, other) == Get(v, other)
    decreases |updates|
  {
    if updates != [] {
      GetPutApart(v, updates[0].path, updates[0].x, other);
      PutAllKeeps(Put(v, updates[0].path, updates[0].x).value, updates[1..], other);
    }
  }

  lemma {:induction false} PutAllSets(v: Value, updates: seq<Update>)
    requires Independent(updates) && PutAll(v, updates).Some?
    ensures forall u :: u in updates ==> Get(PutAll(v, updates).value, u.path) == Some(u.x)
    decreases |updates|
  {
    if updates != [] {
      var u := updates[0];
      var next := Put(v, u.path, u.x).value;
      GetPut(v, u.path, u.x);
      PutAllSets(next, updates[1..]);
      if u !in updates[1..] { PutAllKeeps(next, updates[1..], u.path); }
    }
  }

  lemma {:induction false} PutAllSame(v: Value, updates: seq<Update>)
    requires Independent(updates)
    requires forall u :: u in updates ==> Get(v, u.path) == Some(u.x)
    ensures PutAll(v, updates) == Some(v)
    decreases |updates|
  {
    if updates != [] {
      PutSame(v, updates[0].path, updates[0].x);
      PutAllSame(v, updates[1..]);
    }
  }

  lemma SwapFirstTwo(v: Value, a: Update, b: Update, rest: seq<Update>)
    requires Independent([a, b] + rest) && Independent([b, a] + rest)
    ensures PutAll(v, [a, b] + rest) == PutAll(v, [b, a] + rest)
  {
    assert a in [a, b] + rest && b in [a, b] + rest;
    if a != b { PutsCommute(v, a.path, a.x, b.path, b.x); }
    assert ([a, b] + rest)[1..] == [b] + rest && ([b] + rest)[1..] == rest;
    assert ([b, a] + rest)[1..] == [a] + rest && ([a] + rest)[1..] == rest;
  }

  /** An update can be moved from the middle of a batch to its front. */
  lemma {:induction false} MoveToFront(v: Value, before: seq<Update>, u: Update, after: seq<Update>)
    requires Independent(before + [u] + after) && Independent([u] + before + after)
    ensures PutAll(v, before + [u] + after) == PutAll(v, [u] + before + after)
    decreases |before|
  {
    if before == [] {
      assert before + [u] + after == [u] + before + after;
    } else {
      var b, rest := before[0], before[1..];
      assert before + [u] + after == [b] + (rest + [u] + after);
      assert [u] + before + after == [u, b] + (rest + after);
      assert [b, u] + (rest + after) == [b] + ([u] + rest + after);
      assert forall w :: w in rest + [u] + after ==> w in before + [u] + after;
      assert forall w :: w in [u] + rest + after ==> w in before + [u] + after;
      assert forall w :: w in [b, u] + (rest + after) ==> w in before + [u] + after;
      if Put(v, b.path, b.x).Some? { MoveToFront(Put(v, b.path, b.x).value, rest, u, after); }
      SwapFirstTwo(v, b, u, rest + after);
    }
  }

  lemma RemoveOne(a: seq<Update>, b: seq<Update>, i: nat)
    requires a != [] && i < |b| && b[i] == a[0] && multiset(a) == multiset(b)
    ensures multiset(a[1..]) == multiset(b[..i] + b[i + 1..])
  {
    assert a == [a[0]] + a[1..];
    assert b == b[..i] + [b[i]] + b[i + 1..];
    var kept, rest := multiset(a[1..]), multiset(b[..i] + b[i + 1..]);
    assert multiset(a) == multiset{a[0]} + kept && multiset(b) == multiset{b[i]} + rest;
    assert kept == multiset(a) - multiset{a[0]} && rest == multiset(b) - multiset{b[i]};
  }

  lemma MemberOfPermutation(a: seq<Update>, b: seq<Update>, u: Update)
    requires multiset(a) == multiset(b) && u in a
    ensures u in b
  {
    assert u in multiset(a);
    assert u in multiset(b);
  }

  lemma SameMembers(a: seq<Update>, b: seq<Update>)
    requires multiset(a) == multiset(b)
    ensures forall u :: u in a <==> u in b
  {
    forall u | u in a ensures u in b { MemberOfPermutation(a, b, u); }
    forall u | u in b ensures u in a { MemberOfPermutation(b, a, u); }
  }

  /** Independent updates act the same in every order. */
  lemma {:induction false} OrderIrrelevant(v: Value, a: seq<Update>, b: seq<Update>)
    requires Independent(a) && Independent(b) && multiset(a) == multiset(b)
    ensures PutAll(v, a) == PutAll(v, b)
    decreases |a|
  {
    SameMembers(a, b);
    if a == [] {
      assert b == [];
    } else {
      assert a[0] in b;
      var i :| 0 <= i < |b| && b[i] == a[0];
      var before, after := b[..i], b[i + 1..];
      RemoveOne(a, b, i);
      assert b == before + [a[0]] + after;
      var moved := [a[0]] + before + after;
      assert moved[1..] == before + after;
      MoveToFront(v, before, a[0], after);
      if Put(v, a[0].path, a[0].x).Some? {
        OrderIrrelevant(Put(v, a[0].path, a[0].x).value, a[1..], before + after);
      }
    }
  }

  // ---- JWK public material ----

  function MaterialMembers(kty: string): Option<seq<string>> {
    if kty == "EC" then Some(["crv", "kty", "x", "y"])
    else if kty == "OKP" then Some(["crv", "kty", "x"])
    else if kty == "RSA" then Some(["e", "kty", "n"])
    else None
  }

  /** The RFC public members of an EC, OKP or RSA key, and nothing else. */
  function JwkMaterial(jwk: Value): Option<Value> {
    match StrField(jwk, "kty")
    case None => None
    case Some(kty) =>
      match MaterialMembers(kty)
      case None => None
      case Some(members) =>
        if forall m :: m in members ==> StrField(jwk, m).Some?
        then Some(Obj(map m | m in members :: Str(StrField(jwk, m).value)))
        else None
  }

  /** Canonical material is its own canonical material. */
  lemma MaterialIsCanonical(jwk: Value)
    requires JwkMaterial(jwk).Some?
    ensures JwkMaterial(JwkMaterial(jwk).value) == JwkMaterial(jwk)
  {
    var material := JwkMaterial(jwk).value;
    var members := MaterialMembers(StrField(jwk, "kty").value).value;
    assert "kty" in members;
    assert forall m :: m in members ==> Field(material, m) == Some(Str(StrField(jwk, m).value));
    assert StrField(material, "kty") == StrField(jwk, "kty");
    assert forall m :: m in members ==> StrField(material, m) == StrField(jwk, m);
    assert JwkMaterial(material).value.fields == material.fields;
  }

  /** A small Ed25519 public key, for concrete runs. */
  function SampleKey(): Value {
    Obj(map["crv" := Str("Ed25519"), "kty" := Str("OKP"), "x" := Str("11qY")])
  }

  lemma SampleKeyIsMaterial()
    ensures JwkMaterial(SampleKey()) == Some(SampleKey())
  {
    var members := ["crv", "kty", "x"];
    assert "crv"[0] == 'c' && "kty"[0] == 'k' && "x"[0] == 'x' && "EC"[0] == 'E' && "OKP"[0] == 'O';
    assert StrField(SampleKey(), "kty") == Some("OKP");
    assert MaterialMembers("OKP") == Some(members);
    assert forall m :: m in members ==> StrField(SampleKey(), m).Some?;
    assert (map m | m in members :: Str(StrField(SampleKey(), m).value)) == SampleKey().fields;
  }
}
