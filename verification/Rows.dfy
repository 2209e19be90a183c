/** Rows and keyed tables: filtering, concatenation by key, collection into maps, sorted keys. */
module Rows {
  import opened Wrappers

  function Filter<T(!new,==)>(rows: seq<T>, keep: T -> bool): (r: seq<T>)
    ensures forall x :: x in r <==> x in rows && keep(x)
  {
    if rows == [] then [] else (if keep(rows[0]) then [rows[0]] else []) + Filter(rows[1..], keep)
  }

  function Concat<T(!new,==)>(keys: seq<string>, piece: string -> seq<T>): (r: seq<T>)
    ensures forall x :: x in r <==> exists k :: k in keys && x in piece(k)
  {
    if keys == [] then []
    else
      assert keys == [keys[0]] + keys[1..];
      piece(keys[0]) + Concat(keys[1..], piece)
  }

  lemma {:induction false} SamePieces<T(!new)>(keys: seq<string>, piece: string -> seq<T>, other: string -> seq<T>)
    requires forall k :: k in keys ==> piece(k) == other(k)
    ensures Concat(keys, piece) == Concat(keys, other)
  {
    if keys != [] {
      assert keys[0] in keys && forall k :: k in keys[1..] ==> k in keys;
      SamePieces(keys[1..], piece, other);
    }
  }

  /** Pieces of one row each, in order, add up to the rows. */
  lemma {:induction false} ConcatSingles<T(!new)>(keys: seq<string>, piece: string -> seq<T>, rows: seq<T>)
    requires |keys| == |rows| && forall i :: 0 <= i < |keys| ==> piece(keys[i]) == [rows[i]]
    ensures Concat(keys, piece) == rows
  {
    if keys != [] {
      assert rows == [rows[0]] + rows[1..];
      ConcatSingles(keys[1..], piece, rows[1..]);
    }
  }

  lemma {:induction false} FilterSum<T(!new)>(a: seq<T>, b: seq<T>, keep: T -> bool)
    ensures Filter(a + b, keep) == Filter(a, keep) + Filter(b, keep)
  {
    if a == [] {
      assert a + b == b;
    } else {
      assert (a + b)[1..] == a[1..] + b;
      FilterSum(a[1..], b, keep);
    }
  }

  lemma FilterNone<T(!new)>(rows: seq<T>, keep: T -> bool)
    requires forall x :: x in rows ==> !keep(x)
    ensures Filter(rows, keep) == []
  {
    if Filter(rows, keep) != [] { assert Filter(rows, keep)[0] in Filter(rows, keep); }
  }

  lemma {:induction false} FilterAll<T(!new)>(rows: seq<T>, keep: T -> bool)
    requires forall x :: x in rows ==> keep(x)
    ensures Filter(rows, keep) == rows
  {
    if rows != [] {
      FilterAll(rows[1..], keep);
      assert rows == [rows[0]] + rows[1..];
    }
  }

  predicate Distinct(keys: seq<string>) { forall i, j :: 0 <= i < j < |keys| ==> keys[i] != keys[j] }

  /** Rows grouped by key: a filter that only accepts one key's rows returns that key's piece. */
  lemma {:induction false} FilterOne<T(!new)>(keys: seq<string>, piece: string -> seq<T>, keep: T -> bool, k: string)
    requires Distinct(keys)
    requires forall other, x :: other in keys && other != k && x in piece(other) ==> !keep(x)
    ensures Filter(Concat(keys, piece), keep) == if k in keys then Filter(piece(k), keep) else []
  {
    if keys != [] {
      var first, rest := keys[0], keys[1..];
      assert keys == [first] + rest;
      FilterSum(piece(first), Concat(rest, piece), keep);
      assert Distinct(rest) by { assert forall i :: 0 <= i < |rest| ==> rest[i] == keys[i + 1]; }
      if first == k {
        assert k !in rest by {
          assert forall i :: 0 <= i < |rest| ==> rest[i] == keys[i + 1] && keys[0] != keys[i + 1];
        }
        FilterOne(rest, piece, keep, k);
      } else {
        FilterNone(piece(first), keep);
        FilterOne(rest, piece, keep, k);
      }
    }
  }

  // ---- Tables ----

  /** Collect keyed rows into a map; a later row replaces an earlier one. */
  function Collect<T(!new,==), V>(rows: seq<T>, key: T -> string, value: T -> V): map<string, V> {
    if rows == [] then map[]
    else Collect(rows[..|rows| - 1], key, value)[key(rows[|rows| - 1]) := value(rows[|rows| - 1])]
  }

  predicate UniqueKeys<T(!new,==)>(rows: seq<T>, key: T -> string) {
    forall i, j :: 0 <= i < j < |rows| ==> key(rows[i]) != key(rows[j])
  }

  /** Filtering rows with unique keys for one of their keys finds that row. */
  lemma {:induction false} FilterUnique<T(!new)>(rows: seq<T>, key: T -> string, keep: T -> bool, x: T)
    requires UniqueKeys(rows, key) && x in rows && forall y :: y in rows ==> (keep(y) <==> key(y) == key(x))
    ensures Filter(rows, keep) == [x]
  {
    var first, rest := rows[0], rows[1..];
    assert rows == [first] + rest && forall i :: 0 <= i < |rest| ==> rest[i] == rows[i + 1];
    if first == x {
      FilterNone(rest, keep);
    } else {
      FilterUnique(rest, key, keep, x);
    }
  }

  lemma {:induction false} CollectExact<T(!new), V>(rows: seq<T>, key: T -> string, value: T -> V)
    ensures forall k :: k in Collect(rows, key, value) <==> exists x :: x in rows && key(x) == k
    ensures UniqueKeys(rows, key) ==> forall x :: x in rows ==>
            key(x) in Collect(rows, key, value) && Collect(rows, key, value)[key(x)] == value(x)
  {
    if rows != [] {
      var init, last := rows[..|rows| - 1], rows[|rows| - 1];
      assert rows == init + [last];
      CollectExact(init, key, value);
      forall k ensures k in Collect(rows, key, value) <==> exists x :: x in rows && key(x) == k {
        if k in Collect(rows, key, value) && k != key(last) { assert k in Collect(init, key, value); }
      }
      if UniqueKeys(rows, key) {
        forall x | x in rows
          ensures key(x) in Collect(rows, key, value) && Collect(rows, key, value)[key(x)] == value(x)
        {
          if x != last {
            var i :| 0 <= i < |rows| && rows[i] == x;
            assert rows[|rows| - 1] == last && x in init;
          }
        }
      }
    }
  }

  lemma {:induction false} CollectIn<T(!new), V>(rows: seq<T>, key: T -> string, value: T -> V)
    ensures forall k :: k in Collect(rows, key, value) ==>
            exists x ::
              x in rows && key(x) == k && Collect(rows, key, value)[k] == value(x)
  {
    if rows != [] {
      var init, last := rows[..|rows| - 1], rows[|rows| - 1];
      assert rows == init + [last];
      CollectIn(init, key, value);
      forall k | k in Collect(rows, key, value)
        ensures exists x :: x in rows && key(x) == k && Collect(rows, key, value)[k] == value(x)
      {
        if k == key(last) {
          assert last in rows;
        } else {
          assert k in Collect(init, key, value) && Collect(init, key, value)[k] == Collect(rows, key, value)[k];
          var x :| x in init && key(x) == k && Collect(init, key, value)[k] == value(x);
          assert x in rows;
        }
      }
    }
  }

  /** Rows with unique keys that hold what a table holds collect into that table. */
  lemma CollectIsTable<T(!new), V>(rows: seq<T>, key: T -> string, value: T -> V, table: map<string, V>)
    requires UniqueKeys(rows, key)
    requires forall x :: x in rows ==> key(x) in table && value(x) == table[key(x)]
    requires forall k :: k in table ==> exists x :: x in rows && key(x) == k
    ensures Collect(rows, key, value) == table
  {
    CollectExact(rows, key, value);
    forall k | k in table ensures k in Collect(rows, key, value) && Collect(rows, key, value)[k] == table[k] {
      var x :| x in rows && key(x) == k;
    }
  }

  /** At most one row a key, so collecting the rows rebuilds the table they came from. */
  lemma CollectPieces<T(!new), V>(keys: seq<string>, piece: string -> seq<T>, key: T -> string, value: T -> V,
                        table: map<string, V>)
    requires Distinct(keys) && forall k :: k in table ==> k in keys
    requires forall k :: k in keys ==> |piece(k)| == (if k in table then 1 else 0)
    requires forall k :: k in keys && k in table ==> key(piece(k)[0]) == k && value(piece(k)[0]) == table[k]
    ensures Collect(Concat(keys, piece), key, value) == table
  {
    var rows := Concat(keys, piece);
    forall k, x | k in keys && x in piece(k) ensures k in table && key(x) == k && value(x) == table[k] {
      assert x == piece(k)[0];
    }
    UniquePieces(keys, piece, key);
    forall x | x in rows ensures key(x) in table && value(x) == table[key(x)] {
      var k :| k in keys && x in piece(k);
    }
    forall k | k in table ensures exists x :: x in rows && key(x) == k {
      assert piece(k)[0] in piece(k) && piece(k)[0] in rows;
    }
    CollectIsTable(rows, key, value, table);
  }

  lemma {:induction false} UniquePieces<T(!new)>(keys: seq<string>, piece: string -> seq<T>, key: T -> string)
    requires Distinct(keys) && forall k :: k in keys ==> |piece(k)| <= 1
    requires forall k, x :: k in keys && x in piece(k) ==> key(x) == k
    ensures UniqueKeys(Concat(keys, piece), key)
  {
    if keys != [] {
      var first, rest := keys[0], keys[1..];
      assert keys == [first] + rest;
      assert Distinct(rest) by { assert forall i :: 0 <= i < |rest| ==> rest[i] == keys[i + 1]; }
      assert first !in rest by {
        assert forall i :: 0 <= i < |rest| ==> rest[i] == keys[i + 1] && keys[0] != keys[i + 1];
      }
      UniquePieces(rest, piece, key);
      var tail, rows := Concat(rest, piece), Concat(keys, piece);
      forall i, j | 0 <= i < j < |rows| ensures key(rows[i]) != key(rows[j]) {
        assert rows[j] == tail[j - |piece(first)|] && tail[j - |piece(first)|] in tail;
        if i >= |piece(first)| { assert rows[i] == tail[i - |piece(first)|]; } else { assert rows[i] in piece(first); }
      }
    }
  }

  // ---- Sorted keys ----

  /** Code point order, as the source's sorted maps use it. */
  predicate Before(a: string, b: string) {
    if a == "" then true
    else if b == "" then false
    else if a[0] != b[0] then a[0] < b[0]
    else Before(a[1..], b[1..])
  }

  lemma {:induction false} BeforeIsTotal(a: string, b: string)
    ensures Before(a, b) || Before(b, a)
    ensures Before(a, b) && Before(b, a) ==> a == b
  {
    if a != "" && b != "" {
      assert a == [a[0]] + a[1..] && b == [b[0]] + b[1..];
      if a[0] == b[0] { BeforeIsTotal(a[1..], b[1..]); }
    }
  }

  lemma {:induction false} BeforeIsTransitive(a: string, b: string, c: string)
    requires Before(a, b) && Before(b, c)
    ensures Before(a, c)
  {
    if a != "" && b != "" && c != "" && a[0] == b[0] && b[0] == c[0] { BeforeIsTransitive(a[1..], b[1..], c[1..]); }
  }

  /** One string is before another when it starts it, or is smaller at the first character that differs. */
  lemma {:induction false} BeforeExactly(a: string, b: string)
    ensures Before(a, b) <==>
            a <= b || exists k :: 0 <= k < |a| && k < |b| && a[..k] == b[..k] && (a[k] as int) < (b[k] as int)
  {
    if a != "" && b != "" {
      if a[0] == b[0] {
        BeforeExactly(a[1..], b[1..]);
        assert a == [a[0]] + a[1..] && b == [b[0]] + b[1..];
        assert a <= b <==> a[1..] <= b[1..];
        if k :| 0 <= k < |a| - 1 && k < |b| - 1 && a[1..][..k] == b[1..][..k] && a[1..][k] < b[1..][k] {
          assert a[..k + 1] == [a[0]] + a[1..][..k] && b[..k + 1] == [b[0]] + b[1..][..k];
          assert a[..k + 1] == b[..k + 1] && a[k + 1] < b[k + 1];
        }
        if k :| 0 <= k < |a| && k < |b| && a[..k] == b[..k] && (a[k] as int) < (b[k] as int) {
          assert k > 0 && a[1..][..k - 1] == a[..k][1..] && b[1..][..k - 1] == b[..k][1..];
          assert a[1..][k - 1] < b[1..][k - 1];
        }
      } else {
        forall k | 0 < k <= |a| && k <= |b| ensures a[..k] != b[..k] {
          assert a[..k][0] == a[0] && b[..k][0] == b[0];
        }
        assert a[..0] == b[..0];
      }
    }
  }

  predicate IsLeast(x: string, keys: set<string>) { x in keys && forall y :: y in keys ==> Before(x, y) }

  lemma {:induction false} LeastExists(keys: set<string>)
    requires keys != {}
    ensures exists x :: IsLeast(x, keys)
  {
    var k :| k in keys;
    BeforeIsTotal(k, k);
    if keys == {k} {
      assert IsLeast(k, keys);
    } else {
      var rest := keys - {k};
      assert keys == rest + {k};
      assert rest == {} ==> keys == {k};
      LeastExists(rest);
      var x :| IsLeast(x, rest);
      BeforeIsTotal(k, x);
      if Before(x, k) {
        assert IsLeast(x, keys);
      } else {
        forall y | y in keys ensures Before(k, y) { if y != k { BeforeIsTransitive(k, x, y); } }
        assert IsLeast(k, keys);
      }
    }
  }

  function Least(keys: set<string>): (x: string)
    requires keys != {}
    ensures IsLeast(x, keys)
  {
    LeastExists(keys);
    assert forall x, y :: IsLeast(x, keys) && IsLeast(y, keys) ==> x == y by {
      forall x, y | IsLeast(x, keys) && IsLeast(y, keys) ensures x == y { BeforeIsTotal(x, y); }
    }
    var x :| IsLeast(x, keys);
    x
  }

  function SortedKeys(keys: set<string>): (r: seq<string>)
    ensures forall k :: k in r <==> k in keys
    ensures Distinct(r)
  {
    if keys == {} then []
    else
      var x := Least(keys);
      var rest := SortedKeys(keys - {x});
      assert forall k :: k in keys <==> k == x || k in keys - {x};
      [x] + rest
  }

  function SetOf(keys: seq<string>): set<string> { set k | k in keys }

  predicate InOrder(keys: seq<string>) { forall i, j :: 0 <= i < j < |keys| ==> Before(keys[i], keys[j]) }

  lemma {:induction false} KeysInOrder(keys: set<string>)
    ensures InOrder(SortedKeys(keys))
  {
    if keys != {} {
      var x, rest := Least(keys), SortedKeys(keys - {Least(keys)});
      KeysInOrder(keys - {x});
      assert forall i :: 0 < i < |rest| + 1 ==> ([x] + rest)[i] == rest[i - 1] && rest[i - 1] in keys;
    }
  }

  /** Keys in order are what sorting them gives. */
  lemma {:induction false} SortingOrdered(keys: seq<string>)
    requires Distinct(keys) && InOrder(keys)
    ensures SortedKeys(SetOf(keys)) == keys
  {
    if keys == [] {
      assert SetOf(keys) == {};
    } else {
      var first, rest := keys[0], keys[1..];
      assert keys == [first] + rest && forall i :: 0 <= i < |rest| ==> rest[i] == keys[i + 1];
      BeforeIsTotal(first, first);
      assert IsLeast(first, SetOf(keys));
      BeforeIsTotal(Least(SetOf(keys)), first);
      assert SetOf(keys) - {first} == SetOf(rest);
      SortingOrdered(rest);
    }
  }
}
