/** String and byte operations the provisioner names and templates rest on. */
module Text {
  import opened Wrappers

  type Byte = b: int | 0 <= b < 256

  predicate StartsWith(s: string, prefix: string) { prefix <= s }

  predicate EndsWith(s: string, suffix: string) {
    |suffix| <= |s| && s[|s| - |suffix|..] == suffix
  }

  function StripPrefix(s: string, prefix: string): (r: Option<string>)
    ensures r.Some? ==> s == prefix + r.value
    ensures r.None? <==> !StartsWith(s, prefix)
  {
    if StartsWith(s, prefix) then Some(s[|prefix|..]) else None
  }

  function StripSuffix(s: string, suffix: string): (r: Option<string>)
    ensures r.Some? ==> s == r.value + suffix
    ensures r.None? <==> !EndsWith(s, suffix)
  {
    if EndsWith(s, suffix) then Some(s[..|s| - |suffix|]) else None
  }

  lemma StripBuilt(prefix: string, rest: string)
    ensures StartsWith(prefix + rest, prefix)
    ensures StripPrefix(prefix + rest, prefix) == Some(rest)
  {
    assert (prefix + rest)[|prefix|..] == rest;
  }

  lemma StripSuffixBuilt(rest: string, suffix: string)
    ensures StripSuffix(rest + suffix, suffix) == Some(rest)
  {
    assert (rest + suffix)[|rest|..] == suffix;
  }

  lemma PrefixTransitive(a: string, b: string, c: string)
    requires StartsWith(b, a) && StartsWith(c, b)
    ensures StartsWith(c, a)
  {
    assert c[..|b|][..|a|] == c[..|a|];
  }

  lemma RegroupTail(a: string, b: string, c: string, d: string, e: string)
    ensures a + b + c + d + e == a + b + (c + d + e)
  {}

  lemma Regroup(a: string, b: string, c: string, d: string)
    ensures a + b + c + d == a + (b + c + d)
  {}

  /** Split at the first separator. */
  function SplitOnce(s: string, separator: char): (r: Option<(string, string)>)
    ensures r.Some? ==> s == r.value.0 + [separator] + r.value.1 && separator !in r.value.0
    ensures r.None? <==> separator !in s
  {
    if s == [] then None
    else if s[0] == separator then Some(([], s[1..]))
    else
      match SplitOnce(s[1..], separator)
      case None => None
      case Some(parts) => Some(([s[0]] + parts.0, parts.1))
  }

  /** The split is unique: any decomposition with a separator-free left part is the one returned. */
  lemma {:induction false} SplitOnceFinds(left: string, separator: char, right: string)
    requires separator !in left
    ensures SplitOnce(left + [separator] + right, separator) == Some((left, right))
  {
    var s := left + [separator] + right;
    if left == [] {
      assert s[1..] == right;
    } else {
      SplitOnceFinds(left[1..], separator, right);
      assert s[1..] == left[1..] + [separator] + right;
      assert [left[0]] + left[1..] == left;
    }
  }

  /** A separator-free left part is the only prefix of its shape. */
  lemma PrefixBeforeSeparator(left: string, separator: char, right: string, head: string)
    requires separator !in left && separator !in head
    ensures StartsWith(left + [separator] + right, head + [separator]) <==> left == head
  {
    var s := left + [separator] + right;
    if StartsWith(s, head + [separator]) {
      assert s[|head|] == (head + [separator])[|head|] == separator;
      assert forall k :: 0 <= k < |head| ==> s[k] == (head + [separator])[k] == head[k] != separator;
      assert forall k :: 0 <= k < |left| ==> s[k] == left[k] != separator;
      assert s[|left|] == separator;
      assert left == s[..|left|] == head;
    }
  }

  /** The last separator is unique as well. */
  lemma SuffixAfterSeparator(left: string, separator: char, right: string, tail: string)
    requires separator !in right && separator !in tail
    ensures EndsWith(left + [separator] + right, [separator] + tail) <==> right == tail
  {
    var s := left + [separator] + right;
    assert s[|left|..] == [separator] + right;
    if EndsWith(s, [separator] + tail) {
      var at := |s| - |tail| - 1;
      assert s[at..] == [separator] + tail;
      assert forall k :: at < k < |s| ==> s[k] == s[at..][k - at] == tail[k - at - 1] != separator;
      assert forall k :: |left| < k < |s| ==> s[k] == right[k - |left| - 1] != separator;
      assert s[at] == s[at..][0] == separator && s[|left|] == separator;
      assert at == |left|;
      assert right == ([separator] + right)[1..] == ([separator] + tail)[1..] == tail;
    }
  }

  // ---- UTF-8 (section 3 of RFC 3629) ----

  function EncodeScalar(c: char): (r: seq<Byte>)
    ensures 1 <= |r| <= 4
  {
    var n := c as int;
    if n < 0x80 then [n]
    else if n < 0x800 then [0xC0 + n / 64, 0x80 + n % 64]
    else if n < 0x10000 then [0xE0 + n / 4096, 0x80 + n / 64 % 64, 0x80 + n % 64]
    else [0xF0 + n / 262144, 0x80 + n / 4096 % 64, 0x80 + n / 64 % 64, 0x80 + n % 64]
  }

  function EncodeUtf8(s: string): seq<Byte> {
    if s == [] then [] else EncodeScalar(s[0]) + EncodeUtf8(s[1..])
  }

  predicate Continuation(b: Byte) { 0x80 <= b < 0xC0 }

  predicate Scalar(n: int) { 0 <= n < 0xD800 || 0xE000 <= n < 0x110000 }

  /** The first scalar and its length, refusing overlong forms, surrogates and stray bytes. */
  function DecodeScalar(b: seq<Byte>): (r: Option<(char, nat)>)
    requires b != []
    ensures r.Some? ==> 1 <= r.value.1 <= |b|
  {
    if b[0] < 0x80 then Some((b[0] as char, 1))
    else if 0xC2 <= b[0] < 0xE0 && |b| >= 2 && Continuation(b[1]) then
      var n: int := (b[0] as int - 0xC0) * 64 + (b[1] as int - 0x80);
      Some((n as char, 2))
    else if 0xE0 <= b[0] < 0xF0 && |b| >= 3 && Continuation(b[1]) && Continuation(b[2]) then
      var n: int := (b[0] as int - 0xE0) * 4096 + (b[1] as int - 0x80) * 64 + (b[2] as int - 0x80);
      if n >= 0x800 && Scalar(n) then Some((n as char, 3)) else None
    else if 0xF0 <= b[0] < 0xF5 && |b| >= 4 && Continuation(b[1]) && Continuation(b[2]) && Continuation(b[3]) then
      var n: int := (b[0] as int - 0xF0) * 262144 + (b[1] as int - 0x80) * 4096
                    + (b[2] as int - 0x80) * 64 + (b[3] as int - 0x80);
      if n >= 0x10000 && Scalar(n) then Some((n as char, 4)) else None
    else None
  }

  function DecodeUtf8(b: seq<Byte>): Option<string>
    decreases |b|
  {
    if b == [] then Some([]) else
      match DecodeScalar(b)
      case None => None
      case Some((c, length)) =>
        match DecodeUtf8(b[length..])
        case None => None
        case Some(rest) => Some([c] + rest)
  }

  lemma SextetsRecombine(n: nat)
    ensures n / 64 * 64 + n % 64 == n
    ensures n / 4096 * 4096 + n / 64 % 64 * 64 + n % 64 == n
    ensures n / 262144 * 262144 + n / 4096 % 64 * 4096 + n / 64 % 64 * 64 + n % 64 == n
  {
    var (high, top) := (n / 64, n / 4096);
    assert n / 4096 == high / 64;
    assert n / 262144 == top / 64;
  }

  lemma DecodeEncodedScalar(c: char, rest: seq<Byte>)
    ensures DecodeScalar(EncodeScalar(c) + rest) == Some((c, |EncodeScalar(c)|))
  {
    SextetsRecombine(c as int);
  }

  lemma {:induction false} Utf8RoundTrip(s: string)
    ensures DecodeUtf8(EncodeUtf8(s)) == Some(s)
  {
    if s != [] {
      var head, rest := EncodeScalar(s[0]), EncodeUtf8(s[1..]);
      DecodeEncodedScalar(s[0], rest);
      assert (head + rest)[|head|..] == rest;
      Utf8RoundTrip(s[1..]);
      assert [s[0]] + s[1..] == s;
    }
  }
}
