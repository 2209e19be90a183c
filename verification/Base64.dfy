/** Standard base64 with required canonical padding (section 4 of RFC 4648). */
module Base64 {
  import opened Wrappers
  import opened Text

  function Symbol(n: int): char
    requires 0 <= n < 64
  {
    if n < 26 then ('A' as int + n) as char
    else if n < 52 then ('a' as int + n - 26) as char
    else if n < 62 then ('0' as int + n - 52) as char
    else if n == 62 then '+' else '/'
  }

  function SymbolValue(c: char): (r: Option<int>)
    ensures r.Some? ==> 0 <= r.value < 64 && Symbol(r.value) == c
  {
    if 'A' <= c <= 'Z' then Some(c as int - 'A' as int)
    else if 'a' <= c <= 'z' then Some(c as int - 'a' as int + 26)
    else if '0' <= c <= '9' then Some(c as int - '0' as int + 52)
    else if c == '+' then Some(62)
    else if c == '/' then Some(63)
    else None
  }

  lemma SymbolRoundTrip(n: int)
    requires 0 <= n < 64
    ensures SymbolValue(Symbol(n)) == Some(n)
  {}

  function EncodeGroup(a: Byte, b: Byte, c: Byte): string {
    [Symbol(a / 4), Symbol(a % 4 * 16 + b / 16), Symbol(b % 16 * 4 + c / 64), Symbol(c % 64)]
  }

  function Encode(bytes: seq<Byte>): string {
    if bytes == [] then ""
    else if |bytes| == 1 then [Symbol(bytes[0] / 4), Symbol(bytes[0] % 4 * 16), '=', '=']
    else if |bytes| == 2 then
      [Symbol(bytes[0] / 4), Symbol(bytes[0] % 4 * 16 + bytes[1] / 16), Symbol(bytes[1] % 16 * 4), '=']
    else EncodeGroup(bytes[0], bytes[1], bytes[2]) + Encode(bytes[3..])
  }

  function DecodeGroup(s: string): Option<seq<Byte>>
    requires |s| == 4
  {
    match (SymbolValue(s[0]), SymbolValue(s[1]), SymbolValue(s[2]), SymbolValue(s[3]))
    case (Some(a), Some(b), Some(c), Some(d)) =>
      Some([a * 4 + b / 16, b % 16 * 16 + c / 4, c % 4 * 64 + d])
    case _ => None
  }

  /** Only the last group may be padded, and its unused bits must be zero. */
  function DecodeLast(s: string): Option<seq<Byte>>
    requires |s| == 4
  {
    if s[3] != '=' then DecodeGroup(s)
    else if s[2] == '=' then
      match (SymbolValue(s[0]), SymbolValue(s[1]))
      case (Some(a), Some(b)) => if b % 16 == 0 then Some([a * 4 + b / 16]) else None
      case _ => None
    else
      match (SymbolValue(s[0]), SymbolValue(s[1]), SymbolValue(s[2]))
      case (Some(a), Some(b), Some(c)) =>
        if c % 4 == 0 then Some([a * 4 + b / 16, b % 16 * 16 + c / 4]) else None
      case _ => None
  }

  function Decode(s: string): Option<seq<Byte>> {
    if s == "" then Some([])
    else if |s| < 4 then None
    else if |s| == 4 then DecodeLast(s)
    else
      match (DecodeGroup(s[..4]), Decode(s[4..]))
      case (Some(head), Some(rest)) => Some(head + rest)
      case _ => None
  }

  /** The four sextets put the three bytes back together. */
  lemma GroupBits(a: Byte, b: Byte, c: Byte)
    ensures var x, y := a % 4 * 16 + b / 16, b % 16 * 4 + c / 64;
            && a / 4 < 64 && x < 64 && y < 64 && c % 64 < 64
            && a / 4 * 4 + x / 16 == a && x % 16 * 16 + y / 4 == b && y % 4 * 64 + c % 64 == c
  {}

  lemma GroupRoundTrip(a: Byte, b: Byte, c: Byte)
    ensures DecodeGroup(EncodeGroup(a, b, c)) == Some([a, b, c])
    ensures EncodeGroup(a, b, c)[3] != '='
  {
    GroupBits(a, b, c);
    SymbolRoundTrip(a / 4);
    SymbolRoundTrip(a % 4 * 16 + b / 16);
    SymbolRoundTrip(b % 16 * 4 + c / 64);
    SymbolRoundTrip(c % 64);
  }

  lemma OneByteRoundTrip(x: Byte)
    ensures DecodeLast([Symbol(x / 4), Symbol(x % 4 * 16), '=', '=']) == Some([x])
  {
    SymbolRoundTrip(x / 4);
    SymbolRoundTrip(x % 4 * 16);
  }

  lemma TwoByteRoundTrip(x: Byte, y: Byte)
    ensures DecodeLast([Symbol(x / 4), Symbol(x % 4 * 16 + y / 16), Symbol(y % 16 * 4), '=']) == Some([x, y])
  {
    var middle, low := x % 4 * 16 + y / 16, y % 16 * 4;
    SymbolRoundTrip(x / 4);
    SymbolRoundTrip(middle);
    SymbolRoundTrip(low);
    assert Symbol(low) != '=';
    assert low % 4 == 0 && low / 4 == y % 16;
    assert middle / 16 == x % 4 && middle % 16 == y / 16;
  }

  lemma DecodeFullGroup(head: string, rest: string)
    requires |head| == 4 && head[3] != '=' && DecodeGroup(head).Some? && Decode(rest).Some?
    ensures Decode(head + rest) == Some(DecodeGroup(head).value + Decode(rest).value)
  {
    if rest == "" {
      assert head + rest == head;
      assert DecodeGroup(head).value + [] == DecodeGroup(head).value;
    } else {
      assert (head + rest)[..4] == head && (head + rest)[4..] == rest;
    }
  }

  lemma {:induction false} DecodeEncoded(bytes: seq<Byte>)
    ensures Decode(Encode(bytes)) == Some(bytes)
  {
    if |bytes| == 1 {
      OneByteRoundTrip(bytes[0]);
      assert bytes == [bytes[0]];
    } else if |bytes| == 2 {
      TwoByteRoundTrip(bytes[0], bytes[1]);
      assert bytes == [bytes[0], bytes[1]];
    } else if |bytes| > 2 {
      GroupRoundTrip(bytes[0], bytes[1], bytes[2]);
      DecodeEncoded(bytes[3..]);
      DecodeFullGroup(EncodeGroup(bytes[0], bytes[1], bytes[2]), Encode(bytes[3..]));
      assert bytes == [bytes[0], bytes[1], bytes[2]] + bytes[3..];
    }
  }

  lemma SextetsOfBytes(a: int, b: int, c: int, d: int)
    requires 0 <= a < 64 && 0 <= b < 64 && 0 <= c < 64 && 0 <= d < 64
    ensures (a * 4 + b / 16) / 4 == a && (a * 4 + b / 16) % 4 == b / 16
    ensures (b % 16 * 16 + c / 4) / 16 == b % 16 && (b % 16 * 16 + c / 4) % 16 == c / 4
    ensures (c % 4 * 64 + d) / 64 == c % 4 && (c % 4 * 64 + d) % 64 == d
    ensures b / 16 * 16 + b % 16 == b && c / 4 * 4 + c % 4 == c
  {}

  lemma GroupCanonical(s: string)
    requires |s| == 4 && DecodeGroup(s).Some?
    ensures |DecodeGroup(s).value| == 3
    ensures var g := DecodeGroup(s).value; EncodeGroup(g[0], g[1], g[2]) == s
  {
    SextetsOfBytes(SymbolValue(s[0]).value, SymbolValue(s[1]).value, SymbolValue(s[2]).value, SymbolValue(s[3]).value);
  }

  lemma PaddedCanonical(s: string)
    requires |s| == 4 && s[3] == '=' && DecodeLast(s).Some?
    ensures 1 <= |DecodeLast(s).value| <= 2
    ensures Encode(DecodeLast(s).value) == s
  {
    var a, b := SymbolValue(s[0]).value, SymbolValue(s[1]).value;
    var c := if s[2] == '=' then 0 else SymbolValue(s[2]).value;
    SextetsOfBytes(a, b, c, 0);
  }

  lemma LastCanonical(s: string)
    requires |s| == 4 && DecodeLast(s).Some?
    ensures Encode(DecodeLast(s).value) == s
    ensures |DecodeLast(s).value| > 0
  {
    if s[3] == '=' {
      PaddedCanonical(s);
    } else {
      GroupCanonical(s);
      var g := DecodeLast(s).value;
      assert Encode(g) == EncodeGroup(g[0], g[1], g[2]) + Encode(g[3..]) && g[3..] == [];
      assert EncodeGroup(g[0], g[1], g[2]) + "" == s;
    }
  }

  /** Decoding accepts no second spelling of any byte string. */
  lemma {:induction false} EncodeDecoded(s: string)
    requires Decode(s).Some?
    ensures Encode(Decode(s).value) == s
    decreases |s|
  {
    if |s| == 4 {
      LastCanonical(s);
    } else if |s| > 4 {
      GroupCanonical(s[..4]);
      EncodeDecoded(s[4..]);
      var head, rest := DecodeGroup(s[..4]).value, Decode(s[4..]).value;
      assert (head + rest)[3..] == rest;
      assert s == s[..4] + s[4..];
    }
  }

  predicate InAlphabet(c: char) { SymbolValue(c).Some? || c == '=' }

  lemma {:induction false} EncodedAlphabet(bytes: seq<Byte>)
    ensures forall c :: c in Encode(bytes) ==> InAlphabet(c)
  {
    forall n: int | 0 <= n < 64 ensures InAlphabet(Symbol(n)) { SymbolRoundTrip(n); }
    if |bytes| > 2 { EncodedAlphabet(bytes[3..]); }
  }
}
