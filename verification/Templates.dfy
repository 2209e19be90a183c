/**
 P-256 certificate keys and the Smallstep template guards that pin a key
 (src/x509.rs and the SSH guard of src/runtime_provisioners.rs).
 */
module Templates {
  import opened Wrappers
  import opened Text
  import Names
  import Base64

  // ---- Whitespace ----

  /** The Unicode White_Space property. */
  predicate IsWhitespace(c: char) {
    var n := c as int;
    || 9 <= n <= 13 || n == 0x20 || n == 0x85 || n == 0xA0 || n == 0x1680 || 0x2000 <= n <= 0x200A
    || n == 0x2028 || n == 0x2029 || n == 0x202F || n == 0x205F || n == 0x3000
  }

  function TrimStart(s: string): string {
    if s != "" && IsWhitespace(s[0]) then TrimStart(s[1..]) else s
  }

  function TrimEnd(s: string): string {
    if s != "" && IsWhitespace(s[|s| - 1]) then TrimEnd(s[..|s| - 1]) else s
  }

  function Trim(s: string): string { TrimEnd(TrimStart(s)) }

  /** `split_whitespace` followed by concatenation. */
  function WithoutWhitespace(s: string): string {
    if s == "" then ""
    else (if IsWhitespace(s[0]) then "" else [s[0]]) + WithoutWhitespace(s[1..])
  }

  lemma {:induction false} WithoutWhitespaceConcat(a: string, b: string)
    ensures WithoutWhitespace(a + b) == WithoutWhitespace(a) + WithoutWhitespace(b)
  {
    if a == "" {
      assert a + b == b;
    } else {
      assert (a + b)[1..] == a[1..] + b;
      WithoutWhitespaceConcat(a[1..], b);
    }
  }

  lemma {:induction false} NothingToStrip(s: string)
    requires forall c :: c in s ==> !IsWhitespace(c)
    ensures WithoutWhitespace(s) == s
  {
    if s != "" {
      NothingToStrip(s[1..]);
      assert [s[0]] + s[1..] == s;
    }
  }

  lemma TrimFinalNewline(s: string)
    requires s != "" && !IsWhitespace(s[0]) && !IsWhitespace(s[|s| - 1])
    ensures Trim(s + "\n") == s && Trim(s) == s
  {
    var t := s + "\n";
    assert t[0] == s[0] && IsWhitespace(t[|t| - 1]);
    assert TrimStart(t) == t;
    assert t[..|t| - 1] == s;
    assert TrimEnd(t) == TrimEnd(s) == s;
  }

  /** The first line, without its terminator. */
  function FirstLine(s: string): Option<string> {
    if s == "" then None
    else
      var line := match SplitOnce(s, '\n') case Some((first, _)) => first case None => s;
      Some(if line != "" && line[|line| - 1] == '\r' && '\n' in s then line[..|line| - 1] else line)
  }

  // ---- Keys ----

  const PEM_HEADER := "-----BEGIN PUBLIC KEY-----"
  const PEM_FOOTER := "-----END PUBLIC KEY-----"
  const PEM_LINE_WIDTH := 64

  /** DER prefix of a P-256 SubjectPublicKeyInfo holding an uncompressed point. */
  const P256_SPKI_PREFIX: seq<Byte> := [
    0x30, 0x59, 0x30, 0x13, 0x06, 0x07, 0x2a, 0x86, 0x48, 0xce, 0x3d, 0x02, 0x01, 0x06, 0x08, 0x2a,
    0x86, 0x48, 0xce, 0x3d, 0x03, 0x01, 0x07, 0x03, 0x42, 0x00, 0x04
  ]
  const P256_SPKI_LEN := 91

  predicate IsP256(der: seq<Byte>) { |der| == P256_SPKI_LEN && P256_SPKI_PREFIX <= der }

  /** A validated certificate public key, by its DER encoding. */
  type CertificateKey = der: seq<Byte> | IsP256(der)
    witness P256_SPKI_PREFIX + seq(64, i => 0)

  function FromDer(der: seq<Byte>): Option<CertificateKey> {
    if IsP256(der) then Some(der) else None
  }

  function ParsePem(pem: string): Option<CertificateKey> {
    match StripPrefix(Trim(pem), PEM_HEADER)
    case None => None
    case Some(rest) =>
      match StripSuffix(rest, PEM_FOOTER)
      case None => None
      case Some(body) =>
        match Base64.Decode(WithoutWhitespace(body))
        case None => None
        case Some(der) => FromDer(der)
  }

  function Lines(encoded: string): string {
    if |encoded| <= PEM_LINE_WIDTH then (if encoded == "" then "" else encoded + "\n")
    else encoded[..PEM_LINE_WIDTH] + "\n" + Lines(encoded[PEM_LINE_WIDTH..])
  }

  function Pem(key: CertificateKey): string {
    PEM_HEADER + "\n" + Lines(Base64.Encode(key)) + PEM_FOOTER + "\n"
  }

  lemma {:induction false} LinesKeepText(encoded: string)
    requires forall c :: c in encoded ==> !IsWhitespace(c)
    ensures WithoutWhitespace(Lines(encoded)) == encoded
  {
    assert WithoutWhitespace("\n") == "";
    if |encoded| <= PEM_LINE_WIDTH {
      NothingToStrip(encoded);
      WithoutWhitespaceConcat(encoded, "\n");
    } else {
      var head, tail := encoded[..PEM_LINE_WIDTH], encoded[PEM_LINE_WIDTH..];
      NothingToStrip(head);
      LinesKeepText(tail);
      WithoutWhitespaceConcat(head, "\n");
      WithoutWhitespaceConcat(head + "\n", Lines(tail));
      assert head + tail == encoded;
    }
  }

  lemma EncodedIsVisible(bytes: seq<Byte>)
    ensures forall c :: c in Base64.Encode(bytes) ==> !IsWhitespace(c)
  {
    Base64.EncodedAlphabet(bytes);
  }

  lemma ParseArmored(text: string, body: string)
    requires text == PEM_HEADER + (body + PEM_FOOTER) && Trim(text) == text
    ensures ParsePem(text + "\n") == ParsePem(text) || Trim(text + "\n") != text
    ensures ParsePem(text) ==
            match Base64.Decode(WithoutWhitespace(body)) case None => None case Some(der) => FromDer(der)
  {
    StripBuilt(PEM_HEADER, body + PEM_FOOTER);
    StripSuffixBuilt(body, PEM_FOOTER);
  }

  lemma ArmorTrims(body: string)
    ensures var text := PEM_HEADER + (body + PEM_FOOTER); Trim(text) == text && Trim(text + "\n") == text
  {
    var text := PEM_HEADER + (body + PEM_FOOTER);
    assert text[0] == PEM_HEADER[0] && text[|text| - 1] == PEM_FOOTER[|PEM_FOOTER| - 1];
    TrimFinalNewline(text);
  }

  /** Printing then parsing returns the same key. */
  lemma PemRoundTrip(key: CertificateKey)
    ensures ParsePem(Pem(key)) == Some(key)
  {
    var encoded := Base64.Encode(key);
    var body := "\n" + Lines(encoded);
    EncodedIsVisible(key);
    LinesKeepText(encoded);
    WithoutWhitespaceConcat("\n", Lines(encoded));
    assert WithoutWhitespace("\n") == "" && WithoutWhitespace(body) == encoded;
    Base64.DecodeEncoded(key);
    ArmorTrims(body);
    ParseArmored(PEM_HEADER + (body + PEM_FOOTER), body);
    Regroup(PEM_HEADER, "\n", Lines(encoded), PEM_FOOTER);
    assert Pem(key) == PEM_HEADER + (body + PEM_FOOTER) + "\n";
  }

  // ---- Coordinates ----

  /** Big-endian value of a byte string. */
  function BigEndian(bytes: seq<Byte>): nat {
    if bytes == [] then 0 else 256 * BigEndian(bytes[..|bytes| - 1]) + bytes[|bytes| - 1]
  }

  /** Go's `big.Int.Text(16)`: lowercase hexadecimal without leading zeros. */
  function Text16(n: nat): string {
    if n < 16 then [Names.HexDigit(n)] else Text16(n / 16) + [Names.HexDigit(n % 16)]
  }

  function TrimZeros(hex: string): string {
    if hex != "" && hex[0] == '0' then TrimZeros(hex[1..]) else hex
  }

  /** One point coordinate as the template compares it. */
  function Coordinate(key: CertificateKey, index: nat): string
    requires index < 2
  {
    var start := |P256_SPKI_PREFIX| + index * 32;
    var trimmed := TrimZeros(Names.EncodeBytes(key[start..start + 32]));
    if trimmed == "" then "0" else trimmed
  }

  function HexValue(hex: string): nat {
    if hex == "" then 0
    else 16 * HexValue(hex[..|hex| - 1])
         + (match Names.DigitValue(hex[|hex| - 1]) case Some(d) => d case None => 0)
  }

  predicate LowerHex(hex: string) {
    forall c :: c in hex ==> exists n :: 0 <= n < 16 && c == Names.HexDigit(n)
  }

  lemma {:induction false} TrimZerosSnoc(hex: string, c: char)
    ensures TrimZeros(hex + [c]) ==
            if TrimZeros(hex) == "" then (if c == '0' then "" else [c]) else TrimZeros(hex) + [c]
  {
    if hex == "" {
      assert hex + [c] == [c] && [c][1..] == "";
    } else {
      assert (hex + [c])[1..] == hex[1..] + [c];
      if hex[0] == '0' { TrimZerosSnoc(hex[1..], c); }
    }
  }

  /** Stripping leading zeros yields exactly the value's canonical text. */
  lemma {:induction false} StrippedHexIsText16(hex: string)
    requires LowerHex(hex)
    ensures (if TrimZeros(hex) == "" then "0" else TrimZeros(hex)) == Text16(HexValue(hex))
    ensures TrimZeros(hex) == "" <==> HexValue(hex) == 0
  {
    if hex != "" {
      var init, c := hex[..|hex| - 1], hex[|hex| - 1];
      assert hex == init + [c] && c in hex;
      assert forall x :: x in init ==> x in hex;
      StrippedHexIsText16(init);
      TrimZerosSnoc(init, c);
      var d :| 0 <= d < 16 && c == Names.HexDigit(d);
      assert Names.DigitValue(c) == Some(d);
      assert HexValue(hex) / 16 == HexValue(init) && HexValue(hex) % 16 == d;
    }
  }

  lemma {:induction false} EncodeBytesSnoc(bytes: seq<Byte>, b: Byte)
    ensures Names.EncodeBytes(bytes + [b]) ==
            Names.EncodeBytes(bytes) + [Names.HexDigit(b / 16), Names.HexDigit(b % 16)]
  {
    if bytes == [] {
      assert bytes + [b] == [b];
    } else {
      assert (bytes + [b])[1..] == bytes[1..] + [b];
      EncodeBytesSnoc(bytes[1..], b);
    }
  }

  lemma {:induction false} HexValueOfBytes(bytes: seq<Byte>)
    ensures LowerHex(Names.EncodeBytes(bytes))
    ensures HexValue(Names.EncodeBytes(bytes)) == BigEndian(bytes)
  {
    if bytes != [] {
      var init, b := bytes[..|bytes| - 1], bytes[|bytes| - 1];
      assert bytes == init + [b];
      HexValueOfBytes(init);
      EncodeBytesSnoc(init, b);
      var hex, high, low := Names.EncodeBytes(init), Names.HexDigit(b / 16), Names.HexDigit(b % 16);
      assert hex + [high, low] == hex + [high] + [low];
      assert (hex + [high])[..|hex|] == hex && (hex + [high] + [low])[..|hex| + 1] == hex + [high];
    }
  }

  lemma {:induction false} BigEndianInjective(a: seq<Byte>, b: seq<Byte>)
    requires |a| == |b| && BigEndian(a) == BigEndian(b)
    ensures a == b
  {
    if a != [] {
      BigEndianInjective(a[..|a| - 1], b[..|b| - 1]);
      assert a == a[..|a| - 1] + [a[|a| - 1]] && b == b[..|b| - 1] + [b[|b| - 1]];
    }
  }

  lemma {:induction false} ValueOfText16(n: nat)
    ensures HexValue(Text16(n)) == n
  {
    var init := if n < 16 then "" else Text16(n / 16);
    if n >= 16 { ValueOfText16(n / 16); }
    assert Text16(n) == init + [Names.HexDigit(n % 16)];
    assert Text16(n)[..|init|] == init;
  }

  function Point(key: CertificateKey, index: nat): nat
    requires index < 2
  {
    BigEndian(key[|P256_SPKI_PREFIX| + index * 32..|P256_SPKI_PREFIX| + index * 32 + 32])
  }

  /** The rendered coordinate is the number Smallstep prints for it. */
  lemma CoordinateIsText16(key: CertificateKey, index: nat)
    requires index < 2
    ensures Coordinate(key, index) == Text16(Point(key, index))
  {
    var start := |P256_SPKI_PREFIX| + index * 32;
    HexValueOfBytes(key[start..start + 32]);
    StrippedHexIsText16(Names.EncodeBytes(key[start..start + 32]));
  }

  /** What the rendered guard lets through: a P-256 CSR key whose coordinates print alike. */
  predicate GuardAccepts(pinned: CertificateKey, csr: CertificateKey) {
    Text16(Point(csr, 0)) == Coordinate(pinned, 0) && Text16(Point(csr, 1)) == Coordinate(pinned, 1)
  }

  /** The guard accepts the enrolled key and no other. */
  lemma GuardPinsOneKey(pinned: CertificateKey, csr: CertificateKey)
    ensures GuardAccepts(pinned, csr) <==> csr == pinned
  {
    CoordinateIsText16(pinned, 0);
    CoordinateIsText16(pinned, 1);
    if GuardAccepts(pinned, csr) {
      ValueOfText16(Point(csr, 0));
      ValueOfText16(Point(csr, 1));
      ValueOfText16(Point(pinned, 0));
      ValueOfText16(Point(pinned, 1));
      BigEndianInjective(csr[27..59], pinned[27..59]);
      BigEndianInjective(csr[59..91], pinned[59..91]);
      assert forall k: CertificateKey :: k == P256_SPKI_PREFIX + k[27..59] + k[59..91];
    }
  }

  // ---- X.509 template ----

  const KEY_MARKER_PREFIX := "{{/* grafhome-ca-x509-key:"
  const KEY_MARKER_SUFFIX := " */}}"

  function Marker(key: CertificateKey): string {
    KEY_MARKER_PREFIX + Base64.Encode(key) + KEY_MARKER_SUFFIX
  }

  function Guard(key: CertificateKey): string {
    "{{- $key := .Insecure.CR.PublicKey }}" + "\n"
    + ("{{- if or (ne $key.Curve.Params.Name " + "\"P-256\") (ne ($key.X.Text 16) \"") + Coordinate(key, 0) + "\""
    + ") (ne ($key.Y.Text 16) \"" + Coordinate(key, 1) + "\""
    + (") }}{{ fail \"certificate public key " + "does not match enrollment\" }}{{ end }}") + "\n"
  }

  function X509Template(key: CertificateKey, body: string): string {
    Marker(key) + "\n" + Guard(key) + body + "\n"
  }

  /** Read the pinned key back from a live template. */
  function FromTemplate(template: string): Option<CertificateKey> {
    match FirstLine(template)
    case None => None
    case Some(line) =>
      match StripPrefix(line, KEY_MARKER_PREFIX)
      case None => None
      case Some(rest) =>
        match StripSuffix(rest, KEY_MARKER_SUFFIX)
        case None => None
        case Some(encoded) =>
          match Base64.Decode(encoded)
          case None => None
          case Some(der) => FromDer(der)
  }

  lemma FirstLineOf(line: string, rest: string)
    requires '\n' !in line && (line == "" || line[|line| - 1] != '\r')
    ensures FirstLine(line + "\n" + rest) == Some(line)
  {
    SplitOnceFinds(line, '\n', rest);
  }

  lemma MarkerIsOneLine(key: CertificateKey)
    ensures '\n' !in Marker(key) && Marker(key) != "" && Marker(key)[|Marker(key)| - 1] != '\r'
  {
    EncodedIsVisible(key);
    assert Marker(key)[|Marker(key)| - 1] == KEY_MARKER_SUFFIX[|KEY_MARKER_SUFFIX| - 1] == '}';
  }

  lemma MarkerParses(key: CertificateKey)
    ensures StripPrefix(Marker(key), KEY_MARKER_PREFIX) == Some(Base64.Encode(key) + KEY_MARKER_SUFFIX)
    ensures StripSuffix(Base64.Encode(key) + KEY_MARKER_SUFFIX, KEY_MARKER_SUFFIX) == Some(Base64.Encode(key))
  {
    var encoded := Base64.Encode(key);
    assert Marker(key) == KEY_MARKER_PREFIX + (encoded + KEY_MARKER_SUFFIX);
    StripBuilt(KEY_MARKER_PREFIX, encoded + KEY_MARKER_SUFFIX);
    StripSuffixBuilt(encoded, KEY_MARKER_SUFFIX);
  }

  /** The pinned key survives the template, whatever body follows. */
  lemma TemplateKeepsKey(key: CertificateKey, body: string)
    ensures FromTemplate(X509Template(key, body)) == Some(key)
  {
    MarkerIsOneLine(key);
    MarkerParses(key);
    Base64.DecodeEncoded(key);
    RegroupTail(Marker(key), "\n", Guard(key), body, "\n");
    FirstLineOf(Marker(key), Guard(key) + body + "\n");
  }

  // ---- What a pinned template admits, read from its text ----

  const KEY_LINE := "{{- $key := .Insecure.CR.PublicKey }}"
  const CHECK_X := "{{- if or (ne $key.Curve.Params.Name " + "\"P-256\") (ne ($key.X.Text 16) \""
  const CHECK_Y := ") (ne ($key.Y.Text 16) \""
  const CHECK_END := ") }}{{ fail \"certificate public key " + "does not match enrollment\" }}{{ end }}"

  /** Text up to the first closing quote, and what follows the quote. */
  function Quoted(s: string): Option<(string, string)> { SplitOnce(s, '"') }

  /** The two quoted values of a line `head x" middle y" tail`. */
  function TwoQuoted(line: string, head: string, middle: string, tail: string): Option<(string, string)> {
    match StripPrefix(line, head)
    case None => None
    case Some(atX) =>
      match Quoted(atX)
      case None => None
      case Some((x, afterX)) =>
        match StripPrefix(afterX, middle)
        case None => None
        case Some(atY) =>
          match Quoted(atY)
          case Some((y, afterY)) => if afterY == tail then Some((x, y)) else None
          case None => None
  }

  /** The check of a template: a comment line, the line that names the CSR key, then the check line. */
  function TemplateCheck(template: string): Option<(string, string)> {
    match SplitOnce(template, '\n')
    case None => None
    case Some((comment, afterComment)) =>
      match SplitOnce(afterComment, '\n')
      case None => None
      case Some((keyLine, afterKey)) =>
        match SplitOnce(afterKey, '\n')
        case None => None
        case Some((checkLine, _)) =>
          if StartsWith(comment, "{{/*") && EndsWith(comment, "*/}}") && keyLine == KEY_LINE
          then TwoQuoted(checkLine, CHECK_X, CHECK_Y, CHECK_END) else None
  }

  /** Whether rendering a template for a P-256 CSR gets past its check; without a check nothing stops it. */
  predicate AdmitsKey(template: string, csr: CertificateKey) {
    match TemplateCheck(template)
    case None => true
    case Some((x, y)) => Text16(Point(csr, 0)) == x && Text16(Point(csr, 1)) == y
  }

  lemma {:induction false} Text16IsPlain(n: nat)
    ensures '"' !in Text16(n) && '\n' !in Text16(n)
  {
    if n >= 16 { Text16IsPlain(n / 16); }
  }

  lemma CoordinateIsPlain(key: CertificateKey, index: nat)
    requires index < 2
    ensures '"' !in Coordinate(key, index) && '\n' !in Coordinate(key, index)
  {
    CoordinateIsText16(key, index);
    Text16IsPlain(Point(key, index));
  }

  function QuotedLine(x: string, y: string, head: string, middle: string, tail: string): string {
    head + (x + "\"" + (middle + (y + "\"" + tail)))
  }

  lemma QuotedLineReads(x: string, y: string, head: string, middle: string, tail: string)
    requires '"' !in x && '"' !in y
    ensures TwoQuoted(QuotedLine(x, y, head, middle, tail), head, middle, tail) == Some((x, y))
  {
    StripBuilt(head, x + "\"" + (middle + (y + "\"" + tail)));
    SplitOnceFinds(x, '"', middle + (y + "\"" + tail));
    StripBuilt(middle, y + "\"" + tail);
    SplitOnceFinds(y, '"', tail);
  }

  lemma GuardLines(k: string, head: string, x: string, middle: string, y: string, tail: string)
    ensures k + "\n" + head + x + "\"" + middle + y + "\"" + tail + "\n"
            == k + "\n" + (QuotedLine(x, y, head, middle, tail) + "\n")
  {}

  lemma GuardSpelling(key: CertificateKey)
    ensures Guard(key)
            == KEY_LINE + "\n"
               + (QuotedLine(Coordinate(key, 0), Coordinate(key, 1), CHECK_X, CHECK_Y, CHECK_END) + "\n")
  {
    GuardLines(KEY_LINE, CHECK_X, Coordinate(key, 0), CHECK_Y, Coordinate(key, 1), CHECK_END);
  }

  lemma KeyLineIsOneLine()
    ensures '\n' !in KEY_LINE && '\n' !in CHECK_Y
  {}

  lemma CheckHeadIsOneLine()
    ensures '\n' !in CHECK_X
  {}

  lemma CheckTailIsOneLine()
    ensures '\n' !in CHECK_END
  {}

  lemma CheckIsOneLine()
    ensures '\n' !in KEY_LINE && '\n' !in CHECK_X && '\n' !in CHECK_Y && '\n' !in CHECK_END
  {
    KeyLineIsOneLine();
    CheckHeadIsOneLine();
    CheckTailIsOneLine();
  }

  lemma QuotedLineIsOneLine(x: string, y: string, head: string, middle: string, tail: string)
    requires '\n' !in x && '\n' !in y && '\n' !in head && '\n' !in middle && '\n' !in tail
    ensures '\n' !in QuotedLine(x, y, head, middle, tail)
  {}

  lemma ThirdLine(first: string, second: string, third: string, rest: string)
    requires '\n' !in first && '\n' !in second && '\n' !in third
    ensures SplitOnce(first + "\n" + (second + "\n" + (third + "\n" + rest)), '\n')
            == Some((first, second + "\n" + (third + "\n" + rest)))
    ensures SplitOnce(second + "\n" + (third + "\n" + rest), '\n') == Some((second, third + "\n" + rest))
    ensures SplitOnce(third + "\n" + rest, '\n') == Some((third, rest))
  {
    SplitOnceFinds(first, '\n', second + "\n" + (third + "\n" + rest));
    SplitOnceFinds(second, '\n', third + "\n" + rest);
    SplitOnceFinds(third, '\n', rest);
  }

  lemma PinnedLines(marker: string, k: string, check: string, body: string)
    ensures marker + "\n" + (k + "\n" + (check + "\n")) + body + "\n"
            == marker + "\n" + (k + "\n" + (check + "\n" + (body + "\n")))
  {}

  lemma CommentLine(key: CertificateKey)
    ensures StartsWith(Marker(key), "{{/*") && EndsWith(Marker(key), "*/}}")
  {
    var m := Marker(key);
    assert m[..4] == KEY_MARKER_PREFIX[..4] == "{{/*";
    assert m[|m| - 4..] == KEY_MARKER_SUFFIX[|KEY_MARKER_SUFFIX| - 4..] == "*/}}";
  }

  lemma TemplateCheckReads(key: CertificateKey, body: string)
    ensures TemplateCheck(X509Template(key, body)) == Some((Coordinate(key, 0), Coordinate(key, 1)))
  {
    var x, y := Coordinate(key, 0), Coordinate(key, 1);
    var check := QuotedLine(x, y, CHECK_X, CHECK_Y, CHECK_END);
    CoordinateIsPlain(key, 0);
    CoordinateIsPlain(key, 1);
    CheckIsOneLine();
    QuotedLineIsOneLine(x, y, CHECK_X, CHECK_Y, CHECK_END);
    QuotedLineReads(x, y, CHECK_X, CHECK_Y, CHECK_END);
    GuardSpelling(key);
    MarkerIsOneLine(key);
    CommentLine(key);
    PinnedLines(Marker(key), KEY_LINE, check, body);
    ThirdLine(Marker(key), KEY_LINE, check, body + "\n");
  }

  /** Read as text, the template of a key admits that key and no other, whatever body follows. */
  lemma TemplateAdmitsOneKey(key: CertificateKey, csr: CertificateKey, body: string)
    ensures AdmitsKey(X509Template(key, body), csr) <==> csr == key
    ensures EndsWith(X509Template(key, body), body + "\n")
  {
    TemplateCheckReads(key, body);
    GuardPinsOneKey(key, csr);
    var t := X509Template(key, body);
    assert t == (Marker(key) + "\n" + Guard(key)) + (body + "\n");
  }

  /** Equal template guards or equal templates mean equal keys. */
  lemma TemplatesShareNoKey(a: CertificateKey, b: CertificateKey, bodyA: string, bodyB: string)
    ensures X509Template(a, bodyA) == X509Template(b, bodyB) ==> a == b
    ensures Coordinate(a, 0) == Coordinate(b, 0) && Coordinate(a, 1) == Coordinate(b, 1) ==> a == b
  {
    TemplateKeepsKey(a, bodyA);
    TemplateKeepsKey(b, bodyB);
    CoordinateIsText16(b, 0);
    CoordinateIsText16(b, 1);
    GuardPinsOneKey(a, b);
  }

  // ---- Deny templates ----

  /** Non-overlapping occurrences of an opening action delimiter. */
  function CountActions(s: string): nat {
    if |s| < 2 then 0
    else if s[0] == '{' && s[1] == '{' then 1 + CountActions(s[2..])
    else CountActions(s[1..])
  }

  /** A template that does nothing but fail. */
  predicate IsDeny(template: string) {
    var t := Trim(template);
    StartsWith(t, "{{ fail ") && EndsWith(t, "}}") && CountActions(t) == 1
  }

  function DenyTemplate(reason: string): string { "{{ fail \"" + reason + "\" }}" }

  lemma {:induction false} NoActionsWithoutBraces(s: string)
    requires '{' !in s
    ensures CountActions(s) == 0
  {
    if |s| >= 2 { NoActionsWithoutBraces(s[1..]); }
  }

  lemma DenyTemplateDenies(reason: string)
    requires '{' !in reason
    ensures IsDeny(DenyTemplate(reason))
  {
    var t := DenyTemplate(reason);
    var rest := " fail \"" + reason + "\" }}";
    assert t == "{{" + rest;
    assert t[0] == '{' && t[1] == '{' && t[2..] == rest && t[|t| - 1] == '}' && t[|t| - 2] == '}';
    NoActionsWithoutBraces(rest);
    TrimFinalNewline(t);
    assert "{{ fail " == t[..8];
    assert t[|t| - 2..] == "}}";
  }

  /** A pinned template issues, so it never passes for a deny template. */
  lemma PinnedTemplateIsNotDeny(key: CertificateKey, body: string)
    ensures !IsDeny(X509Template(key, body))
  {
    var t, deny := X509Template(key, body), "{{ fail ";
    assert t[0] == '{' && t[2] == '/' && deny[2] == ' ';
    assert TrimStart(t) == t;
    TrimEndIsPrefix(t);
    assert !StartsWith(t, deny);
    if StartsWith(Trim(t), deny) { PrefixTransitive(deny, Trim(t), t); }
  }

  lemma {:induction false} TrimEndIsPrefix(s: string)
    ensures TrimEnd(s) <= s
  {
    if s != "" && IsWhitespace(s[|s| - 1]) { TrimEndIsPrefix(s[..|s| - 1]); }
  }

  // ---- SSH template guard ----

  const SSH_MARKER_PREFIX := "{{/* grafhome-ca-ssh-key:"

  function SshMarker(blob: string): string { SSH_MARKER_PREFIX + blob + " */}}" }

  function SshCheck(blob: string): string {
    ("{{- if ne (b64enc (toString " + ".Insecure.CR.Key.Marshal)) \"") + blob + "\""
    + (" }}{{ fail \"SSH public key " + "does not match enrollment\" }}{{ end }}") + "\n"
  }

  function SshGuard(blob: string): string { SshMarker(blob) + "\n" + SshCheck(blob) }

  /** A wire blob is one whitespace-free token of an OpenSSH public key line. */
  predicate IsBlob(blob: string) { forall c :: c in blob ==> !IsWhitespace(c) }

  /** Prepend the guard, accept an identical binding, refuse any other. */
  function BindSsh(template: string, blob: string): Option<string> {
    match FirstLine(template)
    case Some(line) =>
      if StartsWith(line, SSH_MARKER_PREFIX) then
        if line == SshMarker(blob) && StartsWith(template, SshGuard(blob)) then Some(template) else None
      else Some(SshGuard(blob) + template)
    case None => Some(SshGuard(blob) + template)
  }

  lemma SshMarkerIsOneLine(blob: string)
    requires IsBlob(blob)
    ensures '\n' !in SshMarker(blob) && SshMarker(blob) != "" && SshMarker(blob)[|SshMarker(blob)| - 1] != '\r'
    ensures StartsWith(SshMarker(blob), SSH_MARKER_PREFIX)
  {
    assert SshMarker(blob) == SSH_MARKER_PREFIX + (blob + " */}}");
    StripBuilt(SSH_MARKER_PREFIX, blob + " */}}");
  }

  lemma BoundFirstLine(template: string, blob: string)
    requires IsBlob(blob) && StartsWith(template, SshGuard(blob))
    ensures FirstLine(template) == Some(SshMarker(blob))
    ensures StartsWith(SshMarker(blob), SSH_MARKER_PREFIX)
  {
    SshMarkerIsOneLine(blob);
    var line := SshMarker(blob) + "\n";
    StripBuilt(line, SshCheck(blob));
    PrefixTransitive(line, SshGuard(blob), template);
    assert template == line + template[|line|..];
    FirstLineOf(SshMarker(blob), template[|line|..]);
  }

  lemma PrefixIsOneLine()
    ensures '\n' !in SSH_MARKER_PREFIX && '\r' !in SSH_MARKER_PREFIX
  {}

  /** A template is marked by its first line exactly when it starts with the marker. */
  lemma MarkedByFirstLine(template: string)
    ensures StartsWith(template, SSH_MARKER_PREFIX) <==>
            FirstLine(template).Some? && StartsWith(FirstLine(template).value, SSH_MARKER_PREFIX)
  {
    PrefixIsOneLine();
    if template != "" {
      var full := match SplitOnce(template, '\n') case Some((first, _)) => first case None => template;
      var line := FirstLine(template).value;
      assert full == template[..|full|] && line == template[..|line|] && |line| <= |full| <= |line| + 1;
      if StartsWith(template, SSH_MARKER_PREFIX) {
        var n := |SSH_MARKER_PREFIX|;
        assert forall i :: 0 <= i < n ==> template[i] == SSH_MARKER_PREFIX[i] && template[i] in SSH_MARKER_PREFIX;
        assert |full| == |template| || template[|full|] == '\n';
        assert |line| == |full| || template[|line|] == '\r';
        assert line[..n] == template[..n];
      }
    }
  }

  /** A guarded template is kept, one marked otherwise is refused, and any other gets the guard in front. */
  lemma BindsExactly(template: string, blob: string)
    requires IsBlob(blob)
    ensures BindSsh(template, blob) ==
            if StartsWith(template, SshGuard(blob)) then Some(template)
            else if StartsWith(template, "{{/* grafhome-ca-ssh-key:") then None
            else Some(SshGuard(blob) + template)
  {
    MarkedByFirstLine(template);
    if StartsWith(template, SshGuard(blob)) { BoundFirstLine(template, blob); }
  }

  // ---- What a bound SSH template admits, read from its text ----

  const SSH_CHECK := "{{- if ne (b64enc (toString " + ".Insecure.CR.Key.Marshal)) \""
  const SSH_CHECK_END := " }}{{ fail \"SSH public key " + "does not match enrollment\" }}{{ end }}"

  /** The blob a template checks for: a comment line, then the check line. */
  function SshChecked(template: string): Option<string> {
    match SplitOnce(template, '\n')
    case None => None
    case Some((comment, afterComment)) =>
      match SplitOnce(afterComment, '\n')
      case None => None
      case Some((line, _)) =>
        if !StartsWith(comment, "{{/*") || !EndsWith(comment, "*/}}") then None
        else match StripPrefix(line, SSH_CHECK)
          case None => None
          case Some(rest) =>
            match Quoted(rest)
            case Some((blob, after)) => if after == SSH_CHECK_END then Some(blob) else None
            case None => None
  }

  /** Whether a template lets a CSR of a wire blob through; without a check nothing stops it. */
  predicate SshAdmits(template: string, blob: string) {
    match SshChecked(template) case None => true case Some(checked) => blob == checked
  }

  lemma SshCheckSpelling(blob: string)
    ensures SshCheck(blob) == SSH_CHECK + (blob + "\"" + SSH_CHECK_END) + "\n"
  {
    QuotedOnce(SSH_CHECK, blob, SSH_CHECK_END);
  }

  lemma QuotedOnce(head: string, x: string, tail: string)
    ensures head + x + "\"" + tail + "\n" == head + (x + "\"" + tail) + "\n"
  {}

  lemma SshCheckIsOneLine()
    ensures '\n' !in SSH_CHECK && '\n' !in SSH_CHECK_END
  {}

  lemma TwoLines(first: string, second: string, rest: string)
    requires '\n' !in first && '\n' !in second
    ensures first + "\n" + (second + "\n") + rest == first + "\n" + (second + "\n" + rest)
    ensures SplitOnce(first + "\n" + (second + "\n" + rest), '\n') == Some((first, second + "\n" + rest))
    ensures SplitOnce(second + "\n" + rest, '\n') == Some((second, rest))
  {
    SplitOnceFinds(first, '\n', second + "\n" + rest);
    SplitOnceFinds(second, '\n', rest);
  }

  lemma OneLine(head: string, x: string, tail: string)
    requires '\n' !in head && '\n' !in x && '\n' !in tail && '"' !in x
    ensures '\n' !in head + (x + "\"" + tail)
    ensures StripPrefix(head + (x + "\"" + tail), head) == Some(x + "\"" + tail)
    ensures Quoted(x + "\"" + tail) == Some((x, tail))
  {
    StripBuilt(head, x + "\"" + tail);
    SplitOnceFinds(x, '"', tail);
  }

  lemma GuardedReads(blob: string, rest: string)
    requires IsBlob(blob) && '"' !in blob
    ensures SshChecked(SshGuard(blob) + rest) == Some(blob)
  {
    SshCheckSpelling(blob);
    SshMarkerIsOneLine(blob);
    SshCommentLine(blob);
    SshCheckIsOneLine();
    OneLine(SSH_CHECK, blob, SSH_CHECK_END);
    TwoLines(SshMarker(blob), SSH_CHECK + (blob + "\"" + SSH_CHECK_END), rest);
  }

  /** Read as text, a template behind the guard of a blob admits that key and no other. */
  lemma GuardedAdmitsOneKey(template: string, blob: string, other: string)
    requires IsBlob(blob) && '"' !in blob && StartsWith(template, SshGuard(blob))
    ensures SshAdmits(template, other) <==> other == blob
  {
    var rest := template[|SshGuard(blob)|..];
    assert template == SshGuard(blob) + rest;
    GuardedReads(blob, rest);
  }

  lemma SshCommentLine(blob: string)
    ensures StartsWith(SshMarker(blob), "{{/*") && EndsWith(SshMarker(blob), "*/}}")
  {
    var m := SshMarker(blob);
    assert m == SSH_MARKER_PREFIX + (blob + " */}}");
    assert m[..4] == SSH_MARKER_PREFIX[..4] == "{{/*";
    assert m == SSH_MARKER_PREFIX + blob + " " + "*/}}";
    assert m[|m| - 4..] == "*/}}";
  }

  /**
   Binding is exact: a bound template stays as it is under the same key and refuses every other,
   and a successful binding always leaves the key's guard in front of the original text.
   */
  lemma BindingIsExact(template: string, blob: string, other: string)
    requires IsBlob(blob) && IsBlob(other)
    ensures var bound := BindSsh(template, blob);
            bound.Some? ==>
              && StartsWith(bound.value, SshGuard(blob))
              && EndsWith(bound.value, template)
              && BindSsh(bound.value, blob) == bound
              && (other != blob ==> BindSsh(bound.value, other) == None)
  {
    var bound := BindSsh(template, blob);
    if bound.Some? {
      var t := bound.value;
      assert StartsWith(t, SshGuard(blob)) && EndsWith(t, template) by {
        if t != template {
          assert (SshGuard(blob) + template)[..|SshGuard(blob)|] == SshGuard(blob);
          assert (SshGuard(blob) + template)[|SshGuard(blob)|..] == template;
        } else {
          assert template[0..] == template;
        }
      }
      BoundFirstLine(t, blob);
      if SshMarker(other) == SshMarker(blob) {
        var start := |SSH_MARKER_PREFIX|;
        assert |other| == |blob|;
        assert SshMarker(other)[start..start + |other|] == other && SshMarker(blob)[start..start + |blob|] == blob;
      }
    }
  }
}
