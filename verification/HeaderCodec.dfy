/**
 The Mcp-Name header: the client's encoding, the server's decoding, and the UTF-8 (RFC 3629)
 and base64 (section 4 of RFC 4648) underneath.
 */
module HeaderCodec {
  import opened Wrappers
  import opened ByteStrings
  import opened JsText

  // ---------------------------------------------------------------------------
  // UTF-8
  // ---------------------------------------------------------------------------

  predicate IsSurrogate(c: CodeUnit) {
    IsHighSurrogate(c) || IsLowSurrogate(c)
  }

  function PairValue(high: CodeUnit, low: CodeUnit): (cp: int)
    requires IsHighSurrogate(high) && IsLowSurrogate(low)
    ensures 0x10000 <= cp <= 0x10FFFF
  {
    0x10000 + (high as int - 0xD800) * 0x400 + (low as int - 0xDC00)
  }

  predicate IsScalar(cp: int) {
    0 <= cp < 0xD800 || 0xE000 <= cp <= 0x10FFFF
  }

  function EncodeScalar(cp: int): (bytes: Bytes)
    requires IsScalar(cp)
    ensures 1 <= |bytes| <= 4
  {
    if cp < 0x80 then [cp as Byte]
    else if cp < 0x800 then [(0xC0 + cp / 64) as Byte, (0x80 + cp % 64) as Byte]
    else if cp < 0x10000 then [(0xE0 + cp / 4096) as Byte, (0x80 + cp / 64 % 64) as Byte, (0x80 + cp % 64) as Byte]
    else [(0xF0 + cp / 262144) as Byte, (0x80 + cp / 4096 % 64) as Byte, (0x80 + cp / 64 % 64) as Byte, (0x80 + cp % 64) as Byte]
  }

  /** The first code point of a text, a lone surrogate read as U+FFFD, and how many units it takes. */
  function FirstScalar(s: Text): (r: (int, nat))
    requires s != []
    ensures IsScalar(r.0) && 1 <= r.1 <= |s|
  {
    if StartsWithPair(s) then (PairValue(s[0], s[1]), 2)
    else if IsSurrogate(s[0]) then (0xFFFD, 1)
    else (s[0] as int, 1)
  }

  /** `Buffer.from(text)` */
  function Utf8(s: Text): Bytes
    decreases |s|
  {
    if s == [] then []
    else
      var (cp, units) := FirstScalar(s);
      EncodeScalar(cp) + Utf8(s[units..])
  }

  function UnitsOf(cp: int): Text
    requires IsScalar(cp)
  {
    if cp < 0x10000 then [cp as CodeUnit]
    else [(0xD800 + (cp - 0x10000) / 0x400) as CodeUnit, (0xDC00 + (cp - 0x10000) % 0x400) as CodeUnit]
  }

  predicate IsContinuation(b: Byte) {
    0x80 <= b <= 0xBF
  }

  /** The first code point of a byte string and its length; overlong forms and surrogates are errors. */
  function DecodeScalar(b: Bytes): (r: Option<(int, nat)>)
    requires b != []
    ensures r.Some? ==> IsScalar(r.value.0) && 1 <= r.value.1 <= |b|
  {
    if b[0] < 0x80 then Some((b[0] as int, 1))
    else if 0xC2 <= b[0] <= 0xDF && |b| >= 2 && IsContinuation(b[1]) then
      Some(((b[0] as int - 0xC0) * 64 + (b[1] as int - 0x80), 2))
    else if 0xE0 <= b[0] <= 0xEF && |b| >= 3 && IsContinuation(b[1]) && IsContinuation(b[2])
            && (b[0] == 0xE0 ==> b[1] >= 0xA0) && (b[0] == 0xED ==> b[1] <= 0x9F) then
      Some(((b[0] as int - 0xE0) * 4096 + (b[1] as int - 0x80) * 64 + (b[2] as int - 0x80), 3))
    else if 0xF0 <= b[0] <= 0xF4 && |b| >= 4 && IsContinuation(b[1]) && IsContinuation(b[2]) && IsContinuation(b[3])
            && (b[0] == 0xF0 ==> b[1] >= 0x90) && (b[0] == 0xF4 ==> b[1] <= 0x8F) then
      Some(((b[0] as int - 0xF0) * 262144 + (b[1] as int - 0x80) * 4096 + (b[2] as int - 0x80) * 64 + (b[3] as int - 0x80), 4))
    else None
  }

  function Utf8Decode(b: Bytes): Option<Text>
    decreases |b|
  {
    if b == [] then Some([])
    else
      var first := DecodeScalar(b);
      if first.None? then None
      else
        var rest := Utf8Decode(b[first.value.1..]);
        if rest.None? then None else Some(UnitsOf(first.value.0) + rest.value)
  }

  const BOM: CodeUnit := 0xFEFF

  function DropBom(s: Text): Text {
    if s != [] && s[0] == BOM then s[1..] else s
  }

  /** A fatal `TextDecoder`: invalid UTF-8 is an error, a leading byte order mark is dropped. */
  function FatalDecode(b: Bytes): Option<Text> {
    var s := Utf8Decode(b);
    if s.None? then None else Some(DropBom(s.value))
  }

  // ---------------------------------------------------------------------------
  // Base64
  // ---------------------------------------------------------------------------

  const PAD: CodeUnit := 61

  function SextetValue(c: CodeUnit): (n: int)
    ensures 0 <= n < 64
  {
    if 65 <= c <= 90 then c as int - 65
    else if 97 <= c <= 122 then c as int - 71
    else if 48 <= c <= 57 then c as int + 4
    else if c == 43 then 62
    else if c == 47 then 63
    else 0
  }

  function Sextet(n: int): (c: CodeUnit)
    requires 0 <= n < 64
    ensures 0x21 <= c <= 0x7A && c != PAD && SextetValue(c) == n
  {
    if n < 26 then (65 + n) as CodeUnit
    else if n < 52 then (71 + n) as CodeUnit
    else if n < 62 then (n - 4) as CodeUnit
    else if n == 62 then 43
    else 47
  }

  function FirstByte(p: int, q: int): Byte
    requires 0 <= p < 64 && 0 <= q < 64
  {
    (p * 4 + q / 16) as Byte
  }

  function SecondByte(q: int, r: int): Byte
    requires 0 <= q < 64 && 0 <= r < 64
  {
    (q % 16 * 16 + r / 4) as Byte
  }

  function ThirdByte(r: int, t: int): Byte
    requires 0 <= r < 64 && 0 <= t < 64
  {
    (r % 4 * 64 + t) as Byte
  }

  /** Three bytes as four sextets. */
  function Sextets(x: Byte, y: Byte, z: Byte): (r: (int, int, int, int))
    ensures 0 <= r.0 < 64 && 0 <= r.1 < 64 && 0 <= r.2 < 64 && 0 <= r.3 < 64
    ensures FirstByte(r.0, r.1) == x && SecondByte(r.1, r.2) == y && ThirdByte(r.2, r.3) == z
  {
    var (a, b, c) := (x as int, y as int, z as int);
    (a / 4, a % 4 * 16 + b / 16, b % 16 * 4 + c / 64, c % 64)
  }

  /** A last group of one or two bytes is padded; its missing bytes count as zero. */
  function Base64(b: Bytes): Text {
    if b == [] then []
    else if |b| == 1 then
      var r := Sextets(b[0], 0, 0);
      [Sextet(r.0), Sextet(r.1), PAD, PAD]
    else if |b| == 2 then
      var r := Sextets(b[0], b[1], 0);
      [Sextet(r.0), Sextet(r.1), Sextet(r.2), PAD]
    else
      var r := Sextets(b[0], b[1], b[2]);
      [Sextet(r.0), Sextet(r.1), Sextet(r.2), Sextet(r.3)] + Base64(b[3..])
  }

  /** A decoder that understands at least what `Base64` writes. */
  function FromBase64(s: Text): Bytes {
    if |s| < 4 then []
    else
      var (p, q, r, t) := (SextetValue(s[0]), SextetValue(s[1]), SextetValue(s[2]), SextetValue(s[3]));
      if s[2] == PAD then [FirstByte(p, q)]
      else if s[3] == PAD then [FirstByte(p, q), SecondByte(q, r)]
      else [FirstByte(p, q), SecondByte(q, r), ThirdByte(r, t)] + FromBase64(s[4..])
  }

  /**
   How leniently `Buffer.from(text, "base64")` treats other texts does not matter here: the
   server encodes the bytes again and compares.
   */
  ghost predicate IsBase64Decoder(decoder: Text -> Bytes) {
    forall b :: decoder(Base64(b)) == b
  }

  // ---------------------------------------------------------------------------
  // The header
  // ---------------------------------------------------------------------------

  /** "=?base64?" and "?=" */
  const PREFIX: Text := [61, 63, 98, 97, 115, 101, 54, 52, 63]
  const SUFFIX: Text := [63, 61]

  predicate LooksEncoded(s: Text) {
    PREFIX <= s && |s| >= 2 && s[|s| - 2..] == SUFFIX
  }

  predicate IsTrimmed(s: Text) {
    s != [] ==> s[0] != 9 && s[0] != 32 && s[|s| - 1] != 9 && s[|s| - 1] != 32
  }

  predicate IsPrintable(s: Text) {
    forall i :: 0 <= i < |s| ==> 0x20 <= s[i] <= 0x7E
  }

  predicate IsFieldValue(s: Text) {
    forall i :: 0 <= i < |s| ==> s[i] == 9 || 0x20 <= s[i] <= 0x7E
  }

  /** The client's header value for a name. */
  function EncodeName(name: Text): Text {
    if IsPrintable(name) && IsTrimmed(name) && !LooksEncoded(name) then name
    else PREFIX + Base64(Utf8(name)) + SUFFIX
  }

  /** `decodeMcpHeader`, for a header that is present once. */
  function DecodeName(value: Text, decoder: Text -> Bytes): Option<Text> {
    if !IsFieldValue(value) || !IsTrimmed(value) then None
    else if !LooksEncoded(value) then Some(value)
    else
      var encoded := if |value| < 11 then [] else value[9..|value| - 2];
      var bytes := decoder(encoded);
      if Base64(bytes) != encoded then None else FatalDecode(bytes)
  }

  // ---------------------------------------------------------------------------
  // Proofs: base64
  // ---------------------------------------------------------------------------

  lemma {:induction false} Base64RoundTrip(b: Bytes)
    ensures FromBase64(Base64(b)) == b
  {
    hide Sextets, Sextet, SextetValue, FirstByte, SecondByte, ThirdByte;
    if |b| >= 3 {
      Base64RoundTrip(b[3..]);
      assert Base64(b)[4..] == Base64(b[3..]);
      assert b == [b[0], b[1], b[2]] + b[3..];
    } else if |b| == 2 {
      assert b == [b[0], b[1]];
    } else if |b| == 1 {
      assert b == [b[0]];
    }
  }

  lemma DecodersExist()
    ensures IsBase64Decoder(FromBase64)
  {
    forall b ensures FromBase64(Base64(b)) == b {
      Base64RoundTrip(b);
    }
  }

  lemma {:induction false} Base64IsPrintable(b: Bytes)
    ensures forall i :: 0 <= i < |Base64(b)| ==> 0x21 <= Base64(b)[i] <= 0x7E
  {
    hide Sextet, Sextets;
    if |b| >= 3 {
      Base64IsPrintable(b[3..]);
      var head := Base64(b)[..4];
      assert Base64(b) == head + Base64(b[3..]);
    }
  }

  // ---------------------------------------------------------------------------
  // Proofs: UTF-8
  // ---------------------------------------------------------------------------

  /** The bits of a code point, six at a time. */
  lemma SixBits(cp: int)
    requires 0 <= cp <= 0x10FFFF
    ensures var (a, b, c) := (cp / 64, cp / 4096, cp / 262144);
      && cp == a * 64 + cp % 64 && a == b * 64 + a % 64 && b == c * 64 + b % 64
      && 0 <= c <= 4 && (c == 4 ==> b % 64 <= 15)
      && (cp < 0x800 ==> a < 32) && (cp < 0x10000 ==> b < 16) && (0x800 <= cp ==> b == 0 ==> 32 <= a % 64)
  {
  }

  lemma ShortScalarRoundTrip(cp: int, rest: Bytes)
    requires IsScalar(cp) && cp < 0x10000
    ensures DecodeScalar(EncodeScalar(cp) + rest) == Some((cp, |EncodeScalar(cp)|))
  {
    SixBits(cp);
    var b := EncodeScalar(cp) + rest;
    if cp < 0x80 {
      assert b[0] == cp as Byte;
    } else if cp < 0x800 {
      assert b[0] == (0xC0 + cp / 64) as Byte && b[1] == (0x80 + cp % 64) as Byte;
    } else {
      assert b[0] == (0xE0 + cp / 4096) as Byte && b[1] == (0x80 + cp / 64 % 64) as Byte && b[2] == (0x80 + cp % 64) as Byte;
    }
  }

  lemma ScalarRoundTrip(cp: int, rest: Bytes)
    requires IsScalar(cp)
    ensures DecodeScalar(EncodeScalar(cp) + rest) == Some((cp, |EncodeScalar(cp)|))
  {
    if cp < 0x10000 {
      ShortScalarRoundTrip(cp, rest);
    } else {
      SixBits(cp);
      var b := EncodeScalar(cp) + rest;
      assert b[0] == (0xF0 + cp / 262144) as Byte && b[1] == (0x80 + cp / 4096 % 64) as Byte;
      assert b[2] == (0x80 + cp / 64 % 64) as Byte && b[3] == (0x80 + cp % 64) as Byte;
    }
  }

  /** Lone surrogates replaced. */
  function ToWellFormed(s: Text): (t: Text)
    ensures |t| == |s|
    decreases |s|
  {
    if s == [] then []
    else if StartsWithPair(s) then s[..2] + ToWellFormed(s[2..])
    else [if IsSurrogate(s[0]) then 0xFFFD else s[0]] + ToWellFormed(s[1..])
  }

  /** Encoding and decoding a text replaces its lone surrogates, and does nothing else. */
  lemma {:induction false} Utf8RoundTrip(s: Text)
    ensures Utf8Decode(Utf8(s)) == Some(ToWellFormed(s))
    decreases |s|
  {
    hide EncodeScalar, DecodeScalar, UnitsOf, PairValue;
    if s != [] {
      var (cp, units) := FirstScalar(s);
      Utf8RoundTrip(s[units..]);
      ScalarRoundTrip(cp, Utf8(s[units..]));
      assert Utf8(s)[|EncodeScalar(cp)|..] == Utf8(s[units..]);
      FirstUnits(s);
    }
  }

  lemma FirstUnits(s: Text)
    requires s != []
    ensures var (cp, units) := FirstScalar(s); ToWellFormed(s) == UnitsOf(cp) + ToWellFormed(s[units..])
  {
  }

  /** Replacing lone surrogates changes exactly the texts that are not well formed. */
  lemma {:induction false} ReplacesOnlyLoneSurrogates(s: Text)
    ensures ToWellFormed(s) == s <==> IsWellFormed(s)
    decreases |s|
  {
    if s != [] {
      var n := if StartsWithPair(s) then 2 else 1;
      ReplacesOnlyLoneSurrogates(s[n..]);
      assert s == s[..n] + s[n..];
      TailWellFormed(s, n);
      if ToWellFormed(s) == s {
        assert ToWellFormed(s)[n..] == s[n..] && ToWellFormed(s)[0] == s[0];
      }
    }
  }

  // ---------------------------------------------------------------------------
  // Proofs: the header
  // ---------------------------------------------------------------------------

  /** What the server reads, for any name at all. */
  lemma HeaderDecodes(name: Text, decoder: Text -> Bytes)
    requires decoder(Base64(Utf8(name))) == Utf8(name)
    ensures DecodeName(EncodeName(name), decoder)
         == Some(if EncodeName(name) == name then name else DropBom(ToWellFormed(name)))
  {
    hide Base64, Utf8, FatalDecode, ToWellFormed;
    if !(IsPrintable(name) && IsTrimmed(name) && !LooksEncoded(name)) {
      var encoded := Base64(Utf8(name));
      var value := PREFIX + encoded + SUFFIX;
      Base64IsPrintable(Utf8(name));
      assert value[|value| - 2..] == SUFFIX && value[9..|value| - 2] == encoded;
      assert value[0] == 61 && value[|value| - 1] == 61;
      FatalDecodeOfUtf8(name);
      EncodedIsDifferent(name);
    }
  }

  lemma FatalDecodeOfUtf8(name: Text)
    ensures FatalDecode(Utf8(name)) == Some(DropBom(ToWellFormed(name)))
  {
    Utf8RoundTrip(name);
  }

  /** An encoded header is longer than the name it encodes. */
  lemma EncodedIsDifferent(name: Text)
    ensures PREFIX + Base64(Utf8(name)) + SUFFIX != name
  {
    Utf8IsNoShorter(name);
    Base64IsNoShorter(Utf8(name));
  }

  lemma {:induction false} Utf8IsNoShorter(s: Text)
    ensures |s| <= |Utf8(s)|
    decreases |s|
  {
    if s != [] {
      var (cp, units) := FirstScalar(s);
      Utf8IsNoShorter(s[units..]);
    }
  }

  lemma {:induction false} Base64IsNoShorter(b: Bytes)
    ensures |b| <= |Base64(b)|
  {
    if |b| >= 3 {
      Base64IsNoShorter(b[3..]);
    }
  }

  /**
   Main result: the server reads the client's name back exactly when the name is well-formed
   Unicode that does not start with a byte order mark. This covers names that look encoded.
   */
  lemma HeaderRoundTripIsExact(name: Text, decoder: Text -> Bytes)
    requires decoder(Base64(Utf8(name))) == Utf8(name)
    ensures DecodeName(EncodeName(name), decoder) == Some(name)
       <==> IsWellFormed(name) && (name == [] || name[0] != BOM)
  {
    hide Base64, Utf8, ToWellFormed;
    HeaderDecodes(name, decoder);
    ReplacesOnlyLoneSurrogates(name);
    if EncodeName(name) != name && ToWellFormed(name) == name && name != [] && name[0] == BOM {
      assert |DropBom(name)| < |name|;
    }
    if EncodeName(name) == name {
      PlainIsPrintable(name);
    }
    StartsAlike(name);
  }

  lemma StartsAlike(name: Text)
    ensures name != [] && name[0] == BOM ==> ToWellFormed(name)[0] == BOM
    ensures name != [] && name[0] != BOM ==> ToWellFormed(name)[0] != BOM
  {
  }

  lemma PlainIsPrintable(name: Text)
    requires EncodeName(name) == name
    ensures IsPrintable(name)
  {
    EncodedIsDifferent(name);
  }

  // ---------------------------------------------------------------------------
  // The texts themselves
  // ---------------------------------------------------------------------------

  /** The base64 alphabet, table 1 of RFC 4648, by its runs: A-Z, a-z, 0-9, "+" and "/". */
  lemma AlphabetIsExact(n: int)
    requires 0 <= n < 64
    ensures n <= 25 ==> Sextet(n) == 'A' as CodeUnit + n as CodeUnit
    ensures 26 <= n <= 51 ==> Sextet(n) == 'a' as CodeUnit + (n - 26) as CodeUnit
    ensures 52 <= n <= 61 ==> Sextet(n) == '0' as CodeUnit + (n - 52) as CodeUnit
    ensures Sextet(62) == '+' as CodeUnit && Sextet(63) == '/' as CodeUnit
  {
  }

  /** The characters of one, two, three and four bytes that section 7 of RFC 3629 gives as examples, and the last one there is. */
  lemma Utf8Vectors()
    ensures EncodeScalar(0x41) == [0x41]
    ensures EncodeScalar(0x391) == [0xCE, 0x91]
    ensures EncodeScalar(0x2262) == [0xE2, 0x89, 0xA2]
    ensures EncodeScalar(0x65E5) == [0xE6, 0x97, 0xA5]
    ensures EncodeScalar(0x233B4) == [0xF0, 0xA3, 0x8E, 0xB4]
    ensures EncodeScalar(0x10FFFF) == [0xF4, 0x8F, 0xBF, 0xBF]
    ensures PairValue(0xD84C, 0xDFB4) == 0x233B4
  {
  }

  /** A name goes out as it is exactly when it is printable ASCII without outer spaces and not of the encoded form. */
  lemma PlainNamesAreExact(name: Text)
    ensures EncodeName(name) == name <==>
      && (forall i :: 0 <= i < |name| ==> 32 <= name[i] <= 126)
      && (name != [] ==> name[0] != 32 && name[|name| - 1] != 32)
      && !([61, 63, 98, 97, 115, 101, 54, 52, 63] <= name && name[|name| - 2..] == [63, 61])
  {
    hide Base64, Utf8;
    EncodedIsDifferent(name);
  }

  /** A header the server takes has no control characters but inner tabs, and in the encoded form is the one encoding of its bytes. */
  lemma TakenHeadersAreCanonical(value: Text, decoder: Text -> Bytes)
    requires DecodeName(value, decoder).Some?
    ensures forall i :: 0 <= i < |value| ==> value[i] == 9 || 32 <= value[i] <= 126
    ensures value != [] ==> value[0] !in {9, 32} && value[|value| - 1] !in {9, 32}
    ensures |value| >= 11 && [61, 63, 98, 97, 115, 101, 54, 52, 63] <= value && value[|value| - 2..] == [63, 61] ==>
      var bytes := decoder(value[9..|value| - 2]);
      value == PREFIX + Base64(bytes) + SUFFIX && DecodeName(value, decoder) == FatalDecode(bytes)
  {
    hide Base64, FatalDecode;
    if |value| >= 11 {
      assert value == value[..9] + value[9..|value| - 2] + value[|value| - 2..];
    }
  }
}
