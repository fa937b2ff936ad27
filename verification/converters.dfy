/**
 The invite formats shared by both copies of the invite generator
 (IpShared/InviteGenerator.cs and Cliente-Cliente/InviteGenerator.cs):
 `ip:port` text, Base16, Base62, five words and a QR code image in Base64.
 Address text parsing and the QR image codec are library behaviour and
 enter as the fields of a `Platform` value.
 */
module Converters {
  import opened Prelude
  import opened Text
  import opened Decimal
  import opened Convert
  import opened InviteHelpers
  import WordCodec

  /** `InviteFormat`. */
  datatype InviteFormat = Default | Base16 | Base62 | Human | QrCodeBase64 | Unknown

  /**
   The library calls the converters make and the model does not define:
   `IPAddress.TryParse` / `Parse` on address text (`None` when it fails),
   whether `new Bitmap` loads image bytes (it throws `ArgumentException`
   when they are not an image), reading the text of a QR code from a loaded
   image (`None` when it holds no code), and rendering text as a QR code PNG.
   */
  datatype Platform = Platform(
    parseIp: string -> Option<Ip>,
    loadsImage: seq<Byte> -> bool,
    readQr: seq<Byte> -> Option<string>,
    renderQr: string -> seq<Byte>)

  // ---------------------------------------------------------------------
  // DefaultConverter: "ip:port"
  // ---------------------------------------------------------------------

  /** The four decimal numbers of an address. */
  function IpNumbers(ip: Ip): (parts: seq<string>)
    ensures |parts| == 4
    ensures forall k | 0 <= k < 4 :: parts[k] == DecimalString(ip[k])
  {
    [DecimalString(ip[0]), DecimalString(ip[1]), DecimalString(ip[2]), DecimalString(ip[3])]
  }

  /** `IPAddress.ToString()` of an IPv4 address: dotted decimal. */
  function FormatIp(ip: Ip): string {
    Join(IpNumbers(ip), '.')
  }

  /** Dotted decimal splits back into the four numbers and holds only digits and dots. */
  lemma FormatIpParts(ip: Ip, c: char)
    requires c != '.' && !IsAsciiDigit(c)
    ensures Split(FormatIp(ip), '.') == IpNumbers(ip)
    ensures c !in FormatIp(ip)
  {
    var parts := IpNumbers(ip);
    DigitsFree(parts, '.');
    DigitsFree(parts, c);
    SplitJoin(parts, '.');
    JoinCharacters(parts, '.', c);
  }

  lemma NoOtherCharInDigits(s: string, c: char)
    requires AllDigits(s) && !IsAsciiDigit(c)
    ensures c !in s
  {
  }

  lemma DigitsFree(parts: seq<string>, c: char)
    requires forall k | 0 <= k < |parts| :: AllDigits(parts[k])
    requires !IsAsciiDigit(c)
    ensures forall k | 0 <= k < |parts| :: c !in parts[k]
  {
    forall k | 0 <= k < |parts|
      ensures c !in parts[k]
    {
      NoOtherCharInDigits(parts[k], c);
    }
  }

  /** `DefaultConverter.Encode`: `$"{ip}:{port}"`. */
  function DefaultEncode(e: Endpoint): string {
    FormatIp(e.ip) + ":" + DecimalString(e.port)
  }

  /** The encoding splits at its one `:` into the address and the port, and holds only digits, dots and that colon. */
  lemma DefaultEncodeParts(e: Endpoint, c: char)
    requires c != '.' && c != ':' && !IsAsciiDigit(c)
    ensures Split(DefaultEncode(e), ':') == [FormatIp(e.ip), DecimalString(e.port)]
    ensures c !in DefaultEncode(e)
  {
    var parts := [FormatIp(e.ip), DecimalString(e.port)];
    FormatIpParts(e.ip, ':');
    FormatIpParts(e.ip, c);
    NoOtherCharInDigits(parts[1], ':');
    NoOtherCharInDigits(parts[1], c);
    SplitJoin(parts, ':');
    JoinCharacters(parts, ':', c);
    assert Join(parts, ':') == DefaultEncode(e);
  }

  /** One to three ASCII digits (`\d{1,3}` on ASCII input). */
  predicate IsShortNumber(s: string, maxDigits: nat) {
    1 <= |s| <= maxDigits && AllDigits(s)
  }

  /** `\d{1,3}(\.\d{1,3}){3}`. */
  predicate IsDottedQuad(s: string) {
    var parts := Split(s, '.');
    |parts| == 4 && forall k | 0 <= k < 4 :: IsShortNumber(parts[k], 3)
  }

  /**
   `^(\d{1,3}(\.\d{1,3}){3}):(\d{1,5})$`: the address and port groups of a
   match. `$` also matches before a final line feed.
   */
  function DefaultMatch(s: string): (r: Option<(string, string)>)
    ensures r.Some? ==> IsDottedQuad(r.value.0) && IsShortNumber(r.value.1, 5)
  {
    var body := if |s| > 0 && s[|s| - 1] == '\n' then s[..|s| - 1] else s;
    var parts := Split(body, ':');
    if |parts| == 2 && IsDottedQuad(parts[0]) && IsShortNumber(parts[1], 5) then Some((parts[0], parts[1])) else None
  }

  /** `DefaultConverter.IsFormat`: the pattern matches and both groups parse. */
  predicate DefaultIsFormat(p: Platform, s: string) {
    match DefaultMatch(s)
    case None => false
    case Some((ipText, portText)) => p.parseIp(ipText).Some? && ParseUShort(portText).Ok?
  }

  /**
   `DefaultConverter.Decode`: the address is parsed from the text before
   the first `:`, then the port from the text between it and the next.
   */
  function DefaultDecode(p: Platform, s: string): (r: Result<Endpoint>)
    ensures r.Ok? ==> p.parseIp(Split(s, ':')[0]) == Some(r.value.ip)
    ensures r.Ok? ==> |Split(s, ':')| >= 2 && ParseUShort(Split(s, ':')[1]) == Ok(r.value.port)
  {
    var parts := Split(s, ':');
    match p.parseIp(parts[0])
    case None => Err(FormatException)
    case Some(ip) =>
      if |parts| < 2 then Err(IndexOutOfRangeException)
      else
        var port :- ParseUShort(parts[1]);
        Ok(Endpoint(ip, port))
  }

  /** The address parser reads dotted decimal back; the rest of the model never assumes more of it. */
  predicate ParsesDottedDecimal(p: Platform, ip: Ip) {
    p.parseIp(FormatIp(ip)) == Some(ip)
  }

  /** `ip:port` text is recognised and decodes to its endpoint. */
  lemma DefaultRoundTrip(p: Platform, e: Endpoint)
    requires ParsesDottedDecimal(p, e.ip)
    ensures DefaultIsFormat(p, DefaultEncode(e))
    ensures DefaultDecode(p, DefaultEncode(e)) == Ok(e)
  {
    var s := DefaultEncode(e);
    ParseDecimalString(e.port);
    FormatIpParts(e.ip, ':');
    assert IsDottedQuad(FormatIp(e.ip));
    DefaultEncodeParts(e, '\n');
    assert s[|s| - 1] != '\n';
  }

  /** A text holding a `-` is never `ip:port` text. */
  lemma HyphenIsNotDefault(p: Platform, s: string)
    requires '-' in s
    ensures !DefaultIsFormat(p, s)
  {
    var body := if |s| > 0 && s[|s| - 1] == '\n' then s[..|s| - 1] else s;
    var parts := Split(body, ':');
    if |parts| == 2 && IsDottedQuad(parts[0]) && IsShortNumber(parts[1], 5) {
      DottedQuadHasNoHyphen(parts[0]);
      NoOtherCharInDigits(parts[1], '-');
      JoinSplit(body, ':');
      JoinCharacters(parts, ':', '-');
      assert false;
    }
  }

  lemma DottedQuadHasNoHyphen(q: string)
    requires IsDottedQuad(q)
    ensures '-' !in q
  {
    var quads := Split(q, '.');
    forall k | 0 <= k < 4
      ensures '-' !in quads[k]
    {
      NoOtherCharInDigits(quads[k], '-');
    }
    JoinSplit(q, '.');
    JoinCharacters(quads, '.', '-');
  }

  /** A text without a `:` is never `ip:port` text. */
  lemma ColonlessIsNotDefault(p: Platform, s: string)
    requires ':' !in s
    ensures !DefaultIsFormat(p, s)
  {
    var body := if |s| > 0 && s[|s| - 1] == '\n' then s[..|s| - 1] else s;
    assert ':' !in body;
    SplitWithoutSeparator(body, ':');
  }

  /** A text without a `-` is never five words. */
  lemma HyphenlessIsNotWords(s: string)
    requires '-' !in s
    ensures !WordsIsFormat(s)
  {
    SplitWithoutSeparator(s, '-');
  }

  // ---------------------------------------------------------------------
  // Base16Converter
  // ---------------------------------------------------------------------

  /** `Base16Converter.IsFormat`: exactly twelve hex digits of either case. */
  predicate Base16IsFormat(s: string) {
    |s| == 12 && forall i | 0 <= i < |s| :: IsHexDigit(s[i])
  }

  /** `Base16Converter.Encode`: the packed bytes as twelve upper-case hex digits. */
  function Base16Encode(e: Endpoint): (s: string)
    ensures Base16IsFormat(s)
    ensures forall i | 0 <= i < |s| :: !IsAsciiLower(s[i])
  {
    ToHexString(IpPortToBytes(e))
  }

  /** `Base16Converter.Decode`: hex digits to bytes, bytes to an endpoint. */
  function Base16Decode(s: string): (r: Result<Endpoint>)
    ensures Base16IsFormat(s) ==> r.Ok?
    ensures r.Ok? ==> |s| == 12
  {
    var bytes :- FromHexString(s);
    BytesToIpPort(bytes)
  }

  lemma Base16RoundTrip(e: Endpoint)
    ensures Base16Decode(Base16Encode(e)) == Ok(e)
  {
    HexRoundTrip(IpPortToBytes(e));
    PackingRoundTrip(e);
  }

  // ---------------------------------------------------------------------
  // Base62Converter
  // ---------------------------------------------------------------------

  /** A character of the Base62 alphabet: an ASCII digit or letter. */
  predicate IsBase62Char(c: char) {
    IsAsciiDigit(c) || IsAsciiLower(c) || IsAsciiUpper(c)
  }

  /** The digit of value `v`: digits, then lower-case, then upper-case letters. */
  function Base62Char(v: nat): (c: char)
    requires v < 62
    ensures IsBase62Char(c)
  {
    if v < 10 then ('0' as int + v) as char
    else if v < 36 then ('a' as int + v - 10) as char
    else ('A' as int + v - 36) as char
  }

  /** `Base62Charset`, the alphabet `0`..`9`, `a`..`z`, `A`..`Z` in that order. */
  const Base62Charset: string := Base62Prefix(62)

  /** The first `n` digits of the alphabet. */
  function Base62Prefix(n: nat): (s: string)
    requires n <= 62
    ensures |s| == n
    ensures forall v | 0 <= v < n :: s[v] == Base62Char(v)
  {
    if n == 0 then [] else Base62Prefix(n - 1) + [Base62Char(n - 1)]
  }

  /** `Base62Charset.IndexOf(c)`: the digit's value, or -1 outside the alphabet. */
  function Base62Index(c: char): (v: int)
    ensures -1 <= v < 62
    ensures v == -1 <==> !IsBase62Char(c)
    ensures v >= 0 ==> Base62Charset[v] == c
  {
    if IsAsciiDigit(c) then c as int - '0' as int
    else if IsAsciiLower(c) then c as int - 'a' as int + 10
    else if IsAsciiUpper(c) then c as int - 'A' as int + 36
    else -1
  }

  /** The alphabet holds exactly the ASCII digits and letters, starting `0`, `a` at 10, `A` at 36. */
  lemma Base62Alphabet()
    ensures |Base62Charset| == 62
    ensures Base62Charset[0] == '0' && Base62Charset[9] == '9' && Base62Charset[10] == 'a'
    ensures Base62Charset[35] == 'z' && Base62Charset[36] == 'A' && Base62Charset[61] == 'Z'
    ensures forall c :: c in Base62Charset <==> IsBase62Char(c)
    ensures forall u, w | 0 <= u < w < 62 :: Base62Charset[u] != Base62Charset[w]
  {
    Base62AlphabetEnds();
    Base62AlphabetMembers();
    Base62AlphabetDistinct();
  }

  lemma Base62AlphabetEnds()
    ensures |Base62Charset| == 62
    ensures Base62Charset[0] == '0' && Base62Charset[9] == '9' && Base62Charset[10] == 'a'
    ensures Base62Charset[35] == 'z' && Base62Charset[36] == 'A' && Base62Charset[61] == 'Z'
  {
  }

  lemma Base62AlphabetMembers()
    ensures forall c :: c in Base62Charset <==> IsBase62Char(c)
  {
    forall c | IsBase62Char(c)
      ensures c in Base62Charset
    {
      assert Base62Charset[Base62Index(c)] == c;
    }
  }

  lemma Base62AlphabetDistinct()
    ensures forall u, w | 0 <= u < w < 62 :: Base62Charset[u] != Base62Charset[w]
  {
    forall u, w | 0 <= u < w < 62
      ensures Base62Charset[u] != Base62Charset[w]
    {
      Base62CharInjective(u, w);
    }
  }

  /** Distinct values have distinct digits. */
  lemma Base62CharInjective(u: nat, w: nat)
    requires u < w < 62
    ensures Base62Char(u) != Base62Char(w)
  {
  }

  /** `Base62Converter.IsFormat`: non-empty and every character in the alphabet. */
  predicate Base62IsFormat(s: string) {
    |s| > 0 && forall i | 0 <= i < |s| :: IsBase62Char(s[i])
  }

  /** The digits of a positive number, most significant first. */
  function Base62Digits(n: nat): (s: string)
    requires n > 0
    ensures |s| >= 1 && s[0] != '0'
    ensures forall i | 0 <= i < |s| :: IsBase62Char(s[i])
    ensures Pow62(|s| - 1) <= n < Pow62(|s|)
  {
    if n < 62 then [Base62Char(n)] else Base62Digits(n / 62) + [Base62Char(n % 62)]
  }

  function Pow62(k: nat): (r: nat)
    ensures r >= 1
  {
    if k == 0 then 1 else 62 * Pow62(k - 1)
  }

  lemma {:induction false} Pow62Monotone(a: nat, b: nat)
    requires a <= b
    ensures Pow62(a) <= Pow62(b)
  {
    if a < b {
      Pow62Monotone(a, b - 1);
    }
  }

  /** A number below 2^48 has at most nine Base62 digits. */
  lemma Base62DigitsBound(n: nat)
    requires 0 < n < 0x1_0000_0000_0000
    ensures |Base62Digits(n)| <= 9
  {
    var k := |Base62Digits(n)|;
    if k > 9 {
      Pow62Monotone(9, k - 1);
    }
  }

  /** `Base62Converter.Encode`: the packed bytes as one number in base 62; zero is `"0"`. */
  function Base62Encode(e: Endpoint): (s: string)
    ensures Base62IsFormat(s)
    ensures |s| <= 9
    ensures s[0] == '0' ==> s == "0"
  {
    var n := BigEndianValue(IpPortToBytes(e));
    Pow256Six();
    if n == 0 then [Base62Char(0)] else Base62DigitsBound(n); Base62Digits(n)
  }

  /** The Horner sum of the digits' alphabet indices; a character outside the alphabet counts as -1. */
  function Base62Value(s: string): int {
    if |s| == 0 then 0 else 62 * Base62Value(s[..|s| - 1]) + Base62Index(s[|s| - 1])
  }

  /** `BigInteger.ToByteArray(isUnsigned: true, isBigEndian: true)`: the shortest big-endian bytes, `[0]` for zero. */
  function UnsignedBytes(v: nat): (bytes: seq<Byte>)
    ensures |bytes| >= 1
    ensures v < 0x100 <==> |bytes| == 1
    ensures BigEndianValue(bytes) == v
    ensures |bytes| > 1 ==> Pow256(|bytes| - 1) <= v
    decreases v
  {
    if v < 0x100 then [v]
    else
      var init := UnsignedBytes(v / 0x100);
      var bytes := init + [v % 0x100];
      assert bytes[..|bytes| - 1] == init;
      bytes
  }

  /** `Base62Converter.Decode`: the Horner sum of the characters' alphabet indices, then its bytes. */
  function Base62Decode(s: string): Result<Endpoint> {
    EndpointOfValue(Base62Value(s))
  }

  /**
   The endpoint a decoded number stands for: a negative number cannot be
   written unsigned (`OverflowException`); a byte array shorter than six is
   left-padded with zeros, and a longer one is rejected by `BytesToIpPort`.
   */
  function EndpointOfValue(v: int): (r: Result<Endpoint>)
    ensures r.Ok? <==> 0 <= v < 0x1_0000_0000_0000
    ensures v < 0 ==> r == Err(OverflowException)
    ensures v >= 0x1_0000_0000_0000 ==> r == Err(ArgumentException)
    ensures r.Ok? ==> IpPortToBytes(r.value) == BigEndianBytes(v, 6)
  {
    if v < 0 then Err(OverflowException)
    else
      var bytes := UnsignedBytes(v);
      var padded := if |bytes| < 6 then seq(6 - |bytes|, _ => 0) + bytes else bytes;
      PaddedBytes(v, bytes);
      var r := BytesToIpPort(padded);
      if r.Ok? then
        UnpackingRoundTrip(padded);
        r
      else r
  }

  /** The left-padded shortest bytes of a value below 2^48 are its six big-endian bytes. */
  lemma PaddedBytes(v: nat, bytes: seq<Byte>)
    requires bytes == UnsignedBytes(v)
    ensures |bytes| <= 6 <==> v < 0x1_0000_0000_0000
    ensures |bytes| <= 6 ==> (if |bytes| < 6 then seq(6 - |bytes|, _ => 0) + bytes else bytes) == BigEndianBytes(v, 6)
  {
    ShortestBytesFitSix(v, bytes);
    if |bytes| <= 6 {
      PaddedValue(v, bytes);
    }
  }

  /** The shortest bytes of a value number at most six exactly when the value is below 2^48. */
  lemma ShortestBytesFitSix(v: nat, bytes: seq<Byte>)
    requires bytes == UnsignedBytes(v)
    ensures |bytes| <= 6 <==> v < 0x1_0000_0000_0000
  {
    Pow256Six();
    if |bytes| <= 6 {
      Pow256Monotone(|bytes|, 6);
    } else {
      Pow256Monotone(6, |bytes| - 1);
    }
  }

  lemma PaddedValue(v: nat, bytes: seq<Byte>)
    requires bytes == UnsignedBytes(v) && |bytes| <= 6 && v < 0x1_0000_0000_0000
    ensures (if |bytes| < 6 then seq(6 - |bytes|, _ => 0) + bytes else bytes) == BigEndianBytes(v, 6)
  {
    var zeros: seq<Byte> := seq(6 - |bytes|, _ => 0);
    var padded := zeros + bytes;
    LeadingZeroBytes(6 - |bytes|, bytes);
    assert BigEndianValue(padded) == v;
    BigEndianBytesOfValue(padded);
    assert |bytes| == 6 ==> padded == bytes;
  }

  lemma {:induction false} Pow256Monotone(a: nat, b: nat)
    requires a <= b
    ensures Pow256(a) <= Pow256(b)
  {
    if a < b {
      Pow256Monotone(a, b - 1);
    }
  }

  /** Leading zero bytes do not change a big-endian value. */
  lemma {:induction false} LeadingZeroBytes(k: nat, bytes: seq<Byte>)
    ensures BigEndianValue(seq(k, _ => 0) + bytes) == BigEndianValue(bytes)
  {
    var zeros: seq<Byte> := seq(k, _ => 0);
    if |bytes| == 0 {
      assert zeros + bytes == zeros;
      ZerosValue(k);
    } else {
      var init := bytes[..|bytes| - 1];
      LeadingZeroBytes(k, init);
      assert (zeros + bytes)[..|zeros + bytes| - 1] == zeros + init;
    }
  }

  lemma {:induction false} ZerosValue(k: nat)
    ensures BigEndianValue(seq(k, _ => 0)) == 0
  {
    if k > 0 {
      ZerosValue(k - 1);
      assert seq(k, _ => 0)[..k - 1] == seq(k - 1, _ => 0);
    }
  }

  lemma {:induction false} Base62ValueOfDigits(n: nat)
    requires n > 0
    ensures Base62Value(Base62Digits(n)) == n
  {
    var s := Base62Digits(n);
    if n < 62 {
      Base62IndexOfChar(n);
      assert s[..0] == [];
    } else {
      var q, d := n / 62, n % 62;
      Base62ValueOfDigits(q);
      Base62IndexOfChar(d);
      assert s[..|s| - 1] == Base62Digits(q);
      assert s[|s| - 1] == Base62Char(d);
      assert Base62Value(s) == 62 * q + d;
    }
  }

  /** Reading a digit back gives its value. */
  lemma Base62IndexOfChar(v: nat)
    requires v < 62
    ensures Base62Index(Base62Char(v)) == v
  {
  }

  /** The value of the encoding is the packed bytes read as one number. */
  lemma Base62EncodeValue(e: Endpoint)
    ensures Base62Value(Base62Encode(e)) == BigEndianValue(IpPortToBytes(e))
  {
    var n := BigEndianValue(IpPortToBytes(e));
    if n == 0 {
      assert Base62Value([Base62Char(0)]) == 0 by { assert [Base62Char(0)][..0] == ""; }
    } else {
      Base62ValueOfDigits(n);
    }
  }

  /** Text in the alphabet reads as a number below 62 to the power of its length. */
  lemma {:induction false} Base62ValueRange(s: string)
    requires forall i | 0 <= i < |s| :: IsBase62Char(s[i])
    ensures 0 <= Base62Value(s) < Pow62(|s|)
  {
    if |s| > 0 {
      Base62ValueRange(s[..|s| - 1]);
    }
  }

  /** Every Base62 text of at most eight characters decodes; a ninth character can overflow 48 bits. */
  lemma Base62ShortDecodes(s: string)
    requires Base62IsFormat(s) && |s| <= 8
    ensures Base62Decode(s).Ok?
  {
    Base62ValueRange(s);
    Pow62Monotone(|s|, 8);
  }

  /** Nine `Z` digits are in the alphabet but exceed 48 bits. */
  lemma Base62NineDigitsOverflow(s: string)
    requires s == seq(9, _ => 'Z')
    ensures Base62IsFormat(s) && Base62Decode(s) == Err(ArgumentException)
  {
    NineDigitsValue(s);
    assert EndpointOfValue(Base62Value(s)) == Err(ArgumentException);
  }

  lemma NineDigitsValue(s: string)
    requires s == seq(9, _ => 'Z')
    ensures Base62Value(s) >= 0x1_0000_0000_0000
  {
    NinesValue(9);
    Pow62Nine();
  }

  lemma Pow62Nine()
    ensures Pow62(9) > 0x1_0000_0000_0000
  {
    assert Pow62(3) == 238328;
    assert Pow62(6) == 238328 * Pow62(3) by { Pow62Add(3, 3); }
    assert Pow62(9) == Pow62(6) * Pow62(3) by { Pow62Add(6, 3); }
  }

  lemma {:induction false} Pow62Add(a: nat, b: nat)
    ensures Pow62(a + b) == Pow62(a) * Pow62(b)
  {
    if a > 0 {
      Pow62Add(a - 1, b);
    }
  }

  lemma {:induction false} NinesValue(k: nat)
    ensures Base62Value(seq(k, _ => 'Z')) == Pow62(k) - 1
  {
    if k > 0 {
      NinesValue(k - 1);
      assert seq(k, _ => 'Z')[..k - 1] == seq(k - 1, _ => 'Z');
    }
  }

  /** Base62 text decodes to its endpoint. */
  lemma Base62RoundTrip(e: Endpoint)
    ensures Base62Decode(Base62Encode(e)) == Ok(e)
  {
    var bytes := IpPortToBytes(e);
    Pow256Six();
    Base62EncodeValue(e);
    var r := EndpointOfValue(BigEndianValue(bytes));
    BigEndianBytesOfValue(bytes);
    assert IpPortToBytes(r.value) == bytes;
    PackingRoundTrip(r.value);
    PackingRoundTrip(e);
  }

  lemma {:induction false} Base62LeadingZeroValue(s: string)
    ensures Base62Value("0" + s) == Base62Value(s)
  {
    if |s| > 0 {
      var init, c := s[..|s| - 1], s[|s| - 1];
      Base62LeadingZeroValue(init);
      assert s == init + [c];
      LeadingZeroStep(init, c);
    } else {
      Base62ValueSnoc("", '0');
      assert "" + ['0'] == "0" + s;
    }
  }

  lemma LeadingZeroStep(init: string, c: char)
    requires Base62Value("0" + init) == Base62Value(init)
    ensures Base62Value("0" + (init + [c])) == Base62Value(init + [c])
  {
    assert "0" + (init + [c]) == ("0" + init) + [c];
    Base62ValueSnoc(init, c);
    Base62ValueSnoc("0" + init, c);
  }

  /** Appending a digit multiplies the value by 62 and adds the digit. */
  lemma Base62ValueSnoc(init: string, c: char)
    ensures Base62Value(init + [c]) == 62 * Base62Value(init) + Base62Index(c)
  {
    assert (init + [c])[..|init|] == init;
  }

  /** A leading `0` digit never changes what Base62 text decodes to. */
  lemma Base62LeadingZero(s: string)
    ensures Base62Decode("0" + s) == Base62Decode(s)
  {
    Base62LeadingZeroValue(s);
  }

  // ---------------------------------------------------------------------
  // WordsConverter
  // ---------------------------------------------------------------------

  /** `WordsConverter.IsFormat`: not blank, and five parts when split at `-`. */
  predicate WordsIsFormat(s: string) {
    !IsBlank(s) && |Split(s, '-')| == 5
  }

  /** `WordsConverter.Encode(ip, port, listId)`: the address-and-port word encoder. */
  function WordsEncode(lists: seq<seq<string>>, e: Endpoint, listId: int): Result<string> {
    WordCodec.WordEncoderEncodeWithPort(WordCodec.IpAndPort, lists, e.ip, e.port, listId)
  }

  /**
   `WordsConverter.Decode`: text that is not five words is a
   `FormatException`; the encoder's missing-word and bad-argument failures
   are reported as `FormatException`, any other failure passes through.
   */
  function WordsDecode(lists: seq<seq<string>>, s: string): (r: Result<Endpoint>)
    ensures !WordsIsFormat(s) ==> r == Err(FormatException)
    ensures r.Err? ==> r.error == FormatException || r.error == IndexOutOfRangeException
  {
    if !WordsIsFormat(s) then Err(FormatException)
    else
      match WordCodec.WordEncoderDecode(WordCodec.IpAndPort, lists, s)
      case Err(x) => if x.IsKeyNotFound() || x.IsArgument() then Err(FormatException) else Err(x)
      case Ok((ip, port, _)) => if port.None? then Err(InvalidOperationException) else Ok(Endpoint(ip, port.value))
  }

  /** A decoded words invite is what the word encoder read from the phrase, port included. */
  lemma WordsDecodeIsWordEncoder(lists: seq<seq<string>>, s: string)
    requires WordsDecode(lists, s).Ok?
    ensures WordsIsFormat(s)
    ensures var e := WordsDecode(lists, s).value;
      exists id :: WordCodec.WordEncoderDecode(WordCodec.IpAndPort, lists, s) == Ok((e.ip, Some(e.port), id))
  {
  }

  /** A five-word invite is recognised and decodes to its endpoint. */
  lemma WordsRoundTrip(lists: seq<seq<string>>, e: Endpoint, listId: int)
    requires 0 <= listId < |lists| && listId < 16 && WordCodec.WellFormedList(lists[listId])
    ensures WordsEncode(lists, e, listId).Ok?
    ensures WordCodec.IsFivePhrase(WordsEncode(lists, e, listId).value)
    ensures WordsIsFormat(WordsEncode(lists, e, listId).value)
    ensures WordsDecode(lists, WordsEncode(lists, e, listId).value) == Ok(e)
  {
    WordCodec.WordEncoderRoundTrip(lists, e.ip, e.port, listId);
    WordCodec.EncodedPhraseShape(lists, e.ip, e.port, listId);
  }

  // ---------------------------------------------------------------------
  // QrConverter
  // ---------------------------------------------------------------------

  /** More than eight bytes, starting with the PNG signature bytes 89 50 4E 47. */
  predicate HasPngSignature(bytes: seq<Byte>) {
    |bytes| > 8 && bytes[0] == 0x89 && bytes[1] == 0x50 && bytes[2] == 0x4E && bytes[3] == 0x47
  }

  /** `QrConverter.IsFormat`: Base64-looking text of at least 100 characters that decodes to PNG bytes. */
  predicate QrIsFormat(s: string) {
    IsBase64String(s) && |s| >= 100 && FromBase64String(s).Ok? && HasPngSignature(FromBase64String(s).value)
  }

  /** Text shorter than 100 characters is never a QR code image. */
  lemma ShortIsNotQr(s: string)
    requires |s| < 100
    ensures !QrIsFormat(s)
  {
  }

  /**
   `DecodeContentFromBase64`: the text of the QR code in the Base64 image.
   Text that is not Base64 fails as `Convert.FromBase64String` does, bytes
   that are not an image fail in `new Bitmap` with `ArgumentException`, and
   an image with no code or only empty text is `InvalidDataException`.
   */
  function QrContent(p: Platform, s: string): (r: Result<string>)
    ensures r.Ok? ==> |r.value| > 0
    ensures r.Ok? ==> FromBase64String(s).Ok? && p.loadsImage(FromBase64String(s).value)
    ensures r.Ok? ==> p.readQr(FromBase64String(s).value) == Some(r.value)
    ensures FromBase64String(s).Err? ==> r == Err(FormatException)
    ensures FromBase64String(s).Ok? && !p.loadsImage(FromBase64String(s).value) ==> r == Err(ArgumentException)
    ensures FromBase64String(s).Ok? && p.loadsImage(FromBase64String(s).value) && r.Err? ==> r.error == InvalidDataException
  {
    var bytes :- FromBase64String(s);
    if !p.loadsImage(bytes) then Err(ArgumentException)
    else match p.readQr(bytes)
    case Some(text) => if |text| > 0 then Ok(text) else Err(InvalidDataException)
    case None => Err(InvalidDataException)
  }

  /** `QrConverter.Decode`: the QR code's text must be `ip:port` text. */
  function QrDecode(p: Platform, s: string): (r: Result<Endpoint>)
    ensures r.Ok? ==> QrContent(p, s).Ok? && DefaultIsFormat(p, QrContent(p, s).value)
    ensures r.Ok? ==> DefaultDecode(p, QrContent(p, s).value) == r
    ensures QrContent(p, s).Ok? && !DefaultIsFormat(p, QrContent(p, s).value) ==> r == Err(FormatException)
  {
    var content :- QrContent(p, s);
    if DefaultIsFormat(p, content) then DefaultDecode(p, content) else Err(FormatException)
  }

  /** `QrConverter.Encode`: the `ip:port` text rendered as a QR code PNG, in Base64. */
  function QrEncode(p: Platform, e: Endpoint): string {
    ToBase64String(p.renderQr(DefaultEncode(e)))
  }

  /** The rendered image loads, the QR reader reads back the text rendered, and the address parser reads dotted decimal. */
  predicate QrFaithful(p: Platform, e: Endpoint) {
    && ParsesDottedDecimal(p, e.ip)
    && p.loadsImage(p.renderQr(DefaultEncode(e)))
    && p.readQr(p.renderQr(DefaultEncode(e))) == Some(DefaultEncode(e))
  }

  /** The rendered image is a PNG of at least 75 bytes, so its Base64 text has at least 100 characters. */
  predicate RendersPng(p: Platform, e: Endpoint) {
    var image := p.renderQr(DefaultEncode(e));
    HasPngSignature(image) && |image| >= 75
  }

  /** A QR invite decodes to its endpoint, and is recognised when the image is a large enough PNG. */
  lemma QrRoundTrip(p: Platform, e: Endpoint)
    requires QrFaithful(p, e)
    ensures QrContent(p, QrEncode(p, e)) == Ok(DefaultEncode(e))
    ensures QrDecode(p, QrEncode(p, e)) == Ok(e)
    ensures RendersPng(p, e) ==> QrIsFormat(QrEncode(p, e))
  {
    var image := p.renderQr(DefaultEncode(e));
    QrInviteContent(p, e);
    Base64RoundTrip(image);
    DefaultRoundTrip(p, e);
    GroupCountCovers(|image|);
  }

  /** A faithful QR invite is trimmed Base64-looking text whose image holds the `ip:port` invite. */
  lemma QrInviteContent(p: Platform, e: Endpoint)
    requires QrFaithful(p, e)
    ensures var s := QrEncode(p, e); IsBase64String(s) && Trim(s) == s
    ensures QrContent(p, QrEncode(p, e)) == Ok(DefaultEncode(e))
  {
    var image := p.renderQr(DefaultEncode(e));
    Base64RoundTrip(image);
    Base64LooksLikeBase64(image);
    Base64Trimmed(image);
    assert |DefaultEncode(e)| > 0 by {
      DefaultEncodeParts(e, '-');
    }
  }

  // ---------------------------------------------------------------------
  // The converter registry
  // ---------------------------------------------------------------------

  /** `IInviteConverter.IsFormat` of the converter for `f`; no converter claims `Unknown`. */
  predicate IsFormat(p: Platform, f: InviteFormat, s: string) {
    match f
    case Default => DefaultIsFormat(p, s)
    case Base16 => Base16IsFormat(s)
    case Base62 => Base62IsFormat(s)
    case Human => WordsIsFormat(s)
    case QrCodeBase64 => QrIsFormat(s)
    case Unknown => false
  }

  /** `IInviteConverter.Decode` of the converter for `f`. */
  function Decode(p: Platform, lists: seq<seq<string>>, f: InviteFormat, s: string): Result<Endpoint> {
    match f
    case Default => DefaultDecode(p, s)
    case Base16 => Base16Decode(s)
    case Base62 => Base62Decode(s)
    case Human => WordsDecode(lists, s)
    case QrCodeBase64 => QrDecode(p, s)
    case Unknown => Err(ArgumentOutOfRangeException)
  }

  // ---------------------------------------------------------------------
  // What each encoding looks like to the other recognisers
  // ---------------------------------------------------------------------

  /** `ip:port` text is trimmed, holds a `:`, and no other recogniser accepts it. */
  lemma DefaultTextIsOnlyDefault(p: Platform, e: Endpoint)
    ensures var s := DefaultEncode(e);
      && Trim(s) == s && !IsBase64String(s)
      && !QrIsFormat(s) && !WordsIsFormat(s) && !Base16IsFormat(s) && !Base62IsFormat(s)
  {
    var s := DefaultEncode(e);
    forall i | 0 <= i < |s|
      ensures !IsWhiteSpace(s[i])
    {
      if IsWhiteSpace(s[i]) {
        DefaultEncodeParts(e, s[i]);
      }
    }
    TrimOfSolid(s);
    var k := |FormatIp(e.ip)|;
    assert s[k] == ':';
    ForeignCharIsNotBase64(s, ':');
    DefaultEncodeParts(e, '-');
    HyphenlessIsNotWords(s);
  }

  /** Base16 text is trimmed, short, and holds neither `:` nor `-`. */
  lemma Base16TextIsOnlyBase16(p: Platform, e: Endpoint)
    ensures Trim(Base16Encode(e)) == Base16Encode(e) && |Base16Encode(e)| == 12
    ensures !QrIsFormat(Base16Encode(e)) && !DefaultIsFormat(p, Base16Encode(e)) && !WordsIsFormat(Base16Encode(e))
  {
    Base16TextIsTrimmed(e);
    Base16TextIsNotQr(e);
    Base16TextIsNotDefault(p, e);
    Base16TextIsNotWords(e);
  }

  lemma Base16TextIsTrimmed(e: Endpoint)
    ensures Trim(Base16Encode(e)) == Base16Encode(e)
  {
    TrimOfSolid(Base16Encode(e));
  }

  lemma Base16TextIsNotQr(e: Endpoint)
    ensures !QrIsFormat(Base16Encode(e))
  {
    ShortIsNotQr(Base16Encode(e));
  }

  lemma Base16TextIsNotDefault(p: Platform, e: Endpoint)
    ensures !DefaultIsFormat(p, Base16Encode(e))
  {
    ColonlessIsNotDefault(p, Base16Encode(e));
  }

  lemma Base16TextIsNotWords(e: Endpoint)
    ensures !WordsIsFormat(Base16Encode(e))
  {
    HyphenlessIsNotWords(Base16Encode(e));
  }

  /** Base62 text is trimmed, at most nine characters, and holds neither `:` nor `-`. */
  lemma Base62TextIsOnlyBase62(p: Platform, e: Endpoint)
    ensures Trim(Base62Encode(e)) == Base62Encode(e) && |Base62Encode(e)| <= 9
    ensures !QrIsFormat(Base62Encode(e)) && !DefaultIsFormat(p, Base62Encode(e))
    ensures !WordsIsFormat(Base62Encode(e)) && !Base16IsFormat(Base62Encode(e))
  {
    Base62TextIsTrimmed(e);
    Base62TextIsNotQr(e);
    Base62TextIsNotDefault(p, e);
    Base62TextIsNotWords(e);
  }

  lemma Base62TextIsTrimmed(e: Endpoint)
    ensures Trim(Base62Encode(e)) == Base62Encode(e)
  {
    TrimOfSolid(Base62Encode(e));
  }

  lemma Base62TextIsNotQr(e: Endpoint)
    ensures !QrIsFormat(Base62Encode(e))
  {
    ShortIsNotQr(Base62Encode(e));
  }

  lemma Base62TextIsNotDefault(p: Platform, e: Endpoint)
    ensures !DefaultIsFormat(p, Base62Encode(e))
  {
    ColonlessIsNotDefault(p, Base62Encode(e));
  }

  lemma Base62TextIsNotWords(e: Endpoint)
    ensures !WordsIsFormat(Base62Encode(e))
  {
    HyphenlessIsNotWords(Base62Encode(e));
  }

  /** A five-word phrase holds a `-`, so it is neither Base64-like, `ip:port`, Base16 nor Base62 text. */
  lemma PhraseIsOnlyWords(p: Platform, s: string)
    requires WordCodec.IsFivePhrase(s)
    ensures WordsIsFormat(s) && !IsBase64String(s)
    ensures !QrIsFormat(s) && !DefaultIsFormat(p, s) && !Base16IsFormat(s) && !Base62IsFormat(s)
  {
    ForeignCharIsNotBase64(s, '-');
    HyphenIsNotDefault(p, s);
  }
}
