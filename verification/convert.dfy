/**
 The `System.Convert` text encodings the invite formats use: hexadecimal
 (`ToHexString` / `FromHexString`) and Base64 as in section 4 of RFC 4648
 (`ToBase64String` / `FromBase64String`).
 */
module Convert {
  import opened Prelude
  import opened Text

  // ---------------------------------------------------------------------
  // Hexadecimal
  // ---------------------------------------------------------------------

  predicate IsHexDigit(c: char) {
    IsAsciiDigit(c) || 'a' <= c <= 'f' || 'A' <= c <= 'F'
  }

  function HexValue(c: char): (v: nat)
    requires IsHexDigit(c)
    ensures v < 16
  {
    if IsAsciiDigit(c) then c as int - '0' as int
    else if 'a' <= c <= 'f' then c as int - 'a' as int + 10
    else c as int - 'A' as int + 10
  }

  /** The upper-case digit `ToHexString` writes for a nibble. */
  function HexChar(v: nat): (c: char)
    requires v < 16
    ensures IsHexDigit(c) && !IsAsciiLower(c) && HexValue(c) == v
  {
    if v < 10 then ('0' as int + v) as char else ('A' as int + v - 10) as char
  }

  /** `Convert.ToHexString`: two upper-case digits per byte, high nibble first. */
  function ToHexString(bytes: seq<Byte>): (s: string)
    ensures |s| == 2 * |bytes|
    ensures forall i | 0 <= i < |s| :: IsHexDigit(s[i]) && !IsAsciiLower(s[i])
  {
    if |bytes| == 0 then "" else [HexChar(bytes[0] / 16), HexChar(bytes[0] % 16)] + ToHexString(bytes[1..])
  }

  /**
   `Convert.FromHexString`: an odd length or a character that is not a hex
   digit of either case is a `FormatException`.
   */
  function FromHexString(s: string): (r: Result<seq<Byte>>)
    ensures r.Ok? <==> |s| % 2 == 0 && forall i | 0 <= i < |s| :: IsHexDigit(s[i])
    ensures r.Ok? ==> |r.value| == |s| / 2
    ensures r.Err? ==> r.error == FormatException
  {
    if |s| % 2 != 0 then Err(FormatException)
    else if |s| == 0 then Ok([])
    else if !IsHexDigit(s[0]) || !IsHexDigit(s[1]) then Err(FormatException)
    else
      var rest :- FromHexString(s[2..]);
      Ok([16 * HexValue(s[0]) + HexValue(s[1])] + rest)
  }

  /** Hex text written by `ToHexString` reads back to the same bytes. */
  lemma {:induction false} HexRoundTrip(bytes: seq<Byte>)
    ensures FromHexString(ToHexString(bytes)) == Ok(bytes)
  {
    if |bytes| > 0 {
      var s := ToHexString(bytes);
      HexRoundTrip(bytes[1..]);
      assert s[2..] == ToHexString(bytes[1..]);
      assert 16 * HexValue(s[0]) + HexValue(s[1]) == bytes[0];
      assert bytes == [bytes[0]] + bytes[1..];
    }
  }

  // ---------------------------------------------------------------------
  // Base64
  // ---------------------------------------------------------------------

  /** A character of the Base64 alphabet (section 4 of RFC 4648). */
  predicate IsBase64Char(c: char) {
    IsAsciiUpper(c) || IsAsciiLower(c) || IsAsciiDigit(c) || c == '+' || c == '/'
  }

  /** The six-bit value a Base64 character encodes. */
  function SextetValue(c: char): (v: nat)
    requires IsBase64Char(c)
    ensures v < 64
  {
    if IsAsciiUpper(c) then c as int - 'A' as int
    else if IsAsciiLower(c) then c as int - 'a' as int + 26
    else if IsAsciiDigit(c) then c as int - '0' as int + 52
    else if c == '+' then 62
    else 63
  }

  /** The Base64 character of a six-bit value. */
  function SextetChar(v: nat): (c: char)
    requires v < 64
    ensures IsBase64Char(c) && SextetValue(c) == v
  {
    if v < 26 then ('A' as int + v) as char
    else if v < 52 then ('a' as int + v - 26) as char
    else if v < 62 then ('0' as int + v - 52) as char
    else if v == 62 then '+'
    else '/'
  }

  /** How many `=` pad the encoding of `n` bytes: the last group's missing bytes. */
  function PadCount(n: nat): (k: nat)
    ensures k <= 2
  {
    if n == 0 then 0 else if n <= 3 then 3 - n else PadCount(n - 3)
  }

  /** How many four-character groups encode `n` bytes: one per started group of three. */
  function GroupCount(n: nat): nat {
    if n == 0 then 0 else 1 + GroupCount(if n <= 3 then 0 else n - 3)
  }

  /** Each group carries at most three bytes. */
  lemma {:induction false} GroupCountCovers(n: nat)
    ensures 3 * GroupCount(n) >= n
  {
    if n > 3 {
      GroupCountCovers(n - 3);
    }
  }

  /**
   `Convert.ToBase64String`: every three bytes become four characters, and
   a short last group is padded with `=`.
   */
  function ToBase64String(bytes: seq<Byte>): (s: string)
    ensures IsBase64Layout(s, |bytes|)
  {
    if |bytes| == 0 then ""
    else if |bytes| == 1 then OneByteChars(bytes[0])
    else if |bytes| == 2 then TwoByteChars(bytes[0], bytes[1])
    else
      var rest := ToBase64String(bytes[3..]);
      var q := GroupChars(bytes[0], bytes[1], bytes[2]);
      LayoutCons(q, rest, |bytes|);
      q + rest
  }

  /**
   `s` has the shape of the encoding of `n` bytes: one group of four
   characters per started group of three bytes, alphabet characters
   first and then the `=` padding.
   */
  predicate IsBase64Layout(s: string, n: nat) {
    && |s| % 4 == 0 && |s| == 4 * GroupCount(n) && |s| >= PadCount(n)
    && (forall i | 0 <= i < |s| - PadCount(n) :: IsBase64Char(s[i]))
    && (forall i | |s| - PadCount(n) <= i < |s| :: s[i] == '=')
  }

  /** A full group in front of the layout of `n - 3` bytes is the layout of `n` bytes. */
  lemma LayoutCons(q: string, rest: string, n: nat)
    requires n >= 3 && IsBase64Layout(rest, n - 3)
    requires IsFullGroup(q)
    ensures IsBase64Layout(q + rest, n)
  {
    var s := q + rest;
    assert PadCount(n) == PadCount(n - 3);
    forall i | 0 <= i < |s| - PadCount(n)
      ensures IsBase64Char(s[i])
    {
      if i >= 4 {
        assert s[i] == rest[i - 4];
      }
    }
  }

  /** The white space `FromBase64String` skips wherever it appears. */
  predicate IsBase64White(c: char) {
    c == ' ' || c == '\t' || c == '\r' || c == '\n'
  }

  function WithoutBase64White(s: string): (t: string)
    ensures |t| <= |s|
    ensures forall i | 0 <= i < |t| :: !IsBase64White(t[i])
    ensures (forall i | 0 <= i < |s| :: !IsBase64White(s[i])) ==> t == s
  {
    if |s| == 0 then ""
    else if IsBase64White(s[0]) then WithoutBase64White(s[1..])
    else [s[0]] + WithoutBase64White(s[1..])
  }

  /** The three bytes of four sextets. */
  function QuadBytes(a: nat, b: nat, c: nat, d: nat): (r: seq<Byte>)
    requires a < 64 && b < 64 && c < 64 && d < 64
    ensures |r| == 3
  {
    [a * 4 + b / 16, b % 16 * 16 + c / 4, c % 4 * 64 + d]
  }

  /**
   Decodes whole four-character groups; only the last group may end in one
   or two `=`, and any other character outside the alphabet is rejected.
   */
  function DecodeGroups(t: string): (r: Result<seq<Byte>>)
    requires |t| % 4 == 0
    ensures r.Ok? ==> |r.value| <= 3 * (|t| / 4)
    ensures r.Err? ==> r.error == FormatException
  {
    if |t| == 0 then Ok([])
    else
      var q := t[..4];
      if |t| > 4 then
        if !(IsBase64Char(q[0]) && IsBase64Char(q[1]) && IsBase64Char(q[2]) && IsBase64Char(q[3])) then Err(FormatException)
        else
          var rest :- DecodeGroups(t[4..]);
          Ok(QuadBytes(SextetValue(q[0]), SextetValue(q[1]), SextetValue(q[2]), SextetValue(q[3])) + rest)
      else if !(IsBase64Char(q[0]) && IsBase64Char(q[1])) then Err(FormatException)
      else if IsBase64Char(q[2]) && IsBase64Char(q[3]) then
        Ok(QuadBytes(SextetValue(q[0]), SextetValue(q[1]), SextetValue(q[2]), SextetValue(q[3])))
      else if IsBase64Char(q[2]) && q[3] == '=' then
        Ok(QuadBytes(SextetValue(q[0]), SextetValue(q[1]), SextetValue(q[2]), 0)[..2])
      else if q[2] == '=' && q[3] == '=' then
        Ok(QuadBytes(SextetValue(q[0]), SextetValue(q[1]), 0, 0)[..1])
      else Err(FormatException)
  }

  /**
   `Convert.FromBase64String`: white space is skipped; the rest must be
   whole groups of four characters with at most two `=` at the very end.
   The unused low bits of a padded group are not checked.
   */
  function FromBase64String(s: string): (r: Result<seq<Byte>>)
    ensures r.Err? ==> r.error == FormatException
    ensures r.Ok? ==> |WithoutBase64White(s)| % 4 == 0
  {
    var t := WithoutBase64White(s);
    if |t| % 4 != 0 then Err(FormatException) else DecodeGroups(t)
  }

  lemma GroupRoundTrip(b0: Byte, b1: Byte, b2: Byte)
    ensures QuadBytes(b0 / 4, b0 % 4 * 16 + b1 / 16, b1 % 16 * 4 + b2 / 64, b2 % 64) == [b0, b1, b2]
  {
  }

  /** Base64 text written by `ToBase64String` decodes to the same bytes. */
  lemma {:induction false} Base64RoundTrip(bytes: seq<Byte>)
    ensures FromBase64String(ToBase64String(bytes)) == Ok(bytes)
  {
    var s := ToBase64String(bytes);
    Base64NoWhite(bytes);
    assert |s| % 4 == 0;
    DecodeEncoded(bytes);
  }

  lemma Base64NoWhite(bytes: seq<Byte>)
    ensures WithoutBase64White(ToBase64String(bytes)) == ToBase64String(bytes)
  {
    var s := ToBase64String(bytes);
    forall i | 0 <= i < |s|
      ensures !IsBase64White(s[i])
    {
      if i < |s| - PadCount(|bytes|) {
        assert IsBase64Char(s[i]);
      }
    }
  }

  lemma {:induction false} DecodeEncoded(bytes: seq<Byte>)
    ensures DecodeGroups(ToBase64String(bytes)) == Ok(bytes)
    decreases |bytes|, 1
  {
    if |bytes| == 1 {
      DecodeOneByte(bytes);
    } else if |bytes| == 2 {
      DecodeTwoBytes(bytes);
    } else if |bytes| >= 3 {
      DecodeFullGroup(bytes);
    }
  }

  lemma DecodeOneByte(bytes: seq<Byte>)
    requires |bytes| == 1
    ensures DecodeGroups(ToBase64String(bytes)) == Ok(bytes)
  {
    var s := ToBase64String(bytes);
    GroupRoundTrip(bytes[0], 0, 0);
    assert s[..4] == s;
    assert s[2] == '=' && s[3] == '=' && !IsBase64Char(s[2]);
    assert QuadBytes(SextetValue(s[0]), SextetValue(s[1]), 0, 0) == [bytes[0], 0, 0];
    assert DecodeGroups(s) == Ok([bytes[0], 0, 0][..1]);
    assert [bytes[0], 0, 0][..1] == [bytes[0]] == bytes;
  }

  lemma DecodeTwoBytes(bytes: seq<Byte>)
    requires |bytes| == 2
    ensures DecodeGroups(ToBase64String(bytes)) == Ok(bytes)
  {
    var s := ToBase64String(bytes);
    GroupRoundTrip(bytes[0], bytes[1], 0);
    assert s[..4] == s;
    assert IsBase64Char(s[2]) && s[3] == '=' && !IsBase64Char(s[3]);
    assert QuadBytes(SextetValue(s[0]), SextetValue(s[1]), SextetValue(s[2]), 0) == [bytes[0], bytes[1], 0];
    assert DecodeGroups(s) == Ok([bytes[0], bytes[1], 0][..2]);
    assert [bytes[0], bytes[1], 0][..2] == [bytes[0], bytes[1]] == bytes;
  }

  /** The four characters `ToBase64String` writes for a full group of three bytes. */
  function GroupChars(b0: Byte, b1: Byte, b2: Byte): (q: string)
    ensures IsFullGroup(q)
    ensures QuadBytes(SextetValue(q[0]), SextetValue(q[1]), SextetValue(q[2]), SextetValue(q[3])) == [b0, b1, b2]
  {
    GroupRoundTrip(b0, b1, b2);
    [SextetChar(b0 / 4), SextetChar(b0 % 4 * 16 + b1 / 16), SextetChar(b1 % 16 * 4 + b2 / 64), SextetChar(b2 % 64)]
  }

  /** Four alphabet characters: a group that carries three bytes. */
  predicate IsFullGroup(q: string) {
    |q| == 4 && IsBase64Char(q[0]) && IsBase64Char(q[1]) && IsBase64Char(q[2]) && IsBase64Char(q[3])
  }

  /** The last group when one byte is left: two characters and two `=`. */
  function OneByteChars(b0: Byte): (q: string)
    ensures |q| == 4 && IsBase64Char(q[0]) && IsBase64Char(q[1]) && q[2] == '=' && q[3] == '='
  {
    [SextetChar(b0 / 4), SextetChar(b0 % 4 * 16), '=', '=']
  }

  /** The last group when two bytes are left: three characters and one `=`. */
  function TwoByteChars(b0: Byte, b1: Byte): (q: string)
    ensures |q| == 4 && IsBase64Char(q[0]) && IsBase64Char(q[1]) && IsBase64Char(q[2]) && q[3] == '='
  {
    [SextetChar(b0 / 4), SextetChar(b0 % 4 * 16 + b1 / 16), SextetChar(b1 % 16 * 4), '=']
  }

  lemma ToBase64Cons(bytes: seq<Byte>)
    requires |bytes| >= 3
    ensures ToBase64String(bytes) == GroupChars(bytes[0], bytes[1], bytes[2]) + ToBase64String(bytes[3..])
  {
  }

  lemma DecodeGroupsCons(q: string, rest: string)
    requires IsFullGroup(q)
    requires |rest| % 4 == 0
    ensures DecodeGroups(q + rest) ==
      (if |rest| == 0 then Ok(QuadBytes(SextetValue(q[0]), SextetValue(q[1]), SextetValue(q[2]), SextetValue(q[3])))
       else match DecodeGroups(rest)
         case Ok(tail) => Ok(QuadBytes(SextetValue(q[0]), SextetValue(q[1]), SextetValue(q[2]), SextetValue(q[3])) + tail)
         case Err(e) => Err(e))
  {
    assert (q + rest)[..4] == q;
    assert (q + rest)[4..] == rest;
  }

  lemma {:induction false} DecodeFullGroup(bytes: seq<Byte>)
    requires |bytes| >= 3
    ensures DecodeGroups(ToBase64String(bytes)) == Ok(bytes)
    decreases |bytes|, 0
  {
    var q := GroupChars(bytes[0], bytes[1], bytes[2]);
    var tail := bytes[3..];
    var rest := ToBase64String(tail);
    ToBase64Cons(bytes);
    DecodeEncoded(tail);
    DecodeGroupOf(q, rest, [bytes[0], bytes[1], bytes[2]], tail);
    assert bytes == [bytes[0], bytes[1], bytes[2]] + tail;
  }

  lemma DecodeGroupOf(q: string, rest: string, head: seq<Byte>, tail: seq<Byte>)
    requires IsFullGroup(q)
    requires QuadBytes(SextetValue(q[0]), SextetValue(q[1]), SextetValue(q[2]), SextetValue(q[3])) == head
    requires |rest| % 4 == 0 && DecodeGroups(rest) == Ok(tail)
    requires |rest| == 0 ==> tail == []
    ensures DecodeGroups(q + rest) == Ok(head + tail)
  {
    DecodeGroupsCons(q, rest);
    if |rest| == 0 {
      assert head + tail == head;
    }
  }
}
