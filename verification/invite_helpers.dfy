/**
 `InviteHelpers`, the same in both copies of the invite generator: the
 canonical 6-byte packing of an endpoint (four address bytes, then the
 port big-endian) and the Base64 look-alike test the QR paths use.
 */
module InviteHelpers {
  import opened Prelude
  import opened Text
  import opened Convert

  /** `IpPortToBytes`: the address bytes followed by the port, high byte first. */
  function IpPortToBytes(e: Endpoint): (bytes: seq<Byte>)
    ensures |bytes| == 6
    ensures bytes[..4] == e.ip
    ensures 0x100 * (bytes[4] as int) + bytes[5] as int == e.port
  {
    e.ip + [e.port / 0x100, e.port % 0x100]
  }

  /** `BytesToIpPort`: anything but six bytes is an `ArgumentException`. */
  function BytesToIpPort(bytes: seq<Byte>): (r: Result<Endpoint>)
    ensures r.Ok? <==> |bytes| == 6
    ensures r.Err? ==> r.error == ArgumentException
    ensures r.Ok? ==> r.value.ip == bytes[..4] && r.value.port == 0x100 * (bytes[4] as int) + bytes[5] as int
  {
    if |bytes| != 6 then Err(ArgumentException)
    else Ok(Endpoint(bytes[..4], 0x100 * (bytes[4] as int) + bytes[5] as int))
  }

  /** Unpacking the packed bytes gives the endpoint back. */
  lemma PackingRoundTrip(e: Endpoint)
    ensures BytesToIpPort(IpPortToBytes(e)) == Ok(e)
  {
  }

  /** Packing an unpacked endpoint gives the six bytes back. */
  lemma UnpackingRoundTrip(bytes: seq<Byte>)
    requires |bytes| == 6
    ensures IpPortToBytes(BytesToIpPort(bytes).value) == bytes
  {
    var e := BytesToIpPort(bytes).value;
    assert IpPortToBytes(e) == bytes[..4] + [bytes[4], bytes[5]];
  }

  /** The packed bytes as one 48-bit big-endian number (`new BigInteger(data, isUnsigned: true, isBigEndian: true)`). */
  function BigEndianValue(bytes: seq<Byte>): (v: nat)
    ensures v < Pow256(|bytes|)
  {
    if |bytes| == 0 then 0
    else
      var v := 0x100 * BigEndianValue(bytes[..|bytes| - 1]) + bytes[|bytes| - 1];
      assert v < 0x100 * Pow256(|bytes| - 1) by {
        assert BigEndianValue(bytes[..|bytes| - 1]) + 1 <= Pow256(|bytes| - 1);
      }
      v
  }

  function Pow256(n: nat): (r: nat)
    ensures r >= 1
  {
    if n == 0 then 1 else 0x100 * Pow256(n - 1)
  }

  /** The `n` bytes of `v`, most significant first. */
  function BigEndianBytes(v: nat, n: nat): (bytes: seq<Byte>)
    ensures |bytes| == n
    decreases n
  {
    if n == 0 then [] else BigEndianBytes(v / 0x100, n - 1) + [v % 0x100]
  }

  lemma {:induction false} BigEndianBytesOfValue(bytes: seq<Byte>)
    ensures BigEndianBytes(BigEndianValue(bytes), |bytes|) == bytes
  {
    if |bytes| > 0 {
      var init := bytes[..|bytes| - 1];
      BigEndianBytesOfValue(init);
      assert bytes == init + [bytes[|bytes| - 1]];
    }
  }

  lemma {:induction false} ValueOfBigEndianBytes(v: nat, n: nat)
    requires v < Pow256(n)
    ensures BigEndianValue(BigEndianBytes(v, n)) == v
  {
    if n > 0 {
      var b := BigEndianBytes(v, n);
      ValueOfBigEndianBytes(v / 0x100, n - 1);
      assert b[..n - 1] == BigEndianBytes(v / 0x100, n - 1);
    }
  }

  lemma Pow256Six()
    ensures Pow256(6) == 0x1_0000_0000_0000
  {
  }

  /**
   `IsBase64String`: after trimming, a length that is a multiple of four and
   a run of Base64 characters followed by at most three `=`.
   */
  predicate IsBase64String(s: string) {
    var t := Trim(s);
    |t| % 4 == 0 && exists k | 0 <= k <= 3 && k <= |t| :: Base64Shaped(t, k)
  }

  /** `t` is Base64 characters followed by exactly `k` pad characters. */
  predicate Base64Shaped(t: string, k: nat)
    requires k <= |t|
  {
    (forall i | 0 <= i < |t| - k :: IsBase64Char(t[i])) && forall i | |t| - k <= i < |t| :: t[i] == '='
  }

  /** A character that is neither a Base64 digit nor `=`, left after trimming, rules the look-alike test out. */
  lemma ForeignCharIsNotBase64(s: string, c: char)
    requires c in Trim(s) && !IsBase64Char(c) && c != '='
    ensures !IsBase64String(s)
  {
  }

  /** The text `ToBase64String` writes has no white space at either end. */
  lemma Base64Trimmed(bytes: seq<Byte>)
    ensures Trim(ToBase64String(bytes)) == ToBase64String(bytes)
  {
    var s := ToBase64String(bytes);
    assert Trim(s) == s by {
      if |s| > 0 {
        assert IsBase64Char(s[0]);
        assert !IsWhiteSpace(s[|s| - 1]) by {
          if |s| - PadCount(|bytes|) <= |s| - 1 {
            assert s[|s| - 1] == '=';
          } else {
            assert IsBase64Char(s[|s| - 1]);
          }
        }
        TrimOfTrimmed(s);
      }
    }
  }

  /** Every string `ToBase64String` writes passes the look-alike test. */
  lemma Base64LooksLikeBase64(bytes: seq<Byte>)
    ensures IsBase64String(ToBase64String(bytes))
  {
    Base64Trimmed(bytes);
    assert Base64Shaped(ToBase64String(bytes), PadCount(|bytes|));
  }

  /**
   The look-alike test admits three pad characters, one more than section 4
   of RFC 4648 allows, so `"A==="` passes it and still fails to decode.
   */
  lemma IsBase64StringAdmitsThreePads()
    ensures IsBase64String("A===") && FromBase64String("A===").Err?
  {
    ThreePadsLookLikeBase64("A===");
    ThreePadsDoNotDecode("A===");
  }

  lemma ThreePadsLookLikeBase64(t: string)
    requires t == "A==="
    ensures IsBase64String(t)
  {
    assert !IsWhiteSpace(t[0]) && !IsWhiteSpace(t[3]);
    TrimOfTrimmed(t);
    assert Base64Shaped(Trim(t), 3);
  }

  lemma ThreePadsDoNotDecode(t: string)
    requires t == "A==="
    ensures FromBase64String(t).Err?
  {
    assert forall i | 0 <= i < |t| :: !IsBase64White(t[i]);
    assert WithoutBase64White(t) == t;
    assert t[..4] == t && !IsBase64Char(t[1]);
  }

  /** Every string the decoder accepts without white space passes the look-alike test, so it only ever adds false positives. */
  lemma DecodableLooksLikeBase64(s: string)
    requires forall i | 0 <= i < |s| :: !IsBase64White(s[i]) && !IsWhiteSpace(s[i])
    requires FromBase64String(s).Ok?
    ensures IsBase64String(s)
  {
    assert WithoutBase64White(s) == s;
    DecodableShape(s);
    if |s| > 0 {
      assert !IsWhiteSpace(s[0]) && !IsWhiteSpace(s[|s| - 1]);
    }
    TrimOfTrimmed(s);
  }

  lemma {:induction false} DecodableShape(t: string)
    requires |t| % 4 == 0 && DecodeGroups(t).Ok?
    ensures exists k | 0 <= k <= 3 && k <= |t| :: Base64Shaped(t, k)
  {
    if |t| == 0 {
      assert Base64Shaped(t, 0);
    } else if |t| > 4 {
      DecodableShape(t[4..]);
      var k :| 0 <= k <= 3 && k <= |t[4..]| && Base64Shaped(t[4..], k);
      assert Base64Shaped(t, k) by {
        forall i | 0 <= i < |t| - k
          ensures IsBase64Char(t[i])
        {
          if i >= 4 {
            assert t[i] == t[4..][i - 4];
          } else {
            assert t[..4][i] == t[i];
          }
        }
        forall i | |t| - k <= i < |t|
          ensures t[i] == '='
        {
          assert t[i] == t[4..][i - 4];
        }
      }
    } else {
      var q := t[..4];
      assert q == t;
      if IsBase64Char(q[2]) && IsBase64Char(q[3]) {
        assert Base64Shaped(t, 0);
      } else if IsBase64Char(q[2]) && q[3] == '=' {
        assert Base64Shaped(t, 1);
      } else {
        assert Base64Shaped(t, 2);
      }
    }
  }
}
