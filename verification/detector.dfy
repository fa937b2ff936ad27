/**
 Format detection and invite generation of IpShared/InviteGenerator.cs:
 `TryDecodeInvite` tries a Base64 PNG shortcut, then asks the registered
 converters in order whether they recognise the trimmed text; the first
 that does decides, and a decoding failure is reported as a
 `FormatException`. `ObterConvite` encodes the generator's endpoint in the
 requested format.
 */
module InviteDetector {
  import opened Prelude
  import opened Text
  import opened Convert
  import opened InviteHelpers
  import opened Converters
  import WordCodec

  /** The format `TryDecodeInvite` returns with the decoded endpoint, or `Unknown` (`Unrecognised`). */
  datatype Detection = Detected(format: InviteFormat, endpoint: Endpoint) | Unrecognised

  /** `AllConverters`, in detection order. */
  const Registry: seq<InviteFormat> := [QrCodeBase64, Default, Human, Base16, Base62]

  /** A converter that recognised the text reports its format, or `FormatException` when it cannot decode it. */
  function Finish(format: InviteFormat, decoded: Result<Endpoint>): (r: Result<Detection>)
    ensures decoded.Ok? <==> r.Ok?
    ensures decoded.Ok? ==> r.value == Detected(format, decoded.value)
    ensures decoded.Err? ==> r.error == FormatException
  {
    match decoded
    case Ok(e) => Ok(Detected(format, e))
    case Err(_) => Err(FormatException)
  }

  /**
   The loop over `AllConverters`: the first converter, in registry order,
   that recognises the text decodes it.
   */
  function ScanConverters(p: Platform, lists: seq<seq<string>>, s: string): (r: Result<Detection>)
    ensures r.Err? ==> r.error == FormatException
    ensures r.Ok? && r.value.Detected? ==> IsFormat(p, r.value.format, s)
    ensures r.Ok? && r.value.Detected? ==> Decode(p, lists, r.value.format, s) == Ok(r.value.endpoint)
  {
    if IsFormat(p, QrCodeBase64, s) then Recognised(p, lists, QrCodeBase64, s)
    else if IsFormat(p, Default, s) then Recognised(p, lists, Default, s)
    else if IsFormat(p, Human, s) then Recognised(p, lists, Human, s)
    else if IsFormat(p, Base16, s) then Recognised(p, lists, Base16, s)
    else if IsFormat(p, Base62, s) then Recognised(p, lists, Base62, s)
    else Ok(Unrecognised)
  }

  /** The outcome once the converter for `format` has recognised the text. */
  function Recognised(p: Platform, lists: seq<seq<string>>, format: InviteFormat, s: string): (r: Result<Detection>)
    requires IsFormat(p, format, s)
    ensures r.Err? ==> r.error == FormatException
    ensures r.Ok? ==> r.value.Detected? && r.value.format == format
    ensures r.Ok? ==> Decode(p, lists, format, s) == Ok(r.value.endpoint)
  {
    Finish(format, Decode(p, lists, format, s))
  }

  /** Converter `i` is the first in registry order to recognise `s`. */
  predicate FirstToRecognise(p: Platform, s: string, i: nat) {
    i < |Registry| && IsFormat(p, Registry[i], s) && forall j | 0 <= j < i :: !IsFormat(p, Registry[j], s)
  }

  /** The scan is the registry read in order: the first converter that recognises the text decides the outcome. */
  lemma ScanFollowsRegistry(p: Platform, lists: seq<seq<string>>, s: string, i: nat)
    requires FirstToRecognise(p, s, i)
    ensures ScanConverters(p, lists, s) == Finish(Registry[i], Decode(p, lists, Registry[i], s))
  {
    assert Registry[0] == QrCodeBase64 && Registry[1] == Default && Registry[2] == Human;
    assert Registry[3] == Base16 && Registry[4] == Base62;
    assert i > 0 ==> !IsFormat(p, QrCodeBase64, s) by {
      if i > 0 { assert !IsFormat(p, Registry[0], s); }
    }
    assert i > 1 ==> !IsFormat(p, Default, s) by {
      if i > 1 { assert !IsFormat(p, Registry[1], s); }
    }
    assert i > 2 ==> !IsFormat(p, Human, s) by {
      if i > 2 { assert !IsFormat(p, Registry[2], s); }
    }
    assert i > 3 ==> !IsFormat(p, Base16, s) by {
      if i > 3 { assert !IsFormat(p, Registry[3], s); }
    }
    if i == 0 {
      assert ScanConverters(p, lists, s) == Recognised(p, lists, QrCodeBase64, s);
    } else if i == 1 {
      assert ScanConverters(p, lists, s) == Recognised(p, lists, Default, s);
    } else if i == 2 {
      assert ScanConverters(p, lists, s) == Recognised(p, lists, Human, s);
    } else if i == 3 {
      assert ScanConverters(p, lists, s) == Recognised(p, lists, Base16, s);
    } else {
      assert ScanConverters(p, lists, s) == Recognised(p, lists, Base62, s);
    }
  }

  /** A scan that detects a format was decided by the first converter to recognise the text, and that is the format it reports. */
  lemma ScanDecidedBy(p: Platform, lists: seq<seq<string>>, s: string) returns (i: nat)
    requires ScanConverters(p, lists, s).Ok? && ScanConverters(p, lists, s).value.Detected?
    ensures FirstToRecognise(p, s, i)
    ensures Registry[i] == ScanConverters(p, lists, s).value.format
    ensures Decode(p, lists, Registry[i], s) == Ok(ScanConverters(p, lists, s).value.endpoint)
  {
    assert Registry[0] == QrCodeBase64 && Registry[1] == Default && Registry[2] == Human;
    assert Registry[3] == Base16 && Registry[4] == Base62;
    if IsFormat(p, QrCodeBase64, s) {
      i := 0;
    } else if IsFormat(p, Default, s) {
      i := 1;
    } else if IsFormat(p, Human, s) {
      i := 2;
    } else if IsFormat(p, Base16, s) {
      i := 3;
    } else {
      i := 4;
    }
  }

  /** The scan finds nothing exactly when no registered converter recognises the text. */
  lemma ScanUnrecognised(p: Platform, lists: seq<seq<string>>, s: string)
    ensures ScanConverters(p, lists, s) == Ok(Unrecognised) <==> forall k | 0 <= k < |Registry| :: !IsFormat(p, Registry[k], s)
  {
    assert Registry[0] == QrCodeBase64 && Registry[1] == Default && Registry[2] == Human;
    assert Registry[3] == Base16 && Registry[4] == Base62;
  }

  /** The Base64 PNG shortcut applies: Base64-looking text over 100 characters that fails to decode or decodes to PNG bytes. */
  predicate TakesQrShortcut(s: string) {
    IsBase64String(s) && |s| > 100
      && (FromBase64String(s).Err? || HasPngSignature(FromBase64String(s).value))
  }

  /** The shortcut's outcome: undecodable Base64 or a failing QR decode is `FormatException`. */
  function QrShortcut(p: Platform, s: string): (r: Result<Detection>)
    ensures r.Err? ==> r.error == FormatException
    ensures r.Ok? ==> r.value.Detected? && r.value.format == QrCodeBase64
    ensures r.Ok? ==> QrDecode(p, s) == Ok(r.value.endpoint)
  {
    if FromBase64String(s).Err? then Err(FormatException) else Finish(QrCodeBase64, QrDecode(p, s))
  }

  /**
   `InviteGenerator.TryDecodeInvite`. The shortcut decodes a Base64 PNG with
   the QR converter, every failure inside it becoming `FormatException`;
   otherwise the registered converters are asked in order.
   */
  function TryDecodeInvite(p: Platform, lists: seq<seq<string>>, code: string): (r: Result<Detection>)
    ensures r.Err? ==> r.error == FormatException
    ensures !TakesQrShortcut(Trim(code)) ==> r == ScanConverters(p, lists, Trim(code))
    ensures TakesQrShortcut(Trim(code)) ==> r == QrShortcut(p, Trim(code))
  {
    var s := Trim(code);
    if TakesQrShortcut(s) then QrShortcut(p, s) else ScanConverters(p, lists, s)
  }

  /**
   A detected invite names a real format, and that format's converter
   decodes the trimmed text to the reported endpoint.
   */
  lemma DetectionIsDecoding(p: Platform, lists: seq<seq<string>>, code: string)
    requires TryDecodeInvite(p, lists, code).Ok? && TryDecodeInvite(p, lists, code).value.Detected?
    ensures TryDecodeInvite(p, lists, code).value.format != Unknown
    ensures IsFormat(p, TryDecodeInvite(p, lists, code).value.format, Trim(code)) || TakesQrShortcut(Trim(code))
    ensures Decode(p, lists, TryDecodeInvite(p, lists, code).value.format, Trim(code))
      == Ok(TryDecodeInvite(p, lists, code).value.endpoint)
  {
    var s := Trim(code);
    var d := TryDecodeInvite(p, lists, code).value;
    if TakesQrShortcut(s) {
      ShortcutDecodes(p, lists, s);
      assert d == QrShortcut(p, s).value;
    } else {
      ScanDecodes(p, lists, s);
      assert d == ScanConverters(p, lists, s).value;
    }
  }

  /** What the scan reports is a format that recognises and decodes the text. */
  lemma ScanDecodes(p: Platform, lists: seq<seq<string>>, s: string)
    requires ScanConverters(p, lists, s).Ok? && ScanConverters(p, lists, s).value.Detected?
    ensures ScanConverters(p, lists, s).value.format != Unknown
    ensures IsFormat(p, ScanConverters(p, lists, s).value.format, s)
    ensures Decode(p, lists, ScanConverters(p, lists, s).value.format, s) == Ok(ScanConverters(p, lists, s).value.endpoint)
  {
  }

  /** What the shortcut reports is what the QR converter decodes. */
  lemma ShortcutDecodes(p: Platform, lists: seq<seq<string>>, s: string)
    requires QrShortcut(p, s).Ok?
    ensures QrShortcut(p, s).value == Detected(QrCodeBase64, QrShortcut(p, s).value.endpoint)
    ensures Decode(p, lists, QrCodeBase64, s) == Ok(QrShortcut(p, s).value.endpoint)
  {
  }

  /** Detection trims first, so white space around an invite never changes the outcome. */
  lemma TryDecodeInviteIgnoresPadding(p: Platform, lists: seq<seq<string>>, code: string)
    ensures TryDecodeInvite(p, lists, Trim(code)) == TryDecodeInvite(p, lists, code)
  {
    TrimIdempotent(code);
  }

  /** Text that the shortcut skips is `Unknown` exactly when no registered converter recognises it. */
  lemma UnknownIffUnrecognised(p: Platform, lists: seq<seq<string>>, code: string)
    requires !TakesQrShortcut(Trim(code))
    ensures TryDecodeInvite(p, lists, code) == Ok(Unrecognised)
      <==> forall k | 0 <= k < |Registry| :: !IsFormat(p, Registry[k], Trim(code))
  {
    var s := Trim(code);
    ScanUnrecognised(p, lists, s);
    assert TryDecodeInvite(p, lists, code) == ScanConverters(p, lists, s);
  }

  /**
   `ObterConvite(format, listId)`: every format but `Unknown` has a
   converter; the words converter takes the dictionary id.
   */
  function ObterConvite(p: Platform, lists: seq<seq<string>>, e: Endpoint, format: InviteFormat, listId: int): (r: Result<string>)
    ensures format == Unknown ==> r == Err(ArgumentOutOfRangeException)
    ensures format != Unknown && format != Human ==> r.Ok?
    ensures format == Human ==> r == WordsEncode(lists, e, listId)
  {
    match format
    case Default => Ok(DefaultEncode(e))
    case Base16 => Ok(Base16Encode(e))
    case Base62 => Ok(Base62Encode(e))
    case Human => WordsEncode(lists, e, listId)
    case QrCodeBase64 => Ok(QrEncode(p, e))
    case Unknown => Err(ArgumentOutOfRangeException)
  }

  /** `ObterConvite(format)`: dictionary 0. */
  function ObterConviteDefault(p: Platform, lists: seq<seq<string>>, e: Endpoint, format: InviteFormat): Result<string> {
    ObterConvite(p, lists, e, format, 0)
  }

  /** Converter `i` recognises the text and every converter before it is known not to. */
  lemma RecognisedFirstAt(p: Platform, s: string, i: nat)
    requires i < |Registry|
    requires i == 0 ==> QrIsFormat(s)
    requires i == 1 ==> DefaultIsFormat(p, s)
    requires i == 2 ==> WordsIsFormat(s)
    requires i == 3 ==> Base16IsFormat(s)
    requires i == 4 ==> Base62IsFormat(s)
    requires i > 0 ==> !QrIsFormat(s)
    requires i > 1 ==> !DefaultIsFormat(p, s)
    requires i > 2 ==> !WordsIsFormat(s)
    requires i > 3 ==> !Base16IsFormat(s)
    ensures FirstToRecognise(p, s, i)
  {
    assert Registry[0] == QrCodeBase64 && Registry[1] == Default && Registry[2] == Human;
    assert Registry[3] == Base16 && Registry[4] == Base62;
    forall j | 0 <= j < i
      ensures !IsFormat(p, Registry[j], s)
    {
      if j == 0 {
        assert Registry[j] == QrCodeBase64;
      } else if j == 1 {
        assert Registry[j] == Default;
      } else if j == 2 {
        assert Registry[j] == Human;
      } else {
        assert Registry[j] == Base16;
      }
    }
  }

  /** Text the shortcut skips is reported with the first registered converter that recognises it. */
  lemma DetectedAt(p: Platform, lists: seq<seq<string>>, code: string, i: nat, e: Endpoint)
    requires !TakesQrShortcut(Trim(code)) && FirstToRecognise(p, Trim(code), i)
    requires Decode(p, lists, Registry[i], Trim(code)) == Ok(e)
    ensures TryDecodeInvite(p, lists, code) == Ok(Detected(Registry[i], e))
  {
    ScanFollowsRegistry(p, lists, Trim(code), i);
  }

  /** Text of at most 100 characters never takes the QR shortcut. */
  lemma ShortSkipsShortcut(s: string)
    requires |s| <= 100
    ensures !TakesQrShortcut(s)
  {
  }

  lemma DetectDefault(p: Platform, lists: seq<seq<string>>, e: Endpoint)
    requires ParsesDottedDecimal(p, e.ip)
    ensures TryDecodeInvite(p, lists, DefaultEncode(e)) == Ok(Detected(Default, e))
  {
    var s := DefaultEncode(e);
    DefaultTextIsOnlyDefault(p, e);
    DefaultRoundTrip(p, e);
    RecognisedFirstAt(p, s, 1);
    assert !TakesQrShortcut(s);
    DetectedAt(p, lists, s, 1, e);
    assert Registry[1] == Default;
  }

  lemma DetectBase16(p: Platform, lists: seq<seq<string>>, e: Endpoint)
    ensures TryDecodeInvite(p, lists, Base16Encode(e)) == Ok(Detected(Base16, e))
  {
    var s := Base16Encode(e);
    Base16TextIsOnlyBase16(p, e);
    Base16RoundTrip(e);
    RecognisedFirstAt(p, s, 3);
    ShortSkipsShortcut(s);
    DetectedAt(p, lists, s, 3, e);
    assert Registry[3] == Base16;
  }

  lemma DetectBase62(p: Platform, lists: seq<seq<string>>, e: Endpoint)
    ensures TryDecodeInvite(p, lists, Base62Encode(e)) == Ok(Detected(Base62, e))
  {
    var s := Base62Encode(e);
    Base62TextIsOnlyBase62(p, e);
    Base62RoundTrip(e);
    RecognisedFirstAt(p, s, 4);
    ShortSkipsShortcut(s);
    DetectedAt(p, lists, s, 4, e);
    assert Registry[4] == Base62;
  }

  lemma DetectWords(p: Platform, lists: seq<seq<string>>, e: Endpoint, listId: int)
    requires 0 <= listId < |lists| && listId < 16 && WordCodec.WellFormedList(lists[listId])
    ensures WordsEncode(lists, e, listId).Ok?
    ensures TryDecodeInvite(p, lists, WordsEncode(lists, e, listId).value) == Ok(Detected(Human, e))
  {
    WordsRoundTrip(lists, e, listId);
    var s := WordsEncode(lists, e, listId).value;
    PhraseIsOnlyWords(p, s);
    RecognisedFirstAt(p, s, 2);
    assert !TakesQrShortcut(s);
    DetectedAt(p, lists, s, 2, e);
    assert Registry[2] == Human;
  }

  lemma DetectQr(p: Platform, lists: seq<seq<string>>, e: Endpoint)
    requires QrFaithful(p, e) && RendersPng(p, e)
    ensures TryDecodeInvite(p, lists, QrEncode(p, e)) == Ok(Detected(QrCodeBase64, e))
  {
    var s := QrEncode(p, e);
    QrRoundTrip(p, e);
    Base64Trimmed(p.renderQr(DefaultEncode(e)));
    if TakesQrShortcut(s) {
      QrShortcutDetects(p, s, e);
    } else {
      QrScanned(p, lists, s, e);
    }
  }

  lemma QrShortcutDetects(p: Platform, s: string, e: Endpoint)
    requires QrIsFormat(s) && QrDecode(p, s) == Ok(e)
    ensures QrShortcut(p, s) == Ok(Detected(QrCodeBase64, e))
  {
  }

  /** A trimmed QR image the shortcut skips is still detected by the QR converter, first in the registry. */
  lemma QrScanned(p: Platform, lists: seq<seq<string>>, s: string, e: Endpoint)
    requires Trim(s) == s && !TakesQrShortcut(s)
    requires QrIsFormat(s) && QrDecode(p, s) == Ok(e)
    ensures TryDecodeInvite(p, lists, s) == Ok(Detected(QrCodeBase64, e))
  {
    RecognisedFirstAt(p, s, 0);
    assert Registry[0] == QrCodeBase64;
    assert Decode(p, lists, Registry[0], s) == QrDecode(p, s);
    DetectedAt(p, lists, s, 0, e);
  }

  /**
   Every invite `ObterConvite` writes is detected as its own format with the
   generator's endpoint, given an address parser that reads dotted decimal,
   a well-formed dictionary for words, and a QR codec that reads back what it
   renders as a large enough PNG.
   */
  lemma InviteRoundTrip(p: Platform, lists: seq<seq<string>>, e: Endpoint, format: InviteFormat, listId: int)
    requires format != Unknown
    requires format == Default ==> ParsesDottedDecimal(p, e.ip)
    requires format == Human ==> 0 <= listId < |lists| && listId < 16 && WordCodec.WellFormedList(lists[listId])
    requires format == QrCodeBase64 ==> QrFaithful(p, e) && RendersPng(p, e)
    ensures ObterConvite(p, lists, e, format, listId).Ok?
    ensures TryDecodeInvite(p, lists, ObterConvite(p, lists, e, format, listId).value) == Ok(Detected(format, e))
  {
    if format == Default {
      DefaultInviteDetected(p, lists, e, listId);
    } else if format == Base16 {
      Base16InviteDetected(p, lists, e, listId);
    } else if format == Base62 {
      Base62InviteDetected(p, lists, e, listId);
    } else if format == Human {
      WordsInviteDetected(p, lists, e, listId);
    } else {
      QrInviteDetected(p, lists, e, format, listId);
    }
  }

  lemma DefaultInviteDetected(p: Platform, lists: seq<seq<string>>, e: Endpoint, listId: int)
    requires ParsesDottedDecimal(p, e.ip)
    ensures ObterConvite(p, lists, e, Default, listId) == Ok(DefaultEncode(e))
    ensures TryDecodeInvite(p, lists, DefaultEncode(e)) == Ok(Detected(Default, e))
  {
    DetectDefault(p, lists, e);
  }

  lemma Base16InviteDetected(p: Platform, lists: seq<seq<string>>, e: Endpoint, listId: int)
    ensures ObterConvite(p, lists, e, Base16, listId) == Ok(Base16Encode(e))
    ensures TryDecodeInvite(p, lists, Base16Encode(e)) == Ok(Detected(Base16, e))
  {
    DetectBase16(p, lists, e);
  }

  lemma Base62InviteDetected(p: Platform, lists: seq<seq<string>>, e: Endpoint, listId: int)
    ensures ObterConvite(p, lists, e, Base62, listId) == Ok(Base62Encode(e))
    ensures TryDecodeInvite(p, lists, Base62Encode(e)) == Ok(Detected(Base62, e))
  {
    DetectBase62(p, lists, e);
  }

  lemma WordsInviteDetected(p: Platform, lists: seq<seq<string>>, e: Endpoint, listId: int)
    requires 0 <= listId < |lists| && listId < 16 && WordCodec.WellFormedList(lists[listId])
    ensures ObterConvite(p, lists, e, Human, listId) == WordsEncode(lists, e, listId)
    ensures WordsEncode(lists, e, listId).Ok?
    ensures TryDecodeInvite(p, lists, WordsEncode(lists, e, listId).value) == Ok(Detected(Human, e))
  {
    DetectWords(p, lists, e, listId);
  }

  lemma QrInviteDetected(p: Platform, lists: seq<seq<string>>, e: Endpoint, format: InviteFormat, listId: int)
    requires format == QrCodeBase64 && QrFaithful(p, e) && RendersPng(p, e)
    ensures ObterConvite(p, lists, e, format, listId).Ok?
    ensures TryDecodeInvite(p, lists, ObterConvite(p, lists, e, format, listId).value) == Ok(Detected(format, e))
  {
    DetectQr(p, lists, e);
    assert ObterConvite(p, lists, e, format, listId) == Ok(QrEncode(p, e));
  }
}
