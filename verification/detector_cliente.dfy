/**
 Format detection and invite generation of Cliente-Cliente/InviteGenerator.cs.
 It shares the converters with IpShared but detects differently: any text
 that looks like Base64 is first tried as a QR code image whose text is
 detected in its turn, and a converter that recognises the text but fails
 to decode it lets the next converter try. Nothing escapes as an exception:
 what no converter decodes is `Unknown`.
 */
module ClienteDetector {
  import opened Prelude
  import opened Text
  import opened Convert
  import opened InviteHelpers
  import opened Converters
  import WordCodec
  import InviteDetector

  type Detection = InviteDetector.Detection

  /** `AllConverters` of this copy, in detection order: there is no QR converter. */
  const ClienteRegistry: seq<InviteFormat> := [Default, Human, Base16, Base62]

  /** The converter for `format` recognises `s` and decodes it without throwing. */
  predicate Accepts(p: Platform, lists: seq<seq<string>>, format: InviteFormat, s: string) {
    match format
    case Default => DefaultIsFormat(p, s) && DefaultDecode(p, s).Ok?
    case Human => WordsIsFormat(s) && WordsDecode(lists, s).Ok?
    case Base16 => Base16IsFormat(s) && Base16Decode(s).Ok?
    case Base62 => Base62IsFormat(s) && Base62Decode(s).Ok?
    case QrCodeBase64 => QrIsFormat(s) && QrDecode(p, s).Ok?
    case Unknown => false
  }

  /** Accepting is the registry's `IsFormat` followed by a `Decode` that returns. */
  lemma AcceptsIsRecognisedAndDecoded(p: Platform, lists: seq<seq<string>>, format: InviteFormat, s: string)
    ensures Accepts(p, lists, format, s) <==> IsFormat(p, format, s) && Decode(p, lists, format, s).Ok?
  {
  }

  /** The outcome for a converter that accepted the text. */
  function Accepted(p: Platform, lists: seq<seq<string>>, format: InviteFormat, s: string): (r: Detection)
    requires Accepts(p, lists, format, s)
    ensures r.Detected? && r.format == format && Decode(p, lists, format, s) == Ok(r.endpoint)
  {
    InviteDetector.Detected(format, Decode(p, lists, format, s).value)
  }

  /**
   The loop over `AllConverters`: a converter that recognises the text but
   throws while decoding it is passed over.
   */
  function ClienteScan(p: Platform, lists: seq<seq<string>>, s: string): Detection {
    if Accepts(p, lists, Default, s) then Accepted(p, lists, Default, s)
    else if Accepts(p, lists, Human, s) then Accepted(p, lists, Human, s)
    else if Accepts(p, lists, Base16, s) then Accepted(p, lists, Base16, s)
    else if Accepts(p, lists, Base62, s) then Accepted(p, lists, Base62, s)
    else InviteDetector.Unrecognised
  }

  /** Converter `i` is the first in this copy's registry order to accept `s`. */
  predicate FirstToAccept(p: Platform, lists: seq<seq<string>>, s: string, i: nat) {
    i < |ClienteRegistry| && Accepts(p, lists, ClienteRegistry[i], s)
      && forall j | 0 <= j < i :: !Accepts(p, lists, ClienteRegistry[j], s)
  }

  /** The scan reports the first converter, in registry order, that decodes the text. */
  lemma ClienteScanFollowsRegistry(p: Platform, lists: seq<seq<string>>, s: string, i: nat)
    requires FirstToAccept(p, lists, s, i)
    ensures ClienteScan(p, lists, s) == Accepted(p, lists, ClienteRegistry[i], s)
  {
    assert ClienteRegistry[0] == Default && ClienteRegistry[1] == Human;
    assert ClienteRegistry[2] == Base16 && ClienteRegistry[3] == Base62;
    assert i > 0 ==> !Accepts(p, lists, Default, s) by {
      if i > 0 { assert !Accepts(p, lists, ClienteRegistry[0], s); }
    }
    assert i > 1 ==> !Accepts(p, lists, Human, s) by {
      if i > 1 { assert !Accepts(p, lists, ClienteRegistry[1], s); }
    }
    assert i > 2 ==> !Accepts(p, lists, Base16, s) by {
      if i > 2 { assert !Accepts(p, lists, ClienteRegistry[2], s); }
    }
    if i == 0 {
      assert ClienteScan(p, lists, s) == Accepted(p, lists, Default, s);
    } else if i == 1 {
      assert ClienteScan(p, lists, s) == Accepted(p, lists, Human, s);
    } else if i == 2 {
      assert ClienteScan(p, lists, s) == Accepted(p, lists, Base16, s);
    } else {
      assert ClienteScan(p, lists, s) == Accepted(p, lists, Base62, s);
    }
  }

  /** A converter the scan reports both recognised the text and decoded it to the reported endpoint. */
  lemma ClienteScanDecodes(p: Platform, lists: seq<seq<string>>, s: string)
    ensures ClienteScan(p, lists, s).Detected? ==> ClienteScan(p, lists, s).format in ClienteRegistry
    ensures ClienteScan(p, lists, s).Detected? ==> Accepts(p, lists, ClienteScan(p, lists, s).format, s)
    ensures ClienteScan(p, lists, s).Detected? ==>
      Decode(p, lists, ClienteScan(p, lists, s).format, s) == Ok(ClienteScan(p, lists, s).endpoint)
  {
    if Accepts(p, lists, Default, s) {
      assert ClienteScan(p, lists, s) == Accepted(p, lists, Default, s);
    } else if Accepts(p, lists, Human, s) {
      assert ClienteScan(p, lists, s) == Accepted(p, lists, Human, s);
    } else if Accepts(p, lists, Base16, s) {
      assert ClienteScan(p, lists, s) == Accepted(p, lists, Base16, s);
    } else if Accepts(p, lists, Base62, s) {
      assert ClienteScan(p, lists, s) == Accepted(p, lists, Base62, s);
    } else {
      assert ClienteScan(p, lists, s) == InviteDetector.Unrecognised;
    }
  }

  /** The scan ends in `Unknown` exactly when no converter of the registry decodes the text. */
  lemma ClienteScanUnrecognised(p: Platform, lists: seq<seq<string>>, s: string)
    ensures ClienteScan(p, lists, s) == InviteDetector.Unrecognised
      <==> forall k | 0 <= k < |ClienteRegistry| :: !Accepts(p, lists, ClienteRegistry[k], s)
  {
    assert ClienteRegistry[0] == Default && ClienteRegistry[1] == Human;
    assert ClienteRegistry[2] == Base16 && ClienteRegistry[3] == Base62;
    if ClienteScan(p, lists, s) == InviteDetector.Unrecognised {
      UnrecognisedRejectsAll(p, lists, s);
      forall k | 0 <= k < |ClienteRegistry|
        ensures !Accepts(p, lists, ClienteRegistry[k], s)
      {
        if k == 0 {
          assert ClienteRegistry[k] == Default;
        } else if k == 1 {
          assert ClienteRegistry[k] == Human;
        } else if k == 2 {
          assert ClienteRegistry[k] == Base16;
        } else {
          assert ClienteRegistry[k] == Base62;
        }
      }
    } else {
      var f := ClienteScan(p, lists, s).format;
      ClienteScanDecodes(p, lists, s);
      var k :| 0 <= k < |ClienteRegistry| && ClienteRegistry[k] == f;
      assert Accepts(p, lists, ClienteRegistry[k], s);
    }
  }

  lemma UnrecognisedRejectsAll(p: Platform, lists: seq<seq<string>>, s: string)
    requires ClienteScan(p, lists, s) == InviteDetector.Unrecognised
    ensures !Accepts(p, lists, Default, s) && !Accepts(p, lists, Human, s)
    ensures !Accepts(p, lists, Base16, s) && !Accepts(p, lists, Base62, s)
  {
  }

  /** The text of the QR code in Base64-looking text, when there is one (`DecodeQrCodeFromBase64` does not throw). */
  function QrText(p: Platform, s: string): Option<string> {
    if IsBase64String(s) && QrContent(p, s).Ok? then Some(QrContent(p, s).value) else None
  }

  /**
   The text the converters finally see: the trimmed input, or, while it
   looks like Base64 and holds a readable QR code, the trimmed text of that
   code in its turn. `fuel` bounds how many QR codes may be nested; once it
   is spent the QR step is skipped.
   */
  function Unwrap(p: Platform, code: string, fuel: nat): string
    decreases fuel
  {
    var s := Trim(code);
    match QrText(p, s)
    case Some(text) => if fuel > 0 then Unwrap(p, text, fuel - 1) else s
    case None => s
  }

  /** Without a readable QR code, or once the nesting bound is spent, the converters see the trimmed input. */
  lemma UnwrapPlain(p: Platform, code: string, fuel: nat)
    requires QrText(p, Trim(code)).None? || fuel == 0
    ensures Unwrap(p, code, fuel) == Trim(code)
  {
  }

  /** A readable QR code is replaced by its text, with one nesting level fewer to go. */
  lemma UnwrapStep(p: Platform, code: string, fuel: nat)
    requires QrText(p, Trim(code)).Some? && fuel > 0
    ensures Unwrap(p, code, fuel) == Unwrap(p, QrText(p, Trim(code)).value, fuel - 1)
  {
  }

  /** The converters always see trimmed text, however many QR codes were unwrapped. */
  lemma {:induction false} UnwrapIsTrimmed(p: Platform, code: string, fuel: nat)
    ensures Trim(Unwrap(p, code, fuel)) == Unwrap(p, code, fuel)
    decreases fuel
  {
    if QrText(p, Trim(code)).Some? && fuel > 0 {
      UnwrapStep(p, code, fuel);
      UnwrapIsTrimmed(p, QrText(p, Trim(code)).value, fuel - 1);
    } else {
      UnwrapPlain(p, code, fuel);
      TrimIdempotent(code);
    }
  }

  /**
   `InviteGenerator.TryDecodeInvite`: Base64-looking text whose QR code can
   be read is replaced by the code's text and detected again, so a QR
   invite reports the format of its content; otherwise the converters are
   scanned.
   */
  function ClienteTryDecode(p: Platform, lists: seq<seq<string>>, code: string, fuel: nat): Detection {
    ClienteScan(p, lists, Unwrap(p, code, fuel))
  }

  /** A detected invite was decoded, by the converter of the reported format, from the text the QR codes unwrap to. */
  lemma ClienteDetectionIsDecoding(p: Platform, lists: seq<seq<string>>, code: string, fuel: nat)
    requires ClienteTryDecode(p, lists, code, fuel).Detected?
    ensures ClienteTryDecode(p, lists, code, fuel).format in ClienteRegistry
    ensures Accepts(p, lists, ClienteTryDecode(p, lists, code, fuel).format, Unwrap(p, code, fuel))
    ensures Decode(p, lists, ClienteTryDecode(p, lists, code, fuel).format, Unwrap(p, code, fuel))
      == Ok(ClienteTryDecode(p, lists, code, fuel).endpoint)
  {
    ClienteScanDecodes(p, lists, Unwrap(p, code, fuel));
  }

  /** Text without a readable QR code (or once the nesting bound is reached) goes straight to the converters. */
  lemma PlainTextIsScanned(p: Platform, lists: seq<seq<string>>, code: string, fuel: nat)
    requires QrText(p, Trim(code)).None? || fuel == 0
    ensures ClienteTryDecode(p, lists, code, fuel) == ClienteScan(p, lists, Trim(code))
  {
    UnwrapPlain(p, code, fuel);
  }

  /** Text holding a readable QR code is detected as the code's text would be. */
  lemma QrCodeIsReadThrough(p: Platform, lists: seq<seq<string>>, code: string, fuel: nat)
    requires QrText(p, Trim(code)).Some? && fuel > 0
    ensures ClienteTryDecode(p, lists, code, fuel) == ClienteTryDecode(p, lists, QrText(p, Trim(code)).value, fuel - 1)
  {
    UnwrapStep(p, code, fuel);
  }

  /**
   `ObterConvite(format)`: a QR invite is the `ip:port` invite rendered as a
   QR code; the words converter always uses dictionary 0.
   */
  function ClienteObterConvite(p: Platform, lists: seq<seq<string>>, e: Endpoint, format: InviteFormat): (r: Result<string>)
    ensures format == Unknown ==> r == Err(ArgumentOutOfRangeException)
    ensures format != Unknown && format != Human ==> r.Ok?
    ensures format == QrCodeBase64 ==> r == Ok(ToBase64String(p.renderQr(DefaultEncode(e))))
    ensures format == Human ==> r == WordsEncode(lists, e, 0)
  {
    match format
    case QrCodeBase64 => Ok(ToBase64String(p.renderQr(DefaultEncode(e))))
    case Default => Ok(DefaultEncode(e))
    case Base16 => Ok(Base16Encode(e))
    case Base62 => Ok(Base62Encode(e))
    case Human => WordsEncode(lists, e, 0)
    case Unknown => Err(ArgumentOutOfRangeException)
  }

  /** Text without a readable QR code is reported with the first converter, in registry order, that accepts it. */
  lemma PlainTextDetectedAt(p: Platform, lists: seq<seq<string>>, code: string, fuel: nat, i: nat)
    requires QrText(p, Trim(code)).None? && FirstToAccept(p, lists, Trim(code), i)
    ensures ClienteTryDecode(p, lists, code, fuel) == Accepted(p, lists, ClienteRegistry[i], Trim(code))
  {
    PlainTextIsScanned(p, lists, code, fuel);
    ClienteScanFollowsRegistry(p, lists, Trim(code), i);
  }

  lemma DefaultAcceptedFirst(p: Platform, lists: seq<seq<string>>, s: string)
    requires DefaultIsFormat(p, s) && DefaultDecode(p, s).Ok?
    ensures FirstToAccept(p, lists, s, 0)
  {
    assert ClienteRegistry[0] == Default;
  }

  lemma WordsAcceptedFirst(p: Platform, lists: seq<seq<string>>, s: string)
    requires !DefaultIsFormat(p, s) && WordsIsFormat(s) && WordsDecode(lists, s).Ok?
    ensures FirstToAccept(p, lists, s, 1)
  {
    DefaultRejects(p, lists, s);
    AcceptedBeyond(p, lists, s, 1);
  }

  lemma Base16AcceptedFirst(p: Platform, lists: seq<seq<string>>, s: string)
    requires !DefaultIsFormat(p, s) && !WordsIsFormat(s) && Base16IsFormat(s) && Base16Decode(s).Ok?
    ensures FirstToAccept(p, lists, s, 2)
  {
    DefaultRejects(p, lists, s);
    WordsRejects(p, lists, s);
    AcceptedBeyond(p, lists, s, 2);
  }

  lemma Base62AcceptedFirst(p: Platform, lists: seq<seq<string>>, s: string)
    requires !DefaultIsFormat(p, s) && !WordsIsFormat(s) && !Base16IsFormat(s)
    requires Base62IsFormat(s) && Base62Decode(s).Ok?
    ensures FirstToAccept(p, lists, s, 3)
  {
    DefaultRejects(p, lists, s);
    WordsRejects(p, lists, s);
    Base16Rejects(p, lists, s);
    AcceptedBeyond(p, lists, s, 3);
  }

  /** The registry entry `i` accepts, and each entry before it is a converter known to reject. */
  lemma AcceptedBeyond(p: Platform, lists: seq<seq<string>>, s: string, i: nat)
    requires 0 < i < |ClienteRegistry|
    requires i == 1 ==> WordsIsFormat(s) && WordsDecode(lists, s).Ok?
    requires i == 2 ==> Base16IsFormat(s) && Base16Decode(s).Ok?
    requires i == 3 ==> Base62IsFormat(s) && Base62Decode(s).Ok?
    requires !Accepts(p, lists, Default, s)
    requires i > 1 ==> !Accepts(p, lists, Human, s)
    requires i > 2 ==> !Accepts(p, lists, Base16, s)
    ensures FirstToAccept(p, lists, s, i)
  {
    assert ClienteRegistry[0] == Default && ClienteRegistry[1] == Human;
    assert ClienteRegistry[2] == Base16 && ClienteRegistry[3] == Base62;
    assert Accepts(p, lists, ClienteRegistry[i], s);
  }

  lemma DefaultRejects(p: Platform, lists: seq<seq<string>>, s: string)
    requires !DefaultIsFormat(p, s)
    ensures !Accepts(p, lists, Default, s)
  {
  }

  lemma WordsRejects(p: Platform, lists: seq<seq<string>>, s: string)
    requires !WordsIsFormat(s)
    ensures !Accepts(p, lists, Human, s)
  {
  }

  lemma Base16Rejects(p: Platform, lists: seq<seq<string>>, s: string)
    requires !Base16IsFormat(s)
    ensures !Accepts(p, lists, Base16, s)
  {
  }

  lemma ClienteDetectDefault(p: Platform, lists: seq<seq<string>>, e: Endpoint, fuel: nat)
    requires ParsesDottedDecimal(p, e.ip)
    ensures ClienteTryDecode(p, lists, DefaultEncode(e), fuel) == InviteDetector.Detected(Default, e)
  {
    var s := DefaultEncode(e);
    DefaultTextIsOnlyDefault(p, e);
    DefaultRoundTrip(p, e);
    DefaultAcceptedFirst(p, lists, s);
    PlainTextDetectedAt(p, lists, s, fuel, 0);
  }

  lemma ClienteDetectWords(p: Platform, lists: seq<seq<string>>, e: Endpoint, fuel: nat)
    requires 0 < |lists| && WordCodec.WellFormedList(lists[0])
    ensures WordsEncode(lists, e, 0).Ok?
    ensures ClienteTryDecode(p, lists, WordsEncode(lists, e, 0).value, fuel) == InviteDetector.Detected(Human, e)
  {
    WordsRoundTrip(lists, e, 0);
    PhraseDetected(p, lists, WordsEncode(lists, e, 0).value, fuel);
  }

  /** A five-word phrase that decodes is detected as a words invite. */
  lemma PhraseDetected(p: Platform, lists: seq<seq<string>>, s: string, fuel: nat)
    requires WordCodec.IsFivePhrase(s) && WordsDecode(lists, s).Ok?
    ensures ClienteTryDecode(p, lists, s, fuel) == InviteDetector.Detected(Human, WordsDecode(lists, s).value)
  {
    PhraseIsOnlyWords(p, s);
    WordsAcceptedFirst(p, lists, s);
    PlainTextDetectedAt(p, lists, s, fuel, 1);
  }

  /** Base16 text also looks like Base64: it is detected as Base16 when its bytes hold no readable QR code. */
  lemma ClienteDetectBase16(p: Platform, lists: seq<seq<string>>, e: Endpoint, fuel: nat)
    requires QrText(p, Base16Encode(e)).None?
    ensures ClienteTryDecode(p, lists, Base16Encode(e), fuel) == InviteDetector.Detected(Base16, e)
  {
    var s := Base16Encode(e);
    Base16TextIsOnlyBase16(p, e);
    Base16RoundTrip(e);
    Base16AcceptedFirst(p, lists, s);
    PlainTextDetectedAt(p, lists, s, fuel, 2);
  }

  /** Base62 text may look like Base64: it is detected as Base62 when it holds no readable QR code. */
  lemma ClienteDetectBase62(p: Platform, lists: seq<seq<string>>, e: Endpoint, fuel: nat)
    requires QrText(p, Base62Encode(e)).None?
    ensures ClienteTryDecode(p, lists, Base62Encode(e), fuel) == InviteDetector.Detected(Base62, e)
  {
    var s := Base62Encode(e);
    Base62TextIsOnlyBase62(p, e);
    Base62RoundTrip(e);
    Base62AcceptedFirst(p, lists, s);
    PlainTextDetectedAt(p, lists, s, fuel, 3);
  }

  /** A QR invite is detected as the `ip:port` invite it carries. */
  lemma ClienteDetectQr(p: Platform, lists: seq<seq<string>>, e: Endpoint, fuel: nat)
    requires QrFaithful(p, e) && fuel > 0
    ensures ClienteTryDecode(p, lists, QrEncode(p, e), fuel) == InviteDetector.Detected(Default, e)
  {
    var code := QrEncode(p, e);
    var text := DefaultEncode(e);
    QrInviteText(p, e);
    assert QrText(p, Trim(code)).value == text;
    QrCodeIsReadThrough(p, lists, code, fuel);
    assert ClienteTryDecode(p, lists, code, fuel) == ClienteTryDecode(p, lists, text, fuel - 1);
    ClienteDetectDefault(p, lists, e, fuel - 1);
    assert ClienteTryDecode(p, lists, text, fuel - 1) == InviteDetector.Detected(Default, e);
  }

  /** The QR code of a faithful QR invite holds the `ip:port` invite. */
  lemma QrInviteText(p: Platform, e: Endpoint)
    requires QrFaithful(p, e)
    ensures QrText(p, Trim(QrEncode(p, e))) == Some(DefaultEncode(e))
  {
    QrInviteContent(p, e);
  }

  /**
   Every invite `ObterConvite` writes is detected with the generator's
   endpoint: as its own format, except that a QR invite reports `Default`.
   */
  lemma ClienteInviteRoundTrip(p: Platform, lists: seq<seq<string>>, e: Endpoint, format: InviteFormat, fuel: nat)
    requires format != Unknown
    requires format == Default || format == QrCodeBase64 ==> ParsesDottedDecimal(p, e.ip)
    requires format == Human ==> 0 < |lists| && WordCodec.WellFormedList(lists[0])
    requires format == Base16 ==> QrText(p, Base16Encode(e)).None?
    requires format == Base62 ==> QrText(p, Base62Encode(e)).None?
    requires format == QrCodeBase64 ==> QrFaithful(p, e) && fuel > 0
    ensures ClienteObterConvite(p, lists, e, format).Ok?
    ensures ClienteTryDecode(p, lists, ClienteObterConvite(p, lists, e, format).value, fuel)
      == InviteDetector.Detected(if format == QrCodeBase64 then Default else format, e)
  {
    match format
    case Default => ClienteDetectDefault(p, lists, e, fuel);
    case Base16 => ClienteDetectBase16(p, lists, e, fuel);
    case Base62 => ClienteDetectBase62(p, lists, e, fuel);
    case Human => ClienteDetectWords(p, lists, e, fuel);
    case QrCodeBase64 => ClienteDetectQr(p, lists, e, fuel);
  }

  /**
   A scan in which IpShared's first recogniser decodes the text to a
   non-QR format ends the same way in this copy: every converter before
   it did not recognise the text, so none of them accepts it here either.
   */
  lemma ScansAgree(p: Platform, lists: seq<seq<string>>, s: string)
    requires InviteDetector.ScanConverters(p, lists, s).Ok?
    requires InviteDetector.ScanConverters(p, lists, s).value.Detected?
    requires InviteDetector.ScanConverters(p, lists, s).value.format != QrCodeBase64
    ensures ClienteScan(p, lists, s) == InviteDetector.ScanConverters(p, lists, s).value
  {
    var i := InviteDetector.ScanDecidedBy(p, lists, s);
    assert InviteDetector.Registry[0] == QrCodeBase64;
    RecognisedIsScanned(p, lists, s, i);
  }

  /** This copy's scan reports what IpShared's first recogniser after the QR converter decodes. */
  lemma RecognisedIsScanned(p: Platform, lists: seq<seq<string>>, s: string, i: nat)
    requires InviteDetector.FirstToRecognise(p, s, i) && i >= 1
    requires Decode(p, lists, InviteDetector.Registry[i], s).Ok?
    ensures ClienteScan(p, lists, s)
      == InviteDetector.Detected(InviteDetector.Registry[i], Decode(p, lists, InviteDetector.Registry[i], s).value)
  {
    var j := i - 1;
    FirstRecognisedIsFirstAccepted(p, lists, s, i);
    ClienteScanFollowsRegistry(p, lists, s, j);
  }

  /**
   When IpShared's first recogniser after the QR converter decodes the
   text, the same converter is the first to accept it here: the registries
   agree after IpShared's leading QR entry.
   */
  lemma FirstRecognisedIsFirstAccepted(p: Platform, lists: seq<seq<string>>, s: string, i: nat)
    requires InviteDetector.FirstToRecognise(p, s, i) && i >= 1
    requires Decode(p, lists, InviteDetector.Registry[i], s).Ok?
    ensures FirstToAccept(p, lists, s, i - 1)
    ensures ClienteRegistry[i - 1] == InviteDetector.Registry[i]
  {
    assert ClienteRegistry == InviteDetector.Registry[1..];
    AcceptsIsRecognisedAndDecoded(p, lists, ClienteRegistry[i - 1], s);
    forall j | 0 <= j < i - 1
      ensures !Accepts(p, lists, ClienteRegistry[j], s)
    {
      assert !IsFormat(p, InviteDetector.Registry[j + 1], s);
      AcceptsIsRecognisedAndDecoded(p, lists, ClienteRegistry[j], s);
    }
  }

  /**
   Where the two copies agree: text that IpShared detects as a non-QR
   format, and that holds no readable QR code, is detected the same way by
   this copy.
   */
  lemma DetectorsAgree(p: Platform, lists: seq<seq<string>>, code: string, fuel: nat)
    requires InviteDetector.TryDecodeInvite(p, lists, code).Ok?
    requires InviteDetector.TryDecodeInvite(p, lists, code).value.Detected?
    requires InviteDetector.TryDecodeInvite(p, lists, code).value.format != QrCodeBase64
    requires QrText(p, Trim(code)).None?
    ensures ClienteTryDecode(p, lists, code, fuel) == InviteDetector.TryDecodeInvite(p, lists, code).value
  {
    var s := Trim(code);
    assert !InviteDetector.TakesQrShortcut(s);
    ScansAgree(p, lists, s);
    PlainTextIsScanned(p, lists, code, fuel);
  }
}
