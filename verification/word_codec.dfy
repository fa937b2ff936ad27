/**
 The human-readable invite ("Human" format): an IPv4 address and a port
 written as five dictionary words joined by '-', as implemented by the two
 word-encoding strategies and the `WordEncoder` facade of
 IpShared/WordEncoder.cs.

 With the default configuration every word stands for 9 bits: the eight
 bits of one address byte (words 1..4) or of the port's bits 3..10
 (word 5), each preceded by one of the port's five lowest bits. The
 remaining information travels in letter case: the initial capitals of
 words 1..4 spell the dictionary id (bit i in word i), and the first three
 letters of word 5 spell the port's three highest bits, most significant
 bit on the third letter.
 */
module WordCodec {
  import opened Prelude
  import opened Text
  import opened BitArrayUtils

  /** `WordEncoderConfig`: the bit widths of a word, of the dictionary id and of the case-coded port bits. */
  datatype Config = Config(chunkBitCount: Int32, idBitCount: Int32, portMetadataBitCount: Int32) {
    /** `1 << ChunkBitCount`, with .NET's shift semantics. */
    function DictionaryWordCount(): Int32 {
      ShiftOne(chunkBitCount)
    }

    function PortDataBitCount(): Int32 {
      Wrap32(16 - portMetadataBitCount)
    }
  }

  /** The configuration every strategy is built with. */
  const Defaults := Config(9, 4, 3)

  /** A default dictionary holds 512 words, and 13 port bits travel in the words themselves. */
  lemma DefaultCounts()
    ensures Defaults.DictionaryWordCount() == 512
    ensures Defaults.PortDataBitCount() == 13
    ensures Defaults.PortDataBitCount() + Defaults.portMetadataBitCount == 16
  {
    Pow2Constants();
  }

  /** `EncodingData`: the address, an optional port and the dictionary id. */
  datatype EncodingData = EncodingData(ip: Ip, port: Option<Port>, listId: int)

  /** `Capitalize(word, k)`: upper-cases character `k`, leaving out-of-range positions alone. */
  function Capitalize(word: string, k: int): (r: string)
    ensures |r| == |word|
    ensures forall i | 0 <= i < |word| :: r[i] == (if i == k then ToUpperChar(word[i]) else word[i])
  {
    if |word| == 0 || k < 0 || k >= |word| then word else word[k := ToUpperChar(word[k])]
  }

  /** Upper-cases character i of `word` exactly where `pattern[i]` is set. */
  function CaseLeading(word: string, pattern: Bits): (r: string)
    ensures |r| == |word|
  {
    seq(|word|, i requires 0 <= i < |word| => if i < |pattern| && pattern[i] then ToUpperChar(word[i]) else word[i])
  }

  /** The 16 bits of a port, most significant first. */
  function PortBits(port: Port): (b: Bits)
    ensures |b| == 16
  {
    FromInt(port, 16)
  }

  /** Bit i of `new BitArray(new[] { listId })`, which stores the int least significant bit first. */
  function IdBit(listId: int, i: nat): bool {
    Bit(Unsigned32(listId), i)
  }

  // ---------------------------------------------------------------------
  // Bit layout
  // ---------------------------------------------------------------------

  /**
   `InterleaveIpAndPort`: four chunks of one low port bit followed by an
   address byte, then one of the last low port bit followed by the port's
   bits 3..10. (`Concatenate` of two arrays is their concatenation, see
   `BitArrayUtils.ConcatenatePair`.)
   */
  function Interleave(ip: Ip, port: Port): (chunks: seq<Bits>)
    ensures |chunks| == 5
    ensures forall k | 0 <= k < 5 :: |chunks[k]| == 9
    ensures forall k | 0 <= k < 4 :: chunks[k] == [PortBits(port)[11 + k]] + FromInt(ip[k], 8)
    ensures chunks[4] == [PortBits(port)[15]] + PortBits(port)[3..11]
  {
    SplitBytes(ip);
    var ipChunks := BitArrayUtils.Split(FromBigEndianBytes(ip), 8).value;
    var portBits := PortBits(port);
    var high8 := GetRange(portBits, 3, 8).value;
    var low5 := GetRange(portBits, 11, 5).value;
    [ [low5[0]] + ipChunks[0], [low5[1]] + ipChunks[1], [low5[2]] + ipChunks[2], [low5[3]] + ipChunks[3],
      [low5[4]] + high8 ]
  }

  /**
   `DeinterleaveIpAndPort`: gathers the 32 address bits and the 13 port
   data bits (bits 3..10, then the five low bits). A missing chunk or one
   shorter than 9 bits makes the list or `BitArray` indexer throw.
   */
  function Deinterleave(chunks: seq<Bits>): (r: Result<(Bits, Bits)>)
    ensures r.Ok? <==> |chunks| >= 5 && forall k | 0 <= k < 5 :: |chunks[k]| >= 9
    ensures r.Ok? ==> |r.value.0| == 32 && |r.value.1| == 13
    ensures r.Err? ==> r.error == ArgumentOutOfRangeException
  {
    if |chunks| < 5 || exists k | 0 <= k < 5 :: |chunks[k]| < 9 then Err(ArgumentOutOfRangeException)
    else
      var low5 := [chunks[0][0], chunks[1][0], chunks[2][0], chunks[3][0], chunks[4][0]];
      var ipBits := chunks[0][1..9] + chunks[1][1..9] + chunks[2][1..9] + chunks[3][1..9];
      var high8 := chunks[4][1..9];
      Ok((ipBits, high8 + low5))
  }

  lemma FromBigEndianBytesFour(ip: Ip)
    ensures FromBigEndianBytes(ip) == FromInt(ip[0], 8) + FromInt(ip[1], 8) + FromInt(ip[2], 8) + FromInt(ip[3], 8)
  {
    assert ip[1..][1..][1..][1..] == [];
    assert FromBigEndianBytes(ip[1..][1..][1..]) == FromInt(ip[3], 8);
    assert FromBigEndianBytes(ip[1..][1..]) == FromInt(ip[2], 8) + FromInt(ip[3], 8);
    assert FromBigEndianBytes(ip[1..]) == FromInt(ip[1], 8) + FromInt(ip[2], 8) + FromInt(ip[3], 8);
  }

  /** Deinterleaving undoes interleaving: the address bits and the port's bits 3..15 come back. */
  lemma DeinterleaveInterleave(ip: Ip, port: Port)
    ensures Deinterleave(Interleave(ip, port)) == Ok((FromBigEndianBytes(ip), PortBits(port)[3..]))
  {
    var chunks := Interleave(ip, port);
    var portBits := PortBits(port);
    SplitBytes(ip);
    forall i | 0 <= i < 4
      ensures chunks[i][1..9] == FromInt(ip[i], 8)
    {
    }
    var r := Deinterleave(chunks).value;
    FromBigEndianBytesFour(ip);
    assert r.0 == FromBigEndianBytes(ip);
    assert r.1 == portBits[3..11] + portBits[11..];
    assert portBits[3..] == portBits[3..11] + portBits[11..];
  }

  // ---------------------------------------------------------------------
  // Case-coded metadata
  // ---------------------------------------------------------------------

  /**
   `ApplyMetadata`: capitalises the initial of word i (i < 4) when bit i of
   the dictionary id is set, then upper-cases the leading letters of the
   last word after the reversed three high port bits.
   */
  function ApplyMetadata(words: seq<string>, listId: int, port: Port): (r: seq<string>)
    ensures |r| == |words|
  {
    var withId := seq(|words|, i requires 0 <= i < |words| =>
      if i < Defaults.idBitCount && IdBit(listId, i) then Capitalize(words[i], 0) else words[i]);
    if |words| == 0 then withId
    else
      var meta := GetRange(PortBits(port), 0, Defaults.portMetadataBitCount).value;
      withId[|words| - 1 := CaseLeading(withId[|words| - 1], Reverse(meta))]
  }

  /**
   `ExtractMetadataFromWords`: the dictionary id read from the initials of
   the first four words (an empty word among them throws), rejected when no
   dictionary carries it; and the three high port bits read back from the
   case of the last word's first three letters.
   */
  function ExtractMetadata(words: seq<string>, listCount: nat): (r: Result<(int, Bits)>)
    ensures r.Ok? ==> 0 <= r.value.0 < listCount && r.value.0 < 16 && |r.value.1| == 3
    ensures (exists i | 0 <= i < 4 && i < |words| :: words[i] == []) ==> r == Err(IndexOutOfRangeException)
    ensures r.Err? ==> r.error.KeyNotFoundListId? || r.error == IndexOutOfRangeException
  {
    if exists i | 0 <= i < Defaults.idBitCount && i < |words| :: words[i] == [] then Err(IndexOutOfRangeException)
    else
      var listId := InitialsId(words);
      if listId >= listCount then Err(KeyNotFoundListId(listId))
      else
        var last := if |words| > 0 then words[|words| - 1] else "";
        Ok((listId, Reverse(CasePattern(last))))
  }

  /** The id spelt by the initials of the first four words: bit i is set when word i starts upper-case. */
  function InitialsId(words: seq<string>): (id: nat)
    requires forall i | 0 <= i < 4 && i < |words| :: words[i] != []
    ensures id < 16
  {
    var idBits := InitialBits(words);
    LsbValueBound(idBits);
    Pow2Constants();
    LsbValue(idBits)
  }

  /** Whether each of the first four words starts with a capital. */
  function InitialBits(words: seq<string>): (b: Bits)
    requires forall i | 0 <= i < 4 && i < |words| :: words[i] != []
    ensures |b| == 4
    ensures forall i | 0 <= i < 4 :: b[i] == (i < |words| && IsAsciiUpper(words[i][0]))
  {
    seq(Defaults.idBitCount, i requires 0 <= i < Defaults.idBitCount => i < |words| && IsAsciiUpper(words[i][0]))
  }

  /** Which of the first three letters of `word` are upper case (positions past its end count as lower). */
  function CasePattern(word: string): (b: Bits)
    ensures |b| == 3
  {
    seq(Defaults.portMetadataBitCount, i requires 0 <= i < Defaults.portMetadataBitCount => i < |word| && IsAsciiUpper(word[i]))
  }

  /** A dictionary word whose first three characters are lower-case ASCII letters can carry case-coded bits. */
  predicate CaseCodable(w: string) {
    |w| >= 3 && forall i | 0 <= i < 3 :: IsAsciiLower(w[i])
  }

  /** The case of the first letters carries exactly the id bits and the reversed high port bits. */
  lemma {:induction false} ApplyMetadataCase(words: seq<string>, listId: int, port: Port)
    requires |words| == 5 && forall k | 0 <= k < 5 :: CaseCodable(words[k])
    ensures forall i | 0 <= i < 4 ::
      |ApplyMetadata(words, listId, port)[i]| > 0 && (IsAsciiUpper(ApplyMetadata(words, listId, port)[i][0]) <==> IdBit(listId, i))
    ensures forall i | 0 <= i < 3 ::
      i < |ApplyMetadata(words, listId, port)[4]| && (IsAsciiUpper(ApplyMetadata(words, listId, port)[4][i]) <==> PortBits(port)[2 - i])
  {
    var r := ApplyMetadata(words, listId, port);
    forall i | 0 <= i < 4
      ensures IsAsciiUpper(r[i][0]) <==> IdBit(listId, i)
    {
      assert IsAsciiLower(words[i][0]);
    }
    var meta := PortBits(port)[..3];
    assert r[4] == CaseLeading(words[4], Reverse(meta));
    forall i | 0 <= i < 3
      ensures IsAsciiUpper(r[4][i]) <==> PortBits(port)[2 - i]
    {
      assert IsAsciiLower(words[4][i]);
    }
  }

  /**
   Letter k (k < 3) of the last word is upper case exactly when the port's
   bit of weight 2^(13 + k) is set.
   */
  lemma LastWordCarriesHighPortBits(words: seq<string>, listId: int, port: Port)
    requires |words| == 5 && forall k | 0 <= k < 5 :: CaseCodable(words[k])
    ensures forall k | 0 <= k < 3 ::
      k < |ApplyMetadata(words, listId, port)[4]| && (IsAsciiUpper(ApplyMetadata(words, listId, port)[4][k]) <==> Bit(port, 13 + k))
  {
    ApplyMetadataCase(words, listId, port);
    var last := ApplyMetadata(words, listId, port)[4];
    forall k | 0 <= k < 3
      ensures k < |last| && (IsAsciiUpper(last[k]) <==> Bit(port, 13 + k))
    {
      FromIntAt(port, 16, 2 - k);
    }
  }

  /** The first letter of word i (i < 4) is upper case exactly when bit i of the id is set. */
  lemma InitialsCarryId(words: seq<string>, listId: int, port: Port)
    requires |words| == 5 && forall k | 0 <= k < 5 :: CaseCodable(words[k])
    requires 0 <= listId < 0x8000_0000
    ensures forall i | 0 <= i < 4 ::
      ApplyMetadata(words, listId, port)[i] != [] && (IsAsciiUpper(ApplyMetadata(words, listId, port)[i][0]) <==> Bit(listId, i))
  {
    ApplyMetadataCase(words, listId, port);
    assert Unsigned32(listId) == listId;
  }

  /** Only letter case changes: every word lower-cases to the same string as before. */
  lemma ApplyMetadataCaseOnly(words: seq<string>, listId: int, port: Port)
    ensures forall k | 0 <= k < |words| :: Lower(ApplyMetadata(words, listId, port)[k]) == Lower(words[k])
    ensures forall k | 0 <= k < |words| :: '-' in ApplyMetadata(words, listId, port)[k] ==> '-' in words[k]
  {
    var r := ApplyMetadata(words, listId, port);
    forall k | 0 <= k < |words|
      ensures Lower(r[k]) == Lower(words[k])
      ensures '-' in r[k] ==> '-' in words[k]
    {
      forall i | 0 <= i < |words[k]|
        ensures ToLowerChar(r[k][i]) == ToLowerChar(words[k][i])
        ensures r[k][i] == words[k][i] || r[k][i] == ToUpperChar(words[k][i])
      {
        LowerOfUpper(words[k][i]);
        LowerOfUpper(ToUpperChar(words[k][i]));
      }
    }
  }

  lemma InitialsOfApplied(words: seq<string>, listId: int, port: Port)
    requires |words| == 5 && forall k | 0 <= k < 5 :: CaseCodable(words[k])
    requires 0 <= listId < 16
    ensures forall i | 0 <= i < 4 :: ApplyMetadata(words, listId, port)[i] != []
    ensures InitialsId(ApplyMetadata(words, listId, port)) == listId
  {
    var r := ApplyMetadata(words, listId, port);
    ApplyMetadataCase(words, listId, port);
    var idBits := InitialBits(r);
    Pow2Constants();
    assert Unsigned32(listId) == listId;
    var bits := seq(4, i requires 0 <= i < 4 => Bit(listId, i));
    forall i | 0 <= i < 4
      ensures idBits[i] == bits[i]
    {
      assert IdBit(listId, i) == Bit(listId, i);
    }
    assert idBits == bits;
    LsbValueOfBits(listId, 4);
  }

  lemma CasePatternOfApplied(words: seq<string>, listId: int, port: Port)
    requires |words| == 5 && forall k | 0 <= k < 5 :: CaseCodable(words[k])
    ensures Reverse(CasePattern(ApplyMetadata(words, listId, port)[4])) == PortBits(port)[..3]
  {
    ApplyMetadataCase(words, listId, port);
  }

  /** Reading the metadata back recovers the dictionary id and the three high port bits. */
  lemma ExtractApplyMetadata(words: seq<string>, listId: int, port: Port, listCount: nat)
    requires |words| == 5 && forall k | 0 <= k < 5 :: CaseCodable(words[k])
    requires 0 <= listId < listCount && listId < 16
    ensures ExtractMetadata(ApplyMetadata(words, listId, port), listCount) == Ok((listId, PortBits(port)[..3]))
  {
    InitialsOfApplied(words, listId, port);
    CasePatternOfApplied(words, listId, port);
  }

  // ---------------------------------------------------------------------
  // Dictionaries
  // ---------------------------------------------------------------------

  /**
   The position of `w` in a dictionary, compared without regard to case:
   the word-to-index map the converter builds with a case-insensitive
   comparer (first match; a loaded dictionary has no two equal words).
   */
  function IndexOfWord(list: seq<string>, w: string): (r: Option<nat>)
    ensures r.Some? ==> r.value < |list| && Lower(list[r.value]) == Lower(w)
    ensures r.Some? ==> forall j | 0 <= j < r.value :: Lower(list[j]) != Lower(w)
    ensures r.None? <==> forall j | 0 <= j < |list| :: Lower(list[j]) != Lower(w)
  {
    if |list| == 0 then None
    else if Lower(list[0]) == Lower(w) then Some(0)
    else match IndexOfWord(list[1..], w)
      case None => None
      case Some(i) => Some(i + 1)
  }

  /** In a dictionary without case-insensitive duplicates, a word's case variants find its own index. */
  lemma IndexOfDistinct(list: seq<string>, j: nat, w: string)
    requires DistinctIgnoringCase(list) && j < |list| && Lower(w) == Lower(list[j])
    ensures IndexOfWord(list, w) == Some(j)
  {
  }

  /**
   `ConvertIndicesToWords`: the words of dictionary `listId` at the given
   indices. An unknown id fails the list indexer; an index past the
   dictionary's end fails the array's `IReadOnlyList<string>` indexer,
   which throws `ArgumentOutOfRangeException` as well.
   */
  function WordsAt(lists: seq<seq<string>>, listId: int, indices: seq<int>): (r: Result<seq<string>>)
    ensures r.Ok? <==> 0 <= listId < |lists| && forall k | 0 <= k < |indices| :: 0 <= indices[k] < |lists[listId]|
    ensures r.Ok? ==> |r.value| == |indices| && forall k | 0 <= k < |indices| :: r.value[k] == lists[listId][indices[k]]
    ensures r.Err? ==> r.error == ArgumentOutOfRangeException
  {
    if listId < 0 || listId >= |lists| then Err(ArgumentOutOfRangeException)
    else if exists k | 0 <= k < |indices| :: !(0 <= indices[k] < |lists[listId]|) then Err(ArgumentOutOfRangeException)
    else Ok(seq(|indices|, k requires 0 <= k < |indices| => lists[listId][indices[k]]))
  }

  /** Word `k` is the first of `words` missing from the dictionary. */
  predicate FirstMissing(list: seq<string>, words: seq<string>, k: nat) {
    k < |words| && IndexOfWord(list, words[k]).None? && forall j | 0 <= j < k :: IndexOfWord(list, words[j]).Some?
  }

  /**
   `GetWordIndex` applied to each word in turn: the first word missing from
   the dictionary throws `KeyNotFoundException` naming it in lower case.
   */
  function WordIndices(list: seq<string>, words: seq<string>): (r: Result<seq<nat>>)
    ensures r.Ok? <==> forall k | 0 <= k < |words| :: IndexOfWord(list, words[k]).Some?
    ensures r.Ok? ==> |r.value| == |words| && forall k | 0 <= k < |words| :: IndexOfWord(list, words[k]) == Some(r.value[k])
    ensures r.Err? ==> exists k | 0 <= k < |words| :: FirstMissing(list, words, k) && r.error == KeyNotFoundWord(Lower(words[k]))
  {
    if |words| == 0 then Ok([])
    else match IndexOfWord(list, words[0])
      case None => Err(KeyNotFoundWord(Lower(words[0])))
      case Some(i) =>
        var rest := WordIndices(list, words[1..]);
        if rest.Err? then
          var k :| 0 <= k < |words[1..]| && FirstMissing(list, words[1..], k) && rest.error == KeyNotFoundWord(Lower(words[1..][k]));
          assert FirstMissing(list, words, k + 1);
          Err(rest.error)
        else Ok([i] + rest.value)
  }

  /**
   What the codec needs of a dictionary: at least 512 words, none holding a
   '-', each starting with three lower-case letters and not ending in white
   space, and no two equal ignoring case.
   */
  predicate WellFormedList(list: seq<string>) {
    && |list| >= 512
    && (forall i | 0 <= i < |list| :: CaseCodable(list[i]) && '-' !in list[i] && !IsWhiteSpace(list[i][|list[i]| - 1]))
    && DistinctIgnoringCase(list)
  }

  // ---------------------------------------------------------------------
  // Address-and-port strategy
  // ---------------------------------------------------------------------

  /** The word indices of the five interleaved chunks (`BitArrayUtils.ToInt` on each). */
  function ChunkIndices(ip: Ip, port: Port): (indices: seq<int>)
    ensures |indices| == 5
    ensures forall k | 0 <= k < 5 :: 0 <= indices[k] < 512
    ensures forall k | 0 <= k < 5 :: FromInt(indices[k], Defaults.chunkBitCount) == Interleave(ip, port)[k]
  {
    var chunks := Interleave(ip, port);
    seq(5, k requires 0 <= k < 5 => ChunkIndex(chunks[k]))
  }

  /** `BitArrayUtils.ToInt` of one 9-bit chunk: a word index below 512 that spells the chunk again. */
  function ChunkIndex(chunk: Bits): (index: int)
    requires |chunk| == 9
    ensures 0 <= index < 512
    ensures FromInt(index, 9) == chunk
  {
    ToIntFromIntRoundTrip(chunk);
    assert Pow2(9) == 512 by { Pow2Constants(); }
    ToInt(chunk).value
  }

  /** `IpAndPortEncodingStrategy.Encode`. */
  function EncodeIpAndPort(lists: seq<seq<string>>, data: EncodingData): (r: Result<string>)
    ensures data.port.None? ==> r == Err(ArgumentException)
    ensures data.port.Some? && !(0 <= data.listId < |lists|) ==> r == Err(ArgumentOutOfRangeException)
    ensures data.port.Some? && 0 <= data.listId < |lists| && |lists[data.listId]| >= 512 ==> r.Ok?
  {
    if data.port.None? then Err(ArgumentException)
    else
      var indices := ChunkIndices(data.ip, data.port.value);
      var words :- WordsAt(lists, data.listId, indices);
      Ok(Join(ApplyMetadata(words, data.listId, data.port.value), '-'))
  }

  /**
   The address and port carried by the five chunks whose word indices are
   `indices`, with the three high port bits `metaBits` (the tail of
   `IpAndPortEncodingStrategy.Decode`: `DeinterleaveIpAndPort`, the address
   bytes, `ReconstructPort`; the `ushort` cast never truncates a 16-bit value).
   */
  function Reassemble(listId: int, metaBits: Bits, indices: seq<int>): (d: EncodingData)
    requires |metaBits| == 3 && |indices| == 5
    ensures d.port.Some? && d.listId == listId
  {
    var chunks := seq(5, k requires 0 <= k < 5 => FromInt(indices[k], Defaults.chunkBitCount));
    var bits := Deinterleave(chunks).value;
    var bytes := ToBigEndianBytes(bits.0).value;
    EncodingData(bytes, Some(ReconstructPort(bits.1, metaBits).value), listId)
  }

  /** A .NET `(ushort)` cast of an `int`: keeps the low 16 bits. */
  function UShort(v: int): (p: Port)
    ensures 0 <= v < 0x1_0000 ==> p == v
  {
    v % 0x1_0000
  }

  /**
   `ReconstructPort`: the metadata bits followed by the data bits, read as
   an `int` (which throws above 32 bits) and cast to `ushort`.
   */
  function ReconstructPort(portData: Bits, portMetadata: Bits): (r: Result<Port>)
    ensures r.Ok? <==> |portMetadata| + |portData| <= 32
    ensures |portMetadata| + |portData| == 16 ==> r == Ok(Value(portMetadata + portData))
  {
    var value :- ToInt(portMetadata + portData);
    if |portMetadata| + |portData| == 16 then
      ValueBound(portMetadata + portData);
      Pow2Constants();
      Ok(UShort(value))
    else Ok(UShort(value))
  }

  /** Rebuilding a port from its 13 data bits and its 3 high bits gives the port. */
  lemma ReconstructPortRoundTrip(port: Port)
    ensures ReconstructPort(PortBits(port)[3..], PortBits(port)[..3]) == Ok(port)
  {
    var portBits := PortBits(port);
    assert portBits[..3] + portBits[3..] == portBits;
    Pow2Constants();
    ValueOfFromInt(port, 16);
  }

  /** `IpAndPortEncodingStrategy.Decode` once the phrase is split into five words. */
  function DecodeWords(lists: seq<seq<string>>, words: seq<string>): (r: Result<EncodingData>)
    requires |words| == 5
    ensures r.Ok? ==> r.value.port.Some? && 0 <= r.value.listId < |lists| && r.value.listId < 16
    ensures r.Err? ==> r.error == IndexOutOfRangeException || r.error.IsKeyNotFound()
  {
    var meta :- ExtractMetadata(words, |lists|);
    var indices :- WordIndices(lists[meta.0], words);
    Ok(Reassemble(meta.0, meta.1, indices))
  }

  /** `IpAndPortEncodingStrategy.Decode`: five '-'-separated words, or `ArgumentException`. */
  function DecodeIpAndPort(lists: seq<seq<string>>, encoded: string): (r: Result<EncodingData>)
    ensures |Text.Split(encoded, '-')| != 5 ==> r == Err(ArgumentException)
    ensures r.Ok? ==> r.value.port.Some? && 0 <= r.value.listId < |lists| && r.value.listId < 16
    ensures r.Err? ==> r.error == ArgumentException || r.error == IndexOutOfRangeException || r.error.IsKeyNotFound()
  {
    var words := Text.Split(encoded, '-');
    if |words| != 5 then Err(ArgumentException) else DecodeWords(lists, words)
  }

  /** Reassembling the chunks of an address and port, with its high bits, gives them back. */
  lemma ReassembleChunks(ip: Ip, port: Port, listId: int)
    ensures Reassemble(listId, PortBits(port)[..3], ChunkIndices(ip, port)) == EncodingData(ip, Some(port), listId)
  {
    var indices := ChunkIndices(ip, port);
    var chunks := seq(5, k requires 0 <= k < 5 => FromInt(indices[k], Defaults.chunkBitCount));
    assert chunks == Interleave(ip, port);
    DeinterleaveInterleave(ip, port);
    BigEndianBytesRoundTrip(ip);
    ReconstructPortRoundTrip(port);
  }

  /** The words the encoder emits, before they are joined. */
  function EncodedWords(list: seq<string>, ip: Ip, port: Port, listId: int): (words: seq<string>)
    requires |list| >= 512
    ensures |words| == 5
  {
    var indices := ChunkIndices(ip, port);
    ApplyMetadata(seq(5, k requires 0 <= k < 5 => list[indices[k]]), listId, port)
  }

  /** The emitted words of a well-formed dictionary decode to the address, port and id. */
  lemma DecodeEncodedWords(lists: seq<seq<string>>, ip: Ip, port: Port, listId: int)
    requires 0 <= listId < |lists| && listId < 16 && WellFormedList(lists[listId])
    ensures DecodeWords(lists, EncodedWords(lists[listId], ip, port, listId)) == Ok(EncodingData(ip, Some(port), listId))
  {
    var list := lists[listId];
    var indices := ChunkIndices(ip, port);
    var words := seq(5, k requires 0 <= k < 5 => list[indices[k]]);
    var applied := ApplyMetadata(words, listId, port);
    ApplyMetadataCaseOnly(words, listId, port);
    ExtractApplyMetadata(words, listId, port, |lists|);
    forall k | 0 <= k < 5
      ensures IndexOfWord(list, applied[k]) == Some(indices[k])
    {
      IndexOfDistinct(list, indices[k], applied[k]);
    }
    var found := WordIndices(list, applied);
    assert found.Ok? && found.value == indices;
    ReassembleChunks(ip, port, listId);
  }

  /**
   Decoding an encoded address and port gives them back, with the
   dictionary id, for every well-formed dictionary whose id fits in the four
   case-coded bits.
   */
  lemma IpAndPortRoundTrip(lists: seq<seq<string>>, ip: Ip, port: Port, listId: int)
    requires 0 <= listId < |lists| && listId < 16 && WellFormedList(lists[listId])
    ensures EncodeIpAndPort(lists, EncodingData(ip, Some(port), listId)).Ok?
    ensures DecodeIpAndPort(lists, EncodeIpAndPort(lists, EncodingData(ip, Some(port), listId)).value)
      == Ok(EncodingData(ip, Some(port), listId))
  {
    var list := lists[listId];
    var indices := ChunkIndices(ip, port);
    var words := seq(5, k requires 0 <= k < 5 => list[indices[k]]);
    var applied := EncodedWords(list, ip, port, listId);
    assert EncodeIpAndPort(lists, EncodingData(ip, Some(port), listId)) == Ok(Join(applied, '-'));
    ApplyMetadataCaseOnly(words, listId, port);
    SplitJoin(applied, '-');
    DecodeEncodedWords(lists, ip, port, listId);
  }

  /** Five `-`-separated words, holding a `-`, with no white space at either end. */
  predicate IsFivePhrase(phrase: string) {
    |Text.Split(phrase, '-')| == 5 && '-' in phrase && Trim(phrase) == phrase && !IsBlank(phrase)
  }

  /** An encoded address and port is a five-word phrase that trimming leaves unchanged. */
  lemma EncodedPhraseShape(lists: seq<seq<string>>, ip: Ip, port: Port, listId: int)
    requires 0 <= listId < |lists| && listId < 16 && WellFormedList(lists[listId])
    ensures EncodeIpAndPort(lists, EncodingData(ip, Some(port), listId)).Ok?
    ensures IsFivePhrase(EncodeIpAndPort(lists, EncodingData(ip, Some(port), listId)).value)
  {
    var applied := EncodedWords(lists[listId], ip, port, listId);
    assert EncodeIpAndPort(lists, EncodingData(ip, Some(port), listId)) == Ok(Join(applied, '-'));
    EncodedWordsPhrase(lists[listId], ip, port, listId);
  }

  lemma EncodedWordsPhrase(list: seq<string>, ip: Ip, port: Port, listId: int)
    requires WellFormedList(list)
    ensures IsFivePhrase(Join(EncodedWords(list, ip, port, listId), '-'))
  {
    var indices := ChunkIndices(ip, port);
    var words := seq(5, k requires 0 <= k < 5 => list[indices[k]]);
    ApplyMetadataCaseOnly(words, listId, port);
    assert IsAsciiLower(words[0][0]);
    PhraseOfCaseVariants(EncodedWords(list, ip, port, listId), words);
  }

  /** Five case variants of `-`-free words with non-blank outer ends join into such a phrase. */
  lemma PhraseOfCaseVariants(applied: seq<string>, words: seq<string>)
    requires |applied| == 5 && |words| == 5
    requires forall k | 0 <= k < 5 :: Lower(applied[k]) == Lower(words[k]) && '-' !in applied[k]
    requires |words[0]| > 0 && !IsWhiteSpace(words[0][0])
    requires |words[4]| > 0 && !IsWhiteSpace(words[4][|words[4]| - 1])
    ensures IsFivePhrase(Join(applied, '-'))
  {
    var phrase := Join(applied, '-');
    assert |Text.Split(phrase, '-')| == 5 by { SplitJoin(applied, '-'); }
    assert Trim(phrase) == phrase && |phrase| > 0 by {
      JoinedEndsSolid(applied, words);
      TrimOfTrimmed(phrase);
    }
    assert '-' in phrase by {
      assert phrase == applied[0] + ['-'] + Join(applied[1..], '-');
      assert phrase[|applied[0]|] == '-';
    }
  }

  /** The join of such case variants neither starts nor ends with white space. */
  lemma JoinedEndsSolid(applied: seq<string>, words: seq<string>)
    requires |applied| == 5 && |words| == 5
    requires Lower(applied[0]) == Lower(words[0]) && Lower(applied[4]) == Lower(words[4])
    requires |words[0]| > 0 && !IsWhiteSpace(words[0][0])
    requires |words[4]| > 0 && !IsWhiteSpace(words[4][|words[4]| - 1])
    ensures var phrase := Join(applied, '-');
      |phrase| > 0 && !IsWhiteSpace(phrase[0]) && !IsWhiteSpace(phrase[|phrase| - 1])
  {
    assert |applied[0]| == |Lower(applied[0])| == |words[0]|;
    assert |applied[4]| == |Lower(applied[4])| == |words[4]|;
    JoinFirst(applied, '-');
    JoinLast(applied, '-');
    WhiteSpaceIgnoringCase(applied[0][0], words[0][0]);
    WhiteSpaceIgnoringCase(applied[4][|applied[4]| - 1], words[4][|words[4]| - 1]);
  }

  // ---------------------------------------------------------------------
  // Address-only strategy
  // ---------------------------------------------------------------------

  /** `IpOnlyEncodingStrategy.Encode`: the four address bytes and the id, each as a word of dictionary `listId`. */
  function EncodeIpOnly(lists: seq<seq<string>>, data: EncodingData): (r: Result<string>)
    ensures data.port.Some? ==> r == Err(ArgumentException)
    ensures data.port.None? && !(0 <= data.listId < |lists|) ==> r == Err(ArgumentOutOfRangeException)
    ensures data.port.None? && 0 <= data.listId < |lists| && |lists[data.listId]| >= 256 && data.listId < |lists[data.listId]| ==> r.Ok?
  {
    if data.port.Some? then Err(ArgumentException)
    else
      var indices := data.ip + [data.listId];
      var words :- WordsAt(lists, data.listId, indices);
      Ok(Join(words, '-'))
  }

  /**
   Dictionary `listId` accepts the phrase: its fifth word is the dictionary's
   own id word and the first four are in the dictionary at positions below
   256, which give the address bytes.
   */
  function IpOnlyMatch(list: seq<string>, words: seq<string>, listId: nat): (r: Option<Ip>)
    requires |words| == 5
  {
    if IndexOfWord(list, words[4]) != Some(listId) then None
    else match WordIndices(list, words[..4])
      case Err(_) => None
      case Ok(indices) =>
        if forall k | 0 <= k < 4 :: indices[k] <= 255 then
          Some(seq(4, k requires 0 <= k < 4 => indices[k] as Byte))
        else None
  }

  /**
   A dictionary accepts a phrase only when its last word is the
   dictionary's own id word and its first four words are the address bytes.
   */
  lemma IpOnlyMatchReads(list: seq<string>, words: seq<string>, listId: nat)
    requires |words| == 5
    ensures var r := IpOnlyMatch(list, words, listId);
      r.Some? ==> && IndexOfWord(list, words[4]) == Some(listId)
                  && forall k | 0 <= k < 4 :: IndexOfWord(list, words[k]) == Some(r.value[k])
  {
  }

  /** The dictionaries from `listId` on, tried in order; none accepting throws a plain `Exception`. */
  function ScanLists(lists: seq<seq<string>>, words: seq<string>, listId: nat): (r: Result<EncodingData>)
    requires |words| == 5
    ensures r.Ok? ==> listId <= r.value.listId < |lists| && r.value.port.None?
    ensures r.Err? ==> r.error == GeneralException
    decreases |lists| - listId
  {
    if listId >= |lists| then Err(GeneralException)
    else match IpOnlyMatch(lists[listId], words, listId)
      case Some(ip) => Ok(EncodingData(ip, None, listId))
      case None => ScanLists(lists, words, listId + 1)
  }

  /** A successful scan stops at the first dictionary from `listId` on that accepts the phrase, with its address. */
  lemma {:induction false} ScanListsFinds(lists: seq<seq<string>>, words: seq<string>, listId: nat)
    requires |words| == 5
    ensures var r := ScanLists(lists, words, listId);
      r.Ok? ==> && IpOnlyMatch(lists[r.value.listId], words, r.value.listId) == Some(r.value.ip)
                && forall j | listId <= j < r.value.listId :: IpOnlyMatch(lists[j], words, j).None?
    decreases |lists| - listId
  {
    if listId < |lists| && IpOnlyMatch(lists[listId], words, listId).None? {
      ScanListsFinds(lists, words, listId + 1);
    }
  }

  /** The scan throws exactly when no dictionary from `listId` on accepts the phrase. */
  lemma {:induction false} ScanListsFails(lists: seq<seq<string>>, words: seq<string>, listId: nat)
    requires |words| == 5
    ensures ScanLists(lists, words, listId).Err? <==> forall j | listId <= j < |lists| :: IpOnlyMatch(lists[j], words, j).None?
    decreases |lists| - listId
  {
    if listId < |lists| && IpOnlyMatch(lists[listId], words, listId).None? {
      ScanListsFails(lists, words, listId + 1);
    }
  }

  /** `IpOnlyEncodingStrategy.Decode`: the first dictionary that accepts the phrase decides. */
  function DecodeIpOnly(lists: seq<seq<string>>, encoded: string): (r: Result<EncodingData>)
    ensures |Text.Split(encoded, '-')| != 5 ==> r == Err(ArgumentException)
    ensures r.Ok? ==> r.value.port.None? && 0 <= r.value.listId < |lists|
  {
    var words := Text.Split(encoded, '-');
    if |words| != 5 then Err(ArgumentException) else ScanLists(lists, words, 0)
  }

  /**
   A decoded address-only phrase names the first dictionary that accepts
   its five words, and the address that dictionary reads from them; the
   decode fails only when the phrase does not have five words or no
   dictionary accepts it.
   */
  lemma DecodeIpOnlyFirstAccepting(lists: seq<seq<string>>, encoded: string)
    ensures var r := DecodeIpOnly(lists, encoded); var words := Text.Split(encoded, '-');
      && (r.Ok? ==> && IpOnlyMatch(lists[r.value.listId], words, r.value.listId) == Some(r.value.ip)
                    && forall j | 0 <= j < r.value.listId :: IpOnlyMatch(lists[j], words, j).None?)
      && (r.Err? <==> |words| != 5 || forall j | 0 <= j < |lists| :: IpOnlyMatch(lists[j], words, j).None?)
  {
    var words := Text.Split(encoded, '-');
    if |words| == 5 {
      ScanListsFinds(lists, words, 0);
      ScanListsFails(lists, words, 0);
    }
  }

  /** The words the address-only encoder emits: the four bytes' words, then the id's own word. */
  function IpOnlyWords(list: seq<string>, ip: Ip, listId: nat): (words: seq<string>)
    requires |list| >= 256 && listId < |list|
    ensures |words| == 5
  {
    [list[ip[0]], list[ip[1]], list[ip[2]], list[ip[3]], list[listId]]
  }

  lemma EncodeIpOnlyWords(lists: seq<seq<string>>, ip: Ip, listId: nat)
    requires listId < |lists| && |lists[listId]| >= 256 && listId < |lists[listId]|
    ensures EncodeIpOnly(lists, EncodingData(ip, None, listId)) == Ok(Join(IpOnlyWords(lists[listId], ip, listId), '-'))
  {
    var indices := ip + [listId as int];
    assert WordsAt(lists, listId, indices).value == IpOnlyWords(lists[listId], ip, listId);
  }

  /** A dictionary accepts the phrase it produced, with the address it was given. */
  lemma IpOnlyMatchOwnWords(list: seq<string>, ip: Ip, listId: nat)
    requires DistinctIgnoringCase(list) && |list| >= 256 && listId < |list|
    ensures IpOnlyMatch(list, IpOnlyWords(list, ip, listId), listId) == Some(ip)
  {
    var words := IpOnlyWords(list, ip, listId);
    IndexOfDistinct(list, listId, words[4]);
    var front := words[..4];
    forall k | 0 <= k < 4
      ensures IndexOfWord(list, front[k]) == Some(ip[k] as nat)
    {
      IndexOfDistinct(list, ip[k], front[k]);
    }
    var found := WordIndices(list, front);
    assert found.Ok? && found.value == ip;
    assert forall k | 0 <= k < 4 :: found.value[k] <= 255;
    assert seq(4, k requires 0 <= k < 4 => found.value[k] as Byte) == ip;
  }

  /**
   An address-only phrase decodes to its address through its own
   dictionary unless an earlier dictionary already accepts it; with the
   first dictionary the round trip is exact. The dictionary needs only
   room for the byte values and the id, distinct words, and no hyphen
   inside a word.
   */
  lemma IpOnlyRoundTrip(lists: seq<seq<string>>, ip: Ip, listId: nat)
    requires listId < |lists| && |lists[listId]| >= 256 && listId < |lists[listId]|
    requires DistinctIgnoringCase(lists[listId])
    requires forall k | 0 <= k < |lists[listId]| :: '-' !in lists[listId][k]
    ensures EncodeIpOnly(lists, EncodingData(ip, None, listId)).Ok?
    ensures var r := DecodeIpOnly(lists, EncodeIpOnly(lists, EncodingData(ip, None, listId)).value);
      && r.Ok? && r.value.listId <= listId
      && (r.value.listId == listId ==> r.value == EncodingData(ip, None, listId))
      && ((forall j | 0 <= j < listId :: IpOnlyMatch(lists[j], IpOnlyWords(lists[listId], ip, listId), j).None?)
          ==> r == Ok(EncodingData(ip, None, listId)))
  {
    var words := IpOnlyWords(lists[listId], ip, listId);
    EncodeIpOnlyWords(lists, ip, listId);
    SplitJoin(words, '-');
    IpOnlyMatchOwnWords(lists[listId], ip, listId);
    assert DecodeIpOnly(lists, Join(words, '-')) == ScanLists(lists, words, 0);
    ScanFindsOwnList(lists, words, ip, listId);
  }

  /**
   When dictionary `listId` accepts the words with address `ip`, the scan
   from the first dictionary succeeds no later than `listId`, and stops at
   `listId` exactly when no earlier dictionary accepts them.
   */
  lemma ScanFindsOwnList(lists: seq<seq<string>>, words: seq<string>, ip: Ip, listId: nat)
    requires |words| == 5 && listId < |lists|
    requires IpOnlyMatch(lists[listId], words, listId) == Some(ip)
    ensures var r := ScanLists(lists, words, 0);
      && r.Ok? && r.value.listId <= listId
      && (r.value.listId == listId ==> r.value == EncodingData(ip, None, listId))
      && ((forall j | 0 <= j < listId :: IpOnlyMatch(lists[j], words, j).None?)
          ==> r == Ok(EncodingData(ip, None, listId)))
  {
    ScanListsFinds(lists, words, 0);
    ScanListsFails(lists, words, 0);
  }

  // ---------------------------------------------------------------------
  // Facade
  // ---------------------------------------------------------------------

  /** The two `IWordEncodingStrategy` implementations. */
  datatype Strategy = IpAndPort | IpOnly

  /** `WordEncoder.Encode(ip, port, listId)`: only the address-and-port strategy accepts a port. */
  function WordEncoderEncodeWithPort(s: Strategy, lists: seq<seq<string>>, ip: Ip, port: Port, listId: int): (r: Result<string>)
    ensures s.IpOnly? ==> r == Err(ArgumentException)
    ensures s.IpAndPort? && !(0 <= listId < |lists|) ==> r == Err(ArgumentOutOfRangeException)
    ensures s.IpAndPort? && 0 <= listId < |lists| && |lists[listId]| >= 512 ==> r.Ok?
  {
    var data := EncodingData(ip, Some(port), listId);
    match s
    case IpAndPort => EncodeIpAndPort(lists, data)
    case IpOnly => EncodeIpOnly(lists, data)
  }

  /** `WordEncoder.Encode(ip, listId)`: only the address-only strategy accepts a missing port. */
  function WordEncoderEncode(s: Strategy, lists: seq<seq<string>>, ip: Ip, listId: int): (r: Result<string>)
    ensures s.IpAndPort? ==> r == Err(ArgumentException)
    ensures s.IpOnly? && !(0 <= listId < |lists|) ==> r == Err(ArgumentOutOfRangeException)
    ensures s.IpOnly? && 0 <= listId < |lists| && |lists[listId]| >= 256 && listId < |lists[listId]| ==> r.Ok?
  {
    var data := EncodingData(ip, None, listId);
    match s
    case IpAndPort => EncodeIpAndPort(lists, data)
    case IpOnly => EncodeIpOnly(lists, data)
  }

  /** `WordEncoder.Decode`: the strategy's result as an (address, port, id) triple. */
  function WordEncoderDecode(s: Strategy, lists: seq<seq<string>>, encoded: string): (r: Result<(Ip, Option<Port>, int)>)
    ensures s.IpAndPort? && r.Ok? ==> r.value.1.Some?
    ensures s.IpOnly? && r.Ok? ==> r.value.1.None?
  {
    var d :- match s
      case IpAndPort => DecodeIpAndPort(lists, encoded)
      case IpOnly => DecodeIpOnly(lists, encoded);
    Ok((d.ip, d.port, d.listId))
  }

  /** Through the facade, the address-and-port strategy returns what it was given. */
  lemma WordEncoderRoundTrip(lists: seq<seq<string>>, ip: Ip, port: Port, listId: int)
    requires 0 <= listId < |lists| && listId < 16 && WellFormedList(lists[listId])
    ensures WordEncoderEncodeWithPort(IpAndPort, lists, ip, port, listId).Ok?
    ensures WordEncoderDecode(IpAndPort, lists, WordEncoderEncodeWithPort(IpAndPort, lists, ip, port, listId).value)
      == Ok((ip, Some(port), listId))
  {
    IpAndPortRoundTrip(lists, ip, port, listId);
  }
}
