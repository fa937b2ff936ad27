/**
 The superseded third version of the word encoder
 (IpShared/Ip_Word_Enconder_Versao_antiga.cs): its LSB-first bit helpers,
 its derived configuration constants, its case-coded metadata and its word
 list loader, each related to the current version where the two can be
 compared.
 */
module LegacyV3 {
  import opened Prelude
  import opened Text
  import opened BitArrayUtils
  import WordCodec
  import WordListLoader

  // ---------------------------------------------------------------------
  // WordEncoderConfig
  // ---------------------------------------------------------------------

  /** The version-3 `WordEncoderConfig` record; every count is a .NET `int`. */
  datatype LegacyConfig = LegacyConfig(
    ipByteCount: Int32, portByteCount: Int32, chunkBitCount: Int32, idBitCount: Int32, portMetadataBitCount: Int32)
  {
    function IpBitCount(): Int32 {
      Wrap32(ipByteCount * 8)
    }

    function PortBitCount(): Int32 {
      Wrap32(portByteCount * 8)
    }

    function PortDataBitCount(): Int32 {
      Wrap32(PortBitCount() - portMetadataBitCount)
    }

    function MainDataBitCount(): Int32 {
      Wrap32(IpBitCount() + PortDataBitCount())
    }

    /**
     `(int)Math.Pow(2, ChunkBitCount)`: a fraction below one truncates to 0
     for a negative exponent; from 31 on the power does not fit an `int`
     and the conversion's result is unspecified, shown as `None`.
     */
    function ListWordCount(): (r: Option<Int32>)
      ensures r.Some? <==> chunkBitCount < 31
      ensures r.Some? ==> 0 <= r.value
      ensures chunkBitCount < 0 ==> r == Some(0)
    {
      if chunkBitCount < 0 then Some(0)
      else if chunkBitCount < 31 then
        Pow2FitsInt32(chunkBitCount);
        Some(Pow2(chunkBitCount))
      else None
    }
  }

  lemma Pow2FitsInt32(n: nat)
    requires n < 31
    ensures Pow2(n) < 0x8000_0000
  {
    Pow2Monotone(n, 30);
    assert Pow2(31) == 0x8000_0000 by { Pow2Constants(); }
  }

  const LegacyDefaults := LegacyConfig(4, 2, 9, 4, 3)

  /** The default record derives 32 address bits, 13 port data bits, 45 payload bits and 512 words per list. */
  lemma LegacyDefaultCounts()
    ensures LegacyDefaults.IpBitCount() == 32 && LegacyDefaults.PortBitCount() == 16
    ensures LegacyDefaults.PortDataBitCount() == 13 && LegacyDefaults.MainDataBitCount() == 45
    ensures LegacyDefaults.ListWordCount() == Some(512)
    ensures LegacyDefaults.MainDataBitCount() == 5 * LegacyDefaults.chunkBitCount
  {
    Pow2Constants();
  }

  /**
   Both versions agree on the dictionary size for chunk widths 0..30; for a
   negative width the old one gives 0 words while `1 << n` is positive.
   */
  lemma ListWordCountAcrossVersions(c: Int32, d: WordCodec.Config)
    requires d.chunkBitCount == c
    ensures 0 <= c < 31 ==> LegacyConfig(4, 2, c, 4, 3).ListWordCount() == Some(d.DictionaryWordCount())
    ensures c < 0 && c % 32 != 31 ==> LegacyConfig(4, 2, c, 4, 3).ListWordCount() == Some(0) && d.DictionaryWordCount() > 0
  {
    if c < 0 && c % 32 != 31 {
      Pow2Monotone(c % 32, 31);
      Pow2Constants();
    }
  }

  // ---------------------------------------------------------------------
  // BitArrayUtils (LSB first)
  // ---------------------------------------------------------------------

  /**
   The full chunks and the short tail of a bit run, read left to right in
   steps of `chunkSize` as the version-3 `Split` loop does.
   */
  function SplitRun(source: Bits, chunkSize: nat): (r: (seq<Bits>, Option<Bits>))
    requires chunkSize > 0
    ensures IsSplitOf(source, chunkSize, r)
    decreases |source|
  {
    if |source| == 0 then ([], None)
    else if |source| < chunkSize then ([], Some(source))
    else
      var rest := SplitRun(source[chunkSize..], chunkSize);
      SplitCons(source, chunkSize, rest);
      ([source[..chunkSize]] + rest.0, rest.1)
  }

  /**
   `r` cuts `source` into full chunks of `chunkSize` bits followed by a
   non-empty short tail exactly when the length is not a multiple of
   `chunkSize`; together they spell out `source`.
   */
  predicate IsSplitOf(source: Bits, chunkSize: nat, r: (seq<Bits>, Option<Bits>))
    requires chunkSize > 0
  {
    && (forall k | 0 <= k < |r.0| :: |r.0[k]| == chunkSize)
    && (r.1.None? <==> |source| % chunkSize == 0)
    && (r.1.Some? ==> 0 < |r.1.value| < chunkSize)
    && Concatenate(r.0) + (if r.1.Some? then r.1.value else []) == source
  }

  /** A full first chunk in front of a split of the rest is a split of the whole. */
  lemma SplitCons(source: Bits, chunkSize: nat, rest: (seq<Bits>, Option<Bits>))
    requires 0 < chunkSize <= |source|
    requires IsSplitOf(source[chunkSize..], chunkSize, rest)
    ensures IsSplitOf(source, chunkSize, ([source[..chunkSize]] + rest.0, rest.1))
  {
    ConcatenateCons(source[..chunkSize], rest.0);
    ModSubtract(|source|, chunkSize);
    assert source == source[..chunkSize] + source[chunkSize..];
  }

  lemma ConcatenateCons(head: Bits, tail: seq<Bits>)
    ensures Concatenate([head] + tail) == head + Concatenate(tail)
  {
    assert ([head] + tail)[1..] == tail;
  }

  lemma MulAtLeast(d: int, k: nat)
    requires d >= 1
    ensures d * k >= k
  {
  }

  lemma ModUnique(x: int, k: nat, q: int, r: int)
    requires 0 <= r < k && x == q * k + r
    ensures x % k == r
  {
    var q', r' := x / k, x % k;
    assert (q - q') * k == r' - r;
    if q > q' {
      MulAtLeast(q - q', k);
    } else if q < q' {
      MulAtLeast(q' - q, k);
    }
  }

  lemma ModSubtract(a: nat, k: nat)
    requires 0 < k <= a
    ensures (a - k) % k == a % k
  {
    var q, r := a / k, a % k;
    assert a - k == (q - 1) * k + r;
    ModUnique(a - k, k, q - 1, r);
  }

  /**
   Version-3 `Split(source, chunkSize, out remainder)`: the list of full
   chunks together with the remainder; a non-positive size throws.
   */
  function LegacySplit(source: Bits, chunkSize: int): (r: Result<(seq<Bits>, Option<Bits>)>)
    ensures r.Err? <==> chunkSize <= 0
    ensures r.Err? ==> r.error == ArgumentException
    ensures r.Ok? ==> forall k | 0 <= k < |r.value.0| :: |r.value.0[k]| == chunkSize
    ensures r.Ok? ==> (r.value.1.None? <==> |source| % chunkSize == 0)
    ensures r.Ok? ==> Concatenate(r.value.0) + (if r.value.1.Some? then r.value.1.value else []) == source
  {
    if chunkSize <= 0 then Err(ArgumentException) else Ok(SplitRun(source, chunkSize))
  }

  /** The chunks with the short tail, if any, appended as one more chunk. */
  function WithRemainder(r: (seq<Bits>, Option<Bits>)): seq<Bits> {
    r.0 + (match r.1 case Some(tail) => [tail] case None => [])
  }

  /**
   The current `Split` returns the same chunks with the short tail, if any,
   as its last element.
   */
  lemma {:induction false} SplitAcrossVersions(source: Bits, chunkSize: nat)
    requires chunkSize > 0
    ensures Chunks(source, chunkSize) == WithRemainder(SplitRun(source, chunkSize))
    decreases |source|
  {
    if |source| >= chunkSize {
      SplitAcrossVersions(source[chunkSize..], chunkSize);
      ChunksStep(source, chunkSize);
      SplitRunStep(source, chunkSize);
    } else if |source| > 0 {
      assert source[|source|..] == [];
      assert Chunks(source, chunkSize) == [source[..|source|]] + Chunks([], chunkSize);
      assert source[..|source|] == source;
      assert SplitRun(source, chunkSize) == ([], Some(source));
    }
  }

  lemma ChunksStep(source: Bits, chunkSize: nat)
    requires 0 < chunkSize <= |source|
    ensures Chunks(source, chunkSize) == [source[..chunkSize]] + Chunks(source[chunkSize..], chunkSize)
  {
  }

  lemma SplitRunStep(source: Bits, chunkSize: nat)
    requires 0 < chunkSize <= |source|
    ensures WithRemainder(SplitRun(source, chunkSize)) == [source[..chunkSize]] + WithRemainder(SplitRun(source[chunkSize..], chunkSize))
  {
  }

  /**
   Where no chunk start plus the chunk size passes `int.MaxValue`, the
   current `Split` returns the old chunks followed by the old remainder.
   */
  lemma LegacySplitAgrees(source: Bits, chunkSize: Int32)
    requires chunkSize > 0 && |source| + chunkSize <= 0x8000_0000
    ensures BitArrayUtils.Split(source, chunkSize) == Ok(WithRemainder(LegacySplit(source, chunkSize).value))
  {
    assert BitArrayUtils.Split(source, chunkSize) == Ok(Chunks(source, chunkSize));
    SplitAcrossVersions(source, chunkSize);
  }

  /**
   `BitArrayToInt`: `CopyTo` packs bit i into weight 2^i and
   `BitConverter.ToInt32` reads the four bytes little-endian, so bit 31 is
   the sign; more than 32 bits throws.
   */
  function BitArrayToInt(bits: Bits): (r: Result<Int32>)
    ensures r.Ok? <==> |bits| <= 32
    ensures r.Err? ==> r.error == ArgumentException
    ensures |bits| < 32 ==> r == Ok(LsbValue(bits))
  {
    if |bits| > 32 then Err(ArgumentException)
    else
      LsbValueBound(bits);
      Pow2Monotone(|bits|, 32);
      Pow2Constants();
      if |bits| < 32 then Pow2Monotone(|bits|, 31); Ok(Signed32(LsbValue(bits)))
      else Ok(Signed32(LsbValue(bits)))
  }

  /** Bit i of the input weighs 2^i: the bits of `v`, least significant first, read back as `v`. */
  lemma BitArrayToIntWeights(v: nat, n: nat)
    requires n < 32 && v < Pow2(n)
    ensures BitArrayToInt(seq(n, i requires 0 <= i < n => Bit(v, i))) == Ok(v)
  {
    LsbValueOfBits(v, n);
  }

  /** The old conversion is the new MSB-first `ToInt` applied to the reversed bits. */
  lemma BitArrayToIntIsReversedToInt(bits: Bits)
    ensures BitArrayToInt(bits) == ToInt(Reverse(bits))
  {
    LsbValueIsReversedValue(bits);
  }

  /** `ToInts`: converts every chunk in order; the first chunk longer than 32 bits throws. */
  function ToInts(arrays: seq<Bits>): (r: Result<seq<Int32>>)
    ensures r.Ok? <==> forall k | 0 <= k < |arrays| :: |arrays[k]| <= 32
    ensures r.Ok? ==> |r.value| == |arrays| && forall k | 0 <= k < |arrays| :: Ok(r.value[k]) == BitArrayToInt(arrays[k])
    ensures r.Err? ==> r.error == ArgumentException
  {
    if |arrays| == 0 then Ok([])
    else
      var head :- BitArrayToInt(arrays[0]);
      var tail :- ToInts(arrays[1..]);
      Ok([head] + tail)
  }

  // ---------------------------------------------------------------------
  // Case-coded metadata
  // ---------------------------------------------------------------------

  /** Capitalises, in order, letter k of `word` for every set `meta[k]`. */
  function CapitalizeEach(word: string, meta: Bits): (r: string)
    ensures |r| == |word|
    ensures forall i | 0 <= i < |word| :: r[i] == (if i < |meta| && meta[i] then ToUpperChar(word[i]) else word[i])
    decreases |meta|
  {
    if |meta| == 0 then word
    else
      var w := CapitalizeEach(word, meta[..|meta| - 1]);
      if meta[|meta| - 1] then WordCodec.Capitalize(w, |meta| - 1) else w
  }

  /**
   Version-3 `ApplyMetadata`: the initial of word i is capitalised for every
   set `idBits[i]`; then, when there is port metadata and more words than
   the configured id bits, letter k of a non-empty last word for every set
   `portMetadataBits[k]`.
   */
  function LegacyApplyMetadata(words: seq<string>, idBits: Bits, portMetadataBits: Bits): (r: seq<string>)
    ensures |r| == |words|
    ensures forall k | 0 <= k < |words| :: Lower(r[k]) == Lower(words[k])
  {
    var withId := seq(|words|, i requires 0 <= i < |words| =>
      if i < |idBits| && idBits[i] then WordCodec.Capitalize(words[i], 0) else words[i]);
    assert forall k | 0 <= k < |words| :: Lower(withId[k]) == Lower(words[k]) by {
      forall k, j | 0 <= k < |words| && 0 <= j < |words[k]|
        ensures ToLowerChar(withId[k][j]) == ToLowerChar(words[k][j])
      {
        LowerOfUpper(words[k][j]);
      }
    }
    if |portMetadataBits| > 0 && |words| != 0 && |withId[|words| - 1]| > 0 && LegacyDefaults.idBitCount < |words| then
      var last := CapitalizeEach(withId[|words| - 1], portMetadataBits);
      assert Lower(last) == Lower(withId[|words| - 1]) by {
        forall j | 0 <= j < |last|
          ensures ToLowerChar(last[j]) == ToLowerChar(withId[|words| - 1][j])
        {
          LowerOfUpper(withId[|words| - 1][j]);
        }
      }
      withId[|words| - 1 := last]
    else withId
  }

  /** `new BitArray([listId]) { Length = IdBitCount }`: the id's low bits, least significant first. */
  function LegacyIdBits(listId: int): (b: Bits)
    ensures |b| == LegacyDefaults.idBitCount
  {
    seq(LegacyDefaults.idBitCount, i requires 0 <= i < LegacyDefaults.idBitCount => WordCodec.IdBit(listId, i))
  }

  /** The port's bits 13, 14 and 15, as the version-3 encoder collects them. */
  function LegacyPortMetadata(port: Port): (b: Bits)
    ensures |b| == 3
  {
    [Bit(port, 13), Bit(port, 14), Bit(port, 15)]
  }

  /**
   The id table of the version-3 encoder: with ids 0..15 the initial of
   word i is upper-case exactly when bit i of the id is set.
   */
  lemma LegacyIdTable(words: seq<string>, listId: nat, port: Port)
    requires |words| == 5 && forall k | 0 <= k < 5 :: WordCodec.CaseCodable(words[k])
    requires listId < 16
    ensures forall i | 0 <= i < 4 ::
      var w := LegacyApplyMetadata(words, LegacyIdBits(listId), LegacyPortMetadata(port))[i];
      |w| > 0 && (IsAsciiUpper(w[0]) <==> Bit(listId, i))
  {
    var r := LegacyApplyMetadata(words, LegacyIdBits(listId), LegacyPortMetadata(port));
    forall i | 0 <= i < 4
      ensures |r[i]| > 0 && (IsAsciiUpper(r[i][0]) <==> Bit(listId, i))
    {
      assert WordCodec.CaseCodable(words[i]);
    }
  }

  /**
   Fed the id's four low bits and the port's bits 13..15, the old
   `ApplyMetadata` capitalises exactly as the current one.
   */
  lemma LegacyApplyMetadataAgrees(words: seq<string>, listId: int, port: Port)
    requires |words| >= 5
    ensures LegacyApplyMetadata(words, LegacyIdBits(listId), LegacyPortMetadata(port))
      == WordCodec.ApplyMetadata(words, listId, port)
  {
    var old3 := LegacyApplyMetadata(words, LegacyIdBits(listId), LegacyPortMetadata(port));
    var now := WordCodec.ApplyMetadata(words, listId, port);
    var meta := GetRange(WordCodec.PortBits(port), 0, 3).value;
    FromIntAt(port, 16, 0);
    FromIntAt(port, 16, 1);
    FromIntAt(port, 16, 2);
    assert Reverse(meta) == LegacyPortMetadata(port);
    forall k | 0 <= k < |words|
      ensures old3[k] == now[k]
    {
    }
  }

  // ---------------------------------------------------------------------
  // WordListLoader
  // ---------------------------------------------------------------------

  /** No two of the words are equal (ordinal `Distinct`). */
  predicate DistinctOrdinal(words: seq<string>) {
    forall i, j | 0 <= i < j < |words| :: words[i] != words[j]
  }

  /**
   The version-3 acceptance of one file: too few clean lines skip it;
   otherwise its first `n` are kept when `Distinct().Count()` is `n`.
   */
  function LegacyAccept(lines: seq<string>, n: int): (r: Option<seq<string>>)
    ensures r.Some? ==> 0 <= n <= |WordListLoader.Cleaned(lines)| && r.value == WordListLoader.Cleaned(lines)[..n]
  {
    var cleaned := WordListLoader.Cleaned(lines);
    if |cleaned| < n then None
    else
      var words := WordListLoader.Take(cleaned, n);
      if |words| == n && DistinctOrdinal(words) then Some(words) else None
  }

  /**
   Cleaned words are lower-case, so ordinal distinctness is case-insensitive
   distinctness and the old filter accepts exactly what the new one does.
   */
  lemma LegacyAcceptAgrees(lines: seq<string>, n: int)
    ensures LegacyAccept(lines, n) == WordListLoader.AcceptList(lines, n)
  {
    var cleaned := WordListLoader.Cleaned(lines);
    var words := WordListLoader.Take(cleaned, n);
    WordListLoader.CleanedWords(lines);
    assert forall k | 0 <= k < |words| :: WordListLoader.IsCleanWord(words[k]);
    OrdinalIsIgnoringCase(words);
  }

  /** On clean words, which hold no upper-case letter, ordinal distinctness is case-insensitive distinctness. */
  lemma OrdinalIsIgnoringCase(words: seq<string>)
    requires forall k | 0 <= k < |words| :: WordListLoader.IsCleanWord(words[k])
    ensures DistinctOrdinal(words) <==> DistinctIgnoringCase(words)
  {
    forall k | 0 <= k < |words|
      ensures Lower(words[k]) == words[k]
    {
      LowerOfLowerCase(words[k]);
    }
  }

  /** The file of an id; ids past the end are missing. */
  function FileAt(files: seq<WordListLoader.FileState>, id: nat): WordListLoader.FileState {
    if id < |files| then files[id] else WordListLoader.Missing
  }

  /**
   `Math.Pow(2, Bits_id)` as the bound of `id < max_Id`: a negative
   exponent gives a fraction, so only id 0 is tried.
   */
  function LegacyIdLimit(idBitCount: int): (limit: nat)
    ensures limit >= 1
  {
    if idBitCount < 0 then 1 else Pow2(idBitCount)
  }

  /**
   The dictionaries the version-3 loader keeps from id `id` on: a missing
   or unreadable file ends the scan, an unacceptable one is skipped.
   */
  function LegacyLoadFrom(files: seq<WordListLoader.FileState>, n: int, id: nat, limit: nat): (loaded: seq<seq<string>>)
    ensures WordListLoader.WellLoaded(loaded, n)
    ensures |loaded| <= (if id < limit then limit - id else 0)
    decreases limit - id
  {
    if id >= limit then []
    else
      match FileAt(files, id)
      case Missing => []
      case Unreadable => []
      case Lines(lines) =>
        var rest := LegacyLoadFrom(files, n, id + 1, limit);
        match LegacyAccept(lines, n)
        case None => rest
        case Some(words) =>
          LegacyAcceptAgrees(lines, n);
          [words] + rest
  }

  /** Version-3 `LoadFromDirectory(path, requiredWordCount, Bits_id)`. */
  function LegacyLoadFromDirectory(files: seq<WordListLoader.FileState>, requiredWordCount: int, idBitCount: int)
    : (loaded: seq<seq<string>>)
    ensures WordListLoader.WellLoaded(loaded, requiredWordCount)
    ensures |loaded| <= LegacyIdLimit(idBitCount)
  {
    LegacyLoadFrom(files, requiredWordCount, 0, LegacyIdLimit(idBitCount))
  }

  /** A directory without embedded resources, as the current loader sees it. */
  function AsSources(files: seq<WordListLoader.FileState>): (sources: seq<WordListLoader.IdSource>)
    ensures |sources| == |files|
  {
    seq(|files|, i requires 0 <= i < |files| => WordListLoader.IdSource(None, files[i]))
  }

  lemma {:induction false} LegacyLoadFromAgrees(files: seq<WordListLoader.FileState>, n: int, id: nat, limit: nat)
    requires forall k | 0 <= k < |files| :: !files[k].Unreadable?
    ensures LegacyLoadFrom(files, n, id, limit) == WordListLoader.LoadFrom(AsSources(files), n, id, limit)
    decreases limit - id
  {
    if id < limit {
      LegacyLoadFromAgrees(files, n, id + 1, limit);
      var file := FileAt(files, id);
      assert WordListLoader.SourceAt(AsSources(files), id) == WordListLoader.IdSource(None, file);
      if file.Lines? {
        LegacyAcceptAgrees(file.lines, n);
      }
    }
  }

  /**
   Without embedded resources or unreadable files, and with 0..30 id bits,
   the two loaders keep the same dictionaries.
   */
  lemma LegacyLoaderAgrees(files: seq<WordListLoader.FileState>, n: int, idBitCount: int)
    requires forall k | 0 <= k < |files| :: !files[k].Unreadable?
    requires 0 <= idBitCount < 31
    ensures LegacyLoadFromDirectory(files, n, idBitCount) == WordListLoader.LoadFrom(AsSources(files), n, 0, ShiftOne(idBitCount))
  {
    LegacyLoadFromAgrees(files, n, 0, LegacyIdLimit(idBitCount));
  }

  /** An unreadable file ends the old scan, while the current loader skips it and goes on. */
  lemma UnreadableFileAcrossVersions(lines: seq<string>, n: int)
    requires WordListLoader.AcceptList(lines, n).Some?
    ensures LegacyLoadFrom([WordListLoader.Unreadable, WordListLoader.Lines(lines)], n, 0, 2) == []
    ensures |WordListLoader.LoadFrom(AsSources([WordListLoader.Unreadable, WordListLoader.Lines(lines)]), n, 0, 2)| == 1
  {
    var sources := AsSources([WordListLoader.Unreadable, WordListLoader.Lines(lines)]);
    assert WordListLoader.SourceAt(sources, 0) == WordListLoader.IdSource(None, WordListLoader.Unreadable);
    assert WordListLoader.SourceAt(sources, 1) == WordListLoader.IdSource(None, WordListLoader.Lines(lines));
  }
}
