/**
 The acceptance filter of `WordListLoader.LoadFromDirectory`
 (IpShared/WordEncoder.cs): which dictionaries get loaded, in which order,
 and what every loaded dictionary looks like. Reading files and embedded
 resources is outside the model; each dictionary id comes with what those
 reads produced.
 */
module WordListLoader {
  import opened Prelude
  import opened Text

  /** LINQ `Take(n)`: the first `n` elements, none for a non-positive count. */
  function Take<T>(s: seq<T>, n: int): (r: seq<T>)
    ensures |r| == (if n <= 0 then 0 else if n < |s| then n else |s|)
    ensures r == s[..|r|]
  {
    if n <= 0 then [] else if n < |s| then s[..n] else s
  }

  /** A word as the loader stores it: non-empty, no white space at either end, no upper-case letter. */
  predicate IsCleanWord(w: string) {
    |w| > 0 && !IsWhiteSpace(w[0]) && !IsWhiteSpace(w[|w| - 1]) && IsLowerCase(w)
  }

  /** Lower-casing never turns a character into white space or out of it. */
  lemma LowerKeepsWhiteSpace(c: char)
    ensures IsWhiteSpace(ToLowerChar(c)) == IsWhiteSpace(c)
  {
  }

  /** `line.Trim().ToLowerInvariant()` of a non-blank line: a clean word. */
  function CleanWord(line: string): (w: string)
    requires !IsBlank(line)
    ensures IsCleanWord(w)
  {
    var t := Trim(line);
    LowerKeepsWhiteSpace(t[0]);
    LowerKeepsWhiteSpace(t[|t| - 1]);
    Lower(t)
  }

  /** `Where(line => !IsNullOrWhiteSpace(line)).Select(line => line.Trim().ToLowerInvariant())`. */
  function Cleaned(lines: seq<string>): (words: seq<string>)
    ensures |words| <= |lines|
  {
    if |lines| == 0 then []
    else if IsBlank(lines[0]) then Cleaned(lines[1..])
    else [CleanWord(lines[0])] + Cleaned(lines[1..])
  }

  /** Every word that survives the filter is clean. */
  lemma CleanedWords(lines: seq<string>)
    ensures forall k | 0 <= k < |Cleaned(lines)| :: IsCleanWord(Cleaned(lines)[k])
  {
    forall k | 0 <= k < |Cleaned(lines)|
      ensures IsCleanWord(Cleaned(lines)[k])
    {
      CleanedWordAt(lines, k);
    }
  }

  lemma {:induction false} CleanedWordAt(lines: seq<string>, k: nat)
    requires k < |Cleaned(lines)|
    ensures IsCleanWord(Cleaned(lines)[k])
    decreases |lines|
  {
    var rest := Cleaned(lines[1..]);
    if IsBlank(lines[0]) {
      CleanedWordAt(lines[1..], k);
    } else if k > 0 {
      assert Cleaned(lines)[k] == rest[k - 1];
      CleanedWordAt(lines[1..], k - 1);
    }
  }

  /** Cleaning distributes over joining two runs of lines. */
  lemma {:induction false} CleanedAppend(a: seq<string>, b: seq<string>)
    ensures Cleaned(a + b) == Cleaned(a) + Cleaned(b)
  {
    if |a| == 0 {
      assert a + b == b;
    } else {
      assert (a + b)[0] == a[0];
      assert (a + b)[1..] == a[1..] + b;
      CleanedAppend(a[1..], b);
      if !IsBlank(a[0]) {
        var w := [CleanWord(a[0])];
        assert w + (Cleaned(a[1..]) + Cleaned(b)) == (w + Cleaned(a[1..])) + Cleaned(b);
      }
    }
  }

  /** A clean word passes through the filter unchanged. */
  lemma CleanWordIsFixed(w: string)
    requires IsCleanWord(w)
    ensures !IsBlank(w) && CleanWord(w) == w
  {
    TrimOfTrimmed(w);
    LowerOfLowerCase(w);
  }

  /** Cleaning is idempotent: a cleaned list passes through the filter unchanged. */
  lemma {:induction false} CleanedIdempotent(lines: seq<string>)
    ensures Cleaned(Cleaned(lines)) == Cleaned(lines)
  {
    if |lines| > 0 {
      CleanedIdempotent(lines[1..]);
      if !IsBlank(lines[0]) {
        var w := CleanWord(lines[0]);
        CleanWordIsFixed(w);
        var c := Cleaned(lines);
        assert c == [w] + Cleaned(lines[1..]);
        assert c[1..] == Cleaned(lines[1..]);
      }
    }
  }

  /**
   The list the loader keeps from a run of lines: the first `n` cleaned
   lines, provided there are `n` of them and no two are equal ignoring case.
   */
  function AcceptList(lines: seq<string>, n: int): (r: Option<seq<string>>)
    ensures r.Some? <==> 0 <= n <= |Cleaned(lines)| && DistinctIgnoringCase(Cleaned(lines)[..n])
    ensures r.Some? ==> r.value == Cleaned(lines)[..n]
    ensures r.Some? ==> |r.value| == n && DistinctIgnoringCase(r.value)
    ensures r.Some? ==> forall k | 0 <= k < n :: IsCleanWord(r.value[k])
  {
    var words := Take(Cleaned(lines), n);
    CleanedWords(lines);
    if |words| == n && DistinctIgnoringCase(words) then Some(words) else None
  }

  /** What reading `Words_{id}.txt` from the directory gives. */
  datatype FileState = Missing | Unreadable | Lines(lines: seq<string>)

  /**
   What is available for one dictionary id: the lines of the embedded
   resource, if there is one and it can be read, and the file.
   */
  datatype IdSource = IdSource(embedded: Option<seq<string>>, file: FileState)

  /** The source of an id; ids past the end have neither a resource nor a file. */
  function SourceAt(sources: seq<IdSource>, id: nat): IdSource {
    if id < |sources| then sources[id] else IdSource(None, Missing)
  }

  /**
   `LoadFromEmbeddedResource`: the resource's words if it holds an
   acceptable list (its read loop stops once `n` clean lines are collected,
   which is taking the first `n`).
   */
  function LoadFromEmbeddedResource(src: IdSource, n: int): (r: Option<seq<string>>)
    ensures r.Some? ==> src.embedded.Some? && r == AcceptList(src.embedded.value, n)
  {
    match src.embedded
    case None => None
    case Some(lines) => AcceptList(lines, n)
  }

  /** What the loader does with one id. */
  datatype Outcome = Keep(words: seq<string>) | Skip | Stop

  /**
   One id of the scan: an acceptable embedded list wins; otherwise a
   missing file ends the scan, an unreadable one is skipped, and a file's
   lines are kept when acceptable.
   */
  function Examine(src: IdSource, n: int): (r: Outcome)
    ensures r.Stop? <==> IsGap(src, n)
    ensures r.Keep? ==> (Some(r.words) == LoadFromEmbeddedResource(src, n)
      || (LoadFromEmbeddedResource(src, n).None? && src.file.Lines? && Some(r.words) == AcceptList(src.file.lines, n)))
    ensures r.Skip? ==> LoadFromEmbeddedResource(src, n).None? && !src.file.Missing?
  {
    match LoadFromEmbeddedResource(src, n)
    case Some(words) => Keep(words)
    case None =>
      match src.file
      case Missing => Stop
      case Unreadable => Skip
      case Lines(lines) =>
        match AcceptList(lines, n)
        case Some(words) => Keep(words)
        case None => Skip
  }

  /** The dictionaries loaded from id `id` on, up to the first gap or `maxId`. */
  function LoadFrom(sources: seq<IdSource>, n: int, id: nat, maxId: int): (loaded: seq<seq<string>>)
    decreases maxId - id
  {
    if id >= maxId then []
    else
      match Examine(SourceAt(sources, id), n)
      case Stop => []
      case Skip => LoadFrom(sources, n, id + 1, maxId)
      case Keep(words) => [words] + LoadFrom(sources, n, id + 1, maxId)
  }

  /** Every loaded dictionary has exactly `n` clean words, no two equal ignoring case. */
  predicate WellLoaded(lists: seq<seq<string>>, n: int) {
    forall k | 0 <= k < |lists| ::
      |lists[k]| == n && DistinctIgnoringCase(lists[k]) && forall j | 0 <= j < n :: IsCleanWord(lists[k][j])
  }

  /**
   `LoadFromDirectory`: scans ids 0, 1, ... below `1 << idBitCount`,
   preferring the embedded resource to the file of each id.
   */
  method LoadFromDirectory(sources: seq<IdSource>, requiredWordCount: int, idBitCount: int)
    returns (loaded: seq<seq<string>>)
    ensures loaded == LoadFrom(sources, requiredWordCount, 0, ShiftOne(idBitCount))
    ensures WellLoaded(loaded, requiredWordCount)
    ensures |loaded| <= (if ShiftOne(idBitCount) < 0 then 0 else ShiftOne(idBitCount))
  {
    loaded := [];
    var maxId := ShiftOne(idBitCount);
    var id: nat := 0;
    while id < maxId
      invariant loaded + LoadFrom(sources, requiredWordCount, id, maxId) == LoadFrom(sources, requiredWordCount, 0, maxId)
      decreases maxId - id
    {
      var outcome := Examine(SourceAt(sources, id), requiredWordCount);
      if outcome.Stop? {
        break;
      }
      if outcome.Keep? {
        loaded := loaded + [outcome.words];
      }
      id := id + 1;
    }
    LoadFromWell(sources, requiredWordCount, 0, maxId);
    LoadFromBound(sources, requiredWordCount, 0, maxId);
  }

  lemma {:induction false} LoadFromWell(sources: seq<IdSource>, n: int, id: nat, maxId: int)
    ensures WellLoaded(LoadFrom(sources, n, id, maxId), n)
    decreases maxId - id
  {
    if id < maxId {
      LoadFromWell(sources, n, id + 1, maxId);
    }
  }

  /** At most 16 dictionaries are loaded with the default four id bits. */
  lemma DefaultLoadBound(sources: seq<IdSource>, n: int)
    ensures |LoadFrom(sources, n, 0, ShiftOne(4))| <= 16
  {
    Pow2Constants();
    LoadFromBound(sources, n, 0, 16);
  }

  lemma {:induction false} LoadFromBound(sources: seq<IdSource>, n: int, id: nat, maxId: int)
    ensures |LoadFrom(sources, n, id, maxId)| <= (if id < maxId then maxId - id else 0)
    decreases maxId - id
  {
    if id < maxId {
      LoadFromBound(sources, n, id + 1, maxId);
    }
  }

  /** Id `id` ends the scan: no acceptable embedded list and no file. */
  predicate IsGap(src: IdSource, n: int) {
    LoadFromEmbeddedResource(src, n).None? && src.file.Missing?
  }

  /**
   Nothing after the first gap matters: two directories that agree on the
   ids up to a gap load the same dictionaries.
   */
  lemma {:induction false} ScanStopsAtGap(sources: seq<IdSource>, other: seq<IdSource>, n: int, id: nat, gap: nat, maxId: int)
    requires id <= gap < |sources| && gap < |other|
    requires forall i | 0 <= i <= gap :: sources[i] == other[i]
    requires IsGap(sources[gap], n)
    ensures LoadFrom(sources, n, id, maxId) == LoadFrom(other, n, id, maxId)
    decreases gap - id
  {
    assert SourceAt(sources, id) == SourceAt(other, id);
    if id < gap {
      ScanStopsAtGap(sources, other, n, id + 1, gap, maxId);
    }
  }
}
