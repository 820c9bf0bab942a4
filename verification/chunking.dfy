/** Splitting the cleaned text into fixed-size chunks and choosing the text
    that is sent to speech synthesis. */
module Chunking {
  import opened Text

  /** Characters per chunk; the synthesis service accepts about 5000. */
  const ChunkSize: nat := 4000

  function Min(a: int, b: int): int {
    if a <= b then a else b
  }

  /** Python's `s[i:j]` for non-negative bounds: both ends clamped to the text. */
  function Slice(s: string, i: nat, j: nat): string {
    var lo := Min(i, |s|);
    var hi := if j < lo then lo else Min(j, |s|);
    s[lo..hi]
  }

  /** `len(range(0, n, ChunkSize))`. */
  function RangeLength(n: nat): nat {
    (n + ChunkSize - 1) / ChunkSize
  }

  /** `[s[i:i+ChunkSize] for i in range(0, len(s), ChunkSize)]`. */
  function Chunks(s: string): (chunks: seq<string>)
    ensures |chunks| == 0 <==> |s| == 0
    ensures |s| > 0 ==> (|chunks| - 1) * ChunkSize < |s| <= |chunks| * ChunkSize
    ensures forall k :: 0 <= k < |chunks| ==> 0 < |chunks[k]| <= ChunkSize
    ensures forall k :: 0 <= k < |chunks| - 1 ==> |chunks[k]| == ChunkSize
  {
    seq(RangeLength(|s|), k requires 0 <= k => Slice(s, k * ChunkSize, k * ChunkSize + ChunkSize))
  }

  /** Chunk `k` is the slice of the text starting at `k * ChunkSize`. */
  lemma ChunkAt(s: string, k: nat)
    requires k < |Chunks(s)|
    ensures k * ChunkSize < |s|
    ensures Chunks(s)[k] == s[k * ChunkSize .. Min(k * ChunkSize + ChunkSize, |s|)]
  {
  }

  /** Past the first chunk, the chunks of `s` are the chunks of the rest. */
  lemma ChunksUnfold(s: string)
    requires |s| > ChunkSize
    ensures Chunks(s) == [s[..ChunkSize]] + Chunks(s[ChunkSize..])
  {
    var c := Chunks(s);
    var c' := Chunks(s[ChunkSize..]);
    assert |c| == 1 + |c'|;
    forall k | 1 <= k < |c| ensures c[k] == c'[k - 1] {
      ChunkAt(s, k);
      ChunkAt(s[ChunkSize..], k - 1);
      var lo := (k - 1) * ChunkSize;
      var hi := Min(lo + ChunkSize, |s| - ChunkSize);
      assert lo + ChunkSize == k * ChunkSize;
      assert s[ChunkSize..][lo..hi] == s[lo + ChunkSize..hi + ChunkSize];
    }
    ChunkAt(s, 0);
  }

  /** Concatenating the chunks in order gives back the text exactly. */
  lemma {:induction false} ChunksConcat(s: string)
    ensures Flatten(Chunks(s)) == s
    decreases |s|
  {
    if |s| == 0 {
    } else if |s| <= ChunkSize {
      ChunkAt(s, 0);
      assert |Chunks(s)| == 1;
      assert s[0..|s|] == s;
      assert Chunks(s) == [s];
    } else {
      ChunksUnfold(s);
      ChunksConcat(s[ChunkSize..]);
      assert s == s[..ChunkSize] + s[ChunkSize..];
    }
  }

  /** The warning condition: more than one chunk, i.e. the text is longer
      than one chunk. */
  function IsLarge(cleaned: string): (large: bool)
    ensures large <==> |cleaned| > ChunkSize
  {
    |Chunks(cleaned)| > 1
  }

  /** The text handed to speech synthesis: the first chunk when there are
      several, the whole text otherwise. Either way the first `ChunkSize`
      characters (or all of them). */
  function TextToConvert(cleaned: string): (text: string)
    ensures |text| == Min(|cleaned|, ChunkSize)
    ensures text == cleaned[..|text|]
  {
    var chunks := Chunks(cleaned);
    if |chunks| > 1 then
      assert chunks[0] == cleaned[..ChunkSize] by { ChunkAt(cleaned, 0); }
      chunks[0]
    else cleaned
  }

  /** A text of exactly one chunk's length: one chunk, no warning, all of it
      is converted. */
  lemma ExactlyOneChunk(cleaned: string)
    requires |cleaned| == ChunkSize
    ensures |Chunks(cleaned)| == 1 && !IsLarge(cleaned)
    ensures TextToConvert(cleaned) == cleaned
  {
  }

  /** One character more: several chunks, the warning, and the last
      characters are not converted. */
  lemma OverOneChunk(cleaned: string)
    requires |cleaned| >= ChunkSize + 1
    ensures |Chunks(cleaned)| > 1 && IsLarge(cleaned)
    ensures |cleaned| - |TextToConvert(cleaned)| == |cleaned| - ChunkSize
  {
  }

  /** 8001 characters: three chunks, of which 4001 characters are skipped. */
  lemma EightThousandOne(cleaned: string)
    requires |cleaned| == 2 * ChunkSize + 1
    ensures |Chunks(cleaned)| == 3
    ensures |cleaned| - |TextToConvert(cleaned)| == ChunkSize + 1
  {
  }
}
