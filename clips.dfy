/**
 * The string work of `split_video`: turning each kept timestamp line into a
 * start and an end time for ffmpeg, and naming the numbered chunk files.
 */
module Clips {
  import opened Wrappers
  import opened Text
  import opened OrderedDict

  /** What separates the start and end times on an SRT timestamp line. */
  const Arrow: string := " --> "

  /**
   * The start and end of a timestamp line: the first two pieces of the line
   * split on the arrow, each with its decimal comma turned into a point.
   * A line without an arrow has no second piece: indexing it fails.
   */
  function ClipTimes(timestamp: string): (r: Option<(string, string)>)
    ensures r.Some? ==> ',' !in r.value.0 && ',' !in r.value.1
  {
    var pieces := Split(timestamp, Arrow);
    if |pieces| < 2 then None
    else Some((ReplaceChar(pieces[0], ',', '.'), ReplaceChar(pieces[1], ',', '.')))
  }

  /** A timestamp line has start and end times exactly when it holds an arrow. */
  lemma ClipTimesDefined(timestamp: string)
    ensures ClipTimes(timestamp).None? <==> forall j :: !Occurs(timestamp, Arrow, j)
  {
  }

  /** No arrow starts where the fourth character is not a `>`. */
  lemma NoArrowAt(s: string, j: nat)
    requires j + 3 < |s| && s[j + 3] != '>'
    ensures !Occurs(s, Arrow, j)
  {
    if j + 5 <= |s| {
      assert s[j..j + 5][3] == s[j + 3];
    }
  }

  /** A string without `>` holds no arrow. */
  lemma NoArrowWithoutGt(b: string)
    requires '>' !in b
    ensures forall j: nat :: !Occurs(b, Arrow, j)
  {
    forall j: nat ensures !Occurs(b, Arrow, j) {
      if j + 5 <= |b| {
        assert b[j + 3] in b;
        NoArrowAt(b, j);
      }
    }
  }

  /** In `a --> b` with no `>` in `a`, no arrow starts inside `a`. */
  lemma FirstArrowAfter(a: string, b: string)
    requires '>' !in a
    ensures forall j :: 0 <= j < |a| ==> !Occurs(a + Arrow + b, Arrow, j)
  {
    var s := a + Arrow + b;
    forall j | 0 <= j < |a| ensures !Occurs(s, Arrow, j) {
      if j + 3 < |a| {
        assert s[j + 3] == a[j + 3];
        assert a[j + 3] in a;
      } else {
        assert s[j + 3] == Arrow[j + 3 - |a|];
      }
      NoArrowAt(s, j);
    }
  }

  /**
   * An SRT-style range `a --> b` whose two times hold no `>` gives back both
   * times, with their commas turned into points.
   */
  lemma ClipTimesOfRange(a: string, b: string)
    requires '>' !in a && '>' !in b
    ensures ClipTimes(a + Arrow + b) == Some((ReplaceChar(a, ',', '.'), ReplaceChar(b, ',', '.')))
  {
    var s := a + Arrow + b;
    var n := |a|;
    FirstArrowAfter(a, b);
    assert s[n..n + 5] == Arrow;
    FindFromIs(s, Arrow, 0, n);
    assert s[n + 5..] == b && s[..n] == a;
    NoArrowWithoutGt(b);
    assert Split(b, Arrow) == [b];
    assert Split(s, Arrow) == [a, b];
  }

  /** The decimal digit for `d`. */
  function DigitChar(d: nat): (c: char)
    requires d < 10
    ensures '0' <= c <= '9'
  {
    ['0', '1', '2', '3', '4', '5', '6', '7', '8', '9'][d]
  }

  /** The number a decimal digit stands for. */
  function DigitValue(c: char): nat
    requires '0' <= c <= '9'
  {
    if c == '0' then 0 else if c == '1' then 1 else if c == '2' then 2 else if c == '3' then 3
    else if c == '4' then 4 else if c == '5' then 5 else if c == '6' then 6 else if c == '7' then 7
    else if c == '8' then 8 else 9
  }

  predicate IsDigits(s: string) {
    forall i :: 0 <= i < |s| ==> '0' <= s[i] <= '9'
  }

  /** `n` in decimal, without leading zeros (`str(n)`). */
  function Digits(n: nat): (s: string)
    ensures |s| >= 1 && IsDigits(s)
  {
    if n < 10 then [DigitChar(n)] else Digits(n / 10) + [DigitChar(n % 10)]
  }

  /** The number a string of decimal digits stands for. */
  function Value(s: string): nat
    requires IsDigits(s)
  {
    if s == [] then 0 else Value(s[..|s| - 1]) * 10 + DigitValue(s[|s| - 1])
  }

  function Zeros(k: nat): (s: string)
    ensures |s| == k && IsDigits(s)
  {
    if k == 0 then [] else Zeros(k - 1) + ['0']
  }

  /** `n` formatted as `{n:04d}`: its decimal digits, padded with zeros on the left to four places. */
  function Pad4(n: nat): (s: string)
    ensures IsDigits(s)
  {
    var d := Digits(n);
    if |d| < 4 then Zeros(4 - |d|) + d else d
  }

  /** The file name of chunk `i` in `folder`: `f"{folder}/chunk_{i:04d}.mp4"`. */
  function ChunkName(folder: string, i: nat): (name: string)
    ensures |name| >= |folder| + 11
    ensures name[..|folder| + 7] == folder + "/chunk_" && name[|name| - 4..] == ".mp4"
  {
    folder + "/chunk_" + Pad4(i) + ".mp4"
  }

  /** Reading back the decimal digits of `n` gives `n`. */
  lemma {:induction false} ValueDigits(n: nat)
    ensures Value(Digits(n)) == n
  {
    var d := Digits(n);
    if n >= 10 {
      ValueDigits(n / 10);
      assert d[..|d| - 1] == Digits(n / 10);
    }
    assert DigitValue(DigitChar(n % 10)) == n % 10;
  }

  /** Leading zeros do not change the number a string of digits stands for. */
  lemma {:induction false} ValueLeadingZeros(k: nat, s: string)
    requires IsDigits(s)
    ensures Value(Zeros(k) + s) == Value(s)
    decreases |s|, k
  {
    if s == [] {
      assert Zeros(k) + s == Zeros(k);
      if k > 0 {
        ValueLeadingZeros(k - 1, s);
        assert Zeros(k - 1) + s == Zeros(k - 1);
        assert Zeros(k)[..k - 1] == Zeros(k - 1);
      }
    } else {
      var t := Zeros(k) + s;
      ValueLeadingZeros(k, s[..|s| - 1]);
      assert t[..|t| - 1] == Zeros(k) + s[..|s| - 1];
    }
  }

  /** Padding keeps the number: the padded digits of `n` stand for `n`, in at least four places. */
  lemma Pad4Value(n: nat)
    ensures |Pad4(n)| >= 4 && Value(Pad4(n)) == n
    ensures n < 10000 ==> |Pad4(n)| == 4
  {
    ValueDigits(n);
    var d := Digits(n);
    if |d| < 4 {
      ValueLeadingZeros(4 - |d|, d);
    }
    if n < 10000 {
      DigitsShort(n);
    }
  }

  /** Numbers below 10000 have at most four digits. */
  lemma {:induction false} DigitsShort(n: nat)
    requires n < 10000
    ensures |Digits(n)| <= 4
  {
    if n >= 10 {
      assert |Digits(n)| == |Digits(n / 10)| + 1;
      if n >= 100 {
        assert |Digits(n / 10)| == |Digits(n / 100)| + 1 by {
          assert n / 10 / 10 == n / 100;
        }
        if n >= 1000 {
          assert |Digits(n / 100)| == |Digits(n / 1000)| + 1 by {
            assert n / 100 / 10 == n / 1000;
          }
        }
      }
    }
  }

  /** Different chunks of one folder get different file names. */
  lemma ChunkNamesDistinct(folder: string, i: nat, j: nat)
    requires ChunkName(folder, i) == ChunkName(folder, j)
    ensures i == j
  {
    var pre := folder + "/chunk_";
    var a, b := ChunkName(folder, i), ChunkName(folder, j);
    assert |Pad4(i)| == |Pad4(j)|;
    assert a[|pre|..|a| - 4] == Pad4(i);
    assert b[|pre|..|b| - 4] == Pad4(j);
    Pad4Value(i);
    Pad4Value(j);
  }

  /** One chunk to cut: its start and end times and the file it goes to. */
  datatype Chunk = Chunk(start: string, end: string, file: string)

  /** `list(d.values())`: the timestamps of the table, in its order. */
  function Timestamps(t: Table): (stamps: seq<string>)
    requires Valid(t)
    ensures |stamps| == |t.keys|
    ensures forall i :: 0 <= i < |t.keys| ==> stamps[i] == t.values[t.keys[i]]
  {
    seq(|t.keys|, i requires 0 <= i < |t.keys| => t.values[t.keys[i]])
  }

  /** `chunk` is what `split_video` cuts the `k`-th time, for timestamp line `stamp`. */
  predicate Cuts(stamp: string, folder: string, k: nat, chunk: Chunk) {
    ClipTimes(stamp) == Some((chunk.start, chunk.end)) && chunk.file == ChunkName(folder, k)
  }

  /**
   * The chunks cut for the timestamp lines `stamps`, in order, the `k`-th
   * written to the `k`-th chunk file; nothing once a line has no arrow.
   */
  function Plan(stamps: seq<string>, folder: string): (r: Option<seq<Chunk>>)
    decreases |stamps|
    ensures r.Some? ==> |r.value| == |stamps|
  {
    if stamps == [] then Some([])
    else
      match Plan(stamps[..|stamps| - 1], folder)
      case None => None
      case Some(init) =>
        match ClipTimes(stamps[|stamps| - 1])
        case None => None
        case Some(times) => Some(init + [Chunk(times.0, times.1, ChunkName(folder, |stamps| - 1))])
  }

  /**
   * The plan fails exactly when some timestamp line has no arrow; otherwise
   * it has one chunk per line, the `k`-th cut from the `k`-th line into the
   * `k`-th chunk file.
   */
  lemma {:induction false} PlanCuts(stamps: seq<string>, folder: string)
    ensures Plan(stamps, folder).None? <==> exists k :: 0 <= k < |stamps| && ClipTimes(stamps[k]).None?
    ensures Plan(stamps, folder).Some? ==> |Plan(stamps, folder).value| == |stamps|
    ensures Plan(stamps, folder).Some? ==> forall k :: 0 <= k < |stamps| ==>
      Cuts(stamps[k], folder, k, Plan(stamps, folder).value[k])
    decreases |stamps|
  {
    if stamps != [] {
      var n := |stamps|;
      var init := stamps[..n - 1];
      PlanCuts(init, folder);
      forall k | 0 <= k < n - 1 ensures init[k] == stamps[k] { }
      if Plan(init, folder).Some? && ClipTimes(stamps[n - 1]).Some? {
        var chunks := Plan(init, folder).value;
        var times := ClipTimes(stamps[n - 1]).value;
        var c := Chunk(times.0, times.1, ChunkName(folder, n - 1));
        assert Plan(stamps, folder).value == chunks + [c];
        forall k | 0 <= k < n ensures Cuts(stamps[k], folder, k, (chunks + [c])[k]) {
          if k < n - 1 {
            assert (chunks + [c])[k] == chunks[k];
          }
        }
      }
    }
  }

  /** A plan that fails for some lines fails for every extension of them. */
  lemma {:induction false} PlanFailsOn(stamps: seq<string>, folder: string, m: nat)
    requires m <= |stamps| && Plan(stamps[..m], folder).None?
    ensures Plan(stamps, folder).None?
    decreases |stamps| - m
  {
    if m < |stamps| {
      assert stamps[..m + 1][..m] == stamps[..m];
      PlanFailsOn(stamps, folder, m + 1);
    } else {
      assert stamps[..m] == stamps;
    }
  }

  /**
   * What `split_video` cuts for the filtered table: the chunks for its
   * timestamps, in the table's order.
   */
  method PlanChunks(filtered: Table, tempFolder: string) returns (chunks: Option<seq<Chunk>>)
    requires Valid(filtered)
    ensures chunks == Plan(Timestamps(filtered), tempFolder)
  {
    var timestamps := Timestamps(filtered);
    chunks := CutChunks(timestamps, tempFolder);
  }

  /**
   * The loop of `split_video` over the timestamps: one chunk per timestamp,
   * in order; nothing when some timestamp has no arrow, where the source
   * stops with an error.
   */
  method CutChunks(timestamps: seq<string>, tempFolder: string) returns (chunks: Option<seq<Chunk>>)
    ensures chunks == Plan(timestamps, tempFolder)
  {
    var planned: seq<Chunk> := [];
    var i := 0;
    while i < |timestamps|
      invariant 0 <= i <= |timestamps|
      invariant Plan(timestamps[..i], tempFolder) == Some(planned)
    {
      var times := ClipTimes(timestamps[i]);
      assert timestamps[..i + 1][..i] == timestamps[..i];
      if times.None? {
        PlanFailsOn(timestamps, tempFolder, i + 1);
        return None;
      }
      var chunkName := ChunkName(tempFolder, i);
      planned := planned + [Chunk(times.value.0, times.value.1, chunkName)];
      i := i + 1;
    }
    assert timestamps[..i] == timestamps;
    chunks := Some(planned);
  }

  /** No two chunks of a plan are written to the same file. */
  lemma PlanFilesDistinct(chunks: seq<Chunk>, tempFolder: string)
    requires forall i :: 0 <= i < |chunks| ==> chunks[i].file == ChunkName(tempFolder, i)
    ensures forall i, j :: 0 <= i < j < |chunks| ==> chunks[i].file != chunks[j].file
  {
    forall i, j | 0 <= i < j < |chunks| ensures chunks[i].file != chunks[j].file {
      if chunks[i].file == chunks[j].file {
        ChunkNamesDistinct(tempFolder, i, j);
      }
    }
  }
}
