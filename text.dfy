/** The optional-value wrapper used for lookups that may fail. */
module Wrappers {
  datatype Option<T> = None | Some(value: T)
}

/**
 * The handful of Python string builtins the core relies on: `str.split`
 * with a literal separator, `str.join`, a bare `str.strip()` and
 * `str.replace` of one character by another.
 */
module Text {
  import opened Wrappers

  /** The characters Python's `str.isspace()` accepts: what a bare `strip()` removes. */
  predicate IsSpace(c: char) {
    c in Whitespace
  }

  const Whitespace: set<char> := {
    '\t', '\n', '\U{0B}', '\U{0C}', '\r', '\U{1C}', '\U{1D}', '\U{1E}', '\U{1F}', ' ',
    '\U{85}', '\U{A0}', '\U{1680}',
    '\U{2000}', '\U{2001}', '\U{2002}', '\U{2003}', '\U{2004}', '\U{2005}',
    '\U{2006}', '\U{2007}', '\U{2008}', '\U{2009}', '\U{200A}',
    '\U{2028}', '\U{2029}', '\U{202F}', '\U{205F}', '\U{3000}'
  }

  predicate AllSpace(s: string) {
    forall i :: 0 <= i < |s| ==> IsSpace(s[i])
  }

  /** `sep` occurs in `s` starting at position `j`. */
  predicate Occurs(s: string, sep: string, j: nat) {
    j + |sep| <= |s| && s[j..j + |sep|] == sep
  }

  /** The first occurrence of `sep` in `s` at or after position `i` (`str.find`). */
  function FindFrom(s: string, sep: string, i: nat): (r: Option<nat>)
    decreases |s| - i
    ensures r.Some? ==> i <= r.value && Occurs(s, sep, r.value)
    ensures r.Some? ==> forall j :: i <= j < r.value ==> !Occurs(s, sep, j)
    ensures r.None? ==> forall j :: i <= j ==> !Occurs(s, sep, j)
  {
    if i + |sep| > |s| then None
    else if s[i..i + |sep|] == sep then Some(i)
    else FindFrom(s, sep, i + 1)
  }

  /** An occurrence with none before it is the one `FindFrom` finds. */
  lemma FindFromIs(s: string, sep: string, i: nat, m: nat)
    requires i <= m && Occurs(s, sep, m)
    requires forall j :: i <= j < m ==> !Occurs(s, sep, j)
    ensures FindFrom(s, sep, i) == Some(m)
  {
  }

  /**
   * `s.split(sep)` for a non-empty literal separator: the pieces between
   * the non-overlapping occurrences of `sep`, scanned from the left.
   */
  function Split(s: string, sep: string): (parts: seq<string>)
    requires sep != []
    decreases |s|
    ensures |parts| >= 1
  {
    match FindFrom(s, sep, 0)
    case None => [s]
    case Some(i) => [s[..i]] + Split(s[i + |sep|..], sep)
  }

  /** `sep.join(parts)`. */
  function Join(sep: string, parts: seq<string>): (r: string)
    ensures |parts| >= 1 ==> parts[0] <= r
  {
    if |parts| == 0 then ""
    else if |parts| == 1 then parts[0]
    else parts[0] + sep + Join(sep, parts[1..])
  }

  /** Joining the pieces of a split gives back the string. */
  lemma {:induction false} JoinSplit(s: string, sep: string)
    requires sep != []
    ensures Join(sep, Split(s, sep)) == s
    decreases |s|
  {
    match FindFrom(s, sep, 0)
    case None =>
    case Some(i) =>
      var rest := s[i + |sep|..];
      var tail := Split(rest, sep);
      JoinSplit(rest, sep);
      var parts := [s[..i]] + tail;
      assert Split(s, sep) == parts;
      assert parts[1..] == tail;
      assert Join(sep, parts) == s[..i] + sep + Join(sep, tail);
      assert s == s[..i] + s[i..i + |sep|] + rest;
  }

  /**
   * Splitting on a one-character separator undoes a join of pieces that
   * do not contain that character.
   */
  lemma {:induction false} SplitJoin(parts: seq<string>, sep: string)
    requires |sep| == 1 && |parts| >= 1
    requires forall k :: 0 <= k < |parts| ==> sep[0] !in parts[k]
    ensures Split(Join(sep, parts), sep) == parts
    decreases |parts|
  {
    if |parts| == 1 {
      SplitWithoutSep(parts[0], sep);
    } else {
      JoinFirstSep(parts, sep);
      SplitJoin(parts[1..], sep);
      assert [parts[0]] + parts[1..] == parts;
    }
  }

  /** A string without the separator character splits into itself. */
  lemma SplitWithoutSep(s: string, sep: string)
    requires |sep| == 1 && sep[0] !in s
    ensures Split(s, sep) == [s]
  {
    forall j: nat ensures !Occurs(s, sep, j) {
      if j < |s| {
        assert s[j] != sep[0];
      }
    }
  }

  /** In a join of several pieces, the first separator follows the first piece. */
  lemma JoinFirstSep(parts: seq<string>, sep: string)
    requires |sep| == 1 && |parts| >= 2 && sep[0] !in parts[0]
    ensures FindFrom(Join(sep, parts), sep, 0) == Some(|parts[0]|)
    ensures Join(sep, parts)[..|parts[0]|] == parts[0]
    ensures Join(sep, parts)[|parts[0]| + 1..] == Join(sep, parts[1..])
  {
    var s := Join(sep, parts);
    var p := parts[0];
    assert s == p + sep + Join(sep, parts[1..]);
    forall j | 0 <= j < |p| ensures !Occurs(s, sep, j) {
      assert s[j] == p[j] && p[j] != sep[0];
    }
    assert s[|p|..|p| + 1] == sep;
    FindFromIs(s, sep, 0, |p|);
  }

  /** No piece of a split on a one-character separator contains that character. */
  lemma {:induction false} SplitNoSep(s: string, sep: string)
    requires |sep| == 1
    ensures forall k :: 0 <= k < |Split(s, sep)| ==> sep[0] !in Split(s, sep)[k]
    decreases |s|
  {
    match FindFrom(s, sep, 0)
    case None =>
      forall j | 0 <= j < |s| ensures s[j] != sep[0] {
        assert !Occurs(s, sep, j);
      }
    case Some(i) =>
      forall j | 0 <= j < i ensures s[j] != sep[0] {
        assert !Occurs(s, sep, j);
      }
      SplitNoSep(s[i + 1..], sep);
      var parts := Split(s, sep);
      assert parts == [s[..i]] + Split(s[i + 1..], sep);
      forall k | 0 <= k < |parts| ensures sep[0] !in parts[k] {
        if k > 0 {
          assert parts[k] == Split(s[i + 1..], sep)[k - 1];
        }
      }
  }

  /** A join of pieces and a separator that all avoid `c` avoids `c`. */
  lemma {:induction false} JoinAvoids(sep: string, parts: seq<string>, c: char)
    requires c !in sep
    requires forall k :: 0 <= k < |parts| ==> c !in parts[k]
    ensures c !in Join(sep, parts)
    decreases |parts|
  {
    if |parts| > 1 {
      JoinAvoids(sep, parts[1..], c);
    }
  }

  /** `s.lstrip()`. */
  function LStrip(s: string): string {
    if s != [] && IsSpace(s[0]) then LStrip(s[1..]) else s
  }

  /** `s.lstrip()` drops the leading whitespace and nothing else. */
  lemma {:induction false} LStripDrops(s: string)
    ensures |LStrip(s)| <= |s| && LStrip(s) == s[|s| - |LStrip(s)|..]
    ensures AllSpace(s[..|s| - |LStrip(s)|])
    ensures LStrip(s) == [] || !IsSpace(LStrip(s)[0])
    decreases |s|
  {
    if s != [] && IsSpace(s[0]) {
      var t := s[1..];
      LStripDrops(t);
      var n := |s| - |LStrip(t)|;
      assert t[n - 1..] == s[n..];
      forall i | 0 <= i < n ensures IsSpace(s[..n][i]) {
        if i > 0 {
          assert s[..n][i] == t[..n - 1][i - 1];
        }
      }
    }
  }

  /** `s.rstrip()`. */
  function RStrip(s: string): string {
    if s != [] && IsSpace(s[|s| - 1]) then RStrip(s[..|s| - 1]) else s
  }

  /** `s.rstrip()` drops the trailing whitespace and nothing else. */
  lemma {:induction false} RStripDrops(s: string)
    ensures |RStrip(s)| <= |s| && RStrip(s) == s[..|RStrip(s)|]
    ensures AllSpace(s[|RStrip(s)|..])
    ensures RStrip(s) == [] || !IsSpace(RStrip(s)[|RStrip(s)| - 1])
    decreases |s|
  {
    if s != [] && IsSpace(s[|s| - 1]) {
      var t := s[..|s| - 1];
      RStripDrops(t);
      var n := |RStrip(t)|;
      assert t[..n] == s[..n];
      forall i | 0 <= i < |s| - n ensures IsSpace(s[n..][i]) {
        if i < |t| - n {
          assert s[n..][i] == t[n..][i];
        }
      }
    }
  }

  /**
   * `s.strip()`: the infix of `s` left after cutting whitespace from both
   * ends; it neither starts nor ends with whitespace, and it is empty
   * exactly when `s` is all whitespace.
   */
  function Strip(s: string): (r: string)
    ensures exists a, b :: 0 <= a <= b <= |s| && r == s[a..b] && AllSpace(s[..a]) && AllSpace(s[b..])
    ensures r == [] || (!IsSpace(r[0]) && !IsSpace(r[|r| - 1]))
    ensures r == [] <==> AllSpace(s)
    ensures forall c :: c in r ==> c in s
  {
    var l := LStrip(s);
    LStripDrops(s);
    RStripDrops(l);
    var r := RStrip(l);
    var a := |s| - |l|;
    var b := a + |r|;
    assert s[a..b] == r && s[b..] == l[|r|..];
    assert r == [] ==> AllSpace(s) by {
      if r == [] {
        assert l == [] && s[..a] == s;
      }
    }
    assert r != [] ==> r[0] == l[0];
    r
  }

  /** A prefix one longer ends with the next element. */
  lemma SliceNext<T>(s: seq<T>, n: nat)
    requires n < |s|
    ensures s[..n + 1] == s[..n] + [s[n]]
  {
  }

  /** The prefix as long as the sequence is the sequence. */
  lemma SliceAll<T>(s: seq<T>)
    ensures s[..|s|] == s
  {
  }

  /** `s.replace(from, to)` for single characters. */
  function ReplaceChar(s: string, from: char, to: char): (r: string)
    ensures |r| == |s|
    ensures forall i :: 0 <= i < |s| ==> r[i] == (if s[i] == from then to else s[i])
  {
    if s == [] then []
    else [if s[0] == from then to else s[0]] + ReplaceChar(s[1..], from, to)
  }
}
