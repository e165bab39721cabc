/**
 * Mapping the lines of the summaries back to subtitle entries
 * (`create_filtered_dict`). A cursor into the subtitle table's order marks
 * the last subtitle matched. A summary line that is a subtitle text picks
 * that subtitle and moves the cursor to it, backwards if need be; any other
 * line picks the first subtitle at the cursor or one of the next two
 * positions that the similarity test accepts, and moves the cursor there.
 * The similarity test is a parameter.
 */
module Realign {
  import opened Wrappers
  import opened Text
  import opened OrderedDict
  import Grouping

  /** How many positions, starting at the cursor, a line that is not a subtitle text is tried against. */
  const Window: nat := 3

  const LineSeparator: string := "\n"

  /**
   * The similarity test as the caller sees it: `similar_sentences` hands back
   * the candidate subtitle when the two are similar, and the caller tests that
   * for truth, so an empty subtitle text is never matched.
   */
  predicate Accepts(similar: (string, string) -> bool, line: string, key: string) {
    key != "" && similar(line, key)
  }

  /**
   * The fuzzy fallback from offset `k` on: the first position among
   * `cursor + k`, …, `cursor + Window - 1` that lies in the table and whose
   * subtitle the test accepts for `line`.
   */
  function Probe(keys: seq<string>, similar: (string, string) -> bool, line: string, cursor: nat, k: nat)
    : (r: Option<nat>)
    requires k <= Window
    decreases Window - k
    ensures r.Some? ==> cursor + k <= r.value < cursor + Window && r.value < |keys|
    ensures r.Some? ==> Accepts(similar, line, keys[r.value])
    ensures r.Some? ==> forall j :: cursor + k <= j < r.value ==> !Accepts(similar, line, keys[j])
    ensures r.None? ==> forall j :: cursor + k <= j < cursor + Window && j < |keys| ==> !Accepts(similar, line, keys[j])
  {
    if k == Window then None
    else if cursor + k < |keys| && Accepts(similar, line, keys[cursor + k]) then Some(cursor + k)
    else Probe(keys, similar, line, cursor, k + 1)
  }

  /** The positions picked so far, in the order they were picked, and the cursor. */
  datatype Scan = Scan(picks: seq<nat>, cursor: nat)

  /** What one summary line does to the scan: at most one more pick, inside the table, where the cursor then is. */
  function Step(source: Table, similar: (string, string) -> bool, s: Scan, line: string): (r: Scan)
    requires Valid(source)
    ensures r == s || (r.picks == s.picks + [r.cursor] && r.cursor < |source.keys|)
  {
    if line in source.values then
      var p := FirstIndex(source.keys, line);
      Scan(s.picks + [p], p)
    else
      match Probe(source.keys, similar, line, s.cursor, 0)
      case Some(p) => Scan(s.picks + [p], p)
      case None => s
  }

  /**
   * A line that is a subtitle text picks the first position of that text and
   * moves the cursor there, wherever the cursor was.
   */
  lemma StepExactMatch(source: Table, similar: (string, string) -> bool, s: Scan, line: string)
    requires Valid(source) && line in source.values
    ensures Step(source, similar, s, line).picks == s.picks + [Step(source, similar, s, line).cursor]
    ensures Step(source, similar, s, line).cursor < |source.keys|
    ensures source.keys[Step(source, similar, s, line).cursor] == line
    ensures forall j :: 0 <= j < Step(source, similar, s, line).cursor ==> source.keys[j] != line
  {
  }

  /**
   * Any other line picks the first position from the cursor on, at most two
   * past it and inside the table, whose subtitle the test accepts, and moves
   * the cursor forward to it; when there is none, nothing changes.
   */
  lemma StepFuzzyMatch(source: Table, similar: (string, string) -> bool, s: Scan, line: string)
    requires Valid(source) && line !in source.values
    ensures var r := Step(source, similar, s, line);
      r != s ==>
        && r.picks == s.picks + [r.cursor]
        && s.cursor <= r.cursor < s.cursor + Window && r.cursor < |source.keys|
        && Accepts(similar, line, source.keys[r.cursor])
        && forall j :: s.cursor <= j < r.cursor ==> !Accepts(similar, line, source.keys[j])
    ensures Step(source, similar, s, line) == s <==>
      forall j :: s.cursor <= j < s.cursor + Window && j < |source.keys| ==> !Accepts(similar, line, source.keys[j])
  {
  }

  /** The scan after the lines, in order, from no picks and the cursor at 0. */
  function Feed(source: Table, similar: (string, string) -> bool, lines: seq<string>): (s: Scan)
    requires Valid(source)
    decreases |lines|
    ensures forall i :: 0 <= i < |s.picks| ==> s.picks[i] < |source.keys|
  {
    if lines == [] then Scan([], 0)
    else Step(source, similar, Feed(source, similar, lines[..|lines| - 1]), lines[|lines| - 1])
  }

  /** The lines of all the summaries, in order. */
  function AllLines(summaries: seq<string>): (lines: seq<string>)
    ensures |lines| >= |summaries|
  {
    if summaries == [] then []
    else AllLines(summaries[..|summaries| - 1]) + Split(summaries[|summaries| - 1], LineSeparator)
  }

  /** The source entries at the picked positions, in the order they were picked. */
  function Picked(source: Table, picks: seq<nat>): (es: seq<Entry>)
    requires Valid(source)
    requires forall i :: 0 <= i < |picks| ==> picks[i] < |source.keys|
    ensures |es| == |picks|
  {
    if picks == [] then []
    else Picked(source, picks[..|picks| - 1]) + [Entry(source.keys[picks[|picks| - 1]], source.values[source.keys[picks[|picks| - 1]]])]
  }

  /** Each pick copies the source's subtitle text and timestamp at that position. */
  lemma {:induction false} PickedFromSource(source: Table, picks: seq<nat>)
    requires Valid(source)
    requires forall i :: 0 <= i < |picks| ==> picks[i] < |source.keys|
    ensures forall i :: 0 <= i < |picks| ==>
      && Picked(source, picks)[i].key == source.keys[picks[i]]
      && Picked(source, picks)[i].value == source.values[source.keys[picks[i]]]
    decreases |picks|
  {
    if picks != [] {
      var init := picks[..|picks| - 1];
      PickedFromSource(source, init);
      forall i | 0 <= i < |init| ensures init[i] == picks[i] { }
    }
  }

  /** One more pick assigns one more source entry. */
  lemma PickOne(source: Table, filtered: Table, picks: seq<nat>, p: nat)
    requires Valid(source)
    requires forall i :: 0 <= i < |picks| ==> picks[i] < |source.keys|
    requires filtered == PutAll(Empty, Picked(source, picks))
    requires p < |source.keys|
    ensures Put(filtered, Entry(source.keys[p], source.values[source.keys[p]]))
      == PutAll(Empty, Picked(source, picks + [p]))
  {
    assert (picks + [p])[..|picks|] == picks;
  }

  /** The lines of one more summary follow those of the summaries before it. */
  lemma AllLinesNext(summaries: seq<string>, n: nat)
    requires n < |summaries|
    ensures AllLines(summaries[..n + 1]) == AllLines(summaries[..n]) + Split(summaries[n], LineSeparator)
  {
    assert summaries[..n + 1][..n] == summaries[..n];
  }

  /** Feeding one more line of a summary is one more step. */
  lemma FeedNext(source: Table, similar: (string, string) -> bool, before: seq<string>, lines: seq<string>, m: nat)
    requires Valid(source) && m < |lines|
    ensures Feed(source, similar, before + lines[..m + 1])
      == Step(source, similar, Feed(source, similar, before + lines[..m]), lines[m])
  {
    var fed := before + lines[..m];
    assert before + lines[..m + 1] == fed + [lines[m]];
    assert (fed + [lines[m]])[..|fed|] == fed;
  }

  /** The table `create_filtered_dict` returns. */
  function Realign(summaries: seq<string>, source: Table, similar: (string, string) -> bool): (r: Table)
    requires Valid(source)
    ensures Valid(r)
  {
    PutAll(Empty, Picked(source, Feed(source, similar, AllLines(summaries)).picks))
  }

  /**
   * The body of the inner loop of `create_filtered_dict` for one summary
   * line: the result table and cursor after the line, given those before it
   * and the positions picked so far.
   */
  method MatchLine(subtitles: Table, similar: (string, string) -> bool, filtered: Table,
                   lastSubIndex: nat, ghost picks: seq<nat>, subtitle: string)
    returns (filtered': Table, lastSubIndex': nat, ghost picks': seq<nat>)
    requires Valid(subtitles)
    requires forall i :: 0 <= i < |picks| ==> picks[i] < |subtitles.keys|
    requires filtered == PutAll(Empty, Picked(subtitles, picks))
    ensures Scan(picks', lastSubIndex') == Step(subtitles, similar, Scan(picks, lastSubIndex), subtitle)
    ensures filtered' == PutAll(Empty, Picked(subtitles, picks'))
  {
    if subtitle in subtitles.values {
      lastSubIndex' := FirstIndex(subtitles.keys, subtitle);
      PickOne(subtitles, filtered, picks, lastSubIndex');
      filtered' := Put(filtered, Entry(subtitle, subtitles.values[subtitle]));
      picks' := picks + [lastSubIndex'];
    } else {
      var found := ProbeWindow(subtitles.keys, similar, subtitle, lastSubIndex);
      if found.Some? {
        lastSubIndex' := found.value;
        PickOne(subtitles, filtered, picks, lastSubIndex');
        var key := subtitles.keys[lastSubIndex'];
        filtered' := Put(filtered, Entry(key, subtitles.values[key]));
        picks' := picks + [lastSubIndex'];
      } else {
        filtered', lastSubIndex', picks' := filtered, lastSubIndex, picks;
      }
    }
  }

  /**
   * The fuzzy fallback of `create_filtered_dict`: the positions from the
   * cursor on, at most `Window` of them and inside the table, tried in turn
   * until the test accepts one; the first accepted position, if any.
   */
  method ProbeWindow(keys: seq<string>, similar: (string, string) -> bool, subtitle: string, lastSubIndex: nat)
    returns (found: Option<nat>)
    ensures found == Probe(keys, similar, subtitle, lastSubIndex, 0)
  {
    var i: nat := 0;
    while i < Window
      invariant 0 <= i <= Window
      invariant Probe(keys, similar, subtitle, lastSubIndex, 0) == Probe(keys, similar, subtitle, lastSubIndex, i)
    {
      if lastSubIndex + i < |keys| {
        var key := keys[lastSubIndex + i];
        if similar(subtitle, key) && key != "" {
          return Some(lastSubIndex + i);
        }
      }
      i := i + 1;
    }
    return None;
  }

  /** The nested loops of `create_filtered_dict` over the summaries and their lines. */
  method CreateFilteredDict(summaries: seq<string>, subtitles: Table, similar: (string, string) -> bool)
    returns (filtered: Table)
    requires Valid(subtitles)
    ensures filtered == Realign(summaries, subtitles, similar)
  {
    filtered := Empty;
    var lastSubIndex: nat := 0;
    ghost var picks: seq<nat> := [];
    var n := 0;
    while n < |summaries|
      invariant 0 <= n <= |summaries|
      invariant Scan(picks, lastSubIndex) == Feed(subtitles, similar, AllLines(summaries[..n]))
      invariant filtered == PutAll(Empty, Picked(subtitles, picks))
    {
      ghost var before := AllLines(summaries[..n]);
      var listOfSubtitles := Split(summaries[n], LineSeparator);
      AllLinesNext(summaries, n);
      var m := 0;
      assert before + listOfSubtitles[..m] == before;
      while m < |listOfSubtitles|
        invariant 0 <= m <= |listOfSubtitles|
        invariant Scan(picks, lastSubIndex) == Feed(subtitles, similar, before + listOfSubtitles[..m])
        invariant filtered == PutAll(Empty, Picked(subtitles, picks))
      {
        var subtitle := listOfSubtitles[m];
        FeedNext(subtitles, similar, before, listOfSubtitles, m);
        filtered, lastSubIndex, picks := MatchLine(subtitles, similar, filtered, lastSubIndex, picks, subtitle);
        m := m + 1;
      }
      SliceAll(listOfSubtitles);
      n := n + 1;
    }
    SliceAll(summaries);
  }

  /**
   * The result holds only subtitles of the source, each with the source's
   * timestamp, lists each at most once, and is empty for no summaries.
   */
  lemma RealignWithinSource(summaries: seq<string>, source: Table, similar: (string, string) -> bool)
    requires Valid(source)
    ensures Valid(Realign(summaries, source, similar))
    ensures SubTable(Realign(summaries, source, similar), source)
    ensures summaries == [] ==> Realign(summaries, source, similar) == Empty
  {
    var es := Picked(source, Feed(source, similar, AllLines(summaries)).picks);
    assert Valid(Empty);
    assert SubTable(Empty, source);
    PickedFromSource(source, Feed(source, similar, AllLines(summaries)).picks);
    PutAllWithin(Empty, es, source);
  }

  /**
   * The result lists its subtitles in the order in which each was first
   * picked, whatever their order in the source.
   */
  lemma RealignFirstSelectionOrder(summaries: seq<string>, source: Table, similar: (string, string) -> bool)
    requires Valid(source)
    ensures FirstOccurrenceOrder(Realign(summaries, source, similar).keys,
                                 KeysOf(Picked(source, Feed(source, similar, AllLines(summaries)).picks)))
  {
    PutAllFirstAssignmentOrder(Picked(source, Feed(source, similar, AllLines(summaries)).picks));
  }

  /** Picking a subtitle the result already holds changes neither its value nor its position. */
  lemma ReselectChangesNothing(t: Table, source: Table, p: nat)
    requires Valid(source) && SubTable(t, source)
    requires p < |source.keys| && source.keys[p] in t.values
    ensures Put(t, Entry(source.keys[p], source.values[source.keys[p]])) == t
  {
    PutPresent(t, Entry(source.keys[p], source.values[source.keys[p]]));
  }

  /** Every line that is a subtitle text has that subtitle's position among the picks. */
  lemma {:induction false} FeedKeepsExact(source: Table, similar: (string, string) -> bool, lines: seq<string>, line: string)
    requires Valid(source) && line in lines && line in source.values
    ensures FirstIndex(source.keys, line) in Feed(source, similar, lines).picks
    decreases |lines|
  {
    var n := |lines|;
    var init, last := lines[..n - 1], lines[n - 1];
    var s := Feed(source, similar, init);
    assert Feed(source, similar, lines) == Step(source, similar, s, last) by {
      assert lines == init + [last];
      FeedSnoc(source, similar, init, last);
    }
    if last != line {
      var i :| 0 <= i < n && lines[i] == line;
      assert i < n - 1 && init[i] == line;
      FeedKeepsExact(source, similar, init, line);
      StepKeepsPicks(source, similar, s, last, FirstIndex(source.keys, line));
    }
  }

  /** A step never drops a pick. */
  lemma StepKeepsPicks(source: Table, similar: (string, string) -> bool, s: Scan, line: string, p: nat)
    requires Valid(source) && p in s.picks
    ensures p in Step(source, similar, s, line).picks
  {
    var r := Step(source, similar, s, line);
    if r != s {
      assert r.picks[..|s.picks|] == s.picks;
    }
  }

  /**
   * Every summary line that is a subtitle text is in the result, with the
   * source's timestamp.
   */
  lemma RealignKeepsExactLines(summaries: seq<string>, source: Table, similar: (string, string) -> bool, line: string)
    requires Valid(source)
    requires line in AllLines(summaries) && line in source.values
    ensures line in Realign(summaries, source, similar).values
    ensures Realign(summaries, source, similar).values[line] == source.values[line]
  {
    var picks := Feed(source, similar, AllLines(summaries)).picks;
    FeedKeepsExact(source, similar, AllLines(summaries), line);
    var p := FirstIndex(source.keys, line);
    var i :| 0 <= i < |picks| && picks[i] == p;
    var es := Picked(source, picks);
    PickedFromSource(source, picks);
    assert KeysOf(es)[i] == line;
    PutAllKeys(es);
    RealignWithinSource(summaries, source, similar);
  }

  /** A line that is the subtitle text at `p` picks `p` and moves the cursor there. */
  lemma StepExact(source: Table, similar: (string, string) -> bool, s: Scan, p: nat)
    requires Valid(source) && p < |source.keys|
    ensures Step(source, similar, s, source.keys[p]) == Scan(s.picks + [p], p)
  {
    FirstIndexDistinct(source.keys, p);
  }

  /** One more pick adds its source entry at the end. */
  lemma PickedAppend(source: Table, picks: seq<nat>, p: nat)
    requires Valid(source) && p < |source.keys|
    requires forall i :: 0 <= i < |picks| ==> picks[i] < |source.keys|
    ensures Picked(source, picks + [p]) == Picked(source, picks) + [Entry(source.keys[p], source.values[source.keys[p]])]
  {
    assert (picks + [p])[..|picks|] == picks;
  }

  /** Feeding the next subtitle text of the source picks its position. */
  lemma FeedNextKey(source: Table, similar: (string, string) -> bool, m: nat)
    requires Valid(source) && m < |source.keys|
    ensures Feed(source, similar, source.keys[..m + 1])
      == Scan(Feed(source, similar, source.keys[..m]).picks + [m], m)
  {
    SliceNext(source.keys, m);
    FeedSnoc(source, similar, source.keys[..m], source.keys[m]);
    StepExact(source, similar, Feed(source, similar, source.keys[..m]), m);
  }

  /** Feeding one more line is one more step. */
  lemma FeedSnoc(source: Table, similar: (string, string) -> bool, lines: seq<string>, line: string)
    requires Valid(source)
    ensures Feed(source, similar, lines + [line]) == Step(source, similar, Feed(source, similar, lines), line)
  {
    assert (lines + [line])[..|lines|] == lines;
  }

  /** The items of a table up to `m`, one at a time. */
  lemma ItemsNext(t: Table, m: nat)
    requires Valid(t) && m < |t.keys|
    ensures Items(t)[..m + 1] == Items(t)[..m] + [Entry(t.keys[m], t.values[t.keys[m]])]
  {
    var items := Items(t);
    assert items[..m + 1] == items[..m] + [items[m]];
  }

  /** Feeding the source's own subtitle texts, in order, picks every entry in order. */
  lemma {:induction false} FeedOwnKeys(source: Table, similar: (string, string) -> bool, m: nat)
    requires Valid(source) && m <= |source.keys|
    ensures Picked(source, Feed(source, similar, source.keys[..m]).picks) == Items(source)[..m]
    decreases m
  {
    if m > 0 {
      var before := Feed(source, similar, source.keys[..m - 1]).picks;
      var after := Feed(source, similar, source.keys[..m]).picks;
      var e := Entry(source.keys[m - 1], source.values[source.keys[m - 1]]);
      FeedOwnKeys(source, similar, m - 1);
      FeedNextKey(source, similar, m - 1);
      assert after == before + [m - 1];
      PickedAppend(source, before, m - 1);
      assert Picked(source, after) == Picked(source, before) + [e];
      ItemsNext(source, m - 1);
    }
  }

  /** The lines of a single summary are its pieces between newlines. */
  lemma AllLinesOne(summary: string)
    ensures AllLines([summary]) == Split(summary, LineSeparator)
  {
    assert [summary][..0] == [];
  }

  /** Summaries whose lines pick nothing give an empty result. */
  lemma RealignNoPicks(summaries: seq<string>, source: Table, similar: (string, string) -> bool)
    requires Valid(source)
    requires Feed(source, similar, AllLines(summaries)).picks == []
    ensures Realign(summaries, source, similar) == Empty
  {
  }

  /** Feeding the source's own subtitle texts, in order, rebuilds the source. */
  lemma RealignOwnKeys(summaries: seq<string>, source: Table, similar: (string, string) -> bool)
    requires Valid(source) && AllLines(summaries) == source.keys
    ensures Realign(summaries, source, similar) == source
  {
    OwnKeysRebuild(source, similar);
  }

  /**
   * A single summary that lists every subtitle text of the source, one per
   * line and in order, maps back to the whole source table.
   */
  lemma RealignWholeTable(source: Table, similar: (string, string) -> bool)
    requires Valid(source)
    requires forall i :: 0 <= i < |source.keys| ==> '\n' !in source.keys[i]
    ensures Realign([Join(LineSeparator, source.keys)], source, similar) == source
  {
    var summary := Join(LineSeparator, source.keys);
    AllLinesOne(summary);
    if source.keys == [] {
      assert summary == "";
      assert Split(summary, LineSeparator) == [""];
      var lines := [""];
      assert lines[..0] == [];
      assert Feed(source, similar, lines) == Step(source, similar, Scan([], 0), "");
      assert "" !in source.values;
      RealignNoPicks([summary], source, similar);
      assert source.values == map[] by {
        assert forall k :: k !in source.values;
      }
    } else {
      SplitJoin(source.keys, LineSeparator);
      RealignOwnKeys([summary], source, similar);
    }
  }

  /** A summary made of lines without newlines has those lines. */
  lemma AllLinesOfJoin(lines: seq<string>)
    requires |lines| >= 1 && forall i :: 0 <= i < |lines| ==> '\n' !in lines[i]
    ensures AllLines([Join(LineSeparator, lines)]) == lines
  {
    SplitJoin(lines, LineSeparator);
    AllLinesOne(Join(LineSeparator, lines));
  }

  /** The two subtitles of a two-entry table, fed in reverse order. */
  lemma FeedReversedPair(source: Table, similar: (string, string) -> bool)
    requires Valid(source) && |source.keys| == 2
    ensures Feed(source, similar, [source.keys[1], source.keys[0]]) == Scan([1, 0], 0)
  {
    var lines := [source.keys[1], source.keys[0]];
    assert lines[..1] == [source.keys[1]] && [source.keys[1]][..0] == [];
    assert Feed(source, similar, [source.keys[1]]) == Scan([1], 1) by {
      StepExact(source, similar, Scan([], 0), 1);
    }
    assert Feed(source, similar, lines) == Step(source, similar, Scan([1], 1), source.keys[0]);
    StepExact(source, similar, Scan([1], 1), 0);
  }

  /** Picking the two subtitles of a two-entry table in reverse order lists them in reverse. */
  lemma PutReversedPair(source: Table)
    requires Valid(source) && |source.keys| == 2
    ensures PutAll(Empty, Picked(source, [1, 0])).keys == [source.keys[1], source.keys[0]]
  {
    PickedPair(source, 1, 0);
    assert source.keys[1] != source.keys[0];
    PutAllTwo(Entry(source.keys[1], source.values[source.keys[1]]), Entry(source.keys[0], source.values[source.keys[0]]));
  }

  /** Two picks copy the two source entries at those positions. */
  lemma PickedPair(source: Table, p: nat, q: nat)
    requires Valid(source) && p < |source.keys| && q < |source.keys|
    ensures Picked(source, [p, q]) == [Entry(source.keys[p], source.values[source.keys[p]]),
                                       Entry(source.keys[q], source.values[source.keys[q]])]
  {
    PickedAppend(source, [], p);
    assert [] + [p] == [p];
    PickedAppend(source, [p], q);
    assert [p] + [q] == [p, q];
  }

  /**
   * Two subtitles, quoted back in reverse order: the cursor moves back to the
   * first subtitle, and the result lists the second subtitle before the first.
   */
  lemma ExactMatchMovesBack(source: Table, similar: (string, string) -> bool, a: string, b: string)
    requires Valid(source) && source.keys == [a, b]
    requires '\n' !in a && '\n' !in b
    ensures Feed(source, similar, AllLines([b + "\n" + a])).cursor == 0
    ensures Realign([b + "\n" + a], source, similar).keys == [b, a]
  {
    var summary := b + "\n" + a;
    assert AllLines([summary]) == [b, a] by {
      assert Join(LineSeparator, [b, a]) == summary;
      AllLinesOfJoin([b, a]);
    }
    FeedReversedPair(source, similar);
    PutReversedPair(source);
  }

  /**
   * A line that is no subtitle text is matched only within the window: from
   * the cursor at 0, a subtitle at position 3 is never picked, even when it
   * is the only one the test accepts.
   */
  lemma BeyondWindowIgnored(source: Table, similar: (string, string) -> bool, line: string)
    requires Valid(source) && |source.keys| == 4
    requires line !in source.values && '\n' !in line
    requires forall j :: 0 <= j < 3 ==> !Accepts(similar, line, source.keys[j])
    ensures Realign([line], source, similar) == Empty
  {
    assert AllLines([line]) == [line] by {
      assert Join(LineSeparator, [line]) == line;
      AllLinesOfJoin([line]);
    }
    assert Feed(source, similar, [line]) == Scan([], 0) by {
      assert [line][..0] == [];
      StepFuzzyMatch(source, similar, Scan([], 0), line);
    }
    RealignNoPicks([line], source, similar);
  }

  /**
   * A group is sent as its newline-suffixed subtitle texts run together, so
   * a summary that hands back the whole table's group unchanged ends in an
   * empty line; it still maps back to the whole source table.
   */
  lemma RealignSentGroup(source: Table, similar: (string, string) -> bool)
    requires Valid(source)
    requires forall i :: 0 <= i < |source.keys| ==> '\n' !in source.keys[i]
    ensures Realign([Join("", Grouping.WithNewline(source.keys))], source, similar) == source
  {
    var keys := source.keys;
    SentGroupLines(keys);
    FeedSnoc(source, similar, keys, "");
    OwnKeysRebuild(source, similar);
    RepickChangesNothing(source, similar, Feed(source, similar, keys), "");
  }

  /** The lines of a group as sent: its texts, then an empty line. */
  lemma SentGroupLines(texts: seq<string>)
    requires forall i :: 0 <= i < |texts| ==> '\n' !in texts[i]
    ensures AllLines([Join("", Grouping.WithNewline(texts))]) == texts + [""]
  {
    var lines := texts + [""];
    forall i | 0 <= i < |lines| ensures '\n' !in lines[i] {
      if i < |texts| {
        assert lines[i] == texts[i];
      }
    }
    Grouping.JoinWithNewline(texts);
    AllLinesOfJoin(lines);
  }

  /**
   * Once every subtitle is picked, a further line leaves the result as it
   * was: whatever it picks is already held.
   */
  lemma RepickChangesNothing(source: Table, similar: (string, string) -> bool, s: Scan, line: string)
    requires Valid(source)
    requires forall i :: 0 <= i < |s.picks| ==> s.picks[i] < |source.keys|
    requires PutAll(Empty, Picked(source, s.picks)) == source
    ensures PutAll(Empty, Picked(source, Step(source, similar, s, line).picks)) == source
  {
    var r := Step(source, similar, s, line);
    if r != s {
      var e := Entry(source.keys[r.cursor], source.values[source.keys[r.cursor]]);
      PickedAppend(source, s.picks, r.cursor);
      PutAllSnoc(Empty, Picked(source, s.picks), e);
      PutPresent(source, e);
    }
  }

  /** Feeding the source's own subtitle texts, in order, picks entries that rebuild it. */
  lemma OwnKeysRebuild(source: Table, similar: (string, string) -> bool)
    requires Valid(source)
    ensures PutAll(Empty, Picked(source, Feed(source, similar, source.keys).picks)) == source
  {
    FeedOwnKeys(source, similar, |source.keys|);
    SliceAll(source.keys);
    SliceAll(Items(source));
    PutAllItems(source);
  }
}
