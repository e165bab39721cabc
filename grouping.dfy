/**
 * Packing the subtitle texts, each followed by a newline, into groups whose
 * token totals stay within a budget (`build_subtitle_groups`). The token
 * counter is a parameter.
 */
module Grouping {
  import opened Text
  import opened OrderedDict

  /** Each subtitle text with a newline appended, in table order. */
  function WithNewline(texts: seq<string>): (lines: seq<string>)
    ensures |lines| == |texts|
    ensures forall i :: 0 <= i < |texts| ==> lines[i] == texts[i] + "\n"
  {
    if texts == [] then [] else WithNewline(texts[..|texts| - 1]) + [texts[|texts| - 1] + "\n"]
  }

  /**
   * A group as it is sent, its newline-suffixed lines run together, is its
   * texts joined by newlines with an empty last line after the final newline.
   */
  lemma {:induction false} JoinWithNewline(texts: seq<string>)
    ensures Join("", WithNewline(texts)) == Join("\n", texts + [""])
    decreases |texts|
  {
    if texts != [] {
      var w := WithNewline(texts);
      var rest := texts[1..];
      assert (texts + [""])[1..] == rest + [""];
      if rest == [] {
        assert w == [texts[0] + "\n"];
      } else {
        assert w[1..] == WithNewline(rest);
        JoinWithNewline(rest);
      }
    }
  }

  /** The groups laid end to end. */
  function Flatten(groups: seq<seq<string>>): seq<string> {
    if groups == [] then [] else Flatten(groups[..|groups| - 1]) + groups[|groups| - 1]
  }

  /** The tokens of a group: the sum of the counts of its lines. */
  function Tokens(count: string -> nat, group: seq<string>): (total: nat)
    ensures forall i :: 0 <= i < |group| ==> count(group[i]) <= total
  {
    if group == [] then 0 else Tokens(count, group[..|group| - 1]) + count(group[|group| - 1])
  }

  /** A group of two or more lines keeps to the budget. */
  predicate WithinBudget(count: string -> nat, maxTokens: int, group: seq<string>) {
    |group| >= 2 ==> Tokens(count, group) <= maxTokens
  }

  /** The next group starts with a line that would have overrun the budget of the one before. */
  predicate Overruns(count: string -> nat, maxTokens: int, group: seq<string>, next: seq<string>) {
    next != [] && Tokens(count, group) + count(next[0]) > maxTokens
  }

  /**
   * Greedy packing: every group but the first has a line, every group of
   * several lines keeps to the budget, and each group was closed only
   * because its successor's first line did not fit.
   */
  predicate Packed(count: string -> nat, maxTokens: int, groups: seq<seq<string>>) {
    && (forall i :: 0 < i < |groups| ==> groups[i] != [])
    && (forall i :: 0 <= i < |groups| ==> WithinBudget(count, maxTokens, groups[i]))
    && (forall i :: 0 <= i < |groups| - 1 ==> Overruns(count, maxTokens, groups[i], groups[i + 1]))
  }

  /**
   * What `build_subtitle_groups` returns for `lines` (the texts with their
   * newlines): a greedy packing that lays out the lines in order, with no
   * groups for no lines and an empty first group exactly when the first
   * line alone overruns the budget.
   */
  predicate GreedyGroups(count: string -> nat, maxTokens: int, lines: seq<string>, groups: seq<seq<string>>) {
    && Flatten(groups) == lines
    && (lines == [] <==> groups == [])
    && Packed(count, maxTokens, groups)
    && (lines != [] ==> (groups[0] == [] <==> count(lines[0]) > maxTokens))
  }

  /** The loop of `build_subtitle_groups` over the subtitle table, in order. */
  method BuildSubtitleGroups(subtitles: Table, count: string -> nat, maxTokens: int)
    returns (groups: seq<seq<string>>)
    ensures GreedyGroups(count, maxTokens, WithNewline(subtitles.keys), groups)
  {
    ghost var lines := WithNewline(subtitles.keys);
    groups := [];
    var currentGroup: seq<string> := [];
    var currentTokenCount: int := 0;
    var i := 0;
    while i < |subtitles.keys|
      invariant 0 <= i <= |subtitles.keys|
      invariant Flatten(groups + [currentGroup]) == lines[..i]
      invariant currentTokenCount == Tokens(count, currentGroup)
      invariant i == 0 ==> groups == [] && currentGroup == []
      invariant i > 0 ==> currentGroup != [] && Packed(count, maxTokens, groups + [currentGroup])
      invariant i > 0 ==> ((groups + [currentGroup])[0] == [] <==> count(lines[0]) > maxTokens)
    {
      var subtitleWithNewline := subtitles.keys[i] + "\n";
      var subtitleTokenCount := count(subtitleWithNewline);
      assert subtitleWithNewline == lines[i];
      SliceNext(lines, i);
      if currentTokenCount + subtitleTokenCount <= maxTokens {
        GrowLast(count, maxTokens, groups, currentGroup, subtitleWithNewline);
        currentGroup := currentGroup + [subtitleWithNewline];
        currentTokenCount := currentTokenCount + subtitleTokenCount;
      } else {
        CloseLast(count, maxTokens, groups, currentGroup, subtitleWithNewline);
        groups := groups + [currentGroup];
        currentGroup := [subtitleWithNewline];
        currentTokenCount := subtitleTokenCount;
      }
      i := i + 1;
    }
    assert lines[..i] == lines;
    if currentGroup != [] {
      groups := groups + [currentGroup];
    }
  }

  /** Adding a line that fits to the open group keeps the packing greedy. */
  lemma GrowLast(count: string -> nat, maxTokens: int, groups: seq<seq<string>>, current: seq<string>, line: string)
    requires current == [] ==> groups == []
    requires current != [] ==> Packed(count, maxTokens, groups + [current])
    requires Tokens(count, current) + count(line) <= maxTokens
    ensures Packed(count, maxTokens, groups + [current + [line]])
    ensures Flatten(groups + [current + [line]]) == Flatten(groups + [current]) + [line]
    ensures current == [] ==> (groups + [current + [line]])[0] == [line]
    ensures current != [] ==> ((groups + [current + [line]])[0] == [] <==> (groups + [current])[0] == [])
  {
    var before := groups + [current];
    var after := groups + [current + [line]];
    assert after[..|after| - 1] == groups && before[..|before| - 1] == groups;
    assert (current + [line])[..|current|] == current;
    forall i | 0 <= i < |after| ensures WithinBudget(count, maxTokens, after[i]) {
      if i < |groups| {
        assert after[i] == before[i];
      }
    }
    forall i | 0 <= i < |after| - 1 ensures Overruns(count, maxTokens, after[i], after[i + 1]) {
      assert after[i] == before[i];
      if i + 1 == |groups| {
        assert after[i + 1][0] == before[i + 1][0];
      } else {
        assert after[i + 1] == before[i + 1];
      }
    }
  }

  /** Closing the open group because the next line does not fit keeps the packing greedy. */
  lemma CloseLast(count: string -> nat, maxTokens: int, groups: seq<seq<string>>, current: seq<string>, line: string)
    requires current == [] ==> groups == []
    requires current != [] ==> Packed(count, maxTokens, groups + [current])
    requires Tokens(count, current) + count(line) > maxTokens
    ensures Packed(count, maxTokens, groups + [current] + [[line]])
    ensures Flatten(groups + [current] + [[line]]) == Flatten(groups + [current]) + [line]
    ensures (groups + [current] + [[line]])[0] == (groups + [current])[0]
  {
    var before := groups + [current];
    var after := before + [[line]];
    assert after[..|after| - 1] == before;
    assert Tokens(count, [line]) == count(line) by {
      assert [line][..0] == [];
    }
    forall i | 0 <= i < |after| - 1 ensures Overruns(count, maxTokens, after[i], after[i + 1]) {
      assert after[i] == before[i];
      if i + 1 < |before| {
        assert after[i + 1] == before[i + 1];
      }
    }
  }

  /** The first group followed by the rest. */
  lemma {:induction false} FlattenFront(groups: seq<seq<string>>)
    requires groups != []
    ensures Flatten(groups) == groups[0] + Flatten(groups[1..])
    decreases |groups|
  {
    var n := |groups|;
    if n > 1 {
      var init := groups[..n - 1];
      FlattenFront(init);
      assert init[1..] == groups[1..][..n - 2];
      assert groups[1..][n - 2] == groups[n - 1];
    } else {
      assert groups[1..] == [];
    }
  }

  /** A prefix of a group has no more tokens than the group. */
  lemma {:induction false} TokensPrefix(count: string -> nat, group: seq<string>, j: nat)
    requires j <= |group|
    ensures Tokens(count, group[..j]) <= Tokens(count, group)
    decreases |group|
  {
    if j < |group| {
      var init := group[..|group| - 1];
      assert group[..j] == init[..j];
      TokensPrefix(count, init, j);
    } else {
      assert group[..j] == group;
    }
  }

  /** Dropping the first group keeps a packing greedy. */
  lemma PackedTail(count: string -> nat, maxTokens: int, groups: seq<seq<string>>)
    requires groups != [] && Packed(count, maxTokens, groups)
    ensures Packed(count, maxTokens, groups[1..])
  {
    var tail := groups[1..];
    forall i | 0 <= i < |tail| - 1 ensures Overruns(count, maxTokens, tail[i], tail[i + 1]) {
      assert tail[i] == groups[i + 1] && tail[i + 1] == groups[i + 2];
    }
    forall i | 0 <= i < |tail| ensures WithinBudget(count, maxTokens, tail[i]) {
      assert tail[i] == groups[i + 1];
    }
  }

  /** A greedy packing into groups that all have lines is decided by the lines alone. */
  lemma {:induction false} PackedUnique(count: string -> nat, maxTokens: int, lines: seq<string>,
                                        g1: seq<seq<string>>, g2: seq<seq<string>>)
    requires Flatten(g1) == lines && Flatten(g2) == lines
    requires Packed(count, maxTokens, g1) && Packed(count, maxTokens, g2)
    requires forall i :: 0 <= i < |g1| ==> g1[i] != []
    requires forall i :: 0 <= i < |g2| ==> g2[i] != []
    ensures g1 == g2
    decreases |lines|
  {
    if g1 != [] {
      FlattenFront(g1);
    }
    if g2 != [] {
      FlattenFront(g2);
    }
    if g1 != [] && g2 != [] {
      FirstGroupNotShorter(count, maxTokens, lines, g1, g2);
      FirstGroupNotShorter(count, maxTokens, lines, g2, g1);
      FirstGroupPrefix(g1);
      FirstGroupPrefix(g2);
      var h1, h2 := g1[0], g2[0];
      assert h1 == h2;
      var rest := lines[|h1|..];
      PackedTail(count, maxTokens, g1);
      PackedTail(count, maxTokens, g2);
      PackedUnique(count, maxTokens, rest, g1[1..], g2[1..]);
      assert g1 == [h1] + g1[1..] && g2 == [h2] + g2[1..];
    }
  }

  /**
   * Of two greedy packings of the same lines into groups that all have
   * lines, neither first group is shorter than the other.
   */
  lemma FirstGroupNotShorter(count: string -> nat, maxTokens: int, lines: seq<string>,
                             g1: seq<seq<string>>, g2: seq<seq<string>>)
    requires g1 != [] && g2 != []
    requires Flatten(g1) == lines && Flatten(g2) == lines
    requires Packed(count, maxTokens, g1) && Packed(count, maxTokens, g2)
    requires forall i :: 0 <= i < |g1| ==> g1[i] != []
    ensures |g2[0]| <= |g1[0]|
  {
    var h1, h2 := g1[0], g2[0];
    if |h1| < |h2| {
      var n := |h1|;
      FirstGroupPrefix(g1);
      FirstGroupPrefix(g2);
      assert h2[..n + 1] == h1 + [lines[n]] by {
        assert h2[..n + 1] == lines[..n + 1];
        SliceNext(lines, n);
      }
      NextLine(lines, g1);
      assert Overruns(count, maxTokens, g1[0], g1[1]);
      assert h1 != [];
      FirstGroupTooShort(count, maxTokens, h1, lines[n], h2);
    }
  }

  /** The first group is where the lines begin. */
  lemma FirstGroupPrefix(groups: seq<seq<string>>)
    requires groups != []
    ensures |groups[0]| <= |Flatten(groups)| && groups[0] == Flatten(groups)[..|groups[0]|]
  {
    FlattenFront(groups);
  }

  /** When lines remain after the first group, they start the second group. */
  lemma NextLine(lines: seq<string>, groups: seq<seq<string>>)
    requires groups != [] && Flatten(groups) == lines
    requires forall i :: 0 <= i < |groups| ==> groups[i] != []
    requires |groups[0]| < |lines|
    ensures |groups| > 1 && lines[|groups[0]|] == groups[1][0]
  {
    FlattenFront(groups);
    assert |Flatten(groups[1..])| > 0;
    assert |groups| > 1;
    FlattenFront(groups[1..]);
    assert groups[1..][0] == groups[1];
  }

  /**
   * A group closed because the next line overran it cannot be a proper
   * prefix of a run of several lines that keeps to the budget.
   */
  lemma FirstGroupTooShort(count: string -> nat, maxTokens: int, group: seq<string>, line: string,
                           longer: seq<string>)
    requires Tokens(count, group) + count(line) > maxTokens
    requires group != [] && |group| < |longer| && longer[..|group| + 1] == group + [line]
    ensures !WithinBudget(count, maxTokens, longer)
  {
    var n := |group|;
    assert (group + [line])[..n] == group;
    assert Tokens(count, group + [line]) == Tokens(count, group) + count(line);
    TokensPrefix(count, longer, n + 1);
  }

  /** `build_subtitle_groups` has one possible result for a given table, counter and budget. */
  lemma GreedyGroupsUnique(count: string -> nat, maxTokens: int, lines: seq<string>,
                           g1: seq<seq<string>>, g2: seq<seq<string>>)
    requires GreedyGroups(count, maxTokens, lines, g1) && GreedyGroups(count, maxTokens, lines, g2)
    ensures g1 == g2
  {
    if lines != [] {
      if g1[0] == [] {
        FlattenFront(g1);
        FlattenFront(g2);
        PackedTail(count, maxTokens, g1);
        PackedTail(count, maxTokens, g2);
        PackedUnique(count, maxTokens, lines, g1[1..], g2[1..]);
        assert g1 == [[]] + g1[1..] && g2 == [[]] + g2[1..];
      } else {
        PackedUnique(count, maxTokens, lines, g1, g2);
      }
    }
  }

  /**
   * Two subtitles of six tokens each: a budget of twelve holds both in one
   * group, while a budget of five puts each in a group of its own after an
   * empty first group.
   */
  lemma TwoSubtitles(count: string -> nat, a: string, b: string, groups: seq<seq<string>>)
    requires count(a + "\n") == 6 && count(b + "\n") == 6
    ensures GreedyGroups(count, 12, WithNewline([a, b]), groups) ==> groups == [[a + "\n", b + "\n"]]
    ensures GreedyGroups(count, 5, WithNewline([a, b]), groups) ==> groups == [[], [a + "\n"], [b + "\n"]]
  {
    var x, y := a + "\n", b + "\n";
    var lines := WithNewline([a, b]);
    assert lines == [x, y];
    if GreedyGroups(count, 12, lines, groups) {
      OneGroup(count, x, y);
      GreedyGroupsUnique(count, 12, lines, [[x, y]], groups);
    }
    if GreedyGroups(count, 5, lines, groups) {
      ThreeGroups(count, x, y);
      GreedyGroupsUnique(count, 5, lines, [[], [x], [y]], groups);
    }
  }

  /** Two lines of six tokens each fit one group under a budget of twelve. */
  lemma OneGroup(count: string -> nat, x: string, y: string)
    requires count(x) == 6 && count(y) == 6
    ensures GreedyGroups(count, 12, [x, y], [[x, y]])
  {
    assert [x, y][..1] == [x] && [x][..0] == [];
    assert Tokens(count, [x]) == 6;
    assert Tokens(count, [x, y]) == Tokens(count, [x]) + count(y);
    var one := [[x, y]];
    assert one[..0] == [];
    assert Flatten(one) == [x, y];
  }

  /** Two lines of six tokens each overrun a budget of five: an empty group, then one each. */
  lemma ThreeGroups(count: string -> nat, x: string, y: string)
    requires count(x) == 6 && count(y) == 6
    ensures GreedyGroups(count, 5, [x, y], [[], [x], [y]])
  {
    var three: seq<seq<string>> := [[], [x], [y]];
    assert [x][..0] == [];
    assert Tokens(count, [x]) == 6;
    assert three[..2] == [[], [x]] && three[..2][..1] == [[]] && three[..2][..1][..0] == [];
    assert Flatten(three[..2][..1]) == [];
    assert Flatten(three[..2]) == [x];
    assert Flatten(three) == [x] + [y];
    assert Overruns(count, 5, three[0], three[1]) && Overruns(count, 5, three[1], three[2]);
  }
}
