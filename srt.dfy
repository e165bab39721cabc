/**
 * Reading a subtitle file into an ordered table from subtitle text to its
 * timestamp line (the body of `read_srt`, applied to the file's content).
 */
module Srt {
  import opened Wrappers
  import opened Text
  import opened OrderedDict

  const BlockSeparator: string := "\n\n"
  const LineSeparator: string := "\n"

  /**
   * The assignment one block makes: none for a blank block or one of fewer
   * than three lines; otherwise the stripped second line is the timestamp
   * and the third and later lines, joined by spaces and stripped, the text.
   */
  function ParseBlock(block: string): (r: Option<Entry>)
    ensures r.None? <==> (AllSpace(block) || |Split(block, LineSeparator)| < 3)
    ensures r.Some? ==> '\n' !in r.value.key && '\n' !in r.value.value
  {
    if Strip(block) == "" then None
    else
      var lines := Split(block, LineSeparator);
      if |lines| >= 3 then
        SplitNoSep(block, LineSeparator);
        JoinAvoids(" ", lines[2..], '\n');
        Some(Entry(Strip(Join(" ", lines[2..])), Strip(lines[1])))
      else None
  }

  /** The assignments `parse` yields for the blocks, in block order. */
  function Collect(parse: string -> Option<Entry>, blocks: seq<string>): (es: seq<Entry>)
    decreases |blocks|
  {
    if blocks == [] then []
    else
      var init := Collect(parse, blocks[..|blocks| - 1]);
      match parse(blocks[|blocks| - 1])
      case None => init
      case Some(e) => init + [e]
  }

  /** Every assignment made while reading `content`, in file order. */
  function SrtEntries(content: string): seq<Entry> {
    Collect(ParseBlock, Split(content, BlockSeparator))
  }

  /** The table `read_srt` returns for a file holding `content`. */
  function ParseSrt(content: string): (t: Table)
    ensures Valid(t)
  {
    PutAll(Empty, SrtEntries(content))
  }

  /** The loop of `read_srt` over the blocks of the content. */
  method ReadSrt(content: string) returns (subtitles: Table)
    ensures subtitles == ParseSrt(content)
  {
    var blocks := Split(content, BlockSeparator);
    subtitles := Empty;
    var i := 0;
    while i < |blocks|
      invariant 0 <= i <= |blocks|
      invariant subtitles == PutAll(Empty, Collect(ParseBlock, blocks[..i]))
    {
      ReadNext(ParseBlock, blocks, i);
      var entry := ParseBlock(blocks[i]);
      if entry.Some? {
        subtitles := Put(subtitles, entry.value);
      }
      i := i + 1;
    }
    assert blocks[..i] == blocks;
  }

  /** Reading one more block makes its assignment, if it has one. */
  lemma ReadNext(parse: string -> Option<Entry>, blocks: seq<string>, i: nat)
    requires i < |blocks|
    ensures PutAll(Empty, Collect(parse, blocks[..i + 1])) ==
      match parse(blocks[i])
      case None => PutAll(Empty, Collect(parse, blocks[..i]))
      case Some(e) => Put(PutAll(Empty, Collect(parse, blocks[..i])), e)
  {
    var done := Collect(parse, blocks[..i]);
    assert blocks[..i + 1][..i] == blocks[..i];
    match parse(blocks[i])
    case None =>
    case Some(e) =>
      assert (done + [e])[..|done|] == done;
  }

  /** The assignments of two runs of blocks are those of each, in order. */
  lemma {:induction false} CollectAppend(parse: string -> Option<Entry>, a: seq<string>, b: seq<string>)
    ensures Collect(parse, a + b) == Collect(parse, a) + Collect(parse, b)
    decreases |b|
  {
    if b == [] {
      assert a + b == a;
    } else {
      var init := b[..|b| - 1];
      assert (a + b)[..|a + b| - 1] == a + init;
      assert (a + b)[|a + b| - 1] == b[|b| - 1];
      CollectAppend(parse, a, init);
    }
  }

  /** An assignment is made exactly when some block yields it. */
  lemma {:induction false} CollectMembers(parse: string -> Option<Entry>, blocks: seq<string>)
    ensures forall e :: e in Collect(parse, blocks) <==>
      exists b :: 0 <= b < |blocks| && parse(blocks[b]) == Some(e)
    decreases |blocks|
  {
    if blocks != [] {
      var init := blocks[..|blocks| - 1];
      CollectMembers(parse, init);
      forall b | 0 <= b < |init| ensures blocks[b] == init[b] { }
    }
  }

  /** A blank block, or one of fewer than three lines, assigns nothing. */
  lemma SkippedBlock(before: seq<string>, block: string, after: seq<string>)
    requires AllSpace(block) || |Split(block, LineSeparator)| < 3
    ensures Collect(ParseBlock, before + [block] + after) == Collect(ParseBlock, before + after)
  {
    CollectAppend(ParseBlock, before + [block], after);
    CollectAppend(ParseBlock, before, after);
    assert (before + [block])[..|before|] == before;
  }

  /** A table built from the blocks holds exactly the texts some block yields. */
  lemma CollectKeys(parse: string -> Option<Entry>, blocks: seq<string>)
    ensures Valid(PutAll(Empty, Collect(parse, blocks)))
    ensures forall k :: k in PutAll(Empty, Collect(parse, blocks)).values <==>
      exists b :: 0 <= b < |blocks| && parse(blocks[b]).Some? && parse(blocks[b]).value.key == k
  {
    var es := Collect(parse, blocks);
    assert Valid(Empty);
    PutAllKeys(es);
    forall k ensures k in KeysOf(es) <==>
      exists b :: 0 <= b < |blocks| && parse(blocks[b]).Some? && parse(blocks[b]).value.key == k
    {
      if k in KeysOf(es) {
        KeyFromBlock(parse, blocks, k);
      }
      if exists b :: 0 <= b < |blocks| && parse(blocks[b]).Some? && parse(blocks[b]).value.key == k {
        var b :| 0 <= b < |blocks| && parse(blocks[b]).Some? && parse(blocks[b]).value.key == k;
        BlockGivesKey(parse, blocks, b);
      }
    }
  }

  /** Every key assigned comes from some block. */
  lemma KeyFromBlock(parse: string -> Option<Entry>, blocks: seq<string>, k: string)
    requires k in KeysOf(Collect(parse, blocks))
    ensures exists b :: 0 <= b < |blocks| && parse(blocks[b]).Some? && parse(blocks[b]).value.key == k
  {
    var es := Collect(parse, blocks);
    CollectMembers(parse, blocks);
    var i :| 0 <= i < |es| && KeysOf(es)[i] == k;
    assert es[i] in es;
    var b :| 0 <= b < |blocks| && parse(blocks[b]) == Some(es[i]);
    assert parse(blocks[b]).value.key == k;
  }

  /** Every block that yields an assignment has its key assigned. */
  lemma BlockGivesKey(parse: string -> Option<Entry>, blocks: seq<string>, b: nat)
    requires b < |blocks| && parse(blocks[b]).Some?
    ensures parse(blocks[b]).value.key in KeysOf(Collect(parse, blocks))
  {
    var es := Collect(parse, blocks);
    CollectMembers(parse, blocks);
    var e := parse(blocks[b]).value;
    assert e in es;
    var i :| 0 <= i < |es| && es[i] == e;
    assert KeysOf(es)[i] == e.key;
  }

  /** `block` is well formed and holds the subtitle text `k`. */
  predicate YieldsText(block: string, k: string) {
    ParseBlock(block).Some? && ParseBlock(block).value.key == k
  }

  /** The table built from `blocks` holds exactly the texts of its well-formed blocks. */
  lemma BlockKeys(blocks: seq<string>)
    ensures Valid(PutAll(Empty, Collect(ParseBlock, blocks)))
    ensures forall k :: k in PutAll(Empty, Collect(ParseBlock, blocks)).values <==>
      exists b :: 0 <= b < |blocks| && YieldsText(blocks[b], k)
  {
    var parse := ParseBlock;
    CollectKeys(parse, blocks);
    forall k ensures k in PutAll(Empty, Collect(ParseBlock, blocks)).values <==>
      exists b :: 0 <= b < |blocks| && YieldsText(blocks[b], k)
    {
      if k in PutAll(Empty, Collect(ParseBlock, blocks)).values {
        var b :| 0 <= b < |blocks| && parse(blocks[b]).Some? && parse(blocks[b]).value.key == k;
        assert YieldsText(blocks[b], k);
      } else {
        forall b | 0 <= b < |blocks| ensures !YieldsText(blocks[b], k) {
          assert !(parse(blocks[b]).Some? && parse(blocks[b]).value.key == k);
        }
      }
    }
  }

  /** The texts read are exactly those of the well-formed blocks of the file. */
  lemma ReadSrtKeys(content: string, blocks: seq<string>)
    requires blocks == Split(content, BlockSeparator)
    ensures Valid(ParseSrt(content))
    ensures forall k :: k in ParseSrt(content).values <==>
      exists b :: 0 <= b < |blocks| && YieldsText(blocks[b], k)
  {
    BlockKeys(blocks);
  }

  /** No text or timestamp read from a file spans a line break. */
  lemma ReadSrtSingleLine(content: string)
    ensures forall k :: k in ParseSrt(content).values ==>
      '\n' !in k && '\n' !in ParseSrt(content).values[k]
  {
    var blocks := Split(content, BlockSeparator);
    var es := SrtEntries(content);
    CollectMembers(ParseBlock, blocks);
    forall j | 0 <= j < |es| ensures '\n' !in es[j].key && '\n' !in es[j].value {
      assert es[j] in es;
      var b :| 0 <= b < |blocks| && ParseBlock(blocks[b]) == Some(es[j]);
    }
    PutAllAvoids(es, '\n');
  }

  /** The last block to yield a text decides its value. */
  lemma CollectLastWins(parse: string -> Option<Entry>, before: seq<string>, block: string, after: seq<string>)
    requires parse(block).Some?
    requires forall b :: 0 <= b < |after| && parse(after[b]).Some? ==>
      parse(after[b]).value.key != parse(block).value.key
    ensures parse(block).value.key in PutAll(Empty, Collect(parse, before + [block] + after)).values
    ensures PutAll(Empty, Collect(parse, before + [block] + after)).values[parse(block).value.key]
      == parse(block).value.value
  {
    var e := parse(block).value;
    CollectAppend(parse, before + [block], after);
    CollectAppend(parse, before, [block]);
    assert [block][..0] == [];
    assert Collect(parse, [block]) == [e];
    var rest := Collect(parse, after);
    CollectMembers(parse, after);
    forall j | 0 <= j < |rest| ensures rest[j].key != e.key {
      assert rest[j] in rest;
    }
    PutAllLastWins(Empty, Collect(parse, before), e, rest);
  }

  /**
   * A repeated subtitle text takes the timestamp of its last block: when
   * `block` yields `k := v` and no later block yields `k`, the table maps
   * `k` to `v`.
   */
  lemma ReadSrtLastTimestamp(content: string, before: seq<string>, block: string, after: seq<string>)
    requires Split(content, BlockSeparator) == before + [block] + after
    requires ParseBlock(block).Some?
    requires forall b :: 0 <= b < |after| && ParseBlock(after[b]).Some? ==>
      ParseBlock(after[b]).value.key != ParseBlock(block).value.key
    ensures ParseBlock(block).value.key in ParseSrt(content).values
    ensures ParseSrt(content).values[ParseBlock(block).value.key] == ParseBlock(block).value.value
  {
    CollectLastWins(ParseBlock, before, block, after);
  }

  /**
   * A repeated subtitle text keeps the position of its first block: the
   * table lists its texts in the order of their first occurrence in the file.
   */
  lemma ReadSrtFirstPosition(content: string)
    ensures FirstOccurrenceOrder(ParseSrt(content).keys, KeysOf(SrtEntries(content)))
  {
    PutAllFirstAssignmentOrder(SrtEntries(content));
  }
}
