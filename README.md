# vidsummary core in Dafny

This project models the deterministic core of `vidsummary.py`, a tool that shortens a video. It does four things:

- It reads the video's SRT subtitles into an ordered table from subtitle text to timestamp line.
- It packs the subtitles into groups under a token budget. Each group goes to a language model for summarising.
- It maps the summary lines back to subtitle entries, using exact matching and a bounded fuzzy search.
- It turns the kept timestamps into the start and end times and chunk file names used to cut the video.

The source's loops are Dafny methods with loop invariants, each proved against a specification function or predicate. The properties the program relies on are lemmas about those functions.

Modules:

- `Wrappers`: `Option`.
- `Text`: the Python string builtins the core uses: `str.split` with a literal separator, `str.join`, a bare `str.strip()` over the characters `str.isspace()` accepts, and a one-character `str.replace`. `re.split(r'\n\n', s)` is the same as `s.split("\n\n")` for this literal pattern.
- `OrderedDict`: Python's `OrderedDict[str, str]`. It is the list of keys in insertion order beside the key-to-value map. `Put` is `d[k] = v`: an existing key keeps its position and takes the new value; a new key goes at the end. `PutAll` folds a run of assignments.
- `Srt`: the parsing body of `read_srt`, over the file's content.
- `Grouping`: `build_subtitle_groups`. The token counter (`count_tokens`) is a parameter `count: string -> nat`. `maxTokens` is any integer.
- `Realign`: `create_filtered_dict`. The similarity test is a parameter `similar(line, key)`. It stands for "`similar_sentences` found a similarity of at least 0.6". The caller tests the returned key for truth, so `Accepts` also requires a non-empty key.
- `Clips`: the string work of `split_video`. This covers the start and end time of each kept timestamp and the `chunk_{i:04d}.mp4` names.

The model follows the code in three places where its behaviour is easy to misread. A lemma shows each one:

- The realigned table lists its subtitles in the order in which they were first picked, which is `OrderedDict` insertion order. It does not list them in source order. `ExactMatchMovesBack` shows two subtitles quoted in reverse coming out in reverse.
- An exact match moves the cursor to the matched subtitle's position even when that position is behind the cursor. So the cursor is not monotone. Only the fuzzy fallback never moves it back.
- When the first subtitle alone is over the budget, `build_subtitle_groups` emits an empty group first. `GreedyGroups` requires this, and `TwoSubtitles` shows it.

## Model

| member | source | states |
|---|---|---|
| Text.LStripDrops | vidsummary.py:28 | the left strip drops only leading whitespace: what is left is a suffix that does not start with whitespace |
| Text.RStripDrops | vidsummary.py:28 | the right strip drops only trailing whitespace: what is left is a prefix that does not end with whitespace |
| Text.Strip | vidsummary.py:28-37 | `strip()` gives the infix left after cutting only whitespace from both ends; it neither starts nor ends with whitespace; it is empty exactly when the string is all whitespace; it adds no character |
| Text.Split | vidsummary.py:31 | `str.split` with a literal separator, as used on blocks, summaries and timestamps; it always gives at least one piece |
| Text.Join | vidsummary.py:37 | `str.join`; a join of one or more pieces starts with the first piece |
| Text.SplitNoSep | vidsummary.py:31 | no piece of `block.split('\n')` contains a newline |
| Text.JoinSplit | vidsummary.py:101 | joining the pieces of a split with the separator gives back the string |
| Text.SplitJoin | vidsummary.py:101 | splitting on a one-character separator undoes a join of pieces that avoid it |
| Text.ReplaceChar | vidsummary.py:171-172 | `replace(",", ".")` keeps the length and swaps every comma for a point, changing nothing else |
| OrderedDict.PutAll | vidsummary.py:40 | a run of `OrderedDict` assignments, applied in order; it keeps a well-formed table well formed |
| OrderedDict.FirstIndex | vidsummary.py:105 | `list(d.keys()).index(k)`: the first position holding `k` |
| OrderedDict.Put | vidsummary.py:40 | an `OrderedDict` assignment keeps every key listed once and the key list in step with the map |
| OrderedDict.PutPresent | vidsummary.py:104 | assigning a key the value it already has leaves the table, order included, unchanged |
| OrderedDict.PutAllKeys | vidsummary.py:40 | a table built from empty holds exactly the keys assigned |
| OrderedDict.PutAllLastWins | vidsummary.py:40 | a key holds the value of its last assignment |
| OrderedDict.PutAllFirstAssignmentOrder | vidsummary.py:40 | keys are listed in the order of their first assignment; later assignments never move a key |
| OrderedDict.PutAllWithin | vidsummary.py:104 | assignments copied from a table keep a sub-table of it a sub-table |
| OrderedDict.PutAllItems | vidsummary.py:97-104 | assigning a table's items in order to an empty table rebuilds it exactly |
| OrderedDict.PutAllTwo | vidsummary.py:104 | two assignments to different keys list the keys in assignment order |
| OrderedDict.PutAllAvoids | vidsummary.py:40 | a table built from assignments whose keys and values avoid a character holds no key or value with that character |
| Srt.ParseSrt | vidsummary.py:24-40 | the table `read_srt` returns for a file's content: the block assignments in file order, applied to an empty table; it is well formed |
| Srt.ParseBlock | vidsummary.py:28-40 | a block yields nothing exactly when it is blank or has fewer than three lines; otherwise its text and timestamp hold no newline |
| Srt.ReadSrt | vidsummary.py:24-40 | the loop over the blocks builds the table of the block assignments, in file order |
| Srt.ReadNext | vidsummary.py:27-40 | one more block adds its assignment, if it has one, to the table of the blocks before it |
| Srt.SkippedBlock | vidsummary.py:28-32 | a blank block or one of fewer than three lines assigns nothing |
| Srt.CollectMembers | vidsummary.py:27-40 | an assignment is made exactly when some block yields it |
| Srt.CollectKeys | vidsummary.py:27-40 | for any block parser, the table holds exactly the keys some block yields |
| Srt.BlockKeys | vidsummary.py:27-40 | the table holds exactly the texts of the well-formed blocks |
| Srt.ReadSrtKeys | vidsummary.py:24-40 | the texts read are exactly those of the well-formed blocks of the file, each listed once |
| Srt.ReadSrtSingleLine | vidsummary.py:31-37 | no text or timestamp read spans a line break |
| Srt.CollectLastWins | vidsummary.py:40 | for any block parser, the last block to yield a key decides its value |
| Srt.ReadSrtLastTimestamp | vidsummary.py:40 | a repeated subtitle text takes the timestamp of its last block |
| Srt.ReadSrtFirstPosition | vidsummary.py:25-40 | a repeated subtitle text keeps the position of its first block |
| Grouping.Tokens | vidsummary.py:78-82 | the running token count of a group: the sum of its lines' counts, so no single line's count exceeds it |
| Grouping.WithNewline | vidsummary.py:77 | every subtitle text gets a trailing newline, in table order |
| Grouping.BuildSubtitleGroups | vidsummary.py:71-89 | the groups lay out the newline-suffixed texts in order; there are none for no subtitles; every group of two or more lines keeps to the budget; a group closes only when the next line would overrun it; the first group is empty exactly when the first line alone is over the budget |
| Grouping.JoinWithNewline | vidsummary.py:77 | a group as sent (`"".join(group)` of newline-suffixed texts, vidsummary.py:150) is the texts joined by newlines with an empty last line |
| Grouping.GrowLast | vidsummary.py:80-82 | adding a line that fits to the open group keeps the packing greedy |
| Grouping.CloseLast | vidsummary.py:83-86 | closing the open group when the next line does not fit keeps the packing greedy |
| Grouping.TokensPrefix | vidsummary.py:80-82 | a prefix of a group has no more tokens than the group |
| Grouping.PackedUnique | vidsummary.py:76-89 | a greedy packing into non-empty groups is decided by the lines alone |
| Grouping.GreedyGroupsUnique | vidsummary.py:71-89 | `build_subtitle_groups` has exactly one possible result for a table, counter and budget |
| Grouping.TwoSubtitles | vidsummary.py:80-89 | two six-token subtitles share one group under a budget of twelve; under a budget of five they come out as an empty group followed by one group each |
| Realign.Accepts | vidsummary.py:111 | the truth test of the similarity call: the test accepts, and the candidate subtitle text is not empty |
| Realign.AllLines | vidsummary.py:100-102 | the summary lines in the order the nested loops visit them; every summary gives at least one line |
| Realign.Realign | vidsummary.py:95-121 | the table `create_filtered_dict` returns: the source entries at the picked positions, assigned in pick order; it is well formed |
| Realign.Probe | vidsummary.py:109-116 | the fuzzy probe tries only the cursor and the next two positions inside the table; it picks the first one the test accepts, or reports that none was accepted |
| Realign.Step | vidsummary.py:103-116 | a summary line either changes nothing or adds exactly one pick, inside the table, and moves the cursor to it |
| Realign.StepExactMatch | vidsummary.py:103-105 | a line that is a subtitle text picks the first position holding that text and moves the cursor there, wherever the cursor was |
| Realign.StepFuzzyMatch | vidsummary.py:106-116 | any other line picks the first accepted subtitle from the cursor to two past it and moves the cursor forward to it; nothing changes exactly when no subtitle in that window is accepted |
| Realign.StepKeepsPicks | vidsummary.py:103-116 | a summary line never undoes a pick |
| Realign.Feed | vidsummary.py:100-116 | every picked position is inside the subtitle table |
| Realign.PickedFromSource | vidsummary.py:104-112 | each pick copies the source's subtitle text and timestamp at that position |
| Realign.ProbeWindow | vidsummary.py:108-115 | the window loop, with its early exit, finds exactly the position `Probe` describes |
| Realign.MatchLine | vidsummary.py:103-116 | one summary line updates the result table and cursor as `Step` says |
| Realign.CreateFilteredDict | vidsummary.py:95-121 | the nested loops build the table of the picked source entries, in pick order |
| Realign.RealignWithinSource | vidsummary.py:97-112 | every result key is a source subtitle with the source's timestamp; keys are not repeated; no summaries give an empty result |
| Realign.RealignFirstSelectionOrder | vidsummary.py:97-112 | result keys are in order of first selection |
| Realign.ReselectChangesNothing | vidsummary.py:104-112 | picking an already-selected subtitle again changes neither its value nor its position |
| Realign.FeedKeepsExact | vidsummary.py:103-105 | every line that is a subtitle text has that subtitle's position among the picks |
| Realign.RealignKeepsExactLines | vidsummary.py:103-104 | every summary line that is a subtitle text is in the result with the source timestamp |
| Realign.StepExact | vidsummary.py:103-105 | a line equal to the subtitle at position `p` picks `p` and puts the cursor at `p` |
| Realign.FeedOwnKeys | vidsummary.py:100-105 | feeding the source's texts in order picks every entry in order |
| Realign.RealignOwnKeys | vidsummary.py:100-105 | summary lines that are exactly the source texts in order rebuild the source |
| Realign.RealignWholeTable | vidsummary.py:100-105 | a single summary listing every subtitle text, one per line, rebuilds the whole source table |
| Realign.RealignSentGroup | vidsummary.py:77-121 | a summary that hands back the whole table's group unchanged, empty last line included, maps back to the whole source table |
| Realign.RepickChangesNothing | vidsummary.py:103-116 | once the picks rebuild the whole source, a further summary line leaves the result unchanged |
| Realign.ExactMatchMovesBack | vidsummary.py:103-105 | two subtitles quoted in reverse move the cursor back to 0 and come out in reverse order |
| Realign.BeyondWindowIgnored | vidsummary.py:109-111 | a subtitle three positions past the cursor is never picked, even when it alone is similar |
| Clips.ClipTimes | vidsummary.py:171-172 | the start and end times of a timestamp line, the first two pieces of its split on the arrow, with commas turned into points; neither time holds a comma |
| Clips.ClipTimesDefined | vidsummary.py:171-172 | a timestamp gives start and end times exactly when it holds the arrow; without one, indexing the second piece fails |
| Clips.ClipTimesOfRange | vidsummary.py:171-172 | `a --> b`, with no `>` in either time, gives back `a` and `b` with commas turned into points |
| Clips.Digits | vidsummary.py:173 | the decimal form of a number is a non-empty string of digits |
| Clips.Pad4 | vidsummary.py:173 | `{i:04d}`: a string of decimal digits |
| Clips.ValueDigits | vidsummary.py:173 | reading back the decimal digits of `n` gives `n` |
| Clips.ValueLeadingZeros | vidsummary.py:173 | leading zeros do not change the number a digit string stands for |
| Clips.Pad4Value | vidsummary.py:173 | `{i:04d}` has at least four digits, exactly four below 10000, and stands for `i` |
| Clips.DigitsShort | vidsummary.py:173 | numbers below 10000 have at most four digits |
| Clips.ChunkName | vidsummary.py:173 | `f"{temp_folder}/chunk_{i:04d}.mp4"`: a name inside the folder that starts with `chunk_` and ends in `.mp4` |
| Clips.ChunkNamesDistinct | vidsummary.py:173 | different chunk numbers give different file names |
| Clips.Timestamps | vidsummary.py:168 | `list(d.values())` gives the timestamps in table order |
| Clips.Plan | vidsummary.py:168-174 | the chunks of the `split_video` loop, or an error from the first timestamp without an arrow; a plan has one chunk per timestamp |
| Clips.PlanChunks | vidsummary.py:168-174 | the chunks cut are the plan for the table's timestamps, in table order |
| Clips.CutChunks | vidsummary.py:170-174 | the loop over the timestamps, with its early stop at the first line without an arrow, computes the plan |
| Clips.PlanCuts | vidsummary.py:170-174 | the plan is an error exactly when some timestamp lacks the arrow; otherwise it has one chunk per timestamp, the `k`-th with that timestamp's clip times and the `k`-th chunk file name |
| Clips.PlanFailsOn | vidsummary.py:170-172 | once a timestamp without an arrow is met, no longer run of timestamps has a plan |
| Clips.PlanFilesDistinct | vidsummary.py:173-174 | no two chunks are written to the same file |

## Left out

- `sentence_similarity.py` is not modelled. TF-IDF, cosine similarity in floating point and the NLTK tokenizer, stopwords and stemmer are foreign and numeric code. The test is the parameter `similar`, so symmetry and threshold behaviour are not modelled.
- `count_tokens` (vidsummary.py:64-69) wraps the external tiktoken tokenizer. It is the parameter `count`.
- `get_subtitle_summary` and the loop of `summarize_subtitles` (vidsummary.py:123-160) are remote language-model calls. The summaries are an input sequence of strings.
- `generate_srt`, and the ffmpeg runs, concat-list file and folder removal of `split_video` (vidsummary.py:47-62, 175-191), are subprocess and filesystem I/O.
- The file open and the bare `except` that returns `None` in `read_srt` (vidsummary.py:21-23, 41-43) are I/O error handling. `Srt.ReadSrt` takes the file's content.
- `main`, the dotenv and API-key globals, and every `print` are command-line, environment and logging code.
- Realign.CreateFilteredDict: does not model an exception raised inside `similar_sentences` (for example, on text with no words left after preprocessing). The test is total.
- Clips.PlanChunks: the `IndexError` from a timestamp without an arrow is the `None` result. The chunks cut before the error are I/O and are not modelled.
