# auditd-ripper, modelled in Dafny

auditd-ripper turns raw Linux audit (`auditd`) log lines into structured
events. This project models the two functions that do the work,
`parse_logs` and `decrypt_proctitle` in `auditd_ripper/main.py`, and proves
what they do.

- **Tokenizing a line** (module `Tokenizer`, file `tokenizer.dfy`). A line is
  split on single spaces. Every token holding `=` contributes one field: the
  key is the text before the first `=` and the value is the text between the
  first and second `=`. A later token with the same key overwrites an earlier
  one. `str.split` is modelled as `SplitOn` and is proved inverse to joining.
- **Merging adjacent lines** (module `EventMerger`, file `events.dfy`).
  `ParseLogs` is the loop of `parse_logs`. One pass of its body is
  `ParseLine`: tokenize, merge in `MergeLine`, with the `old_log`
  accumulator and the `{"msg": "none"}` sentinel, then the `index` test.
  `ParseLogs` is proved equal to `ParseLogsSpec`, which reads as follows:
  - The tokenized lines are cut into maximal runs of adjacent lines with the same `msg` (`Runs`).
  - Each run is merged so that the earliest line's value wins (`Merged`).
  - Every run but the last is emitted unless its `msg` is `"none"` (`Emitted`).
  - The last run is emitted only when the last line's text does not occur earlier (`FlushesLast`).
  - A line without `msg` is an error (`MissingMsg`).
- **Scenarios** (module `ParseScenarios`, file `scenarios.dfy`) state what
  this gives on one, two and three lines.
- **Decoding `proctitle`** (module `Proctitle`, file `proctitle.dfy`).
  `DecryptProctitle` updates an array of events in place. Each `proctitle`
  value loses its trailing newlines, is read as hexadecimal and then as
  ASCII, and each NUL becomes a space. When any step fails, the value stays
  as it was. `Unhexlify` is proved to undo `Hexlify`.
- `Wrappers` (file `wrappers.dfy`) holds the `Option` and `Result` types
  that stand for Python's exceptions.

## Quirks of the code

The model keeps three behaviours of `parse_logs` that a reader might not
expect.

- **Values containing `=`.** A token is split at every `=` and the second
  piece is kept, so `a=b=c` gives the value `b` and the rest is lost
  (`Tokenizer.ValueTruncated`).
- **The final flush.** The last group is appended inside the loop, when
  `logs.index(l)` is the last position. When the last line's text occurs
  earlier in the input, `index` returns the earlier position and the last
  group is never emitted (`EventMerger.FlushIndexCheck`,
  `ParseScenarios.RepeatedLineDropsGroup`,
  `ParseScenarios.RepeatedLastLineDropsFinalGroup`).
- **The `none` sentinel.** The accumulator starts as `{"msg": "none"}`, and a
  group is appended on a change of `msg` only when its `msg` is not `none`.
  So a group whose `msg` is literally `none` is dropped when the next group
  starts (`ParseScenarios.NoneGroupSkipped`).

## Model

| member | source | states |
|---|---|---|
| Tokenizer.SplitOn | auditd_ripper/main.py:23 | `str.split` gives at least one piece, and more than one exactly when the separator occurs |
| Tokenizer.SplitJoin | auditd_ripper/main.py:23 | joining the pieces of a split with the separator gives the string back, and no piece contains the separator |
| Tokenizer.SplitOfJoin | auditd_ripper/main.py:23 | splitting a join of separator-free pieces gives the pieces back |
| Tokenizer.Key | auditd_ripper/main.py:26 | `i.split("=")[0]`: the text before the first `=`, pinned down by `KeyValueShape` |
| Tokenizer.Value | auditd_ripper/main.py:27 | `i.split("=")[1]`: the text between the first and second `=`, pinned down by `KeyValueShape` and `ValueTruncated` |
| Tokenizer.KeyValueShape | auditd_ripper/main.py:25-27 | key and value of a token with `=` hold no `=`; the token starts with key, `=`, value, and whatever follows begins with another `=` |
| Tokenizer.ValueTruncated | auditd_ripper/main.py:26-27 | the token `a=b=c` gives key `a` and value `b`, so the rest of the value is lost |
| Tokenizer.FieldsOfLastWins | auditd_ripper/main.py:24-28 | a key is in the line's field map exactly when some token with `=` has it as key, and its value is that of the last such token |
| Tokenizer.FieldsOf | auditd_ripper/main.py:24-28 | the dictionary the token loop builds; `FieldsOfLastWins` characterises it as the last write of each key |
| Tokenizer.Tokenize | auditd_ripper/main.py:22-28 | the field map of one raw line, split on spaces; `TokenizeLine` computes it and `FieldsOfLastWins` with `SplitJoin` describe it |
| Tokenizer.TokenizeLine | auditd_ripper/main.py:22-28 | the loop over the tokens builds exactly the field map of the line |
| EventMerger.RunsPartition | auditd_ripper/main.py:29-37 | the runs glued together give back the lines in order, lines of a run share their `msg`, and neighbouring runs differ in `msg`, so every run is maximal |
| EventMerger.Merged | auditd_ripper/main.py:29-31 | the repeated `{**d, **old_log}` over a run; `MergedFields` and `MergedMsg` characterise it |
| EventMerger.MergedFields | auditd_ripper/main.py:29-31 | a merged run holds exactly the keys of its lines, each with the value of the first line holding it |
| EventMerger.MergedMsg | auditd_ripper/main.py:29-31 | a merged run keeps the `msg` of its first line |
| EventMerger.EmittedNotNone | auditd_ripper/main.py:32-35 | events emitted on a change of `msg` never carry `msg` `none`, and at most one is emitted per run |
| EventMerger.EmittedAll | auditd_ripper/main.py:32-35 | when no run has `msg` `none`, every run is emitted as its merge, in order |
| EventMerger.EventsAreRuns | auditd_ripper/main.py:21-39 | when no line has `msg` `none` and the flush happens, the output is one merged event per maximal run of adjacent equal-`msg` lines, in run order |
| EventMerger.NoneOnlyByFlush | auditd_ripper/main.py:20-39 | an event with `msg` `none` can only be the flushed last one; the flushed event is the merge of the last run; without the flush the last run is lost |
| EventMerger.FirstMissingMsg | auditd_ripper/main.py:29 | finds the first line whose field map lacks `msg`, the one where `d["msg"]` raises, or reports that every line has one |
| EventMerger.IndexOf | auditd_ripper/main.py:38 | `list.index`: a position holding the element with no earlier occurrence |
| EventMerger.FlushIndexCheck | auditd_ripper/main.py:38-39 | the index test fires at line `i` exactly when `i` is the last line and its text does not occur earlier |
| EventMerger.FoldStep | auditd_ripper/main.py:29-37 | one step of the `old_log` fold: the new accumulator is the merge of the current run, and a run is appended exactly when `msg` changes and the old `msg` is not `none` |
| EventMerger.MergeLine | auditd_ripper/main.py:29-37 | the merge branches take the pending event of the lines so far to that of one more line, and the closed events likewise: a change of `msg` closes the pending event unless its `msg` is `none` |
| EventMerger.FlushStep | auditd_ripper/main.py:38-39 | after the index test the output gains the pending event only at the last line, and only when that line's text is new |
| EventMerger.ParseLine | auditd_ripper/main.py:22-39 | one pass of the loop body either reports the missing-`msg` error of the whole parse at this line, or extends the pending and closed events by this line and flushes at the end |
| EventMerger.ParseLogs | auditd_ripper/main.py:17-41 | the loop as written returns exactly the runs-based result, or the missing-`msg` error at the first line lacking it; empty input gives no events |
| ParseScenarios.MissingMsgIsFatal | auditd_ripper/main.py:29 | parsing fails exactly when some line lacks `msg` |
| ParseScenarios.SingleLine | auditd_ripper/main.py:20-39 | one line gives one event, its own field map, even when its `msg` is `none` |
| ParseScenarios.AdjacentLinesMerge | auditd_ripper/main.py:29-31 | two different adjacent lines with equal `msg` give one event with the fields of both, the first line's value winning on shared keys |
| ParseScenarios.RepeatedLineDropsGroup | auditd_ripper/main.py:38-39 | a line given twice in a row produces no event at all |
| ParseScenarios.NonAdjacentNotMerged | auditd_ripper/main.py:29-37 | lines with equal `msg` separated by another group stay separate events |
| ParseScenarios.RepeatedLastLineDropsFinalGroup | auditd_ripper/main.py:38-39 | when the last line repeats the first line's text, the last group is missing from the output |
| ParseScenarios.NoneGroupSkipped | auditd_ripper/main.py:33-37 | a leading group whose `msg` is `none` is dropped when the next group starts |
| Proctitle.Unhexlify | auditd_ripper/main.py:57 | `binascii.unhexlify` succeeds exactly on an even number of hex digits of either case, giving one byte per digit pair |
| Proctitle.UnhexlifyHexlify | auditd_ripper/main.py:57 | unhexlify undoes hexlify on every byte string |
| Proctitle.StripTrailingNewlines | auditd_ripper/main.py:57 | `rstrip("\n")` returns a prefix, removes only newlines, and leaves no trailing newline |
| Proctitle.StripAppendedNewlines | auditd_ripper/main.py:57 | stripping text with newlines appended gives the text back when it does not end in a newline |
| Proctitle.AsciiDecode | auditd_ripper/main.py:58 | ASCII decoding succeeds exactly when every byte is below 128, with one character per byte of that code |
| Proctitle.ReplaceNul | auditd_ripper/main.py:59 | `replace("\u0000", " ")`: same length, every NUL becomes a space, every other character stays, no NUL is left |
| Proctitle.DecodeProctitle | auditd_ripper/main.py:56-60 | decoding succeeds exactly when the stripped value is hex text of ASCII bytes; each character is the byte's, NUL turned to space; the result holds no NUL |
| Proctitle.DecodeHexlified | auditd_ripper/main.py:56-60 | the hex spelling of ASCII text, plus any number of newlines, decodes to the text with NULs turned to spaces |
| Proctitle.DecodeCommandLine | auditd_ripper/main.py:56-60 | the hex spelling of `/usr/bin/ls`, NUL, `-la` plus a newline decodes to `/usr/bin/ls -la` |
| Proctitle.DecryptEvent | auditd_ripper/main.py:54-62 | only `proctitle` may change, only when it decodes, and then to its decoding; the key set never changes |
| Proctitle.FailuresKeepValue | auditd_ripper/main.py:55-62 | values with a non-hex digit, an odd digit count or a non-ASCII byte are kept unchanged |
| Proctitle.DecryptProctitle | auditd_ripper/main.py:51-64 | every event of the array is replaced in place by its decoded form, and nothing else changes |

## Left out

- `get_log_file` (main.py lines 8-14) reads a file. The model takes the lines as a sequence of strings, each with whatever trailing newline `readlines` leaves on it.
- `export_json` (lines 44-48) writes JSON to a file, which is I/O.
- `parse_arguments` and `main` (lines 67-92) parse command-line flags, print, and call the functions above. They are glue and I/O.
- Python's `dict` keeps insertion order, which shows in the key order of the exported JSON. A field map here is a Dafny `map`, which has no order.
- The `KeyError` that `parse_logs` raises on a line without `msg` is modelled as `Failure(MissingMsg(i))`. The line index `i` is information the exception does not carry.
- Three errors become one `None` result: the `ValueError` that `binascii.unhexlify` raises for a non-ASCII string, the `binascii.Error` it raises for an odd length or a non-hex digit, and the `UnicodeDecodeError` that `.decode("ascii")` raises for a byte of 0x80 or more. The bare `except` catches all three the same way.
- DecryptProctitle: models the list of dicts as an array of values and returns nothing; Python returns the same list object, already mutated. Aliasing between events is not modelled, because `parse_logs` builds a fresh dict for every event it appends.
- The bare `except` would also swallow interrupts raised during decoding. That has no counterpart here.
