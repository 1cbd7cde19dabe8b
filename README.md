# A verified model of a small Unix shell's line handling

The repository holds two versions of a teaching shell.

- **part1/shell.c** reads lines with `getline`.
- **part2/shell2.c** reads lines with its own `input` function. That function keeps the line in an `mmap`ed buffer: 4096 bytes to start, growing 4096 bytes at a time.

Both shells handle a line the same way:

1. Copy it and take its first space-separated token (`preprocess_line`).
2. Run the builtin that token names (`cd`, `exit`) or fork a child that runs it (`handle_executable`).
3. Reap every child until `wait` reports `ECHILD`.

part1/utils.c provides the `strtok`-based `tokenize` and a pipeline validator, `check_pipeline`, that no shell calls.

This project models those pieces in Dafny and proves what they compute.

| file | module | models |
|---|---|---|
| `wrappers.dfy` | `Wrappers` | an `Option` type (`None` stands for a NULL pointer) |
| `cstrings.dfy` | `CStrings` | bytes, C strings up to their NUL (`strlen`), `memset` zeros, `strncpy` |
| `tokenizer.dfy` | `Tokenizer` | `strtok` (section 7.24.5.8 of ISO C11) and `tokenize` filling a bounded `argv` array |
| `pipeline.dfy` | `Pipeline` | `is_empty_str`, `single_del_strtok` (a class holding its static cursor), `get_num_delim`, `get_num_toks`, `check_pipeline` |
| `builtins.dfy` | `Builtins` | the `commands[]` table, `check_builtin_cmd`, the `argc` gate of `handle_cd_cmd` |
| `dispatch.dfy` | `Dispatch` | line classification, the builtin/executable branch of `process_line`, `handle_executable`, the reaping loop |
| `newline.dfy` | `Newline` | how `main` strips the newline from a line before processing it |
| `getline_shell.dfy` | `GetlineShell` | part1/shell.c: `preprocess_line`, `process_line`, and `main`'s `getline` loop over the whole input |
| `line_reader.dfy` | `LineReader` | part2/shell2.c: `input` and `mmap_realloc`, as a specification function `Fill` of the read loop and an imperative reader class proved against it |
| `mmap_shell.dfy` | `MmapShell` | part2/shell2.c: `preprocess_line` with its `exit(1)` paths, `process_line`, and `main`'s loop over `input` |

The model never executes the shell. It uses the following stand-ins:

- **The kernel's answers are inputs.**
  - `OsReplies` says, for one line, whether each of these succeeds: `strdup`, the `munmap` of the duplicate, `chdir`, `fork`. It also lists the successive replies of `wait`.
  - A `ReadReply` sequence is what `read` will deliver on the descriptor.
  - An allocator oracle `alloc: nat -> Grant` answers the n-th `mmap` call in one of three ways:
    - `Adjacent`: a block right after the buffer;
    - `Elsewhere`: a block that `mmap_realloc` then replaces;
    - `MapFailed`.
- **The shell's requests are effects.** `fork`, `chdir` and `wait` become an `Effect` sequence.
- **Process exit is a value.** Leaving the process is a `Termination` carrying the exit status and whether `release_all_resources` runs.

In part2, `input`'s result is `strlen(*s)`, a count that is meant to be at most the buffer size. The code does not guarantee that bound: a buffer holding no NUL sends `strlen` past the mapping (first row of Findings). The model proves the bounded version of the result. Everything else (the line dispatch and both `main` loops) is modelled as written, blank lines and the last-character stripping included; the corrected `handle_executable` and newline stripping are stated beside them as separate members.

## Model

| member | source | states |
|---|---|---|
| CStrings.CStr | part1/shell.c:142-148 | the characters `strlen` counts: a prefix of the buffer with no NUL, followed in the buffer by a NUL when the buffer is longer |
| CStrings.UntilNul | part2/shell2.c:126 | the bytes before the first NUL of a region: a NUL-free prefix, followed by a NUL when the region is longer |
| CStrings.UntilNulAppend | part2/shell2.c:126 | the string of `a + b` is the string of `a` when `a` holds a NUL, else `a` followed by the string of `b` |
| CStrings.UntilNulZeros | part2/shell2.c:97 | zero bytes appended after a region leave its string unchanged |
| CStrings.UntilNulLength | part2/shell2.c:126 | a region's string has length i exactly when `s[..i]` is NUL-free and `s` ends or holds a NUL at i |
| CStrings.StrncpyKeepsString | part2/shell2.c:71 | a `strncpy` copy has the source's string, is read the same with anything after it, and equals the source when the source holds no NUL |
| CStrings.Strncpy | part2/shell2.c:71 | the bytes `strncpy(nmp, *s, l)` stores: the source's string, then NUL bytes up to the source's length, which it keeps |
| Tokenizer.RunLength | part1/utils.c:23-25 | the `strcspn` length: the longest delimiter-free prefix, ended by a delimiter or by the end |
| Tokenizer.Tokens | part1/utils.c:23-25 | the tokens successive `strtok` calls return: the maximal non-empty runs of non-delimiters, left to right; characterized by `TokensAreTokens`, `TokensOfJoin` and `TokensSplitAtDelim` |
| Tokenizer.TokensAreTokens | part1/utils.c:19-33 | no token is empty and none contains a delimiter |
| Tokenizer.Strtok | part1/utils.c:23-25 | one `strtok` call: `NULL` exactly when no token is left; otherwise it returns the next token and leaves the rest of the tokens after the saved position |
| Tokenizer.Tokenize | part1/utils.c:19-33 | returns the token count when it is below `max_tokens` and -1 otherwise; `argv` holds the tokens in order with `NULL` after them; nothing at or beyond `max_tokens` is written |
| Tokenizer.TokensOfJoin | part1/utils.c:19-33 | round trip: tokenizing tokens joined by single delimiters gives back exactly those tokens |
| Tokenizer.TokensSplitAtDelim | part1/utils.c:23-25 | a delimiter separates the tokens before it from the tokens after it |
| Tokenizer.TokensOfTokenThen | part1/utils.c:23-25 | a token followed by a delimiter, or by the end, is the first token |
| Pipeline.IsEmptyStr | part1/utils.c:35-43 | returns 1 exactly when every character is white space (the empty string included), else 0 |
| Pipeline.FieldCursor.constructor | part1/utils.c:52 | the static cursor starts as the empty string |
| Pipeline.FieldCursor.Next | part1/utils.c:50-74 | a non-NULL argument restarts the scan; it returns the field before the next delimiter and moves past it, or returns the non-empty rest and becomes NULL, or returns NULL on an empty rest; equivalently, it hands out the next pending field |
| Pipeline.Fields | part1/utils.c:62-73 | the fields `single_del_strtok` hands out: the string cut at every delimiter, without the empty field after a final delimiter; related to `SplitAll` by `FieldsAreStages` |
| Pipeline.GetNumDelim | part1/utils.c:76-86 | the number of occurrences of the delimiter in the string |
| Pipeline.NonBlank | part1/utils.c:100-105 | the non-blank fields, in order |
| Pipeline.NonBlankAppend | part1/utils.c:100-105 | counting non-blank fields distributes over concatenation |
| Pipeline.GetNumToks | part1/utils.c:88-108 | the number of non-blank fields `single_del_strtok` returns for the line |
| Pipeline.SplitAll | part1/utils.c:62-73 | cutting at every delimiter gives at least one stage |
| Pipeline.ValidPipeline | part1/utils.h:17-21 | a valid pipeline: every stage between pipe characters holds something other than white space |
| Pipeline.JoinSplitAll | part1/utils.c:62-73 | round trip: rejoining the stages with the delimiter gives the string back, and no stage holds the delimiter |
| Pipeline.SplitAllCount | part1/utils.c:76-86 | there is exactly one more stage than there are delimiters |
| Pipeline.FieldsAreStages | part1/utils.c:62-73 | the fields handed out are all the stages, except that an empty stage after a final delimiter is dropped |
| Pipeline.NonBlankAll | part1/utils.c:100-105 | no field is dropped as blank exactly when none is blank |
| Pipeline.NonBlankStages | part1/utils.c:115 | dropping an empty last stage leaves as many non-blank fields as stages exactly when every stage is non-blank |
| Pipeline.PipelineCounts | part1/utils.c:115 | the count test of `check_pipeline` holds exactly when every stage between pipe characters is non-blank |
| Pipeline.CheckPipeline | part1/utils.c:110-121 | returns 0 when the non-blank count is below 1 or differs from the number of pipe characters plus 1, else 1; so it returns 1 exactly for a valid pipeline and 0 exactly for an invalid one |
| Pipeline.DanglingPipeExamples | part1/utils.h:17-21 | a pipe character with nothing after it (`a` then a pipe), with nothing before it, and the empty line are invalid pipelines |
| Pipeline.EmptyStageExample | part1/utils.h:17-21 | two adjacent pipe characters between `a` and `b` make the pipeline invalid |
| Pipeline.ValidPipelineExample | part1/utils.h:17-21 | `a`, a space, a pipe character, a space and `b` form a valid pipeline |
| Pipeline.NonEmptyAppend | part1/utils.c:62-73 | dropping empty stages distributes over concatenation |
| Pipeline.TokensAreNonEmptyStages | part1/utils.c:19-33 | `strtok`'s tokens for one delimiter are exactly the non-empty stages of `single_del_strtok`'s split |
| Builtins.Lookup | part2/shell2.c:152-156 | the builtin whose name equals the input exactly, and none for any other input |
| Builtins.CheckBuiltinCmd | part2/shell2.c:158-168 | the linear scan of `commands[]` returns the entry whose name equals the input, and NULL when no entry matches |
| Builtins.HandleCd | part2/shell2.c:129-142 | `chdir` is called exactly when `argc == 2`, on `argv[1]`; the result is 0 exactly when `argc == 2` and `chdir` succeeds, else -1 |
| Dispatch.Classify | part1/shell.c:156-175 | a line has no token, or names a builtin, or names an executable with 1 to 4095 tokens, or is rejected for having too many; a builtin gets argc equal to the token count and all the tokens below 4096 tokens, and argc -1 with the first 4096 tokens otherwise |
| Dispatch.Handle | part1/shell.c:156-175 | the branch of `process_line`: `cd` behind its argument-count gate, `exit` ending the process with 0 after release, one fork for an executable or a line with no token when `fork` succeeds, nothing for too many tokens; characterized by `OnePath`, `CdNeedsOneArgument`, `ForkOnlyForExecutable` and `NoTokenSpawnsChild` |
| Dispatch.FirstBuiltin | part1/shell.c:81-87 | the builtin named by the first token, which `preprocess_line` stores in `*cmd_` |
| Dispatch.ReapingStopsAtNoChildren | part1/shell.c:177-190 | one wait per reply, in order; no `ECHILD` before the last wait, and the last wait is the first `ECHILD` when there is one |
| Dispatch.Reaping | part1/shell.c:177-190 | the wait calls of the reaping loop, one per reply up to and including the first `ECHILD`; characterized by `ReapingStopsAtNoChildren` |
| Dispatch.Finish | part1/shell.c:177-190 | the `cleanup` label: unless the process has ended, every child is reaped after the dispatch |
| Dispatch.Reap | part2/shell2.c:281-294 | the reaping loop makes exactly the waits `Reaping` lists |
| Dispatch.WaitAt | part2/shell2.c:284-290 | one turn of the reaping loop: it records the wait, and the loop is done exactly when the reply is `ECHILD` |
| Dispatch.ReapingAt | part2/shell2.c:283-294 | the reaping from reply i, unfolded once |
| Dispatch.Values | part1/shell.c:116 | the strings behind non-NULL argv entries, in order, as `execv` receives them |
| Dispatch.HandleExecutableAsWritten | part1/shell.c:102-133 | a tokenize failure returns -1 with no fork; otherwise a fork failure returns -1, and a successful fork creates a child for the tokens, even when there are none |
| Dispatch.HandleExecutable | part2/shell2.c:208-237 | as written, except that a line with no token returns 0 and creates no child |
| Dispatch.BlankLineSpawnsChild | part2/shell2.c:214-222 | a line of spaces makes `handle_executable`, as written, fork a child with an empty argv |
| Dispatch.Branch | part1/shell.c:156-175 | the handler runs with the tokenized argv when `cmd` is set, and `handle_executable` as written runs otherwise (forking for a line with no token); the result is `Handle` |
| Dispatch.OnePath | part1/shell.c:158-175 | exactly one path runs: at most one effect; a fork only when there is no builtin; a `chdir` only for `cd`; an exit exactly for `exit` |
| Dispatch.CdNeedsOneArgument | part1/shell.c:28-41 | `chdir` is requested exactly when the line is `cd` and one more token, and then with that token |
| Dispatch.ForkOnlyForExecutable | part1/shell.c:102-133 | a fork happens exactly for a line whose first token is not a builtin, or that has no token, with fewer than 4096 tokens, when `fork` succeeds; the child gets the tokens |
| Dispatch.NoTokenSpawnsChild | part1/shell.c:173 | a line with no token still goes to `handle_executable`, which forks a child with an empty argv when `fork` succeeds, and does nothing else |
| Newline.StripAsWritten | part1/shell.c:218-221 | `main` as written: a chunk is processed exactly when it is longer than one character, and always loses its last character, whatever that is |
| Newline.StripAsWrittenDropsCharacter | part2/shell2.c:322-325 | as written, a last line `ls` with no newline runs `l`, and `x` runs nothing |
| Newline.StripNewline | part2/shell2.c:323 | the corrected stripping (the comment's "Remove newline character"): only a trailing newline goes, and only an empty chunk or a lone newline is skipped; characterized by `StripNewlineKeepsLine` |
| Newline.StripNewlineKeepsLine | part2/shell2.c:322-325 | corrected: nothing is processed exactly for an empty chunk or a lone newline; otherwise the chunk is processed less at most a trailing newline |
| Newline.StripAgreesOnNewline | part2/shell2.c:322-325 | on a chunk ended by a newline, the corrected stripping agrees with the one as written |
| Newline.StripTypedLine | part1/shell.c:218-221 | a non-empty line typed and ended by a newline is processed as typed |
| GetlineShell.Preprocess | part1/shell.c:70-93 | -1 when `strdup` fails; otherwise 0, with `cmd` set to the first token's builtin when there is one and left unchanged otherwise |
| GetlineShell.LineEffect | part1/shell.c:139-191 | `process_line`: a failed `strdup` skips the dispatch but still reaps; otherwise `Handle` then the reaping unless it was `exit`; characterized by `LineEffectExit` |
| GetlineShell.LineEffectExit | part1/shell.c:139-191 | a line ends the process exactly when it is `exit` and `strdup` succeeded, with status 0, the buffer freed and no effects; otherwise at most one dispatch effect is followed by the reaping, and after a failed `strdup` only the reaping runs |
| GetlineShell.ProcessLine | part1/shell.c:139-191 | `process_line` does what `LineEffect` says: preprocess, dispatch as written (a line with no token forks), then reap unless it exits |
| GetlineShell.NextChunk | part1/shell.c:217 | `getline`'s chunk: a prefix of the input, non-empty when the input is, holding a newline only as its last character, ending in a newline when shorter than the input |
| GetlineShell.Getline | part1/shell.c:217 | returns -1 at the end of the input, and otherwise the length of the next chunk |
| GetlineShell.ProcessChunk | part1/shell.c:218-221 | the loop body as written: a chunk of one character is skipped; a longer one loses its last character, whatever it is, and is processed up to its first NUL |
| GetlineShell.ChunkEffect | part1/shell.c:218-221 | the loop body as written: skip a chunk of one character, else drop its last character and process the line up to its first NUL |
| GetlineShell.Session | part1/shell.c:217-231 | the run of `main` on the unread input: chunk after chunk as `ChunkEffect` says until `exit`, then the buffer freed and status 0 at the end of the input; characterized by `SessionEndsWithZero` and `SessionOfTypedLine` |
| GetlineShell.SessionEndsWithZero | part1/shell.c:226-231 | the first shell always ends with status 0 and the buffer freed, at the end of the input or by `exit` |
| GetlineShell.SessionOfTypedLine | part1/shell.c:217-224 | a line typed and ended by a newline is processed as typed and the run goes on after it; a lone newline is skipped |
| GetlineShell.SessionStep | part1/shell.c:217-224 | one chunk of the run, and the position where the next one is read |
| GetlineShell.Run | part1/shell.c:208-232 | `main`'s loop produces `Session`, which strips and dispatches as written: the effects and the termination for the whole input |
| LineReader.Read | part2/shell2.c:100 | `read` delivers at most the span asked for |
| LineReader.ReadWeight | part2/shell2.c:100 | a read consumes at least the bytes it delivers |
| LineReader.Overwrite | part2/shell2.c:100 | writing the bytes read into the buffer keeps its size |
| LineReader.Grown | part2/shell2.c:113-118 | after a growth the buffer is exactly 4096 bytes longer |
| LineReader.GrownTail | part2/shell2.c:118 | the 4096 bytes added by a growth are all zero |
| LineReader.Fill | part2/shell2.c:100-124 | the read loop from the read at `off`: stop after a failed read, after a read that does not fill the span or ends in NUL or newline, or at a failed `mmap`; otherwise grow by 4096 zero bytes (in place or by `mmap_realloc`) and read into the new block; characterized by `FillEnds`, `FillGrows`, `FillCapacity`, `FillString` and `FillNulFree` |
| LineReader.FillEnds | part2/shell2.c:100-108 | the loop stops after a failed read with the buffer unchanged, after a read that does not continue the line with the line complete, or at a failed `mmap` |
| LineReader.FillGrows | part2/shell2.c:100-119 | when a read fills the span with a last byte that is neither NUL nor newline and `mmap` succeeds, the buffer grows by 4096 and the next read targets exactly the new block |
| LineReader.InputSpec | part2/shell2.c:85-97 | `input`: with nothing mapped, one `mmap` of 4096 bytes (exit on failure); then the whole buffer zeroed and `Fill` from its start; characterized by `InputStart`, `InputProperties` and `ContiguityIrrelevant` |
| LineReader.Returned | part2/shell2.c:121-126 | -1 exactly after a failed read; otherwise the length of the string in the buffer, never more than its capacity |
| LineReader.StrlenAsWritten | part2/shell2.c:126 | `strlen` as written is defined exactly when the buffer holds a NUL |
| LineReader.FillCapacity | part2/shell2.c:117 | the capacity stays a multiple of 4096 and grows by exactly 4096 for each successful `mmap` |
| LineReader.FillShape | part2/shell2.c:113-116 | the bytes read, the replies left, the `mmap` count, the stop and the capacity depend only on which `mmap` calls fail, not on where blocks land or on what the buffer held |
| LineReader.GrownString | part2/shell2.c:71 | both kinds of growth keep the string in the buffer |
| LineReader.FillString | part2/shell2.c:97-119 | the string in the buffer is the string of the bytes before the read position followed by everything the loop delivers |
| LineReader.FillNulFree | part2/shell2.c:113-116 | when no byte read is a NUL, the loop ends in the very same state whether growths are adjacent or moved |
| LineReader.GrownNulFree | part2/shell2.c:113-116 | a NUL-free buffer is grown to the same bytes by both branches, with its old bytes preserved |
| LineReader.FillStopsAtEnd | part2/shell2.c:100-101 | a complete line leaves a NUL or a newline in the last byte of the buffer |
| LineReader.CompleteLastByte | part2/shell2.c:100-101 | a read that ends the line leaves a NUL or a newline in the buffer's last byte |
| LineReader.FillWeight | part2/shell2.c:100-120 | the loop consumes at least the bytes it delivers |
| LineReader.FillOutOfMemory | part2/shell2.c:102-108 | the loop runs out of memory only at a failed `mmap`, the last call it made |
| LineReader.InputOutOfMemory | part2/shell2.c:85-108 | `input` ends the process only after a failed `mmap`, the last one it made |
| LineReader.FillFromZeros | part2/shell2.c:97-120 | started on a zeroed buffer, the loop leaves a positive multiple of 4096, the string of the bytes read, and no more bytes read than were available |
| LineReader.InputProperties | part2/shell2.c:79-127 | what `input` leaves: an empty buffer exactly when the first `mmap` failed, otherwise a capacity that is a positive multiple of 4096 and not smaller than before; the string of the bytes read; and bytes consumed when the result is positive |
| LineReader.ContiguityIrrelevant | part2/shell2.c:113-116 | two allocators failing on the same calls give `input` the same capacity, replies, status, bytes read, string and result, and the very same buffer when nothing read was NUL |
| LineReader.OverrunWitness | part2/shell2.c:126 | one read of 4095 `a` bytes and a newline completes the line with no NUL in the buffer, so `strlen` overruns, while the bounded length is 4096 |
| LineReader.InputStart | part2/shell2.c:85-97 | the first call maps exactly 4096 bytes, or exits on failure; the loop then starts at 0 on a zeroed buffer of the current capacity |
| LineReader.Zero | part2/shell2.c:97 | `memset` zeroes the buffer from `from` on and leaves the bytes before it |
| LineReader.ReadInto | part2/shell2.c:100 | a `read` into the buffer at `off`: a failure leaves it unchanged, and otherwise the bytes read are written at `off` |
| LineReader.Extend | part2/shell2.c:102-103 | an adjacent block carries the old bytes over, followed by zeros |
| LineReader.StrncpyInto | part2/shell2.c:71 | `strncpy(dst, src, n)`: the destination holds `Strncpy` of the first n source bytes, and the rest is unchanged |
| LineReader.StrncpyShape | part2/shell2.c:71 | a region holding the string of `s`, then NUL up to the length of `s`, then the old bytes, is `Strncpy(s)` followed by those old bytes |
| LineReader.Relocate | part2/shell2.c:55-77 | `mmap_realloc` gives a fresh region of the old size plus 4096, holding the `strncpy` of the old buffer, then zeros |
| LineReader.StrnLen | part2/shell2.c:126 | the length of the string at the start of the buffer, bounded by its size |
| LineReader.EndAgrees | part2/shell2.c:100-124 | when the loop does not go round again, how it ends is read off the single read |
| LineReader.GrowthAgrees | part2/shell2.c:100-119 | when the loop goes round again, the next round ends as the whole loop does |
| LineReader.OverwriteLast | part2/shell2.c:101 | after a read that fills the span, the buffer's last byte is the last byte read |
| LineReader.GrowBuffer | part2/shell2.c:113-118 | a growth, in place or by `mmap_realloc`, leaves a fresh buffer equal to `Grown` |
| LineReader.Round | part2/shell2.c:100-119 | one round: the loop goes on exactly when `Grows`; then the buffer is grown and the `mmap` count goes up by one; otherwise the stop is that of the read, with the buffer and the result as `Fill` says |
| LineReader.Step | part2/shell2.c:100-120 | one round, following the loop's specification: when it goes on, the next round ends as the whole loop does; when it stops, that is where and how the loop ends |
| LineReader.ReadLoop | part2/shell2.c:95-124 | the whole read loop ends as `Fill` says: the replies left, the `mmap` count and the stop, and the buffer and result unless an `mmap` failed |
| LineReader.Reader.constructor | part2/shell2.c:315 | before the first line nothing is mapped and `len` is 0 |
| LineReader.Reader.Input | part2/shell2.c:79-127 | `input`: the new state is that of `InputSpec`; it exits with 1 on a failed `mmap`, and otherwise returns the bounded string length, or -1 after a failed read |
| MmapShell.Preprocess | part2/shell2.c:171-199 | a failed `strdup` releases and exits with 1; a failed `munmap` of the duplicate exits with 1 without releasing; otherwise 0, with `cmd` set only when the first token is a builtin |
| MmapShell.LineEffect | part2/shell2.c:243-295 | `process_line`: a failed `strdup` releases and exits with 1, a failed `munmap` of the duplicate exits with 1 unreleased, otherwise `Handle` then the reaping unless it was `exit`; characterized by `LineEffectExit` |
| MmapShell.LineEffectExit | part2/shell2.c:243-295 | a line ends the process exactly on a memory failure (status 1) or `exit` (status 0), with no effects; the buffer goes unreleased only when the duplicate cannot be unmapped; otherwise at most one dispatch effect is followed by the reaping |
| MmapShell.ProcessLine | part2/shell2.c:243-295 | `process_line` does what `LineEffect` says, with dispatch as written (a line with no token forks) |
| MmapShell.Session | part2/shell2.c:311-333 | the run of `main`: exit with 1 when `input` runs out of memory, release and return 0 on a result of 0 or less, skip a result of 1, else process the first n - 1 bytes and go on until `exit`; characterized by `SessionWithoutFailures` and `SessionStatus` |
| MmapShell.SessionWithoutFailures | part2/shell2.c:311-333 | when no `mmap`, `strdup` or `munmap` fails, the second shell ends with status 0 and the buffer released |
| MmapShell.SessionStatus | part2/shell2.c:311-333 | the second shell ends with status 0 or 1, and with 0 only after releasing the buffer |
| MmapShell.SessionStep | part2/shell2.c:321-328 | one call of `input` and what follows it: end on a failed `mmap`, return 0 on a result of 0 or less, skip a result of 1, and otherwise process the first n - 1 bytes and go on |
| MmapShell.Run | part2/shell2.c:311-333 | `main`'s loop over `input` produces `Session`, which strips and dispatches as written, from the reader's initial state |

## Left out

- Messages are not modelled: `output`, `fprintf`, `strerror` and the prompt are I/O. So is `output`'s `exit(1)` when `write` fails.
- `handle_control_c` and the `SIGINT` registration are not modelled, because they are asynchronous.
- The child process is reduced to a `Fork(argv)` effect. What it does after `fork` is not modelled: `execv` and the exit status 66.
- `wait`'s exit status, `chdir`'s directory, and the real `fork` are oracle answers.
- `logged_strdup` is not modelled. Its success or failure is the `dupOk` answer.
- Dispatch.Reap: requires an `ECHILD` among the replies of `wait`. The source loops for ever when none comes, and the model covers only runs in which one does.
- Tokenizer.Strtok: does not write NUL into the line. It returns tokens as copies, not as pointers into the line, so aliasing of `argv` with the line is not captured.
- Tokenizer.Tokenize: the same simplification as `Strtok`.
- Pipeline.FieldCursor.Next: does not write NUL into the string it scans.
- Pipeline.GetNumToks: the copy into the stack array `line_dup` is elided. The scan starts from a fresh cursor; that is sound because its first call always replaces what the static cursor held.
- Pipeline.IsEmptyStr: decides white space as the "C" locale's `isspace` does on the character's code. The undefined behaviour of `isspace` on a negative `char` is not modelled.
- Counters are unbounded integers. Overflow of an `int` count is not modelled, because lines shorter than `INT_MAX` never reach it.
- GetlineShell.Getline: gives the next chunk of a fixed input string. A `getline` error is treated as the end of the input, so the message of `main`'s `n < 0 && !feof(stdin)` branch is not modelled. Buffer growth inside `getline` is not visible.
- The copy into `line_dup` in `process_line`, in both shells, is taken as the line up to its NUL.
- Writing NUL at `input_line[n - 1]` is modelled as taking the prefix of the line.
- LineReader.Extend: Dafny arrays cannot grow, so an adjacent growth is modelled as copying into a fresh array. Only the resulting bytes are modelled, not the address.
- LineReader.Relocate: does not model `mmap_realloc`'s `munmap` failures, which exit with status 1.
- A failure of `mmap_realloc`'s second `mmap` is folded into the `MapFailed` answer for that growth. Both paths release the buffer and exit with status 1.
- `release_all_resources` is modelled by the `releasesBuffer` flag. Its `munmap` failure, which exits with status 1, is not modelled.
- Dispatch.HandleExecutable and Newline.StripNewline: the corrected `handle_executable` and newline stripping are stated and proved on their own; `Handle`, `Branch`, `ProcessLine`, `ProcessChunk`, `Session` and `Run` in both shells follow the code as written.
- LineReader.Reader.Input: returns the bounded string length, `strnlen`, instead of `strlen`; see Findings.

## Findings

| source | as written | input that shows it | evidently intended | confidence | as-written member | corrected member |
|---|---|---|---|---|---|---|
| part2/shell2.c:126 | `input` returns `strlen(*s)`. A read that fills the buffer and ends in a newline leaves no NUL in the mapping. | One read of 4095 `a` bytes and a newline into the first 4096-byte buffer: the loop stops at the newline, and `strlen` reads past the mapping. | The length of the line within the buffer, at most `*l`. | high (not executed) | LineReader.OverrunWitness | LineReader.Returned |
| part2/shell2.c:214-222 | `handle_executable` forks whenever `tokenize` succeeds, even with zero tokens. | The line `"  "`: the child calls `execv(NULL, argv)` and exits with 66. | A line with no token runs nothing. | medium (not executed) | Dispatch.BlankLineSpawnsChild | Dispatch.HandleExecutable |
| part2/shell2.c:322-325 | `main` overwrites the last character of every line of more than one character, whatever it is. | A last line `ls` with no final newline runs `l`; a last line `x` runs nothing. | Remove only a trailing newline. | medium (not executed) | Newline.StripAsWrittenDropsCharacter | Newline.StripNewlineKeepsLine |
