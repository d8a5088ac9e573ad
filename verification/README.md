# A verified model of the WBLVL2 exercises' core logic

This project models the core logic of several small Go programs from the WBLVL2 exercise set in Dafny, and proves properties of that model. Eight pieces are covered:

- **the shell** (`develop/dev08/task.go`). A line is split into stages on `|` and each stage is tokenized on spaces. The first token picks one of eight built-ins. The stages run left to right, each getting the previous stage's output buffer, and the first error ends the line. The operating system is an explicit `Env` value: the working directory, and logs of the signals sent and the children spawned. A `Host` value holds functions standing for `os.Chdir`, `os.Getwd`, a child's captured output, the `/proc` table, and whether a SIGKILL to a given pid reaches the shell itself. Each of the first four is a function of the children spawned so far, and the table also of the signals sent, so a `ps` after a `kill` sees the kill. A child runs in the shell's current directory.
- **the run-length unpacker** (`develop/dev02/task.go`). It is a recursive-descent parser over runes, with backslash escapes and a one-digit repeat count. Go's `unicode.IsLetter` becomes the parameter `isLetter`.
- **the calendar's event store** (`develop/dev11/storage.go`). Events live in a map keyed by id, and a counter hands out ids. Times are integers.
- **the `sort` utility's helpers** (`develop/dev03/task.go`):
  - splitting a file into lines and joining them back;
  - the whole-line and column keys;
  - byte-wise lexicographic order;
  - sorting as a sorted permutation;
  - reversal and repeat removal;
  - how `-k`, `-n`, `-r` and `-u` compose.

  The float comparison of `-n` is the parameter `numLess`.
- **the `cut` utility's helpers** (`develop/dev06/task.go`): the `-f` list parser, per-line splitting, the `-s` filter, and the column printer. The printer returns its output as a string.
- **the `grep` context machinery** (`develop/dev05/task.go`):
  - the `-A/-B/-C` arithmetic;
  - the `-i`/`-F` pattern rewriting;
  - the bounded "before" buffer;
  - the per-line state machine that decides what is printed.

  The regular expression engine is a parameter. It maps a pattern and a line to whether the line matches, or to `None` when matching fails.
- **the smart speaker** (`pattern/08_state.go`). Three states delegate three actions.
- **the hospital chain of responsibility** (`pattern/05_chain_of_resp.go`). Reception, the doctor and the cashier each act on a patient's flags.

Shared pieces are defined once:

- `results.dfy`: `Option` and `Result`.
- `gostrconv.dfy`: `strconv.Atoi` and `%d`.
- `gostrings.dfy`: `strings.Split`, `strings.Join` and `strings.Index`.
- `sorting.dfy`: what `sort.Slice` promises.

Go panics are modelled as outcomes, not as preconditions. Examples:

- an empty stage in the shell, or `exec`/`fork` with no argument, indexes past the end of a slice;
- the speaker's state interface is nil before the first `SetState`;
- the hospital chain hands a patient on to a nil department;
- `sort -k` is given a column below -1.

Where the code and its description differ, the model follows the code, with one exception: the two `grep` defects listed under "## Findings". For those, the code as written is modelled and shown to go wrong. The `grep` line machine (`Grep.Step` and the members built on it) then uses the corrected print and buffer. Elsewhere the model follows the code:

- `exec` and `fork` ignore the error of running the child. So `fork` never fails and `exec` always ends the shell (`develop/dev08/task.go:112`, `:133`).
- `ps` writes its header with no newline (`develop/dev08/task.go:181`).
- `cut -f` numbers are compared with 0-based column indexes (`develop/dev06/task.go:89-90`).
- `getOnlyDelimeted` keeps rows with other than one field (`develop/dev06/task.go:69`).
- `grep -c` on standard input prints one empty line per input line (`develop/dev05/task.go:168-169`).
- The cashier never records a payment (`pattern/05_chain_of_resp.go:99-105`).

## Model

| member | source | states |
|---|---|---|
| GoStrconv.Atoi | develop/dev06/task.go:40-44 | The parse succeeds exactly when the input is an optional sign followed by ASCII digits whose signed value fits a 64-bit int. The result is then that value. Every failure carries the rejected input. |
| GoStrconv.AtoiPlusAndZero | develop/dev08/task.go:192 | A leading `+` or leading zeros do not change the parse: "+5", "007" and "5" give the same result. When the digits alone are out of range, the error names the whole input. |
| GoStrconv.AtoiMinusZero | develop/dev08/task.go:192 | "-0" parses to 0. |
| GoStrconv.FormatInt | develop/dev08/task.go:184 | `%d` output is non-empty, all digits apart from a leading minus, and starts with a minus exactly for negative numbers. |
| GoStrconv.FormatNat | develop/dev08/task.go:184 | The decimal digits of a natural number denote that number and have no leading zero. |
| GoStrconv.AtoiFormatInt | develop/dev08/task.go:184 | Parsing the `%d` form of any 64-bit int gives that int back (round trip). |
| GoStrconv.AtoiSingleChar | develop/dev02/task.go:103-116 | Atoi of a single rune succeeds exactly for an ASCII digit, and yields that digit's value. |
| GoStrings.Index | develop/dev06/task.go:38 | The reported position is the leftmost occurrence of the separator. No position before it is an occurrence, and None means there is no occurrence at all. |
| GoStrings.Split | develop/dev03/task.go:41 | With a non-empty separator there is at least one piece. |
| GoStrings.SplitPiecesLack | develop/dev03/task.go:41 | With a non-empty separator no piece contains the separator. |
| GoStrings.JoinSplit | develop/dev03/task.go:41-51 | Joining the pieces of a split with the same separator restores the input exactly. |
| GoStrings.SplitJoin | develop/dev03/task.go:41-51 | Pieces free of a one-element separator come back unchanged when joined and then split. |
| GoStrings.SplitCount | develop/dev06/task.go:57 | A split yields more than one piece exactly when the separator occurs in the input. |
| GoStrings.SplitAround | develop/dev08/task.go:215 | Splitting a text made of `a`, one separator and `b` gives the pieces of `a` followed by the pieces of `b`. |
| GoStrings.ConcatSplitSingle | develop/dev08/task.go:215 | Splitting on a one-element separator loses exactly the separators. |
| Sorting.Sort | develop/dev03/task.go:62-64 | For any strict weak order, the result is a permutation of the input in which no element is less than an earlier one. |
| Sorting.Insert | develop/dev03/task.go:62-64 | Inserting into a sorted list keeps it sorted and adds exactly one copy of the element. |
| SortUtil.ReadLines | develop/dev03/task.go:34-46 | The file becomes at least one line, and no line holds a newline byte. |
| SortUtil.WriteRead | develop/dev03/task.go:41-52 | Writing the lines that were read reproduces the file byte for byte. |
| SortUtil.ReadWrite | develop/dev03/task.go:41-52 | Reading back what was written gives the same newline-free lines. |
| SortUtil.Compare | develop/dev03/task.go:99-103 | `bytes.Compare` gives -1, 0 or 1, and 0 exactly for equal slices. |
| SortUtil.CompareSwap | develop/dev03/task.go:99-103 | Swapping the operands negates the comparison. |
| SortUtil.LexLessMeaning | develop/dev03/task.go:99-103 | `a` sorts strictly before `b` exactly when `a` is a proper prefix of `b` or, at the first differing position, `a` has the smaller byte. |
| SortUtil.LexLessTrans | develop/dev03/task.go:99-103 | Byte-wise "less" is transitive. |
| SortUtil.LexOrder | develop/dev03/task.go:99-103 | Byte-wise "less" is a strict weak order, as `sort.Slice` requires (in particular irreflexive). |
| SortUtil.Word | develop/dev03/task.go:71 | The leading word is the longest prefix without a whitespace byte. |
| SortUtil.Fields | develop/dev03/task.go:71-72 | Every field is a non-empty run of non-space bytes. |
| SortUtil.ConcatFields | develop/dev03/task.go:71-72 | The fields, concatenated, are exactly the line's non-space bytes in order. |
| SortUtil.FieldsAtSpace | develop/dev03/task.go:71-72 | A whitespace byte always ends a field: the fields of `a`, a space and `b` are the fields of `a` followed by those of `b`. |
| SortUtil.FieldsWord | develop/dev03/task.go:71-72 | A non-empty run without whitespace is exactly one field. |
| SortUtil.FieldsJoin | develop/dev03/task.go:71-72 | Non-empty, space-free words joined by single spaces split back into exactly those words, so the field boundaries are the maximal runs. |
| SortUtil.Column | develop/dev03/task.go:69-87 | The key is the `column`-th whitespace-separated field, or empty when the line has fewer fields. |
| SortUtil.ByKeyOrder | develop/dev03/task.go:59-65 | Comparing keys by a strict weak order orders the lines by a strict weak order too. |
| SortUtil.SortBytes | develop/dev03/task.go:59-65 | The output is a permutation of the lines in which no line's key is less than an earlier line's key. Stability is not promised. |
| SortUtil.Reverse | develop/dev03/task.go:137-141 | The same length, with position `i` holding the input's element `len-1-i`. |
| SortUtil.ReverseTwice | develop/dev03/task.go:137-141 | Reversing twice is the identity. |
| SortUtil.ReverseInPlace | develop/dev03/task.go:137-141 | Swapping from both ends towards the middle produces the reversal. |
| SortUtil.FirstOccurrences | develop/dev03/task.go:145-157 | The result has no repeats and holds exactly the lines of the input. |
| SortUtil.FirstOccurrencesDistinct | develop/dev03/task.go:145-157 | A list without repeats is left as it is. |
| SortUtil.RemoveRepeatsIdempotent | develop/dev03/task.go:145-157 | Removing repeats a second time changes nothing. |
| SortUtil.RemoveRepeats | develop/dev03/task.go:145-157 | The seen-set loop keeps the first occurrence of each line, in input order. |
| SortUtil.KeyOf | develop/dev03/task.go:184-199 | `-k` selects its column; `-n` without `-k` sorts by column 0; otherwise the whole line is the key. A column below -1 has no valid key. |
| SortUtil.SortFile | develop/dev03/task.go:180-211 | The run panics exactly when the column is below -1 and there are two lines to compare. |
| SortUtil.SortFileContents | develop/dev03/task.go:180-211 | Without `-u` the output is a permutation of the input. With `-u` it holds every input line exactly once. |
| SortUtil.SortFileOrder | develop/dev03/task.go:201-206 | The output is ascending by key, or descending by key under `-r`, because reversal comes after sorting. |
| SortUtil.ReverseDescending | develop/dev03/task.go:204-206 | Reversing a list that ascends by key makes it descend by key. |
| Shell.Lookup | develop/dev08/task.go:227-244 | A built-in is found exactly for the eight names, and it is the built-in with that name. |
| Shell.LookupName | develop/dev08/task.go:227-244 | Every built-in is reachable through its own name. |
| Shell.Tokenize | develop/dev08/task.go:214-223 | No token is empty or holds a space. Together the tokens hold every non-space character of the stage in order, so tabs stay inside tokens. |
| Shell.TokenizeAtSpace | develop/dev08/task.go:215-223 | A space always separates tokens: the tokens of `a`, a space and `b` are the tokens of `a` followed by those of `b`. |
| Shell.TokenizeWord | develop/dev08/task.go:215-223 | A non-empty stage without spaces is one token. |
| Shell.TokenizeJoin | develop/dev08/task.go:215-223 | Non-empty, space-free tokens joined by single spaces tokenize back to exactly those tokens (round trip). |
| Shell.TokenizeEmpty | develop/dev08/task.go:214-227 | A stage has no tokens, so `args[0]` panics, exactly when it consists of spaces only. |
| Shell.RunCd | develop/dev08/task.go:67-76 | Inside a pipeline or without a path, `cd` does nothing. Otherwise it either moves to the directory `chdir` reports or fails and changes nothing. |
| Shell.RunEcho | develop/dev08/task.go:79-95 | The buffer is the first argument, or nothing, followed by one newline. |
| Shell.EchoIgnoresInput | develop/dev08/task.go:79-95 | `echo` gives the same result whatever the input buffer, the pipeline flag and any arguments after the first. |
| Shell.RunPwd | develop/dev08/task.go:139-148 | `pwd` succeeds exactly when the directory can be read, and then prints it with a newline. |
| Shell.PwdIdempotent | develop/dev08/task.go:139-148 | `pwd` changes nothing, so asking twice gives the same answer. |
| Shell.Base | develop/dev08/task.go:165 | `filepath.Base` is never empty, gives "." for the empty path, and otherwise has no slash unless it is "/". |
| Shell.BaseOfJoin | develop/dev08/task.go:165 | The base of `dir/name` is `name`. |
| Shell.ParseProcs | develop/dev08/task.go:160-173 | Every process-table entry whose link was read and whose directory is a number is listed. Nothing else is listed, and every pid fits an int. |
| Shell.PsListing | develop/dev08/task.go:175-178 | The listing is a permutation of the parsed processes in ascending pid order. |
| Shell.PsOutput | develop/dev08/task.go:181-186 | The output starts with the header "PID Name", with no newline after it. |
| Shell.PsOutputLines | develop/dev08/task.go:175-186 | After the header come the `%d %s` rows of the processes in ascending pid order, each ended by a newline, and nothing else. |
| Shell.PsOutputReadsBack | develop/dev08/task.go:181-186 | When no process name holds a newline, splitting the text after the header on newlines gives back exactly the rows, in pid order, and a final empty piece. |
| Shell.FormatProc | develop/dev08/task.go:184 | Each process line ends with a newline. |
| Shell.PsLineParses | develop/dev08/task.go:184 | The first space-separated column of a `ps` line reads back as that process's pid. |
| Shell.RunKill | develop/dev08/task.go:190-199 | Without an argument `kill` does nothing. A non-numeric pid is an error and sends no signal. Otherwise exactly that pid is signalled, and the shell ends exactly when the signal reaches the shell itself. |
| Shell.RunFork | develop/dev08/task.go:120-136 | With a program, `fork` always returns the child's captured output and no error, and records one spawn. The child runs in the shell's current directory, after the children spawned before it. Without a program it panics. |
| Shell.RunExec | develop/dev08/task.go:98-117 | With a program, `exec` records one spawn and ends the shell, whatever the child did. Without one it panics. |
| Shell.RunExit | develop/dev08/task.go:202-207 | `exit` ends the shell exactly when it is not in a pipeline; in a pipeline it does nothing. |
| Shell.PipelineSuppresses | develop/dev08/task.go:67-76 | Inside a pipeline `cd` and `exit` return no buffer and no error, and leave the environment alone. |
| Shell.Execute | develop/dev08/task.go:67-207 | Only standalone `cd` changes the directory, only `kill` signals and only `exec`/`fork` spawn, and the logs only grow. `ps` prints the table found after the signals and spawns so far. Only `cd`, `pwd` and `kill` can fail. Only `exec`, a standalone `exit` and a `kill` of a pid that reaches the shell can end the shell. |
| Shell.PsSeesKill | develop/dev08/task.go:155-196 | A successful `kill` ends the shell exactly when its pid reaches the shell. Otherwise a `ps` after it reads the process table as it is after that signal. |
| Shell.ForkAfterCd | develop/dev08/task.go:67-136 | After a standalone `cd`, a `fork` runs its child in the new directory, after the children spawned before it, and returns that child's output. |
| Shell.ExecCommand | develop/dev08/task.go:214-251 | An empty stage panics. An unknown name yields no buffer and no error. A built-in runs with the remaining tokens, the previous buffer and the pipeline flag. |
| Shell.RunStages | develop/dev08/task.go:264-269 | Stages only add to the signal and spawn logs. The directory changes only outside a pipeline. No stages pass the incoming buffer through. |
| Shell.ExecCommands | develop/dev08/task.go:257-278 | A line prints exactly when all its stages finish normally. The logs only grow, and a line containing `|` never changes the directory. |
| Shell.IsChain | develop/dev08/task.go:258-259 | The pipeline flag is set exactly when the line contains a `|`. |
| Shell.RunStagesAppend | develop/dev08/task.go:264-269 | Running stages in two groups is the same as running them together: the second group runs only when the first finished normally, and starts from its last buffer and environment. |
| Shell.StopsAtFirstFailure | develop/dev08/task.go:264-268 | The first stage that does not finish normally decides the line: no later stage runs. |
| Shell.Flush | develop/dev08/task.go:271-275 | An absent buffer prints nothing; a present one prints its contents. |
| Shell.PrintsOnlyOnSuccess | develop/dev08/task.go:257-278 | A line prints only when every stage finished normally. It prints nothing when the final buffer is absent or empty. |
| ShellScenarios.SingleStage | develop/dev08/task.go:257-278 | A line without `|` runs as one stage outside a pipeline and prints that stage's buffer. |
| ShellScenarios.EchoHello | develop/dev08/task_test.go:58-66 | The stage "echo hello" yields the buffer "hello\n". |
| ShellScenarios.EchoWord | develop/dev08/task_test.go:18-27 | `echo` with the argument "hello" yields "hello" and a newline. |
| ShellScenarios.EchoPipeline | develop/dev08/task.go:257-278 | "echo a \| echo b" prints only the last stage's "b\n". |
| ShellScenarios.EchoThenGrep | develop/dev08/task_test.go:68-75 | "echo hello \| grep h" finishes without error. `grep` is not a built-in, so the last buffer is absent and nothing is printed. |
| ShellScenarios.KillBadPid | develop/dev08/task.go:190-199 | "kill abc" aborts the line with the parse error of "abc" and signals nothing. |
| Unpack.TryParseSlash | develop/dev02/task.go:122-134 | Succeeds exactly on a leading backslash, consuming exactly that one rune. |
| Unpack.TryParseRune | develop/dev02/task.go:140-150 | Succeeds exactly on a non-empty input, consuming exactly one rune. |
| Unpack.TryParseLetter | develop/dev02/task.go:156-170 | Succeeds exactly on a leading letter, consuming exactly that one rune. |
| Unpack.TryParseNumber | develop/dev02/task.go:103-116 | Succeeds exactly on a leading ASCII digit, yielding its value and consuming only that rune. |
| Unpack.TryParseElement | develop/dev02/task.go:86-97 | An element is a backslash plus any following rune, or a non-backslash letter. A lone trailing backslash fails without trying the letter rule. |
| Unpack.TryParseRuneRepeat | develop/dev02/task.go:66-81 | It consumes at least one rune. The count is the following digit's value when there is one, else one, and never above nine. |
| Unpack.Repeat | develop/dev02/task.go:57 | The rune written exactly `n` times. |
| Unpack.Expand | develop/dev02/task.go:45-61 | Every rune of the output comes from some RuneRepeat with a positive count. |
| Unpack.Unpack | develop/dev02/task.go:45-61 | Unpacking rune-repeat by rune-repeat agrees with parsing the whole input into RuneRepeats and expanding them; the empty input gives "". |
| Unpack.TryUnpackString | develop/dev02/task.go:45-61 | It reports success exactly when the whole input parses, returning the expansion, and ("", false) otherwise. |
| Unpack.ParseEncode | develop/dev02/task.go:24-33 | Every list of RuneRepeats with counts up to nine, once packed, parses back to itself (round trip). |
| Unpack.UnpackEncode | develop/dev02/task.go:24-61 | Unpacking a packed list writes out its RuneRepeats. |
| Unpack.UnpackLetters | develop/dev02/task_test.go:65-70 | A string of letters only, without counts, unpacks to itself. |
| Unpack.LeadingDigitFails | develop/dev02/task.go:52-54 | Input that starts with a digit does not unpack. |
| Unpack.LetterCount | develop/dev02/task.go:66-81 | A letter followed by the digit d is written d times, so a zero count writes nothing. |
| Unpack.TwoDigitCountFails | develop/dev02/task.go:103-116 | A count is a single digit: a letter followed by two digits does not unpack. |
| Unpack.EscapedRune | develop/dev02/task.go:86-90 | A backslash escapes any rune, digits and backslashes included, and the escaped rune may take a count. |
| Unpack.TrailingSlashFails | develop/dev02/task.go:87-95 | Any packed text followed by a lone backslash does not unpack. |
| Unpack.UnpackPlain | develop/dev02/task_test.go:58-63 | "a4bc2d5e" unpacks to "aaaabccddddde". |
| Unpack.UnpackDigitsOnly | develop/dev02/task_test.go:72-76 | "45" does not unpack. |
| Unpack.UnpackEscapedDigits | develop/dev02/task_test.go:78-83 | `qwe\4\5` unpacks to "qwe45". |
| Unpack.UnpackEscapedRepeat | develop/dev02/task_test.go:85-90 | `qwe\45` unpacks to "qwe44444". |
| Unpack.UnpackEscapedSlash | develop/dev02/task_test.go:92-97 | `qwe\\5` unpacks to "qwe" followed by five backslashes. |
| EventStore.NewEventStore | develop/dev11/storage.go:35-37 | A new store is empty, valid, and will hand out id one first. |
| EventStore.Save | develop/dev11/storage.go:43-53 | The event is stored under the counter's value with that id, and the counter advances. On a valid store the other events are untouched, the new id was free and the store stays valid. |
| EventStore.Load | develop/dev11/storage.go:59-65 | Load gives (event, true) exactly for a stored id, and (zero event, false) otherwise. |
| EventStore.Change | develop/dev11/storage.go:71-94 | An absent id reports false and leaves the store unchanged. A present id keeps its id, takes the new text and date (keeping the old ones for an empty text or the zero time), and no other key changes. |
| EventStore.Delete | develop/dev11/storage.go:167-178 | Exactly the given key is removed, and it reports whether that key was stored. An absent id changes nothing. |
| EventStore.InTimeSpan | develop/dev11/storage.go:156-162 | A time is in the span exactly when it lies between the bounds inclusively, in whichever order the bounds come. |
| EventStore.SpanInclusiveSymmetric | develop/dev11/storage.go:156-162 | Both bounds belong to the span, and swapping them changes nothing. |
| EventStore.GetBetween | develop/dev11/storage.go:138-151 | The result holds exactly the stored events whose date lies in the span, each once, in whatever order the map is walked. |
| EventStore.SaveLoad | develop/dev11/storage.go:43-65 | What was saved loads back under the id it was given. |
| EventStore.ChangeNothing | develop/dev11/storage.go:79-91 | Changing with an empty text and the zero time leaves the store as it was. |
| EventStore.DeleteLoad | develop/dev11/storage.go:167-178 | A deleted id no longer loads. |
| EventStore.NeverReused | develop/dev11/storage.go:43-53 | After any sequence of saves, changes and deletes, the store stays valid and the counter never goes back. The next id is therefore still unused, even after deletions. |
| EventStore.TwoSaves | develop/dev11/storage.go:35-65 | Two saves into a new store hold two events, and the first loads under id one. |
| EventStore.ChangeText | develop/dev11/storage.go:71-94 | Changing only the text of a saved event keeps its date and stores the new text. |
| Cut.AppendFields | develop/dev06/task.go:39-47 | It appends the values of the leading pieces in order. It stops at the first piece that does not parse and reports that piece, keeping what was appended before it. |
| Cut.Set | develop/dev06/task.go:37-49 | The list only grows, and an error always names one of the comma-separated pieces. |
| Cut.SetSucceedsIff | develop/dev06/task.go:37-49 | Set succeeds exactly when every comma-separated piece is an integer. |
| Cut.SetFormatted | develop/dev06/task.go:37-49 | Comma-separated integers are appended exactly, in order. |
| Cut.SetEmptyPiece | develop/dev06/task.go:37-49 | An empty piece, from an empty value or a stray comma, is an error. |
| Cut.SetOneTwoThree | develop/dev06/task.go:37-49 | `-f 1,2,3` gives the list 1, 2, 3. |
| Cut.DelimStrings | develop/dev06/task.go:54-60 | The lines keep their number and order, and each becomes its split on the delimiter. |
| Cut.DelimRows | develop/dev06/task.go:54-60 | Each row joins back to its line, and has several fields exactly when the line contains the delimiter. |
| Cut.OnlyDelimited | develop/dev06/task.go:66-74 | No kept row has exactly one field. |
| Cut.OnlyDelimitedMembers | develop/dev06/task.go:66-74 | A row is kept exactly when it is an input row with other than one field. |
| Cut.OnlyDelimitedAppend | develop/dev06/task.go:66-74 | Filtering commutes with concatenation, so it keeps the rows' order. |
| Cut.SeparatedKeepsDelimited | develop/dev06/task.go:129-132 | With `-s`, the printed rows are exactly the splits of the lines that contain the delimiter, in order. |
| Cut.WantedIndexes | develop/dev06/task.go:82-90 | The printed column indexes are those in the list, or all of them when the list is empty, in ascending order. |
| Cut.PickedAt | develop/dev06/task.go:87-98 | The printed columns are the row's columns at the wanted indexes, in column order. |
| Cut.PickedAll | develop/dev06/task.go:90 | With an empty list every column is printed. |
| Cut.PickedSameFields | develop/dev06/task.go:82-90 | The order of the list and any repeats in it make no difference. |
| Cut.PrintRow | develop/dev06/task.go:88-101 | The first-column flag loop prints the wanted columns joined by the delimiter, then a newline only if a column was printed. |
| Cut.RowTextShape | develop/dev06/task.go:88-101 | A row prints nothing when no column is wanted. Otherwise its output starts with the first wanted column, with no delimiter before it, and ends with a newline. |
| Cut.PrintStrings | develop/dev06/task.go:80-103 | The rows' outputs follow each other in row order. |
| Cut.CutCopies | develop/dev06/task.go:121-135 | Without `-f` and `-s`, one pass prints the text back, followed by a newline. |
| Cut.SeparatedDropsPlain | develop/dev06/task.go:121-135 | With `-s`, a line without the delimiter prints nothing. |
| Grep.Context | develop/dev05/task.go:81-84 | A non-zero `-C` replaces both `-A` and `-B`. |
| Grep.RewritePattern | develop/dev05/task.go:86-94 | `-i` puts "(?i)" in front. `-F` then anchors the result with "^" and "$". |
| Grep.RewriteInverse | develop/dev05/task.go:86-94 | The rewriting keeps the user's pattern intact between the parts it adds. |
| Grep.Push | develop/dev05/task.go:38-47 | With capacity zero nothing is kept. Below capacity the line is appended. At capacity the oldest line is dropped, so the length stays at the capacity. |
| Grep.BufferKeepsLast | develop/dev05/task.go:38-47 | Feeding lines one by one leaves exactly the last `cap` of them, oldest first. |
| Grep.PushAllTail | develop/dev05/task.go:38-47 | A buffer that holds the tail of the history keeps holding the tail of the longer history. |
| Grep.AppendBufferAsWritten | develop/dev05/task.go:38-47 | The code as written, with Go's slice capacity made explicit: the length never exceeds the slice's capacity, but that capacity grows on reallocation. |
| Grep.AsWrittenAgreesBelowThree | develop/dev05/task.go:38-47 | With capacity one or two the code as written behaves as intended. |
| Grep.BufferOverflowsAsWritten | develop/dev05/task.go:38-47 | With `-B 3`, five unselected lines leave four in the buffer as written, where three are intended. |
| Grep.Print | develop/dev05/task.go:168-181 | Printing only adds: one output line per newly printed line, and earlier output is untouched. |
| Grep.PrintMembers | develop/dev05/task.go:170-181 | After printing, the printed lines are the earlier ones together with those handed over. |
| Grep.PrintRendersOwnText | develop/dev05/task.go:170-181 | The output lines one print adds are, in order, the renderings of the lines it newly prints: each line's own text, prefixed by its number and a colon under `-n`. |
| Grep.PrintAsWritten | develop/dev05/task.go:170-180 | As written, without `-n` every newly printed entry prints the text of the line just read. |
| Grep.PrintAsWrittenRepeats | develop/dev05/task.go:170-180 | Lines "a" and "b", a pattern matching "b", and `-B 1`: as written the output is "b" twice, where "a" then "b" is intended. |
| Grep.Step | develop/dev05/task.go:123-182 | A line is selected exactly when match differs from invert. A selected line counts, empties the buffer and restarts the after-count. An unselected line goes into the buffer and uses up one pending after-line. In count mode a file prints nothing per line and standard input prints one empty line. Otherwise the lines printed so far stay a prefix, and the output grows by the rendering of exactly the newly printed lines. |
| Grep.Run | develop/dev05/task.go:123-141 | A matcher failure stops the loop early; otherwise every line is consumed. |
| Grep.GrepLines | develop/dev05/task.go:86-185 | The run is fatal exactly when matching the rewritten pattern fails on some line. |
| Grep.RunFatal | develop/dev05/task.go:136-141 | The loop reports a fatal error exactly when some line cannot be matched. |
| Grep.StepOrdered | develop/dev05/task.go:143-181 | Each line keeps the printed output in file order and keeps the buffer consistent with it. |
| Grep.RunOrdered | develop/dev05/task.go:123-182 | Along any input, the printed lines stay in file order. |
| Grep.PrintedOnce | develop/dev05/task.go:170-181 | Printed lines increase in line number, so no (text, number) line is printed twice. |
| Grep.NoContextPrintsSelected | develop/dev05/task.go:143-181 | Without context the printed lines are exactly the selected lines, in file order, and the output is their rendering. |
| Grep.RunRenders | develop/dev05/task.go:123-181 | For the corrected machine: outside count mode, along any input the earlier printed lines stay a prefix, and the output grows by the rendering of exactly the lines printed along the way. |
| Grep.PushLines | develop/dev05/task.go:38-47 | Pushing an unselected line keeps the buffer equal to the unselected lines since the last selected one, at most `before` of them, oldest first. |
| Grep.ContextStep | develop/dev05/task.go:143-181 | For the corrected machine, one line keeps the invariant: the buffer and the after-count are what the last selected line implies, and the printed lines are exactly the wanted ones so far. |
| Grep.RunKeeps | develop/dev05/task.go:123-141 | An invariant of line positions and states that every step keeps holds at the end of the input. |
| Grep.ContextEnd | develop/dev05/task.go:123-181 | For the corrected machine, after the whole input the printed lines are exactly the wanted ones. |
| Grep.ContextPrints | develop/dev05/task.go:143-181 | What `-A`, `-B` and `-C` are meant to do, as the corrected machine does it: outside count mode it prints, in file order and once each, exactly the lines that are selected, or come at most `after` lines after a selected line, or at most `before` lines before one. The output is their rendering. |
| Grep.CountsSelected | develop/dev05/task.go:143-170 | In count mode the counter ends at the number of selected lines, and nothing is printed for a file. |
| Grep.CountPrintsOnlyTotal | develop/dev05/task.go:168-185 | Counting the lines of a file prints only the number of selected lines. |
| Speaker.Transition | pattern/08_state.go:80-137 | From Stop the two starts switch state. A playing speaker stops. Playing actions never leave the speaker silent, and music and podcast never switch into each other. |
| Speaker.TransitionFollowsRules | pattern/08_state.go:36-38 | An action changes the state exactly when the design permits it, and is reported "OK" exactly then. A refused action leaves the state alone. |
| Speaker.SetState | pattern/08_state.go:56-58 | SetState installs the given state and keeps the name. |
| Speaker.Act | pattern/08_state.go:62-72 | The speaker delegates to its current state. With no state set the call panics. |
| Speaker.Run | pattern/08_state.go:139-156 | A run prints one line per action. |
| Speaker.RunAppend | pattern/08_state.go:139-156 | Running two action sequences in turn is running their concatenation. |
| Speaker.StopLast | pattern/08_state.go:88-137 | Whatever came before, a final StopBroadcasting leaves the speaker silent. |
| Speaker.Trace | pattern/08_state.go:80-137 | The states a run passes through, each obtained from the previous one by one transition. |
| Speaker.NeverSwitchesDirectly | pattern/08_state.go:80-137 | No run ever goes from music straight to podcast or back. |
| Speaker.Demo | pattern/08_state.go:139-156 | The demonstration ends silent, after the printed sequence of warnings, starts and stops. Before its first SetState, an action panics. |
| Hospital.After | pattern/05_chain_of_resp.go:48-83 | A department prints its line before the rest of the chain runs. |
| Hospital.Execute | pattern/05_chain_of_resp.go:48-105 | At most one line is printed per department in the chain. |
| Hospital.ReceptionForwards | pattern/05_chain_of_resp.go:48-61 | Reception marks the patient registered and always hands them on. |
| Hospital.DoctorForwards | pattern/05_chain_of_resp.go:72-83 | The doctor marks the patient seen and always hands them on. |
| Hospital.CashierStops | pattern/05_chain_of_resp.go:99-105 | The cashier leaves the patient unchanged and forwards to no one, whatever follows it. |
| Hospital.Reached | pattern/05_chain_of_resp.go:48-105 | The departments a patient reaches are those up to and including the first cashier. |
| Hospital.ExecuteEffect | pattern/05_chain_of_resp.go:48-105 | A run ends normally exactly when the chain has a cashier. A flag ends up set when it was set before or its department precedes the first cashier; the cashier's flag never changes. One line is printed per department reached. |
| Hospital.SecondRunChangesNothing | pattern/05_chain_of_resp.go:48-105 | Running the chain a second time leaves the patient's flags unchanged. |
| Hospital.AlwaysAskedToPay | pattern/05_chain_of_resp.go:99-105 | A patient who has not paid is asked to pay on every run that reaches the cashier. |
| Hospital.Demo | pattern/05_chain_of_resp.go:114-127 | A fresh patient is registered and sees the doctor, but is not marked as paid. A second run reports the work done, except that payment is asked for again. |
| Hospital.UnlinkedChainPanics | pattern/05_chain_of_resp.go:48-83 | A chain whose last link is nil panics after the earlier departments have done their work. |

## Left out

- Operating-system effects of the shell are not interpreted:
  - `os.Chdir`, `os.Getwd` and the child's output are `Host` functions of the children spawned so far;
  - the `/proc/*/exe` glob and `os.Readlink` are the `Host` function `procs`, of the signals sent and the children spawned so far, each entry already reduced to its directory component and link;
  - `syscall.Kill` and spawning are appended to logs;
  - whether a SIGKILL to a pid reaches the shell itself, as one to 0 or to the shell's own pid does, is the `Host` predicate `killsShell`;
  - `os.Exit` is an `Exited` outcome.
- The shell's `ps` glob error branch is not modelled. The pattern is a constant and cannot be malformed.
- The shell's stdin read loop in `main`, and the printing of a line's error, are not modelled. `ExecCommands` handles one line.
- GoStrconv.Atoi: syntax and range errors are one `NumError` carrying the input, because the model never inspects the error kind.
- SortUtil.Fields: only the ASCII whitespace bytes count as spaces. Go's `strings.Fields` also splits on the Unicode spaces U+0085 and U+00A0, which are two-byte sequences in UTF-8, and on U+1680, U+2000 to U+200A, U+2028, U+2029, U+202F, U+205F and U+3000, which are three-byte sequences in UTF-8.
- `sort -n`'s float comparison is the parameter `numLess`, assumed to be a strict weak order; `buildCompFloat` parses floats. Its `log.Fatalf` on an unparsable key is not modelled.
- Reading and writing the `sort` utility's file, and flag parsing in every program, are not modelled.
- The calendar's `sync.RWMutex` is not modelled, including the unlock and relock inside `getBetween`'s loop: every operation is one atomic step.
- The calendar's `GetTodays`, `GetThisWeeks` and `GetThisMonths` and `JSONTime` are not modelled. They depend on the wall clock, calendar arithmetic and date formatting.
- EventStore.Save: `nextID` is an unbounded integer, so the wrap-around of a 64-bit counter after 2^63 saves is not modelled.
- The calendar's HTTP layer (`handler.go`, `server.go`, `service.go`) is not part of this model.
- Unpack: `unicode.IsLetter` is the parameter `isLetter`. The proofs need only that neither a backslash nor an ASCII digit is a letter, which `unicode.IsLetter` satisfies. The examples use ASCII letters.
- `grep`'s regular expression engine is a parameter, not modelled: pattern syntax, compilation errors and matching semantics are not interpreted.
- `grep`'s and `cut`'s scanners, and their file and stdin I/O, are not modelled. `grep` runs over a given sequence of lines. `cut` is modelled as one pass of its endless loop over one scanned text (`CutText`).
- Grep.Step: uses the corrected print (`develop/dev05/task.go:177`) and the bounded buffer (`develop/dev05/task.go:44-46`), not the code as written. Under `-B` without `-n` the program prints the current line for every queued line, and from `-B 3` on its buffer can hold more than `before` lines. The code as written is `Grep.PrintAsWritten` and `Grep.AppendBufferAsWritten`.
- Grep.Run: folds the corrected `Grep.Step`, so under `-B` its state and output are the intended ones, not those of the code as written.
- Grep.GrepLines: its output is the corrected machine's, not the program's, whenever `-B` (or `-C`) is used without `-n`, and also with `-n` from `-B 3` (or `-C 3`) on, where the program's buffer can keep more than `before` lines. For example, with `-B 3 -n`, five unselected lines and then a selected one, the program prints lines 2 to 6 and the model prints lines 3 to 6. The allocation `make([]line, 0, *before)` (`develop/dev05/task.go:112`, `:153`) is not modelled either: for a huge `-B` or `-C`, the program panics with "makeslice: cap out of range" or aborts out of memory before reading a line, where the model runs normally.
- Grep.StepOrdered: proved for the corrected machine only. The code as written prints the current line in place of each queued one.
- Grep.RunOrdered: proved for the corrected machine only, for the same reason as Grep.StepOrdered.
- Grep.PrintedOnce: proved for the corrected machine only. As written, the same text can be printed more than once (`Grep.PrintAsWrittenRepeats`).
- Grep.RunRenders: proved for the corrected machine only. As written, under `-B` without `-n` each queued line prints the text of the line just read, not its own.
- Grep.ContextStep: proved for the corrected machine only. As written, from `-B 3` on the buffer can hold more than `before` lines (`Grep.BufferOverflowsAsWritten`), so the buffer part of the invariant fails.
- Grep.ContextEnd: proved for the corrected machine only. As written, from `-B 3` on extra before-lines can be printed, and without `-n` queued lines print the wrong text.
- Grep.ContextPrints: states what `-A`, `-B` and `-C` are meant to do, proved for the corrected machine only. The program as written differs from `-B 3` on (extra before-lines) and under `-B` without `-n` (queued lines print the current text); both are listed under "## Findings".
- Grep.GrowOne: Go's growth rule for a full slice is modelled without the rounding to allocator size classes.
- `cut`'s `fieldList.String` is not modelled. It only formats the list for the flag package's help output.
- Hospital.Execute: a chain is a finite sequence of departments, so a cyclic `next` chain cannot be expressed. For example, after `r.SetNext(d); d.SetNext(r)` the Go code recurses until the stack overflows.
- Speaker.Act: every state's back-pointer is the speaker itself, as `main` builds them. A state built with a nil back-pointer, which prints and then panics on a switching action, or with another speaker's pointer, which switches that other speaker, is not modelled.
- The speaker's and the hospital's printing are modelled as `Message` values, and `Speaker.Text` gives the speaker's printed text.
- Strings are sequences of characters. The shell's buffers, `cut` and `grep` treat a character as a byte or rune, and invalid UTF-8 is not modelled.
- The other exercises are not part of this model: dev01 (an NTP query), dev04 (only its tests are present), dev07 (goroutine or-channel), dev09 (web crawler), dev10 (telnet client), and the façade and visitor patterns (printing only).

## Findings

| source | as written | input that shows it | evidently intended | confidence | as-written member | corrected member |
|---|---|---|---|---|---|---|
| develop/dev05/task.go:177 | Without `-n`, every queued line prints `text`, the line just read, instead of its own `v.text`. | Lines "a", "b"; pattern "b"; `-B 1` prints "b", "b". | Print each queued line's own text: "a", "b". | not executed | Grep.PrintAsWrittenRepeats | Grep.PrintRendersOwnText |
| develop/dev05/task.go:44-46, 112 | At capacity, `append((*buffer)[1:len], el)` appends to a full slice of capacity `cap-1`, which reallocates with a larger capacity. From `-B 3` on, the buffer then keeps more than `before` lines. | `-B 3` and five unselected lines leave four lines in the buffer. | A FIFO of at most `before` lines, keeping the last ones. | not executed; depends on the Go runtime's growth rule | Grep.BufferOverflowsAsWritten | Grep.BufferKeepsLast |
