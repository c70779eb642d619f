# LangRepoChat, modelled in Dafny

LangRepoChat answers questions about a Git repository. It clones one branch and keeps the files that pass a filter. It indexes them for retrieval and answers each question through a language model, with an instruction that fixes the answer language. It has two entry points:

- **The window entry point** (`src/chat_with_llm.py`). It reads `config.yml` and `.env` and checks them. It then shows a chat window that writes every turn to a chat log and closes on "exit".
- **The command-line entry point** (`src/simple_child_langchain.py`). It is meant to be driven line by line by a parent process. It checks its arguments, prints `ready!`, then answers one input line at a time and prints `ready!` after each answer. On "exit" it prints `Processing... done!`.

The model covers the logic between the external services. It has these modules:

- `Strings`: Python's `strip`, `lower`, `split`, `replace`, `endswith` and `in`. It also defines `Join`, the inverse of `split`; the source never calls `join`, and the proofs use `Join` to pin `Split` down.
- `Selection`: how `FILTER_EXT` and `DIR` are normalised, and the two `file_filter` predicates.
- `Startup`: the start-up checks of both entry points.
- `Turns`: the exit test, the language instruction, newline removal and the chat-log line.
- `Timestamps`: the `%Y/%m/%d-%H:%M:%S` turn timestamp.
- `ChatWindow`: the send handler, as a class whose fields are the chat box, the log, the input field and the closed flag.
- `ChildProcess`: the ready/query/answer loop, as a method with loop invariants that produces the trace of reads and prints.

The retrieval index, `index.query(q, llm=llm)`, is a function parameter `index: string -> string`. The clock reading of a turn is an input. Cloning, embedding and the model call are not modelled.

The code differs from a plain description of the system in four places. The model follows the code each time:

- **Missing extension list.** A missing or empty `FILTER_EXT` does not mean "match all files". The comprehension at `src/chat_with_llm.py:51` always yields at least one entry, and an empty token becomes `"."`. So the filter is `endswith((".",))`, and the `else None` branch at line 67 can never run (`Selection.ExtensionsNeverEmpty`, `Selection.EmptyFilterExtIsDot`).
- **Trailing comma in `DIR`.** A trailing comma, or two commas in a row, in `DIR` produces an empty fragment. An empty fragment occurs in every path, so the directory test passes for every file (`Selection.EmptyFragmentMatchesAll`).
- **Empty branch on the command line.** The command line accepts an empty branch. Its check at `src/simple_child_langchain.py:21` only asks whether the branch is a string.
- **Banner line in the chat log.** The chat log starts with the banner line before any turn. After two turns it holds the banner and then two turn lines (`ChatWindow.TwoTurns`).

## Model

| member | source | states |
|---|---|---|
| Strings.Strip | src/chat_with_llm.py:51 | `str.strip()` gives a string no longer than its input |
| Strings.StripSpec | src/chat_with_llm.py:51 | strip keeps a contiguous slice of the input; everything before and after it is white space, and the slice neither starts nor ends with white space |
| Strings.StripIdempotent | src/chat_with_llm.py:130 | stripping twice is stripping once |
| Strings.StripUnpadded | src/chat_with_llm.py:51 | a string with no white space at either end is left unchanged |
| Strings.LowerAt | src/chat_with_llm.py:130 | `lower()` maps each position on its own, keeping the length |
| Strings.RemoveAll | src/chat_with_llm.py:134 | `replace(c, "")` leaves no `c`, shortens the string by the number of `c`s, and keeps every other character's count; the order of what is kept is given by `RemoveAllAppend` |
| Strings.RemoveAllAppend | src/chat_with_llm.py:134 | removal from a concatenation is the removal from each part, in the same order, so the kept characters keep their order |
| Strings.RemoveAllChar | src/chat_with_llm.py:140 | on one character, removal drops `c` and keeps any other character; with `RemoveAllAppend` this determines `replace(c, "")` on every string |
| Strings.RemoveAbsent | src/chat_with_llm.py:140 | replacing a character that does not occur changes nothing |
| Strings.Split | src/chat_with_llm.py:51 | `split(sep)` gives one more piece than there are separators, and no piece holds the separator |
| Strings.JoinSplit | src/chat_with_llm.py:52 | joining the pieces of a split with the separator gives back the string |
| Strings.SplitJoin | src/chat_with_llm.py:52 | splitting the join of separator-free pieces gives back the pieces |
| Strings.SplitNoSeparator | src/chat_with_llm.py:52 | a string without the separator splits into itself alone |
| Selection.NormalizeExtensions | src/chat_with_llm.py:51 | one extension per comma-separated token of `FILTER_EXT` (empty when absent); each is "." followed by the stripped token |
| Selection.ExtensionTuple | src/chat_with_llm.py:67 | by definition `tuple(filter_ext) if filter_ext else None`; what line 67 actually yields, always `Some` of the normalised list, is stated by `ExtensionsNeverEmpty` |
| Selection.ExtensionsNeverEmpty | src/chat_with_llm.py:67 | the normalised list is never empty and each entry starts with "."; the tuple given to the filter is always `Some` of the normalised list, so the `else None` branch is dead |
| Selection.EmptyFilterExtIsDot | src/chat_with_llm.py:51 | an absent or empty `FILTER_EXT` gives exactly the one suffix "." |
| Selection.NormalizeDirs | src/chat_with_llm.py:52 | no fragments exactly when `DIR` is absent or empty; otherwise the fragments joined by commas are `DIR` and none holds a comma |
| Selection.Selected | src/chat_with_llm.py:92-94 | by definition, the window's `file_filter`: the suffix test when the tuple is present and non-empty, and the fragment test when the fragment list is non-empty; `ConfiguredSelection` characterises it on the configured inputs |
| Selection.EmptyFragmentMatchesAll | src/chat_with_llm.py:93 | with an empty fragment in the list, the filter is the extension test alone |
| Selection.ConfiguredSelection | src/chat_with_llm.py:92-94 | the configured filter selects a path iff it ends with some normalised extension and, when `DIR` is given, contains one of its comma-separated fragments |
| Selection.CliSelected | src/simple_child_langchain.py:36 | by definition, the command line's `file_filter`: the path ends with one of the given extensions and contains "src/"; `CliFilterIsWindowFilter` relates it to the window filter |
| Selection.CliFilterIsWindowFilter | src/simple_child_langchain.py:36 | with some extensions, the command-line filter is the window filter with the single fragment "src/"; with none, it selects nothing |
| Selection.DocsMarkdownConfig | src/chat_with_llm.py:51-52 | `FILTER_EXT: md` and `DIR: docs/` normalise to `[".md"]` and `["docs/"]` |
| Selection.DocsMarkdownSelectsReadme | src/chat_with_llm.py:92-94 | `docs/readme.md` passes that filter |
| Selection.DocsMarkdownSkipsNotes | src/chat_with_llm.py:92-94 | `docs/notes.txt` fails the suffix test |
| Selection.DocsMarkdownSkipsSource | src/chat_with_llm.py:92-94 | `src/main.md` fails the fragment test |
| Startup.Start | src/chat_with_llm.py:41-62 | start-up succeeds iff `.env` loaded, the configuration is non-empty, `CLONE_URL` and `BRANCH` are truthy and the API key is truthy; each error occurs exactly under its own condition, in the order checked; on success the settings carry the normalised filters and `LANG` defaulting to "ja" |
| Startup.Validate | src/simple_child_langchain.py:21-24 | the arguments pass iff the clone URL is non-empty and every extension starts with "."; a rejection prints "invalid args" with status 1 |
| Startup.NormalizedExtensionsPassValidation | src/simple_child_langchain.py:21 | extensions normalised the window's way always pass the command line's dot check |
| Turns.IsExit | src/chat_with_llm.py:130 | by definition, `query.strip().lower() == "exit"`, the test both entry points make (also `src/simple_child_langchain.py:51-52`); `ExitSpellings` lists what it accepts |
| Turns.ExitSpellings | src/chat_with_llm.py:130 | the exit test accepts exactly the input whose stripped form is "exit" in any mix of letter case |
| Turns.Localize | src/chat_with_llm.py:137 | the localized query is the instruction for the language, then ": ", then the query unchanged |
| Turns.CliLocalize | src/simple_child_langchain.py:56-59 | by definition, the command line's localized query for `ja` and `en`; `LocalizeAgrees` shows it equals the window's |
| Turns.LocalizeAgrees | src/simple_child_langchain.py:56-59 | the command line builds the same localized query as the window for "ja" and "en" |
| Turns.LocalizeInjective | src/chat_with_llm.py:137 | different queries give different localized queries |
| Turns.Sanitize | src/chat_with_llm.py:134 | the result has no newline, and newline-free text is unchanged |
| Turns.LogLine | src/chat_with_llm.py:145 | by definition, `"Q:, {timestamp}, {query}, A:, {answer}\n"`; `LogLineIsOneLine` shows it is one line |
| Turns.LogLineIsOneLine | src/chat_with_llm.py:145 | with newline-free fields, the log line has exactly one newline, and it is the last character |
| Timestamps.Digits | src/chat_with_llm.py:129 | a zero-padded field has exactly its width and only digits |
| Timestamps.Value | src/chat_with_llm.py:129 | a digit string denotes a number below 10 to the power of its length |
| Timestamps.ValueOfDigits | src/chat_with_llm.py:129 | reading a padded field gives back the number |
| Timestamps.DigitsOfValue | src/chat_with_llm.py:129 | padding the value of a digit string gives back the string |
| Timestamps.Format | src/chat_with_llm.py:129 | the timestamp is 19 characters: digits with "/" "/" "-" ":" ":" at positions 4, 7, 10, 13, 16, and no newline |
| Timestamps.Parse | src/chat_with_llm.py:129 | whatever is read back from a timestamp is a valid clock reading |
| Timestamps.ParseFormat | src/chat_with_llm.py:129 | every valid reading is recovered from its timestamp |
| Timestamps.FormatParse | src/chat_with_llm.py:129 | every string read as a timestamp is the timestamp of what was read |
| ChatWindow.Banner | src/chat_with_llm.py:115 | the opening message is non-empty and ends in a newline, in both languages |
| ChatWindow.Send | src/chat_with_llm.py:127-148 | one click of send: the window ends up closed iff it was closed or the input is an exit request; the log and the chat box only grow, keeping what they held; `SendOnExit`, `SendOnEmpty` and `SendCompletesTurn` give each branch in full |
| ChatWindow.SendOnExit | src/chat_with_llm.py:130-132 | an exit request only closes the window: the chat box, the log and the field are unchanged |
| ChatWindow.SendOnEmpty | src/chat_with_llm.py:133 | an empty field changes nothing |
| ChatWindow.SendCompletesTurn | src/chat_with_llm.py:133-148 | a turn keeps the chat box and adds the question, the answer and a divider; it appends exactly one log line and empties the field |
| ChatWindow.SessionTranscript | src/chat_with_llm.py:127-148 | after a run of ordinary turns, the log is the old log plus one line per turn in turn order; the chat box grows by three controls per turn and keeps its old prefix |
| ChatWindow.TwoTurns | src/chat_with_llm.py:115-148 | a fresh screen after two turns logs the banner and then the two turn lines in order; it shows seven controls |
| ChatWindow.Window.constructor | src/chat_with_llm.py:115-120 | the screen opens with the `Banner` computed from the language, clone URL, branch and printed filters, shown in blue at size 18 and written to the log, with an empty field |
| ChatWindow.Window.Type | src/chat_with_llm.py:122-125 | typing replaces the field's text and nothing else |
| ChatWindow.Window.SendMessage | src/chat_with_llm.py:127-148 | the handler leaves the screen exactly in the state of one `Send` at the formatted clock reading |
| ChildProcess.FirstExit | src/simple_child_langchain.py:50-53 | the position of the first line the loop takes as "exit", or the number of lines if none is |
| ChildProcess.TurnTrace | src/simple_child_langchain.py:51-66 | one answered line reads that line and prints the answer and then "ready!" |
| ChildProcess.ExitTrace | src/simple_child_langchain.py:51-69 | the exit line is read and only the closing line is printed |
| ChildProcess.Serve | src/simple_child_langchain.py:46-69 | the loop's events are "ready!" followed by the reply protocol for the lines; it reports finishing iff some line is an exit request |
| ChildProcess.ReadsUpToExit | src/simple_child_langchain.py:50-53 | the process reads exactly the lines up to and including the first exit, in order |
| ChildProcess.RepliesConsumed | src/simple_child_langchain.py:50-53 | the reply loop reads the same lines as above |
| ChildProcess.PrintedReplies | src/simple_child_langchain.py:50-69 | the loop prints an answer and "ready!" per line before the exit, then the closing line |
| ChildProcess.ExpectedLength | src/simple_child_langchain.py:50-69 | two printed lines per answered line, plus one if an exit came |
| ChildProcess.ExpectedAnswers | src/simple_child_langchain.py:62-66 | the n-th answered line's answer is at position 2n, followed by "ready!" |
| ChildProcess.ExpectedDone | src/simple_child_langchain.py:69 | the closing line comes right after the last "ready!" |
| ChildProcess.ProtocolPrinted | src/simple_child_langchain.py:46-69 | standard output is "ready!" followed by the loop's lines |
| ChildProcess.ReadyBeforeRead | src/simple_child_langchain.py:66 | in the loop's events, the first is a read and every later read follows a "ready!" |
| ChildProcess.ReadyBeforeEveryRead | src/simple_child_langchain.py:46-51 | "ready!" is printed right before every read, the first included |
| ChildProcess.AnswersInOrder | src/simple_child_langchain.py:62-66 | answers come out in the order of the queries, each followed by "ready!", and the output has the stated length |
| ChildProcess.ClosingLineLast | src/simple_child_langchain.py:69 | when an exit came, the closing line is the last printed line |
| ChildProcess.Run | src/simple_child_langchain.py:18-69 | rejected arguments print "invalid args" and exit with status 1; otherwise the output is the protocol's printed lines, ending with status 0 iff an exit came, and still reading if none did |

## Left out

- Cloning, the Git loader, embeddings, the Chroma store and the language model: they are calls into external services. The index is the function parameter `index`, and the file filter is modelled as a predicate that the loader would apply.
- Removing the old checkout, including the read-only retry (`src/chat_with_llm.py:76-86`): it is file-system I/O.
- The Flet layout, the loading screen, the error dialogs and their texts, the asyncio start-up, and screen refreshes: they are UI and I/O with no logic of their own. A start-up error is modelled as `StartupError`, and closing the window as the `closed` flag.
- Loading `.env` and `config.yml`, and argparse: they are I/O. Their results are inputs. `Start` takes a `dotenvLoaded` flag, an optional configuration whose keys are optional strings, and an optional API key. The configuration is `None` for any falsy YAML result, meaning a file that parses to nothing or to an empty mapping; both get the `ConfigNotLoaded` dialog at `src/chat_with_llm.py:45-47`. `Validate` takes the parsed arguments, with the language already restricted to `ja`/`en`.
- Configuration values that are not strings (YAML numbers or lists), and a file that parses to a non-empty value that is not a mapping: the model types the file as a mapping and every key as a string.
- The chat-log directory and the file name made from the start time: they are file-system I/O. The log is the `log` string field.
- Errors inside a turn: neither entry point catches an exception from `index.query`. On the command line (`src/simple_child_langchain.py:62`) the exception is uncaught and ends the process. In the window (`src/chat_with_llm.py:139`) it leaves `send_message` part-way: the `Q:` label is already in the chat box (lines 135-136), but the answer, the divider, the log line and the field reset never happen, and the window stays open. The model does not capture that partial state: `index` is a total function, so every turn completes.
- The hint and submit-button texts (`src/chat_with_llm.py:123`, `150`): they are display texts.
- The assignment of the global `index` in `initialize_app`: the index is a constant field of the window.
- Strings.LowerAt: `lower()` is modelled for the ASCII letters only; every other character is left unchanged. The exit test compares against the ASCII word "exit", so this matters only for non-ASCII characters that Python lower-cases to e, x, i or t.
- ChatWindow.Banner: the printed forms of the fragment list and of the extension tuple (Python reprs) are inputs, not computed. The window's constructor takes them and computes the banner from them.
- ChildProcess.Serve: the input is a finite sequence of lines. At end of input, Python's `readline()` returns the empty string on every call. The empty query is not "exit", so each pass sends the localized empty query to `index.query` and prints its answer and `ready!`, forever. The model instead stops at the last line and reports that the process is still reading.
- ChildProcess.Run: an answer containing newlines is one printed entry here, though it spans several physical lines of standard output.
- Timestamps.Format: years below 1000 are zero-padded to four digits. Python's `%Y` depends on the platform for them.
