# Simple CLI To-Do: the task codec and the task store

This project models, in Dafny, the core of a single-file Java command-line to-do list
(`TodoApp.java`) and proves properties of the model. The core has two parts:

- **The record codec of `Task`.**
  - `escape` and `unescape` are a two-state escape scanner.
  - `splitTsv` cuts a line at unescaped tabs.
  - `toTsv` and `fromTsv` write and read one task as six tab-separated fields: `id`, `done`, `priority`, `due`, `title`, `tags`.
- **The in-memory `TaskStore`.**
  - The store is an insertion-ordered map from id to task, plus the `nextId` counter.
  - Its operations are `add`, `delete`, `get`, `all`, `size` and `clearCompleted`.
  - `save` writes two header lines, one line per task and a `.meta` sidecar holding the counter.
  - `load` rebuilds the store from those lines.

The pure input helpers of the command handlers are modelled too. So are the handlers that change the store: `add`, `done`/`undone`, `edit`, `del` and `clear`.

Modules, in dependency order:

| file | module | models |
|---|---|---|
| `base.dfy` | `Base` | `Option`, `Result`, the `int` range and its wrap-around |
| `javatext.dfy` | `JavaText` | `trim`, `isBlank`, `String.join`, `split` on one character, `LinkedHashSet.add`/`addAll`, ASCII lower case |
| `decimal.dfy` | `Decimal` | `Integer.toString` and `Integer.parseInt` |
| `escaping.dfy` | `Escaping` | `Task.escape`, `Task.unescape` |
| `tsvsplit.dfy` | `TsvSplit` | `Task.splitTsv` |
| `records.dfy` | `Records` | `Priority`, dates, `Task`, `toTsv`, `fromTsv` |
| `taskmap.dfy` | `TaskMap` | the `LinkedHashMap<Integer, Task>`: `get`, `put`, `removeIf` |
| `taskstore.dfy` | `TaskStore` | `add`, `delete`, `get`, `all`, `size`, `clearCompleted`, in-place edits, the counter invariant |
| `persistence.dfy` | `Persistence` | `save` and `load`, with the files as values |
| `cmdparse.dfy` | `CommandParsing` | `parseFlags`, `leadingText`, `truncate`, `parseTags`, `parsePriority`, `parseId` |
| `commands.dfy` | `Commands` | the `add`, `done`, `undone`, `edit`, `del` and `clear` handlers, and a session of them |

How the Java is represented:

- Strings are `seq<char>`. A Java `null` string is `Option<string>`.
- Ids and the counter are the subset type `Int32`. `nextId++` and `t.id + 1` wrap explicitly (`Base.Increment`).
- The date formatter is a value `DateFormat(format, parse)`. A parse failure is `None`.
  - Round-tripping dates is the hypothesis `WellBehaved(df)`: formatting yields date characters, and parsing the text gives the date back. It is never assumed globally.
- `save` returns the lines of the main file and the sidecar text.
- `load` takes the main file as `Option<seq<string>>` (`None` when the file is absent) and the sidecar as `Option<string>`. It returns the store, plus the line that failed to decode and why, if one did.
- A handler returns the store it leaves behind and the error it threw, if any. The command loop prints that error and continues with that store.

## Model

| member | source | states |
|---|---|---|
| Base.Increment | TodoApp.java:369 | `nextId++` on an `int`: the result is the successor modulo 2^32, in the `int` range |
| Decimal.ParseInt | TodoApp.java:311 | `Integer.parseInt` accepts only an optional sign followed by one or more digits, so a lone sign is rejected. Digits with no sign or with `+` read as their decimal value when it is at most the largest `int`, and are rejected above it. Digits after `-` read as the negated value when it is at least the smallest `int`, and are rejected below it |
| Decimal.ParseIntToString | TodoApp.java:305 | the id written by `toTsv` reads back as the same `int`, for every `int` |
| Escaping.Escape | TodoApp.java:321-324 | `escape(null)` is empty. The three chained replacements escape each character on its own, no raw tab or newline remains, and the result is a well-formed escaped field |
| Escaping.ReplaceChainIsEscapeEach | TodoApp.java:323 | replacing backslashes, then tabs, then newlines over the whole string equals escaping each character independently |
| Escaping.Unescape | TodoApp.java:325-338 | the unescaped text is never longer than its input |
| Escaping.UnescapeEscape | TodoApp.java:321-338 | `unescape(escape(s)) == s` for every `s`, and a null string comes back as the empty string |
| Escaping.UnescapePair | TodoApp.java:329-335 | `\t` and `\n` stand for tab and newline, and a backslash before any other character stands for that character |
| Escaping.TrailingBackslashDropped | TodoApp.java:328-337 | a lone backslash at the end of the input produces nothing |
| TsvSplit.SplitTsv | TodoApp.java:340-358 | the result has at least `expected` fields. Its first fields are the cut pieces, and the padding fields are empty |
| TsvSplit.FieldsOfJoin | TodoApp.java:340-358 | cutting the tab-join of escaped fields gives exactly those fields back, since backslash pairs are kept intact |
| TsvSplit.JoinOfFields | TodoApp.java:340-358 | unless the line ends in a lone backslash, re-joining its fields with tabs rebuilds the line, and every field is an escaped field |
| TsvSplit.TrailingBackslashDropped | TodoApp.java:344-355 | a lone backslash at the end of a line is dropped from the last field |
| Records.PriorityValueOf | TodoApp.java:313 | `Priority.valueOf` accepts exactly the three constant names and gives the constant so named |
| Records.ToTsv | TodoApp.java:303-307 | the line starts with the id, and with a well-behaved formatter it holds no newline |
| Records.ToTsvConcat | TodoApp.java:303-307 | the line is the six fields concatenated with a tab between neighbours |
| Records.ToTsvFields | TodoApp.java:303-307 | splitting a task's line gives exactly six fields. Fields 4 and 5 are `escape(title)` and `escape(join(",", tags))` verbatim |
| Records.FromTsv | TodoApp.java:309-319 | decoding fails on a non-numeric id, then on a bad priority name, then on an unparsable due date, in that order, and succeeds otherwise. `done` holds exactly when field 1 is `"1"`, and an empty field 3 means no due date. Title and tags come from the unescaped fields 4 and 5 |
| Records.TagsRoundTrip | TodoApp.java:316-317 | tags that are non-empty and comma-free survive the comma join, the split and `addAll` |
| Records.RoundTrip | TodoApp.java:303-319 | `fromTsv(toTsv(t)) == t` whenever the title is present and every tag is non-empty and comma-free, whatever tabs, newlines or backslashes they hold |
| Records.NullTitleReadsEmpty | TodoApp.java:322 | a null title is written as an empty field and reads back as the empty string |
| TaskMap.Lookup | TodoApp.java:379 | `get` finds a task exactly when its id is a key, and the task found has that id |
| TaskMap.Put | TodoApp.java:374 | `put` under a new id appends at the end of iteration order. Under a present id it replaces that entry in place, and every other entry stays as it was |
| TaskMap.LookupPut | TodoApp.java:374 | after `put(t.id, t)`, `get` returns `t` under its id and is unchanged for every other id |
| TaskMap.Filter | TodoApp.java:383 | `removeIf` keeps exactly the accepted entries, in their original order, and keeps as many as the count of accepted entries |
| TaskMap.LookupFilter | TodoApp.java:383 | after `removeIf`, an id is still found exactly when its task was accepted |
| TaskMap.IdsCount | TodoApp.java:381 | the table holds one entry per distinct id |
| TaskStore.Get | TodoApp.java:379 | `get(id)` returns the task filed under `id`, if any |
| TaskStore.Size | TodoApp.java:381 | `size()` is the number of distinct ids in the store |
| TaskStore.All | TodoApp.java:380 | `all()` lists every task exactly once, each found by `get` under its own id |
| TaskStore.Add | TodoApp.java:368-376 | the new task carries the old counter as its id and MEDIUM when no priority is given. It is found under that id while every other id is unchanged, and the counter moves on. With the counter invariant and room left, the task is appended and the counter grows by exactly one |
| TaskStore.Delete | TodoApp.java:378 | the result is true exactly when the id was present. Only that id disappears, the rest keep their order, and the counter is untouched |
| TaskStore.ClearCompleted | TodoApp.java:383 | exactly the done tasks are removed, in order. The number removed is the number of done tasks, and the counter is untouched |
| TaskStore.Patched | TodoApp.java:170-173 | an edit replaces exactly the fields it supplies and never the id |
| TaskStore.Update | TodoApp.java:155-157 | changing the task returned by `get` fails on an unknown id and otherwise changes that task alone. It keeps the order and the counter |
| TaskStore.ApplyKeepsCounterAhead | TodoApp.java:368-383 | each store operation keeps the counter above every id, and only `add` moves it, by one. An `add` must start below the largest `int` |
| TaskStore.RunKeepsCounterAhead | TodoApp.java:368-383 | over any run of operations whose additions stay within the `int` range, the counter stays above every id and never decreases. The additions receive consecutive ids starting at the counter |
| TaskStore.CounterWrapsAtLimit | TodoApp.java:369 | the range bound is needed: from the largest `int`, two additions hand out the largest and then the smallest `int`, and the counter falls below an id in the store |
| TaskStore.DeletedIdNeverReissued | TodoApp.java:368-378 | once deleted, an id is not handed out again by later additions, as long as they do not take the counter past the largest `int` |
| Persistence.Save | TodoApp.java:385-399 | `save` writes the two header lines, one `toTsv` line per task in iteration order, and the counter in decimal to the sidecar |
| Persistence.SavedLinesSkipped | TodoApp.java:387-408 | of the lines `save` writes, `load` passes over exactly the two header lines |
| Persistence.EncodedNotSkipped | TodoApp.java:408 | a task's line is neither a comment nor blank |
| Persistence.SidecarRoundTrip | TodoApp.java:397-421 | the counter written to the sidecar reads back as itself after `trim` and `parseInt` |
| Persistence.LoadTask | TodoApp.java:409-411 | a decoded task is `put` under its id and every other id keeps its task. Below the largest `int` the counter becomes the larger of itself and `id + 1`. An id equal to the largest `int` leaves the counter alone, because `id + 1` wraps to the smallest `int` |
| Persistence.LoadLines | TodoApp.java:406-412 | the read loop never lowers the counter. It keeps the counter positive and above every id except the largest `int`, whose successor wraps, and the counter is either 1 or one past some id. A reported failure names a line of the file that is neither a comment nor blank |
| Persistence.Load | TodoApp.java:401-424 | an absent file gives the empty store with counter 1. The tasks are always those the read loop entered. A decode failure in the read loop is always reported, with the tasks read so far and no sidecar read. With a readable sidecar the counter is the larger of the loop's counter and the sidecar's value, and without one it is the loop's counter. Either way the counter is positive and above every id except the largest `int` |
| Persistence.LoadLinesAppend | TodoApp.java:406-412 | reading two files one after the other equals reading the first and then, unless it failed, the second |
| Persistence.SkippedLineIgnored | TodoApp.java:408 | a comment or blank line anywhere in the file changes nothing |
| Persistence.HeaderIgnored | TodoApp.java:387-388 | the two header lines are never decoded |
| Persistence.LinesStopAtBadLine | TodoApp.java:406-412 | the read loop stops at the first line that fails to decode and keeps what it read before |
| Persistence.LoadStopsAtBadLine | TodoApp.java:401-424 | loading is not atomic. A line that fails to decode is reported with its error, every task before it is kept, and every later line and the sidecar are ignored |
| Persistence.LoadDuplicateIdKeepsLast | TodoApp.java:410 | of two lines with the same id, the later task is kept, at the position where the id first appeared |
| Persistence.LargestIdLeavesCounter | TodoApp.java:411 | a task with the largest `int` id does not move the counter |
| Persistence.LoadSavedLines | TodoApp.java:385-413 | the lines `save` writes read back as the same tasks in the same order, with a counter at or below the saved one |
| Persistence.SaveLoadRoundTrip | TodoApp.java:385-424 | saving and then loading gives back the same store, with the same tasks in the same order and the same counter. This holds when titles are present, tags are non-empty and comma-free, and the counter is above every id |
| Persistence.SidecarKeepsDeletedIdRetired | TodoApp.java:378-424 | after a delete, a save and a load, the counter is where it was, so the deleted id stays retired |
| Persistence.WithoutSidecarLargestIdReissued | TodoApp.java:401-412 | without the sidecar the deleted largest id comes back. Take a store holding ids 1 and 2: delete id 2, save, drop the sidecar and load, and the next `add` gets id 2 again |
| CommandParsing.Words | TodoApp.java:231 | every token `split("\\s+")` yields for the flag parser is non-empty and holds no `\s` character |
| CommandParsing.WordsJoin | TodoApp.java:231 | words separated by single spaces are read back as the same words |
| CommandParsing.ParseFlags | TodoApp.java:228-246 | a null input gives no flags. Otherwise the keys are exactly the lower-cased words that start with `/` |
| CommandParsing.FlagKeys | TodoApp.java:234-244 | the parsed flags' keys are exactly the lower-cased flag words |
| CommandParsing.FlagValue | TodoApp.java:234-244 | a flag not repeated later maps to the words between it and the next flag, joined by single spaces and trimmed |
| CommandParsing.LeadingText | TodoApp.java:248-252 | a null input gives the empty string. Otherwise the result is a prefix of the input, trimmed, and input with no `" /"` comes back whole, trimmed |
| CommandParsing.LeadingTextOfCommand | TodoApp.java:248-252 | the text before the first `" /"` is what `leadingText` returns, trimmed |
| CommandParsing.TruncateIdempotent | TodoApp.java:223-226 | for a width of at least one, a truncated text fits, so truncating it again changes nothing |
| CommandParsing.Truncate | TodoApp.java:223-226 | null gives the empty string and short text is unchanged. Longer text keeps its first `max - 1` characters plus an ellipsis, and the result never exceeds `max` when `max >= 1` |
| CommandParsing.ParseTags | TodoApp.java:269-279 | a null, blank or `none` list is empty. Otherwise the tags are exactly the non-empty trimmed comma pieces, each non-empty, comma-free and untrimmable at both ends |
| CommandParsing.TagsFromTags | TodoApp.java:274-277 | every tag collected from comma pieces is a proper tag |
| CommandParsing.ParsePriority | TodoApp.java:259-267 | no text or blank text is MEDIUM. Otherwise the result is HIGH exactly for `h`/`hi`/`high` and LOW exactly for `l`/`lo`/`low`, in any case |
| CommandParsing.ParsePriorityNames | TodoApp.java:259-267 | each priority's name, in upper or lower case, reads as that priority |
| CommandParsing.ParseIdPadded | TodoApp.java:281-284 | an id typed with surrounding blanks reads as that id |
| Commands.ParseDate | TodoApp.java:254-257 | null, blank or `none` (any case) means no date. Otherwise the trimmed text must parse, and a failure is an error naming that text |
| Commands.ParseDateFormatted | TodoApp.java:254-257 | a date typed the way the formatter prints it reads back as that date |
| Commands.AddTask | TodoApp.java:109-119 | a blank title is refused, then an unparsable due date. Otherwise exactly the task with the trimmed title, date, priority and tags is added. A restorable store stays restorable |
| Commands.AddRestorable | TodoApp.java:116 | adding a titled task with parsed tags keeps the store restorable and moves the counter by one |
| Commands.ToggleDone | TodoApp.java:153-160 | a non-numeric id or an unknown id is refused and changes nothing. Otherwise only that task's `done` flag is set, and the counter is untouched |
| Commands.DeleteTask | TodoApp.java:178-184 | a non-numeric id is refused. For a known id only that task is removed, and an unknown id is refused with the store unchanged |
| Commands.ClearDone | TodoApp.java:199-205 | `clear` equals `clearCompleted`, and the reported count is the number of done tasks removed |
| Commands.SplitFirstWordOf | TodoApp.java:163 | on trimmed text, `split("\\s+", 2)` gives the first word and the text after the whitespace that follows it |
| Commands.EditFlags | TodoApp.java:169-173 | the title is set first. An unparsable due date then throws with the new title kept and nothing else changed. Otherwise due date, priority and tags are set as supplied, and other tasks are untouched |
| Commands.EditParts | TodoApp.java:162-176 | a blank first word is a usage error, then a non-numeric id, then an unknown id, each leaving the store as it was. On a known id the given title replaces the old one. If the due date does not parse, only the title change stays and the error is reported. Otherwise the due date, priority and tags given replace the old ones. Every other task and the counter are kept |
| Commands.EditKeeps | TodoApp.java:162-176 | an `edit`, accepted or refused, keeps the counter and the set of ids, and keeps a restorable store restorable |
| Commands.ExecuteKeeps | TodoApp.java:45-91 | any one command, on a counter below the largest `int`, keeps a restorable store restorable and moves the counter by at most one |
| Commands.SessionKeeps | TodoApp.java:38-92 | over a session that cannot take the counter past the largest `int`, the store stays restorable and the counter grows by at most one per command |
| Commands.SessionSurvivesRestart | TodoApp.java:25-93 | start from the empty store and type fewer commands than the largest `int`: saving and loading afterwards gives back exactly the store the session built, counter included |

## Left out

- File and console I/O are not modelled. The main file is a sequence of lines and the sidecar is an optional string.
  - Not modelled: `Files.write`, `Files.exists`, `BufferedReader.readLine`, the write of the `.meta` file, and the `IOException` paths.
  - `readLine` also ends a line at a carriage return, and `escape` leaves carriage returns as they are. A title or tag holding `\r` is therefore written raw, and on reading it would split its line in two. The model's lines are given rather than read from text, so the model does not see this.
- Records.RoundTrip and Persistence.SaveLoadRoundTrip: for the program's file, they hold only for titles and tags without a carriage return. A raw `\r` written by `save` splits its line when `readLine` reads it back.
- Persistence.Load: a line that fails to decode throws out of `load`, which catches only `IOException`, and so ends the program at start-up. The model returns the failing line and its error, with the store as the loop left it.
- `synchronized` is incidental: the program is single-threaded.
- Presentation is left out: the interactive loop's reading and printing, `help`, `list` with its sorting, `search`, `renderTable` and `println`. Only the effect of the store-changing commands on the store is modelled.
- The `save` calls inside the handlers and the `save`/`exit` commands are not sequenced into sessions. `Commands.SessionSurvivesRestart` states what a save and load at the end of a session give.
- `LocalDate` and `DateTimeFormatter` internals are not modelled: the formatter is a parameter.
- Character-level differences from Java:
  - Java `char` is a UTF-16 unit, while Dafny `char` is a Unicode scalar value, so lengths in `truncate` can differ for text outside the Basic Multilingual Plane.
  - `Integer.parseInt` also accepts non-ASCII decimal digits; the model accepts ASCII digits only.
- JavaText.AsciiLower: `toLowerCase(Locale.ROOT)` and `equalsIgnoreCase` are modelled on ASCII letters only. The texts they are compared with (`none`, flag names, priority words) are ASCII.
- CommandParsing.Words: the empty first token that Java's `split("\\s+")` yields for text starting with whitespace is not produced. The flag parser ignores that token either way, since no flag is open yet.
- Commands.SplitFirstWord: models `split("\\s+", 2)` only for text that does not start with `\s`. This is the only case the `edit` handler produces, since it trims first. It has no contract of its own; `Commands.SplitFirstWordOf` states it.
- CommandParsing.ParseId: has no contract of its own beyond the type. `CommandParsing.ParseIdPadded` states what it reads.
- CommandParsing.ParseTags: states which tags come out but not their order, which is order of first occurrence.
- CommandParsing.ParseFlags: its contract states the keys only. The value of a flag is stated by `CommandParsing.FlagValue`, for a flag that is not repeated later.
- Records.FromTsv: for the tags it states only that every tag is one of the comma pieces. The exact collection, duplicates collapsed and empty pieces kept as the code keeps them, is `TagsOf`, and `Records.TagsRoundTrip` states the round trip.
- Records.ToTsv: its contract states the leading id and the absence of newlines. The full shape of the line is `Records.ToTsvConcat`.
- Escaping.Unescape: its contract states the length bound only. The scanner's behaviour is stated by `Escaping.UnescapeEscape`, `Escaping.UnescapePair` and `Escaping.TrailingBackslashDropped`.
- ApplyKeepsCounterAhead: assumes an `add` starts below the largest `int`. At the largest `int`, `nextId++` wraps to the smallest `int` (`TaskStore.CounterWrapsAtLimit`).
- RunKeepsCounterAhead: assumes the counter plus the number of additions stays at or below the largest `int`. Past that point the counter wraps and falls below existing ids.
- DeletedIdNeverReissued: holds only while the additions stay within the `int` range. After the counter wraps, the code would hand out ids again, so there is no promise past the wrap.
- ExecuteKeeps: assumes the counter is below the largest `int`, for the same wrap-around reason.
- SessionKeeps: assumes the counter plus the number of commands stays at or below the largest `int`, for the same wrap-around reason.
- SessionSurvivesRestart: assumes fewer commands than the largest `int`. Without that bound the counter could wrap within the session, and the store would no longer round-trip.
- Commands.EditTask, Commands.Execute and Commands.Session: these have no contracts of their own. `Commands.EditParts`, `Commands.EditKeeps`, `Commands.ExecuteKeeps` and `Commands.SessionKeeps` state their properties.
- Null tag sets never reach the store from the handlers. `add` treats a null tag set as empty, and the model takes `Option<OrderedSet>`.
- Two behaviours of the code that are easy to miss:
  - A load that meets an undecodable line keeps the tasks read before it.
  - Decoded tags are neither trimmed nor stripped of empty pieces.
