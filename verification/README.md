# Verified models of xlOil's concurrent and bit-level core

Dafny models of eight pieces of xlOil (and of the two libraries it carries) whose correctness rests on
invariants or round trips, with proofs about all their inputs, runs and reachable states.
`dafny verify dfyconfig.toml` checks the whole project.

| files | what they model |
|---|---|
| `ThreadPool*` | the CTPL thread pool as interleaving steps of workers, pushes, `resize` and `stop`, with wait set, spurious wakeups and explicit program counters |
| `Utf8`, `BufferedReader`, `Toml*` | toml++: the UTF-8 automaton and escape encoder, the 63-slot replay ring, strings, the calendar and date-times, integers, and the table tree: what headers and pairs leave and change in it, and values read back from it |
| `Watcher*` | the directory watcher against a kernel that finishes read requests through a completion queue |
| `ObjectCache*` | the cell-keyed object cache against the history of what was done to it |
| `Strtok` | tokenising a length-counted string in its own buffer |
| `ArrayBuilder` | the array block with its string store and 2-D padding |
| `Utf16`, `Radix` | UTF-16/UTF-32 conversion and integers in any radix |
| `ExcelArray` | strided sub-array views and their iterator |
| `Basics` | what several of them use |

Code that changes state in place is written as methods of classes (`Parser`, `Builder`, `Utf8Reader`,
`Reader`, `RdcFSWatcher`, `ObjectCache`, `CellCache`, `PStringRef`, `ExcelArrayBuilder`,
`ExcelArrayIterator`) whose contracts tie the new state to a specification function; the laws are then
lemmas about those functions. The two concurrent components are step relations, and their laws hold in
every reachable state.

## What the code does not promise

Where a natural law is false of the code, the code was kept, the exact condition proved, and a concrete
input given.

- `stop(true)` is documented to run everything queued (ctpl_stl.h lines 139-141). A push that has queued
  its task but not yet notified can lose it: `ThreadPoolDrain.RacingPushCanBeLost`. The exact condition, for
  every reachable pool, is `ThreadPoolDrain.StopDrainsExactly`; `ReturnedPushesDrain` gives a condition a
  caller can check.
- The escape handler's three-byte form masks six bits of its second byte with `0x1F` (toml.hpp line 7103),
  losing a bit in every second block of 2048 characters: `Utf8.EncodeExact`, `EncodeLossy`,
  `EncodeLossyExample`.
- `-5` is read as 5. `parse_value` takes a sign and one digit itself and tests `chars[1]` where the sign is
  `chars[0]` (toml.hpp lines 8416-8426): `TomlDecimals.DecimalValueExactly`, `SignLostExample`.
  `parse_integer` would forget the sign too, and refuse `0` (`TomlIntegers.SingleDigitExact`), but no caller
  gives it a single digit. `0x`, `0o` and `0b` with no digit before more text are read as 0:
  `TomlIntegers.EmptyPrefixedIsZero`.
- TOML v1.0.0-rc.1 closes an inline table at its braces. A later `[header]` can still put tables inside:
  `TomlTreeChanges.HeaderExtendsInlineExactly` says which headers do, `TomlTreeMeaning.HeaderExtendsInlineTable`
  shows one. Key-value pairs outside the braces cannot, at any depth: `TomlTreeChanges.ValuesClosedToPairs`.
- A directory added between `stopEventLoop`'s pass over the watches and the event loop's end can be left
  listening when the watcher is destroyed: `WatcherShutdown.RacingAddLeftListening`; exactly when,
  `DestroySafeExactly`. Once `removeDirectory` has returned `errorEvent` can still be called with that id, if
  the completion port fails while the watch is in the map: `WatcherSilence.RemovedButAlerted`,
  `RemovedHeardExactly`. Two watches with one id are not both silenced by `removeDirectory`:
  `RemoveSilencesExactly`, `TwinStillHeard`. `listen` never returns false (it throws), so the code after that
  test is dead, and a throw out of `processEvent` ends the process. After an empty packet (lost changes) a
  watch is never listened to again: `WatcherSilence.DeafForever`.
- The object cache writes its position through a `uint8_t`, so the 257th object of a cell and cycle is not
  found: `ObjectCacheHistory.FetchedExactlyWhileAlive`, `ReferenceReused`. Closing `Book1` also drops `Book10`:
  `CloseMatchesExactly`, `CloseTakesAnotherWorkbook`.
- `strtok` reads past the end of an empty string, and of one that ends in a token and a single delimiter:
  `Strtok.Tokenize`, `TrailingDelimiterExample`.
- `ConvertUTF16ToUTF32` writes past its target if that is two or more characters too small:
  `Utf16.DecodeInto`, `WritesPastEndExample`; values from U+D800 to U+FFFF do not survive UTF-16:
  `RoundTripExactly`, `LostCharacterExample`. `ConvertUTF32ToUTF16` says it stops at a null character; it
  does not.
- The array builder keeps the length of a string in a `wchar_t`, so one of 2^16 characters or more is cut to
  its length modulo 2^16: `ArrayBuilder.TextKeptExactly`.
- The array builder's string store and the sub-array constructor compute in 32 bits:
  `ArrayBuilder.StoreSufficesExactly`, `StoreTooSmallExample`; `ExcelArray.SliceShiftsExactly`,
  `WorksheetSliceExample`.

## Model

| member | source | states |
|---|---|---|
| ThreadPoolSafety.InvKept | external/CTPL/ctpl_stl.h:93-231 | one step of any worker, push, `resize`, `stop` or `pop` keeps mutual exclusion, the wakeup count, the obedience to commands, the whereabouts of every task and the idle count |
| ThreadPoolSafety.NoLostWakeup | external/CTPL/ctpl_stl.h:172-231 | while some worker sleeps unsignalled, no more tasks are queued than workers are waking plus pushes are yet to notify |
| ThreadPoolSafety.QuietPoolIsEmpty | external/CTPL/ctpl_stl.h:172-231 | with no waking worker and no push before its notify, a sleeping worker means an empty queue |
| ThreadPoolSafety.MutualExclusion | external/CTPL/ctpl_stl.h:110-229 | no two agents, be they workers, pushes or the control thread, are ever inside a region locked by the pool's mutex |
| ThreadPoolSafety.CommandWakesSleepers | external/CTPL/ctpl_stl.h:105-160 | once the command's `notify_all` is past, no worker with its flag set, and none at all once `isDone` is set, is asleep |
| ThreadPoolSafety.TasksConserved | external/CTPL/ctpl_stl.h:47-66 | tasks leave the queue in the order they entered, and one that left it is in exactly one place: a worker's hand, run, handed out by `pop`, or deleted |
| ThreadPoolSafety.IdleCount | external/CTPL/ctpl_stl.h:225-228 | `nWaiting` is the number of workers between entering and leaving the wait |
| ThreadPoolResize.ResizeExactly | external/CTPL/ctpl_stl.h:93-118 | every run of `resize(n)` that returns, whatever workers and pushes do meanwhile, leaves exactly `n` threads attached: the old ones up to `n`, then new ones without a flag; the workers newly told to finish are exactly those cut off |
| ThreadPoolResize.ResizeCanReturn | external/CTPL/ctpl_stl.h:93-118 | and wherever a `resize` is, it can still return within so many steps, its own and those of whoever holds the mutex: it waits for nothing else |
| ThreadPoolStop.StopIgnoredExactly | external/CTPL/ctpl_stl.h:141-155 | a call of `stop` returns at once, with nothing changed, iff the pool has been stopped before: by either kind, or for `stop(false)` by `stop(false)` |
| ThreadPoolStop.StopExactly | external/CTPL/ctpl_stl.h:139-170 | every run of any other call that returns leaves an empty queue, no threads attached, and every thread that was attached finished; `stop(false)` has newly told exactly these to finish, `stop(true)` none |
| ThreadPoolStop.ClearsBeforeNotify | external/CTPL/ctpl_stl.h:142-160 | `stop(false)` has every task queued when it was called out of the queue before it notifies or joins anybody |
| ThreadPoolStop.StopCanJoin | external/CTPL/ctpl_stl.h:139-164 | wherever a `stop` is before the joins, it can still get there: it waits for nothing but the mutex |
| ThreadPoolDrain.StopDrains | external/CTPL/ctpl_stl.h:139-170 | after `stop(true)`, shrunk pools included, the final `clear_queue` finds nothing if nothing was queued or some attached worker was not between its failed pop and its read of `isDone` |
| ThreadPoolDrain.StopDrainsExactly | external/CTPL/ctpl_stl.h:139-170 | in every reachable pool, shrunk or not, no run of `stop(true)` deletes a queued task iff that condition holds, or no thread is attached and a detached worker that holds the mutex is about to pop the only task |
| ThreadPoolDrain.ReturnedPushesDrain | external/CTPL/ctpl_stl.h:139-198 | in a pool never shrunk, with at least one worker and no push between its enqueue and its notify, `stop(true)` runs everything |
| ThreadPoolDrain.ExactlyOnce | external/CTPL/ctpl_stl.h:139-231 | when the joins of a `stop(true)` that meets the exact condition are over, every task pushed has run once or been handed out once, and none was deleted |
| ThreadPoolDrain.RacingPushCanBeLost | external/CTPL/ctpl_stl.h:141-198 | a reachable state, task queued and push yet to notify, from which `stop(true)` deletes the task in some run |
| ThreadPoolShutdown.JoiningIsPastNotify | external/CTPL/ctpl_stl.h:139-170 | when `stop` joins, either `isDone` is set or, after `stop(false)`, every worker ever started, detached ones included, has its flag set or has left; what follows holds for both |
| ThreadPoolShutdown.QuietStepLowers | external/CTPL/ctpl_stl.h:161-231 | after the `notify_all` of `stop(true)` or `stop(false)`, every step lowers a ranking of queue, program counters and joins |
| ThreadPoolShutdown.ShutdownBounded | external/CTPL/ctpl_stl.h:161-231 | so no run of the shutdown is longer than the ranking where it began |
| ThreadPoolShutdown.ShutdownNotStuck | external/CTPL/ctpl_stl.h:161-231 | until `stop` returns some step is always possible: no worker can stay asleep |
| ThreadPoolShutdown.MaximalShutdownReturns | external/CTPL/ctpl_stl.h:161-231 | so every run of the shutdown that cannot go on has `stop` returned |
| ThreadPoolShutdown.OneMoreTaskEach | external/CTPL/ctpl_stl.h:143-231 | once `stop(false)` has been through the flags each worker runs at most one more task, whatever is pushed or taken meanwhile |
| Utf8.FeedAgrees | external/tomlplusplus/toml.hpp:4239-4294 | one byte into the automaton accepts exactly at the end of a well-formed character, with its scalar value, and rejects exactly when none begins so |
| Utf8.DecodeExact | external/tomlplusplus/toml.hpp:4239-4294 | the automaton accepts a byte sequence iff it is a concatenation of well-formed characters (section 4 of RFC 3629), and yields exactly their values, each with its own bytes |
| Utf8.DecodeAppend | external/tomlplusplus/toml.hpp:4239-4294 | decoding goes character by character through a concatenation |
| Utf8.Utf8Reader.ReadNext | external/tomlplusplus/toml.hpp:5334-5454 | the reader takes the next character off the bytes, reports the end exactly at the end, and an error exactly where no prefix of what is left is a well-formed character |
| Utf8.EncodeExact | external/tomlplusplus/toml.hpp:7087-7112 | the escape encoder's bytes decode to the value iff the value keeps its bits: below U+0800, above U+FFFF, or in an even block of 2048 |
| Utf8.EncodeLossy | external/tomlplusplus/toml.hpp:7087-7112 | what the other values become: bytes the decoder rejects, or the character 0x800 lower |
| Utf8.EncodeLossyExample | external/tomlplusplus/toml.hpp:7101-7105 | U+4E2D is written as U+462D |
| TomlText.HexDigitExactly | external/tomlplusplus/toml.hpp:4170-4179 | a character is the hexadecimal digit d iff it stands at d in one of two sixteen-letter rows, lower and upper case |
| TomlText.DecimalDigitExactly | external/tomlplusplus/toml.hpp:4161-4164 | likewise for decimal digits |
| TomlText.ControlExactly | external/tomlplusplus/toml.hpp:4224-4229 | the control characters refused in strings, by a table of the first 128 |
| TomlText.TerminatorExactly | external/tomlplusplus/toml.hpp:4200-4211 | the characters that end a value, Unicode's white space and line breaks included, by a list |
| BufferedReader.Reader.ReadNext | external/tomlplusplus/toml.hpp:5514-5550 | moves a cursor over the stream one on, stopping at its end, and returns the item there, although the ring overwrites its slots |
| BufferedReader.Reader.StepBack | external/tomlplusplus/toml.hpp:5552-5564 | moves the cursor back by what the source's assertions allow and returns the item there |
| BufferedReader.BackExactly | external/tomlplusplus/toml.hpp:5552-5564 | which is: to an item of the stream, at most 63 before the furthest one read |
| BufferedReader.Reader.Follow | external/tomlplusplus/toml.hpp:5483-5564 | any allowed mix of the two shows exactly what a plain cursor shows |
| BufferedReader.Reader.Peek | external/tomlplusplus/toml.hpp:5483-5564 | looking up to 63 reads ahead, the end of the stream included, and stepping back is always allowed and leaves the cursor in place |
| TomlStrings.PrintWithEscapes | external/tomlplusplus/toml.hpp:1519-1535 | appends the escaped string to the stream |
| TomlStrings.PrintQuotedString | external/tomlplusplus/toml.hpp:4387-4398 | appends the quoted escaped string, the empty one included |
| TomlStrings.EscapedTextSpelled | external/tomlplusplus/toml.hpp:745-779 | escaping bytes of well-formed UTF-8 is escaping its characters, so multi-byte characters pass through |
| TomlStrings.PrintedExactly | external/tomlplusplus/toml.hpp:745-779 | what each byte is printed as, by the table of 32 escapes |
| TomlStrings.ShortEscapeExactly | external/tomlplusplus/toml.hpp:7038-7064 | the seven one-letter escapes and their bytes; no other letter is one |
| TomlStrings.QuotedRoundTrip | external/tomlplusplus/toml.hpp:7003-7238 | every well-formed UTF-8 string, printed quoted and parsed, comes back byte for byte with the rest of the input untouched; only `""` before a third quote opens a multi-line string |
| TomlStrings.FormExactly | external/tomlplusplus/toml.hpp:7355-7399 | a string delimiter opens a multi-line string iff two more of the same follow; two at the end of the text are an empty string |
| TomlStrings.UnicodeEscapeExact | external/tomlplusplus/toml.hpp:7066-7112 | a `\u` or `\U` escape is accepted iff its four or eight characters are there, are hexadecimal digits and spell a scalar value, and then decodes to that value iff the encoder loses no bit of it |
| TomlStrings.RawControlRefused | external/tomlplusplus/toml.hpp:7206-7210 | an unescaped control character other than a tab is refused wherever in a string it stands |
| TomlStrings.RawTabKept | external/tomlplusplus/toml.hpp:7206-7237 | a tab is kept |
| TomlParser.Parser.ReadHex | external/tomlplusplus/toml.hpp:7073-7085 | summing by place value is the value of the digits, and fits 32 bits |
| TomlParser.Parser.ParseBasicString | external/tomlplusplus/toml.hpp:7003-7238 | the loop with its escaped flag computes the string body's specification and stops where it does |
| TomlParser.Parser.ParseString | external/tomlplusplus/toml.hpp:7355-7399 | the two-character look-ahead picks the form and the one-line parse agrees with the specification |
| TomlDateTimes.PrintFractionTo | external/tomlplusplus/toml.hpp:1461-1472 | the loop that strips trailing zeros prints the fraction's specification |
| TomlDateTimes.DateRoundTrip | external/tomlplusplus/toml.hpp:1441-1450 | every valid date is parsed back from its printed form, leap days included |
| TomlDateTimes.TimeRoundTrip | external/tomlplusplus/toml.hpp:7971-8063 | every valid time with up to nine fractional digits is parsed back |
| TomlDateTimes.OffsetRoundTrip | external/tomlplusplus/toml.hpp:1475-1502 | every offset within 23:59 of zero is parsed back, `Z` for zero |
| TomlDateTimes.DateTimeRoundTrip | external/tomlplusplus/toml.hpp:8065-8131 | every valid date-time, with or without offset, printed and followed by the end or a value terminator, is parsed back (section 5.6 of RFC 3339) |
| TomlDateTimes.DateTimeBytesRoundTrip | external/tomlplusplus/toml.hpp:1503-1513 | the same through the bytes printed and the UTF-8 decoder |
| TomlDateTimes.DateTimeSound | external/tomlplusplus/toml.hpp:7909-8131 | whatever is parsed is a valid date-time and ends at a value's end |
| TomlCalendar.LeapYearExactly | external/tomlplusplus/toml.hpp:7925-7925 | a year is a leap year iff it is counted among the leap years before the next one: every fourth year, less the centuries, plus every fourth century |
| TomlCalendar.DaysInExactly | external/tomlplusplus/toml.hpp:7939-7943 | a month's last day is that of a table of twelve, one more in February in leap years (section 5.7 of RFC 3339) |
| TomlCalendar.FourCenturies | external/tomlplusplus/toml.hpp:7925-7943 | any 400 years in a row have 146097 days |
| TomlCalendar.DateAcceptedExactly | external/tomlplusplus/toml.hpp:7909-7969 | a text is accepted as a date iff it begins with four, two and two digits with hyphens between them that spell a month and a day of the table, alone or before a time; the date is the one spelled |
| TomlCalendar.SpaceForT | external/tomlplusplus/toml.hpp:8065-8084 | a space for the `T` makes no difference to the date-time that is parsed |
| TomlParser.Parser.ParseDate | external/tomlplusplus/toml.hpp:7909-7969 | the digit buffer and cursor compute the date's specification |
| TomlParser.Parser.ParseTime | external/tomlplusplus/toml.hpp:7971-8063 | likewise the time's |
| TomlParser.ScaleFraction | external/tomlplusplus/toml.hpp:8052-8061 | summing by place and scaling by ten gives the nanoseconds, within 32 bits |
| TomlParser.Parser.ParseDateTime | external/tomlplusplus/toml.hpp:8065-8131 | likewise the date-time's, offset included |
| TomlIntegers.CollectExact | external/tomlplusplus/toml.hpp:7826-7859 | digits are collected exactly from bodies with legal underscores that fit the buffer |
| TomlIntegers.BufferFits | external/tomlplusplus/toml.hpp:6521-6555 | whatever fits the digit buffer fits 64 bits, so the accumulator never wraps before the range check; for bases 2 and 8 it fits 63 |
| TomlIntegers.DecimalExact | external/tomlplusplus/toml.hpp:7791-7907 | two or more digits with legal underscores and no leading zero parse to sign times positional value if that is an int64 and are rejected otherwise; the 19-digit limit rejects nothing representable |
| TomlIntegers.DecimalRejectsIllegal | external/tomlplusplus/toml.hpp:7826-7866 | illegal underscores or characters, no digits, and leading zeros are rejected |
| TomlIntegers.DecimalSpelled | external/tomlplusplus/toml.hpp:7791-7907 | as text: a sign or none and two or more digits, some with an underscore between them, is the signed number with these digits iff that is an int64 |
| TomlIntegers.SingleDigitExact | external/tomlplusplus/toml.hpp:7861-7875 | given a single digit, which `parse_value` never does, it parses it without its sign and rejects zero as a leading zero |
| TomlDecimals.DecimalValueExactly | external/tomlplusplus/toml.hpp:8373-8469 | every decimal integer of the grammar, of any length, is read as sign times value iff that is an int64 and the number is not a minus sign and one non-zero digit |
| TomlDecimals.SignLostExample | external/tomlplusplus/toml.hpp:8416-8426 | `-5` is read as 5 |
| TomlIntegers.PrefixedExact | external/tomlplusplus/toml.hpp:7812-7907 | `0b`, `0o` and `0x` numbers are accepted iff legal, within the digit limit and at most 2^63 - 1, with their positional value |
| TomlIntegers.DigitExactly | external/tomlplusplus/toml.hpp:6521-6555 | the digits of each base and their values, by the same two rows |
| TomlIntegers.BufferExactly | external/tomlplusplus/toml.hpp:6521-6555 | the digit buffer of each base is as long as the largest int64 in that base |
| TomlIntegers.PrefixedSpelled | external/tomlplusplus/toml.hpp:7791-7907 | the text `0b`, `0o` or `0x` and digits of either case is the number with these digits |
| TomlIntegers.PrefixedExample | external/tomlplusplus/toml.hpp:7791-7907 | `0xfF` is 255 |
| TomlIntegers.EmptyPrefixedIsZero | external/tomlplusplus/toml.hpp:7861-7897 | a prefix with no digits before a value's end is read as zero |
| TomlParser.Parser.CollectDigits | external/tomlplusplus/toml.hpp:7826-7859 | the loop over the fixed buffer collects the specification's digits |
| TomlParser.ComputeValue | external/tomlplusplus/toml.hpp:7877-7895 | the 64-bit loop from the last digit, with its wrapping power, computes the positional value |
| TomlParser.Parser.ParseInteger | external/tomlplusplus/toml.hpp:7791-7907 | the whole parse agrees with the specification in all four bases |
| TomlParser.Parser.Scan | external/tomlplusplus/toml.hpp:8252-8373 | the look-ahead keeps the characters that are no underscores, up to a value's end or the history's length, and sets the cursor back |
| TomlParser.Parser.ParseDecimal | external/tomlplusplus/toml.hpp:8373-8469 | the choice between the one-digit forms and `parse_integer` agrees with the specification |
| TomlTreeSafety.HeaderSafe | external/tomlplusplus/toml.hpp:8725-8890 | a header on a good tree never fails an assertion, replaces nothing, and returns a table no header returned before |
| TomlTreeSafety.PairKept | external/tomlplusplus/toml.hpp:8893-8946 | a key-value pair with any nested value keeps the tree good and replaces nothing |
| TomlTreeSafety.DocumentSafe | external/tomlplusplus/toml.hpp:8948-8991 | over any document no assertion fails, the side lists name exactly the implicit, dotted and array tables, and the tables returned are exactly those declared by headers |
| TomlTreeSafety.NothingReplaced | external/tomlplusplus/toml.hpp:8948-8991 | whatever stands after some items of an accepted document stands, with everything in it, after all of them |
| TomlTreeSafety.HeadersReturnDistinctTables | external/tomlplusplus/toml.hpp:8725-8890 | no table is returned by two headers |
| TomlTreeSafety.TableArraysHoldTables | external/tomlplusplus/toml.hpp:8802-8809 | every array in `table_arrays` is non-empty and holds only tables |
| TomlTreeMeaning.HeaderAcceptedExactly | external/tomlplusplus/toml.hpp:8783-8890 | a header is accepted iff every parent it names is a table or an array of tables, and its last segment names nothing, an implicit table, or for `[[ ]]` an array of tables |
| TomlTreeMeaning.DeclaredOnce | external/tomlplusplus/toml.hpp:8857-8890 | a table that a header returned is not declared again by any later header |
| TomlTreeMeaning.ArrayHeaderAppends | external/tomlplusplus/toml.hpp:8859-8865 | `[[key]]` on an array of tables adds one new empty table at its end and changes nothing else |
| TomlTreePlaces.DocumentPlaced | external/tomlplusplus/toml.hpp:8948-8991 | every node of a document stands in one place, under one key of one table or at one position of one array |
| TomlTreeHeaders.HeaderLeaves | external/tomlplusplus/toml.hpp:8826-8890 | an accepted `[key]` leaves the table it returns under its key; `[[key]]` leaves there an array of tables, longer by the new empty table it returns |
| TomlTreeHeaders.HeaderFoundExactly | external/tomlplusplus/toml.hpp:8783-8890 | what a header of a document left under its key is named by that key after any later items iff none of these is a `[[ ]]` header for a proper part of the key |
| TomlTreeHeaders.NodeStays | external/tomlplusplus/toml.hpp:8826-8865 | named or not, it is still there, an array of tables with its tables where they were put |
| TomlTreeHeaders.ArrayHeaderAgain | external/tomlplusplus/toml.hpp:8859-8865 | so `[[key]]` is accepted again after `[[key]]` |
| TomlTreeMeaning.PairAcceptedExactly | external/tomlplusplus/toml.hpp:8902-8946 | a built value is inserted iff its key names nothing and each leading part names nothing or a table made by dotted keys |
| TomlTreeChanges.PairItemAcceptedExactly | external/tomlplusplus/toml.hpp:8893-8946 | a pair, its value included, is accepted iff its value is and that holds of its key in the tree before |
| TomlTreeMeaning.PairFound | external/tomlplusplus/toml.hpp:8902-8946 | what a pair adds is found under its key, then and in every later document |
| TomlTreeValues.ValueRead | external/tomlplusplus/toml.hpp:9084-9230 | whatever value is built reads back from its nodes, recursively: arrays with their items in order, inline tables with exactly the keys of their pairs and the values under them |
| TomlTreeValues.SectionRead | external/tomlplusplus/toml.hpp:8893-8946 | the pairs that follow in a document without a header between them are all found under their keys in the table they stand in, and read back as their values |
| TomlTreeMeaning.PairsOnlyExtendOpenTables | external/tomlplusplus/toml.hpp:8893-8946 | of the nodes already there a pair changes only the latest header's table and tables made by dotted keys |
| TomlTreeChanges.HeaderChangesExactly | external/tomlplusplus/toml.hpp:8783-8890 | an accepted header changes a table iff its path comes to that table and goes on with a segment that is not in it |
| TomlTreeChanges.HeaderExtendsInlineExactly | external/tomlplusplus/toml.hpp:8783-8890 | so after any document a header changes an inline table iff it names something new through it |
| TomlTreeMeaning.HeaderExtendsInlineTable | external/tomlplusplus/toml.hpp:8798-8801 | `a = {}` and then `[a.b]` is accepted and puts `b` into `a` |
| TomlTreeChanges.PairChangesExactly | external/tomlplusplus/toml.hpp:8902-8946 | an accepted pair changes a table iff its key leads to it and its next segment is not in it |
| TomlTreeChanges.ValuesClosedToPairs | external/tomlplusplus/toml.hpp:8893-8946 | no pair of a document changes any node of a value that already stands there, inline tables and what is below them included |
| TomlBuilder.Builder.ParseTableHeader | external/tomlplusplus/toml.hpp:8783-8890 | the loop over the key's segments, changing nodes and side lists in place, does what the specification says |
| TomlBuilder.Builder.EraseImplicit | external/tomlplusplus/toml.hpp:8871-8874 | finding and erasing removes the first occurrence and reports whether there was one |
| TomlBuilder.Builder.InsertKeyValue | external/tomlplusplus/toml.hpp:8902-8946 | the loop over a dotted key and the insertion do what the specification says |
| WatcherSafety.OwnershipExact | external/rdcfswatcher/rdc_fs_watcher.cpp:67-76 | in every reachable state a watch is Listening or PendingClose iff exactly one request or packet names its OVERLAPPED, and nothing names any other address |
| WatcherSafety.NextInv | external/rdcfswatcher/rdc_fs_watcher.cpp:113-332 | every step of the event loop, the callers and the kernel keeps that, and keeps handles open exactly while listening |
| WatcherSafety.EraseIsSafe | external/rdcfswatcher/rdc_fs_watcher.cpp:140-221 | no step erases a watch whose address a request or packet still names, so the address may be reused |
| WatcherSafety.PacketMeetsItsWatch | external/rdcfswatcher/rdc_fs_watcher.cpp:175-186 | the packet being processed always finds its watch there and waiting for it |
| WatcherSafety.UnusedExactly | external/rdcfswatcher/rdc_fs_watcher.cpp:67-76 | nothing names any watch iff none is Listening or PendingClose |
| WatcherSilence.PacketTells | external/rdcfswatcher/rdc_fs_watcher.cpp:175-221 | of the packet in hand the watch is there; a closing one is erased in silence, another tells exactly one callback or has nothing to tell, and is listened to again iff the packet had bytes and the kernel accepts |
| WatcherSilence.ThrowEndsAllExactly | external/rdcfswatcher/rdc_fs_watcher.cpp:200-221 | after a packet no step of anyone is possible iff a listening watch had bytes and the kernel refuses; otherwise the loop goes on |
| WatcherSilence.AlertIsLast | external/rdcfswatcher/rdc_fs_watcher.cpp:150-157 | when the port has failed `errorEvent` is called for the id of every watch in the map, once, and no callback after that |
| WatcherSilence.DeafForever | external/rdcfswatcher/rdc_fs_watcher.cpp:184-197 | a watch left not listening stays so and stays in the map in every later state |
| WatcherShutdown.DrainStepLowers | external/rdcfswatcher/rdc_fs_watcher.cpp:140-149 | while the loop drains, every step by anyone lowers the outstanding requests, packets and stop calls |
| WatcherShutdown.DrainBounded | external/rdcfswatcher/rdc_fs_watcher.cpp:140-149 | so draining is no longer than what was outstanding when it began |
| WatcherShutdown.DrainNotStuck | external/rdcfswatcher/rdc_fs_watcher.cpp:131-149 | a draining loop that waits for a packet waits for the kernel to finish a request on a closed directory |
| WatcherShutdown.ShutdownFreesNothingInUse | external/rdcfswatcher/rdc_fs_watcher.cpp:107-173 | if no directory is added once `stopEventLoop` has stopped the watches, nothing names any watch when the loop has ended without a failure |
| WatcherShutdown.DestroySafeExactly | external/rdcfswatcher/rdc_fs_watcher.cpp:107-173 | once the loop has set `stopped`, whatever was added before, some run ends it without a failure and with a watch in use iff a listening watch's request is unfinished or its packet is queued behind that of every closing watch |
| WatcherShutdown.RacingAddLeftListening | external/rdcfswatcher/rdc_fs_watcher.cpp:129-173 | with such an add the loop can end with a watch listening and its request outstanding |
| WatcherSilence.RemovedIsSilent | external/rdcfswatcher/rdc_fs_watcher.cpp:281-293 | for ids never reused, once `removeDirectory` of an id has returned `changeEvent` is not called with it, nor `errorEvent` for a packet of its own |
| WatcherSilence.RemovedHeardExactly | external/rdcfswatcher/rdc_fs_watcher.cpp:150-157 | `errorEvent` is still called with it in some run, when the completion port has failed, iff then a watch of the id is in the map and the port has failed or can fail before that watch's own packet is processed |
| WatcherSilence.RemovedButAlerted | external/rdcfswatcher/rdc_fs_watcher.cpp:150-157 | a run that removes directory 7 and then calls `errorEvent(7)` |
| WatcherSilence.RemoveSilencesExactly | external/rdcfswatcher/rdc_fs_watcher.cpp:281-293 | after `removeDirectory` no watch of the id listens iff no second one with that id did |
| WatcherSilence.ListeningIsHeard | external/rdcfswatcher/rdc_fs_watcher.cpp:200-212 | one that does, in any running state with no stop packet ahead of its own, can be heard of again |
| WatcherSilence.TwinStillHeard | external/rdcfswatcher/rdc_fs_watcher.cpp:281-293 | a reachable state with one of two watches of an id removed, from which a change of that id is reported |
| WatcherLoop.RdcFSWatcher.HandleEvent | external/rdcfswatcher/rdc_fs_watcher.cpp:175-221 | `processEvent` on the watcher's own fields does what the step says and throws exactly where `listen` cannot |
| WatcherLoop.RdcFSWatcher.Insert | external/rdcfswatcher/rdc_fs_watcher.cpp:252-278 | likewise the locked part of `addDirectory`, the entry staying behind when `listen` throws |
| WatcherLoop.RdcFSWatcher.StopFirst | external/rdcfswatcher/rdc_fs_watcher.cpp:281-293 | the search stops one watch with the id, or there is none |
| WatcherLoop.RdcFSWatcher.StopEach | external/rdcfswatcher/rdc_fs_watcher.cpp:161-168 | the loop stops every watch |
| WatcherLoop.RdcFSWatcher.FindPending | external/rdcfswatcher/rdc_fs_watcher.cpp:133-139 | true iff some watch waits to be closed |
| WatcherLoop.RdcFSWatcher.Drain | external/rdcfswatcher/rdc_fs_watcher.cpp:140-149 | takes packets exactly as long as some watch waits to be closed, erasing each watch named |
| ObjectCache.CellCache.Insert | include/xloil/ObjectCache.h:108-119 | an add in another cycle replaces all the cell's objects, one in the same cycle is appended; returns the object's position |
| ObjectCache.CellCache.At | include/xloil/ObjectCache.h:121-129 | the object at a position, if there is one |
| ObjectCache.ObjectCache.FetchObject | include/xloil/ObjectCache.h:202-215 | fetches through the reference's cell and last character |
| ObjectCache.ObjectCache.AddObject | include/xloil/ObjectCache.h:217-251 | adds to the cell and returns the reference with the position, through 8 bits |
| ObjectCache.ObjectCache.EraseObject | include/xloil/ObjectCache.h:261-271 | drops the cell and reports whether it was there |
| ObjectCache.ObjectCache.OnAfterCalculate | include/xloil/ObjectCache.h:171-175 | begins the next cycle, wrapping |
| ObjectCache.ObjectCache.OnWorkbookClose | include/xloil/ObjectCache.h:273-286 | the erasing loop drops exactly the cells whose key matches |
| ObjectCacheHistory.FetchedExactlyWhileAlive | include/xloil/ObjectCache.h:202-286 | over any history, a reference fetches the object it was issued for iff it was among the first 256 of its cell and cycle and since then the cell was not added to in another cycle, erased, or matched by a close |
| ObjectCacheHistory.IssuedSpelled | include/xloil/ObjectCache.h:217-248 | a reference is the uniquifier, the cell, a comma and the letter of the position modulo 256 |
| ObjectCacheHistory.EraseExactly | include/xloil/ObjectCache.h:261-271 | erasing a text drops the cell whose key it is without its last two characters |
| ObjectCacheHistory.EraseReference | include/xloil/ObjectCache.h:261-271 | erasing a reference drops its cell and nothing else, whatever its position |
| ObjectCacheHistory.EraseEndsExactly | include/xloil/ObjectCache.h:261-271 | and so ends exactly the adds to that cell |
| ObjectCacheHistory.ErasedForGood | include/xloil/ObjectCache.h:202-271 | after that no reference issued for the cell before fetches its object, whatever is done later |
| ObjectCacheHistory.ReferenceReused | include/xloil/ObjectCache.h:229-248 | the 257th object of a cell and cycle gets the first one's reference, which fetches the first |
| ObjectCacheHistory.HeldIsAlive | include/xloil/ObjectCache.h:106-119 | whatever a cell holds was added in the cycle it is stamped with and not ended since |
| ObjectCacheHistory.ReferencesDistinctExactly | include/xloil/ObjectCache.h:325-330 | two references are the same iff cells are and positions agree modulo 256 |
| ObjectCacheHistory.ReferencesDistinct | include/xloil/ObjectCache.h:217-251 | with at most 256 adds to a cell in a cycle their references differ, unless the cell was dropped in between |
| ObjectCacheHistory.CloseMatchesExactly | include/xloil/ObjectCache.h:280-284 | closing a workbook drops the cells of every workbook whose name begins with its name |
| ObjectCacheHistory.CloseExactly | include/xloil/ObjectCache.h:273-286 | closing drops exactly the keys with the name from their third character on |
| ObjectCacheHistory.CloseTakesAnotherWorkbook | include/xloil/ObjectCache.h:280-284 | closing `Book1` drops a cell of `Book10` |
| Strtok.PStringRef.Next | include/xloil/PString.h:506-552 | one call: null for a null string or delimiters only, a read past the end for an empty string, otherwise the first token, with exactly two slots of the buffer written |
| Strtok.Tokenize | include/xloil/PString.h:506-552 | called until null it yields exactly the maximal delimiter-free runs in order, leaves every earlier token's length and characters, writes only delimiters and length slots, and ends in a read past the end iff the string is empty or ends in a token and a single delimiter |
| Strtok.SuffixTokens | include/xloil/PString.h:513-518 | what is left after a token has the string's own remaining tokens |
| Strtok.TrailingDelimiterExample | include/xloil/PString.h:524-529 | `a,` is one token and then a read past the end; `a,,` and `a,b` are not |
| ArrayBuilder.ExcelArrayBuilder.constructor | include/xloil/ArrayBuilder.h:253-300 | a padded 1 becomes 2 and other sizes are as requested; the padding writes #N/A to exactly the cells outside the requested rectangle; the store has room for the announced characters and, in 32 bits, two units a cell, or none |
| ArrayBuilder.ExcelArrayBuilder.CopyString | include/xloil/ArrayBuilder.h:164-181 | a string that fits is the cell's value, up to its length modulo 2^16, and every other cell keeps its own; all strings lie in the used part of the store and none overlap |
| ArrayBuilder.TextKeptExactly | include/xloil/ArrayBuilder.h:59-64 | the cell gets as many characters as the length modulo 2^16, so the whole string iff it has fewer than 2^16 |
| ArrayBuilder.AllFitExactly | include/xloil/ArrayBuilder.h:21-30 | a list of strings is taken without running out iff their characters and one count for each fit together |
| ArrayBuilder.StringsApart | include/xloil/ArrayBuilder.h:59-64 | the room of an earlier string ends before that of a later one begins |
| ArrayBuilder.StoreSufficesExactly | include/xloil/ArrayBuilder.h:253-270 | the store is large enough for two strings a cell and the announced characters iff the 32-bit product keeps one unit for each string there can be |
| ArrayBuilder.StoreTooSmallExample | include/xloil/ArrayBuilder.h:258-259 | with 2^31 cells and one character announced, that one character does not fit |
| ArrayBuilder.NewBuilderTakesAll | include/xloil/ArrayBuilder.h:253-270 | a new builder for fewer than 2^31 cells takes everything its limits allow |
| Utf16.EncodeInto | include/xloil/StringUtils.h:110-138 | returns the full length for any target size and writes exactly the longest run of whole characters that fits |
| Utf16.RoundTripExactly | include/xloil/StringUtils.h:44-138 | UTF-32 to UTF-16 and back is the identity iff every character is below U+D800 or from U+10000 to 0xA0FFFF, for all 32-bit values (sections 2.1 and 2.2 of RFC 2781) |
| Utf16.LostCharacterExample | include/xloil/StringUtils.h:64-70 | U+D800 and U+B400 come back as U+D800 alone |
| Utf16.UnicodeRoundTripExactly | include/xloil/StringUtils.h:44-138 | a Unicode string survives iff it has nothing from U+D800 to U+FFFF, the private use area included |
| Utf16.NeverMore | include/xloil/StringUtils.h:52-72 | reading back never makes more characters than were encoded |
| Utf16.DecodeInto | include/xloil/StringUtils.h:44-74 | the length and characters for a target large enough or one too small, a read past the end for a cut pair, a write past the end iff the target is two or more too small |
| Utf16.WholeDecoded | include/xloil/StringUtils.h:44-74 | for units that end with a whole character and a target large enough, the target begins with the whole decoding |
| Utf16.WritesPastEndExample | include/xloil/StringUtils.h:57-61 | two characters for a target of none: the second is written |
| Radix.TextValue | include/xloil/StringUtils.h:341-358 | the characters written are digits of the radix and their positional value is the number |
| Radix.UnsignedToString | include/xloil/StringUtils.h:325-370 | writes those characters in order, or nothing if they do not fit, and nothing else |
| Radix.TextFits | include/xloil/StringUtils.h:331-340 | 64 characters are enough for every size_t in every radix |
| Radix.TextIsShortest | include/xloil/StringUtils.h:341-358 | no text of digits with the same value is shorter |
| Radix.ParseUnsigned | include/xloil/StringUtils.h:398-416 | reads exactly the leading digits, and their value modulo 2^64 |
| Radix.SymbolExactly | include/xloil/StringUtils.h:419-443 | a character is the digit d iff it stands at d in one of two rows, lower and upper case, for ten or thirty-six digits |
| Radix.RoundTrip | include/xloil/StringUtils.h:325-458 | for radix 2 to 36 every size_t is read back from what is written for it, all of it and nothing after it |
| Radix.NoOverflow | include/xloil/StringUtils.h:407-415 | the accumulator passes only through values up to the final one |
| Radix.RoundTripExactly | include/xloil/StringUtils.h:329-443 | of the radixes the writer accepts, exactly those up to 36 read back every number |
| ExcelArray.SliceIndicesInPlace | include/xloil/ExcelArray.h:10-32 | the in-place update computes the range in int and uint32_t arithmetic |
| ExcelArray.SliceExactly | include/xloil/ExcelArray.h:10-32 | below 2^31 a slice is accepted iff its bounds, counted from the end when negative, are in order and inside, and is then the range between them |
| ExcelArray.SliceInside | include/xloil/ExcelArray.h:10-32 | whatever the size, an accepted range lies inside |
| ExcelArray.ChainReadsInside | include/xloil/ExcelArray.h:178-231 | any chain of accepted slices reads only cells of the base array |
| ExcelArray.SubArrayExactly | include/xloil/ExcelArray.h:178-193 | below 2^31 a sub-array is accepted iff both pairs of bounds are in order and inside, and has exactly the rows and columns between them |
| ExcelArray.SubArrayCells | include/xloil/ExcelArray.h:178-231 | while the row offset fits 32 bits its cells are exactly the parent's inside the bounds |
| ExcelArray.ChainExactly | include/xloil/ExcelArray.h:178-231 | along a chain of slices: accepted iff each is inside the one before, with the size of the rectangle left; and every element is that of the rectangle iff every row offset on the way fits |
| ExcelArray.SliceShiftsExactly | include/xloil/ExcelArray.h:178-231 | an element of a slice is the parent's, moved by where the slice starts, iff the row offset fits 32 bits |
| ExcelArray.WorksheetSliceExample | include/xloil/ExcelArray.h:192-192 | on a worksheet of 2^20 by 2^14 cells the slice from row 2^18 starts at row 0 |
| ExcelArray.SmallBaseShifts | include/xloil/ExcelArray.h:178-193 | which it does for every base of fewer than 2^32 cells |
| ExcelArray.IncrementedIs | include/xloil/ExcelArray.h:424-446 | k increments from `begin()` land on row-major element k, contiguous or strided |
| ExcelArray.IncrementedToEnd | include/xloil/ExcelArray.h:327-341 | they land on `end()` iff k is the number of elements |
| ExcelArray.DecrementUndoes | include/xloil/ExcelArray.h:438-457 | `--` undoes `++` from every element |
| ExcelArray.ExcelArrayIterator.Next | include/xloil/ExcelArray.h:438-446 | moves both pointers as the specification says |
| ExcelArray.ExcelArrayIterator.Previous | include/xloil/ExcelArray.h:447-457 | likewise backwards |
| ExcelArray.VisitAll | include/xloil/ExcelArray.h:327-341 | a loop from `begin()` until `end()` visits every element once, row by row |

## Left out

- Everything under `libs/`, and the Excel, COM, ribbon, logging and Python layers: foreign calls and glue.
- `external/CTPL/ctpl.h`: the same protocol over a queue that is not part of the repository.
- Thread pool: `std::future` results, exceptions thrown by tasks (the worker keeps going around the step that runs one), and memory ordering weaker than one access at a time; `resize` and `stop` come from one thread, as the source asks.
- toml++: the `inline_` marks that only affect printing, multi-line and literal strings, floats, comments and whitespace, source positions, error messages, and `parse_value` on anything but decimal integers.
- TomlParser.Parser.Scan: sets the cursor back over up to 64 characters, where the ring keeps 63 and the source's assertion refuses more; no accepted decimal integer is that long.
- BufferedReader.Reader.ReadNext: the ring's `first` counter is unbounded, so its wrap after 2^64 items is not modelled.
- Utf8.Utf8Reader.ReadNext: line and column counting are not modelled.
- TomlTables: keys arrive already split into segments and values already classified; a syntax error ends a document before the step it would have been.
- TomlBuilder.Builder.ParseTableHeader: nothing is said of the nodes after an error, since the parser gives the document up then.
- Watcher: opening directories, the contents of notifications and `GetLongPathName`; the buffer's changes are one bit, a packet's size is empty or not.
- WatcherShutdown.ShutdownFreesNothingInUse: like DestroySafeExactly, for an event loop whose `GetQueuedCompletionStatus` never fails; after a failure the source drains nothing.
- WatcherLoop.RdcFSWatcher.HandleEvent: watches are values in the map, as in the source, not objects of their own; the order in which the map is searched is left open.
- ObjectCache: caller addresses are given as text (their formatting is elsewhere), objects are numbers, and the uniquifier is that of the first cache type; `writeKey` is left out.
- Strtok: characters and lengths are not bounded by 16 bits, which no length inside one string exceeds; `find` and `rfind` are left out.
- ArrayBuilder.ExcelArrayBuilder.constructor: needs at least one cell, which the source asserts, and a cell count below 2^32, since the source's product would otherwise allocate fewer cells than it addresses.
- ArrayBuilder.ExcelArrayBuilder.CopyString: where the store has no room a debug build throws and a release build writes on; the model takes the debug build. Cells of other types, `string` and `end()` of the builder are left out.
- Utf16: the target's bounds are array bounds, so what lies behind a target is only that something is read or written there.
- Radix.ParseUnsigned: needs a first character, which the source reads without looking.
- ExcelArray: trimming to non-empty cells, data types, `col_end` and `at(n)`.
- ExcelArray.DecrementUndoes: a contiguous view's null row end is taken to differ from every pointer by something other than its width, as the source relies on.
