# Verified models of cpp_playground

A Dafny 4.11 project that models the parts of the repository whose correctness is not visible from one
function body, and proves what they promise. `dafny verify dfyconfig.toml` checks all of it. Nothing of the
original program is executed.

| file | component |
|---|---|
| `Basics.dfy` | what several models share |
| `MachineInt.dfy` | the C++ integer types and divisions that date.h relies on |
| `Civil.dfy` | civil dates and day numbers, against the Gregorian calendar walked day by day |
| `WeekdayDate.dfy` | weekdays, and dates such as "the fifth Friday of May" |
| `IsoWeek.dfy` | the `%G` / `%V` conversions and the parser's inverse, against section 4.1.4 of ISO 8601:2004 |
| `IsoText.dfy` | week dates as text: the digits printed, and the digits read back |
| `KeywordScan.dfy` | the keyword scanner of the date parser |
| `Reservoir.dfy` | reservoir sampling, with exact uniformity |
| `TripleBufferProtocol.dfy` | the lock-free triple buffer, its two threads and its destructor, under every interleaving |
| `TripleBuffer.dfy` | the triple buffer used as a register, one whole operation at a time |
| `TripleBufferThreads.dfy` | that register with one storing and one loading thread, step by step |
| `Barrier.dfy` | two workers alternating through one mutex and one condition variable |
| `BoundedQueue.dfy` | the queue of the realtime executor, with any number of threads |
| `PrettyName.dfy` | the name trimmer behind `nameof` |
| `EnumTable.dfy` | the tables behind `nameof_enum` |
| `ExprTemplate.dfy` | expression templates: fused, in-place evaluation |
| `GuardPrinter.dfy` | the guard printer and action lister of the UML dumper |

## How the models are built

Integers are unbounded in Dafny, so every wrap-around that can be observed is written out: the `short` that
stores a year, the unsigned 32-bit arithmetic of `to_days`, the unsigned counter of `pretty_name`, the
`index_t` of the enum tables. Division in date.h truncates toward zero.

The concurrent components are step machines. A state holds the shared variables and one program counter per
thread, a schedule is any sequence of thread names, and a thread that cannot move leaves the state as it is.
The theorems quantify over every schedule. Some fields of a state are history (what was published,
consumed, pushed or removed); no branch and no pointer depends on them. The atomics use the default, sequentially consistent order,
so interleaving is faithful. `x = ready.exchange(x)` is three steps. A condition-variable wait releases the
mutex and falls asleep in one step, wake-ups for no reason can happen at any time, and a notification is a
step of its own.

Randomness is a parameter: `distrib() % (i + 1)` is any number from 0 to i. Streams are parameters too: the
characters still to be read, and the bits that are set.

## Where the code does not do what one would expect

- **ISO weeks.** The year before -32768 does not fit the `short` that stores a year. On 1 and 2 January -32767,
  and on no other valid date, the week number of `%V` is negative, and the year, week and weekday, as numbers, do
  not combine to the date again (`IsoWeek.FormatIsStandard`, `IsoWeek.FormatParseRoundTrip`,
  `IsoWeek.FirstDayMisprints`). At the other end the year 32768 wraps too, but wraps back.
- **Years of five digits.** `%G` prints as many digits as the year has and by default reads four. So the text of a
  week date reads back exactly when its ISO year is within -9999..9999; otherwise reading fails
  (`IsoText.TextRoundTrip`).
- **Weeks that do not exist.** The parser checks neither for week 0 nor for weeks beyond the last of the year: it
  returns a date of another ISO year. A week date prints as it was read exactly when the year fits a `short` and
  has that week (`IsoWeek.ParseFormatRoundTrip`; `IsoWeek.WeekFiftyThreeOf2021` and `IsoWeek.WeekZeroOf2021` are
  instances).
- **Triple buffer freshness.** The comment in triple_buffer_so.h says that a stale buffer is not presented.
  The flag and the swap are separate steps, so it can be: `TripleBufferProtocol.StaleRun` consumes versions 0, 2
  and 0. Freshness holds in every run in which the producer's swap-then-clear and the consumer's test-then-swap
  do not overlap. A stale swap always has its cause in the window of the swap just before it
  (`TripleBufferProtocol.StaleSwapHasCause`), and every reachable overlap before `stop` can be continued to a stale
  swap. The register of triple_buffer.h has the same gap: in `TripleBufferThreads.OlderLoadRun` one `wait_load`
  returns version 1 and the next one the initial value.
- **Shutdown swap.** The destructor's `clear` lets the consumer swap once more although nothing was published,
  even a buffer nobody filled (`TripleBufferProtocol.UnfilledSwapRun`). That buffer is never consumed
  (`TripleBufferProtocol.LateSwapIsNotConsumed`).
- **Scalars by reference.** `Scaler` keeps a reference, so `x = x[0] * x` reads an element it has already
  overwritten. Fused evaluation is right for all contents exactly when no scalar operand is an element of
  the destination other than the last.
- **Size assert.** The assert in `BinaryOperator::size` uses a size as a truth value. It fails exactly when some
  operator has a non-empty array on its left and only empty ones on its right (`ExprTemplate.AssertsExactly`), so
  never on non-empty arrays. What it should guard, that all reads are inside their arrays, holds exactly when no
  array is shorter than `size()` (`ExprTemplate.ReadsFitExactly`).
- **Dense enum tables.** An unnamed value between the first and the last enumerator is answered with a null
  character pointer (`EnumTable.DenseTableHasHole` is an instance); sparse tables give the empty name. Which of the
  two it is depends only on the number of enumerators and their range (`EnumTable.HoleIsEmptyWhenSparse`).
- **Nested actions.** A sequence of actions nested to the right is listed unflattened
  (`GuardPrinter.RightNestedIsUnflattened` is an instance).

## Model

| member | source | states |
|---|---|---|
| Civil.ToDaysIsCount | third_party_examples/uwebsockets/src/date.h:2471-2484 | the era arithmetic with its unsigned wrap-around is the plain count of days of years and months laid end to end, for every month and day that a byte can hold |
| Civil.FromDaysIsLocate | third_party_examples/uwebsockets/src/date.h:2557-2572 | for every day number that does not overflow, the only machine effect on the result is the year's conversion to `short` |
| Civil.LocateCounts | third_party_examples/uwebsockets/src/date.h:2562-2570 | the year, month and day found by division exist in the calendar and count back to the same day number |
| Civil.NextIsPlusOne | third_party_examples/uwebsockets/src/date.h:2306-2312 | the next calendar day, by leap years and last days of months, is valid and has the next day number |
| Civil.ToDaysIsMonotone | third_party_examples/uwebsockets/src/date.h:2513-2522 | on valid dates, `operator<` and `operator==` agree with `<` and `==` of day numbers |
| Civil.Bounds | third_party_examples/uwebsockets/src/date.h:401-402 | 1970-01-01 is day 0; the day numbers of the first and last dates with a valid year |
| Civil.DayNumberRoundTrip | third_party_examples/uwebsockets/src/date.h:2557-2572 | `to_days(from_days(n)) == n` exactly when the year of day n fits a `short`; of those days, the date is `ok()` exactly when its year is not -32768 |
| Civil.DateRoundTrip | third_party_examples/uwebsockets/src/date.h:2496-2501 | every `ok()` date comes back from its day number |
| Civil.FromDaysIsCalendar | third_party_examples/uwebsockets/src/date.h:2556-2572 | the closed form gives the date reached by walking the calendar one day at a time from -32767-01-01 |
| WeekdayDate.WeekdayIsPeriodic | third_party_examples/uwebsockets/src/date.h:1612-1616 | for every 32-bit day number, negative ones included, the weekday is (n + 4) mod 7 |
| WeekdayDate.WeekdayCodes | third_party_examples/uwebsockets/src/date.h:1619 | 7 is stored as 0 and every other code as it is |
| WeekdayDate.MinusIsModulo | third_party_examples/uwebsockets/src/date.h:1684-1689 | the difference of two weekdays is a number of days from 0 to 6, congruent to the difference of their codes |
| WeekdayDate.PlusIsModulo | third_party_examples/uwebsockets/src/date.h:1691-1696 | weekday plus days is addition modulo 7, and subtraction undoes it |
| WeekdayDate.PlusFollowsDays | third_party_examples/uwebsockets/src/date.h:1691-1696 | adding n days to the weekday of day z gives the weekday of day z + n |
| WeekdayDate.NthOk | third_party_examples/uwebsockets/src/date.h:2678-2687 | `ok()` exactly when the month has a day that is the index-th such weekday, for every index |
| WeekdayDate.SevenIsSunday | third_party_examples/uwebsockets/src/date.h:2678-2687 | a date with weekday 7 is `ok()` exactly when it is with 0, and never with a code from 8 up |
| WeekdayDate.NthToDaysIsPlain | third_party_examples/uwebsockets/src/date.h:2697-2702 | for every month, code and index, 0 included, the day is so many weeks after the first such weekday |
| WeekdayDate.NthRoundTrip | third_party_examples/uwebsockets/src/date.h:2697-2702 | every `ok()` value comes back from its day number, up to `operator==` |
| WeekdayDate.NthOfDayNumber | third_party_examples/uwebsockets/src/date.h:2689-2695 | every day number in the calendar gives an `ok()` value and comes back from it |
| WeekdayDate.LastIsLast | third_party_examples/uwebsockets/src/date.h:2827-2831 | the last weekday of a month is in the month, is that weekday, and is followed by no other |
| IsoWeek.FormatYear | third_party_examples/uwebsockets/src/date.h:4171-4181 | `%G` fails exactly on invalid dates and otherwise prints the year that holds the Thursday of the week |
| IsoWeek.FormatWeek | third_party_examples/uwebsockets/src/date.h:4554-4570 | `%V` prints the ISO week number, except on the first two days of the calendar |
| IsoWeek.OneStepBack | third_party_examples/uwebsockets/src/date.h:4174-4179 | one backward correction of the year of the day three days later is always enough |
| IsoWeek.FormatIsStandard | third_party_examples/uwebsockets/src/date.h:4561-4567 | the year is the standard's for every valid date; the week is the standard's, and in 1..53, exactly outside the first two days |
| IsoWeek.FirstDayMisprints | third_party_examples/uwebsockets/src/date.h:4564-4567 | on -32767-01-01 the year printed is -32768 and the week is negative |
| IsoWeek.FormatParseRoundTrip | third_party_examples/uwebsockets/src/date.h:6156-6173 | the numbers printed for year and week, with the weekday, combine to the date again exactly outside the first two days |
| IsoWeek.ParseFormatRoundTrip | third_party_examples/uwebsockets/src/date.h:6156-6159 | for every year, every week from 0 to 99 and every weekday: the marker of a missing year gives none, a year that fits a `short` always gives a date, and a valid date prints as it was read exactly when the year fits and the week is between 1 and the year's number of ISO weeks |
| IsoWeek.WeekFiftyThreeOf2021 | third_party_examples/uwebsockets/src/date.h:6156-6159 | 2021 has 52 weeks; its week 53 is read as 2022-01-03, which prints as week 1 of 2022 |
| IsoWeek.WeekZeroOf2021 | third_party_examples/uwebsockets/src/date.h:6156-6159 | week 0 of 2021 is read as 2020-12-28 |
| IsoText.ReadUnsigned | third_party_examples/uwebsockets/src/date.h:4991-5010 | fails exactly without a leading digit; otherwise takes the longest run of digits up to the width, returns its value modulo 2^32 and leaves the rest |
| IsoText.UnsignedReadsField | third_party_examples/uwebsockets/src/date.h:4991-5010 | the same of the function the other readers are built from |
| IsoText.ReadsYear | third_party_examples/uwebsockets/src/date.h:5908-5913 | a printed year is read back exactly when it is within -9999..9999; of any other a digit is left over and the number read is another one |
| IsoText.TextRoundTrip | third_party_examples/uwebsockets/src/date.h:5908-5941 | the text "%G-W%V-%u" of a valid date, followed by anything, reads back as the date exactly when its ISO year is within -9999..9999, and fails otherwise |
| IsoText.ReadsEveryField | third_party_examples/uwebsockets/src/date.h:5908-5941 | an optional sign, one to four digits, "-W", one or two digits, "-" and a digit are read as those numbers; only a last digit outside 1..7 is refused |
| IsoText.ReadsNothingElse | third_party_examples/uwebsockets/src/date.h:5908-5941 | every text that is read has that shape |
| IsoText.ReadsShortWeek | third_party_examples/uwebsockets/src/date.h:5936-5941 | "2021-W5-3" is read as 2021-02-03 |
| IsoText.PrintsFirstMonday | third_party_examples/uwebsockets/src/date.h:4169-4181 | 2022-01-03 prints as "2022-W01-1" |
| IsoText.FirstDaysText | third_party_examples/uwebsockets/src/date.h:1601-1607 | on the first two days of the calendar the text shows the wrapped year as not valid, and a negative week |
| KeywordScan.UpperIgnoresCase | third_party_examples/uwebsockets/src/date.h:3857-3868 | two characters are equal after `toupper` exactly when they are the same or the two forms of one letter from a to z |
| KeywordScan.BeginsInAnyCase | third_party_examples/uwebsockets/src/date.h:3857-3868 | what begins a keyword also begins it with letters in another case |
| KeywordScan.InitStatus | third_party_examples/uwebsockets/src/date.h:3836-3848 | every status and both counters are right before the first character |
| KeywordScan.TestCharacter | third_party_examples/uwebsockets/src/date.h:3865-3880 | every keyword still possible is tested, the counters follow, and a character is consumed exactly when some keyword takes it |
| KeywordScan.DropShorter | third_party_examples/uwebsockets/src/date.h:3888-3894 | keywords matched by fewer characters stop matching, and the counter follows |
| KeywordScan.ReadOne | third_party_examples/uwebsockets/src/date.h:3850-3897 | one turn of the loop keeps the meaning of the statuses and counters, even where the clean-up loop is skipped |
| KeywordScan.Scan | third_party_examples/uwebsockets/src/date.h:3821-3906 | consumes the longest prefix that begins a keyword in any case, succeeds exactly when it is a keyword, returns the first such, and sets eofbit exactly when a longer keyword was still possible at the end |
| Reservoir.FirstItems | cpp_practices/tricks/src/reservoir_sampling.cpp:16-21 | the reservoir starts with p at every position p below k |
| Reservoir.ReplaceFirst | cpp_practices/tricks/src/reservoir_sampling.cpp:30-33 | the first occurrence of the drawn value, if any, is overwritten |
| Reservoir.Sample | cpp_practices/tricks/src/reservoir_sampling.cpp:15-37 | for every n and k the result is the outcome of the rounds for the draws made, told position by position; a negative k throws |
| Reservoir.Rounds | cpp_practices/tricks/src/reservoir_sampling.cpp:27-34 | the second loop leaves the outcome of the rounds in the array |
| Reservoir.RunIsItems | cpp_practices/tricks/src/reservoir_sampling.cpp:27-34 | a round overwrites exactly the position that holds the drawn value, with the item of that round |
| Reservoir.RunIsDistinct | cpp_practices/tricks/src/reservoir_sampling.cpp:27-34 | the reservoir always holds k different values among the items seen |
| Reservoir.Uniform | cpp_practices/tricks/src/reservoir_sampling.cpp:28-34 | every k-element subset of the first n items is the final reservoir for exactly (n - k)! of the draw sequences |
| Reservoir.ChoicesAreLegal | cpp_practices/tricks/src/reservoir_sampling.cpp:28-29 | the draw sequences counted are exactly those with the i-th draw from 0 to i |
| Reservoir.ChoicesCount | cpp_practices/tricks/src/reservoir_sampling.cpp:28-29 | there are n! / k! draw sequences |
| TripleBufferProtocol.InvHolds | cpp_practices/lock_free_structure/include/triple_buffer_so.h:60-75 | the protocol's invariant holds after every schedule |
| TripleBufferProtocol.Ownership | cpp_practices/lock_free_structure/include/triple_buffer_so.h:60-75 | at every moment the three roles are three buffers, `produce` and `consume` never work on one buffer, and everything consumed was completely produced |
| TripleBufferProtocol.SwapTakes | cpp_practices/lock_free_structure/include/triple_buffer_so.h:68-75 | a consumer swap takes the newest publication, or the buffer given up in the previous swap; the unfilled buffer only after the destructor's `clear` |
| TripleBufferProtocol.LateSwapIsNotConsumed | cpp_practices/lock_free_structure/include/triple_buffer_so.h:41-47 | after a swap made possible by the destructor nothing more is consumed |
| TripleBufferProtocol.FreshWithoutOverlap | cpp_practices/lock_free_structure/include/triple_buffer_so.h:12-17 | without overlapping windows, consumed versions strictly increase and every swap before the destructor's `clear` takes something published since the last one |
| TripleBufferProtocol.OverlapGoesStale | cpp_practices/lock_free_structure/include/triple_buffer_so.h:63-73 | every reachable overlap before `stop` can be continued to a swap with nothing new to take |
| TripleBufferProtocol.StaleSwapHasCause | cpp_practices/lock_free_structure/include/triple_buffer_so.h:60-75 | in every run, before a swap with nothing new to take (and before the destructor's `clear`), the windows overlapped inside the window of the swap just before it |
| TripleBufferProtocol.StaleRun | cpp_practices/lock_free_structure/include/triple_buffer_so.h:60-75 | a run that consumes versions 0, 2 and 0 |
| TripleBufferProtocol.UnfilledSwapRun | cpp_practices/lock_free_structure/include/triple_buffer_so.h:41-47 | a run in which, nothing being published, the destructor's `clear` makes the consumer take a buffer nobody filled |
| TripleBufferProtocol.StepCountsDown | cpp_practices/lock_free_structure/include/triple_buffer_so.h:41-47 | once `stop` is set every step lowers a measure, except spins and waits, which change nothing; after the `clear` the consumer does not spin |
| TripleBufferProtocol.SomeThreadMoves | cpp_practices/lock_free_structure/include/triple_buffer_so.h:41-47 | until the destructor has returned, some thread can lower the measure |
| TripleBufferProtocol.ShutdownTerminates | cpp_practices/lock_free_structure/include/triple_buffer_so.h:41-75 | from every reachable state with `stop` set, the destructor has returned after a bounded number of rounds in which every thread is scheduled |
| TripleBuffer.TripleBuffer.constructor | cpp_practices/lock_free_structure/include/triple_buffer.h:23-33 | the register starts with the initial value, ready to be waited for |
| TripleBuffer.TripleBuffer.Store | cpp_practices/lock_free_structure/include/triple_buffer.h:53-62 | only the last stored value changes, and the flag is clear |
| TripleBuffer.TripleBuffer.WaitLoad | cpp_practices/lock_free_structure/include/triple_buffer.h:64-76 | while the flag is clear, returns the last stored value and consumes it |
| TripleBuffer.TripleBuffer.InstantLoad | cpp_practices/lock_free_structure/include/triple_buffer.h:78-87 | returns the value seen by the previous load and fetches the last stored one |
| TripleBuffer.RegisterHistory | cpp_practices/lock_free_structure/include/triple_buffer.h:53-87 | after any operations: what each kind of load returns, in terms of the stores and loads before it, and exactly when a wait can end |
| TripleBuffer.Replay | cpp_practices/lock_free_structure/include/triple_buffer.h:53-87 | any operations run on one object answer each load with the value last stored as of now, or as of the previous load, and leave the object in the register's state |
| TripleBufferThreads.InvHolds | cpp_practices/lock_free_structure/include/triple_buffer.h:53-87 | the invariant of the two threads holds after every schedule |
| TripleBufferThreads.NoTornLoads | cpp_practices/lock_free_structure/include/triple_buffer.h:53-87 | under every interleaving the threads never copy into and out of one buffer at once, and every load returns a completely stored, published value |
| TripleBufferThreads.SwapTakes | cpp_practices/lock_free_structure/include/triple_buffer.h:64-87 | a load's swap takes the newest publication, or the buffer given up in the previous swap |
| TripleBufferThreads.FreshWithoutOverlap | cpp_practices/lock_free_structure/include/triple_buffer.h:53-87 | without overlapping windows no load returns an older version than the load before it, and every swap takes the newest publication, newer than everything loaded |
| TripleBufferThreads.OverlapGoesStale | cpp_practices/lock_free_structure/include/triple_buffer.h:57-69 | every reachable overlap can be continued to a swap with nothing new to take |
| TripleBufferThreads.OlderLoadRun | cpp_practices/lock_free_structure/include/triple_buffer.h:53-76 | a run in which a `wait_load` returns version 1 and the next one version 0 |
| TripleBufferThreads.StoreEnds | cpp_practices/lock_free_structure/include/triple_buffer.h:53-62 | `store` ends within six of its own steps in every run |
| TripleBufferThreads.LoadEnds | cpp_practices/lock_free_structure/include/triple_buffer.h:64-87 | so does `instant_load`, and `wait_load` unless it spins in front of a set flag |
| TripleBufferThreads.EveryCallHasItsEffect | cpp_practices/lock_free_structure/include/triple_buffer.h:53-87 | in every run each `store` publishes once and each load returns one value |
| TripleBufferThreads.SequentialIsRegister | cpp_practices/lock_free_structure/include/triple_buffer.h:53-87 | operations that follow one another do on the step machine what they do on the register, and load the same values |
| Barrier.Safety | cpp_practices/barrier_examples/src/simple_barrier.cpp:24-70 | under every schedule the four asserts hold, the updates follow the fixed cycle of four, and the workers neither hold the mutex together nor both sleep |
| Barrier.SomeWorkerMoves | cpp_practices/barrier_examples/src/simple_barrier.cpp:34-68 | in every reachable state some worker can move without a spurious wake-up |
| Barrier.StepCountsDown | cpp_practices/barrier_examples/src/simple_barrier.cpp:24-70 | every step changes nothing, updates `state`, or lowers a measure |
| Barrier.Progress | cpp_practices/barrier_examples/src/simple_barrier.cpp:24-70 | from every reachable state, `state` is updated again within a bounded number of rounds in which both workers are scheduled and nobody is woken for no reason |
| BoundedQueue.Queue.constructor | utils/realtime_executor/include/queue.h:8-11 | the queue starts empty |
| BoundedQueue.Queue.Push | utils/realtime_executor/include/queue.h:12-17 | the element is appended, and the oldest one dropped exactly when the queue was full |
| BoundedQueue.Queue.Pop | utils/realtime_executor/include/queue.h:22-24 | the front is removed and returned |
| BoundedQueue.QueueHistory | utils/realtime_executor/include/queue.h:12-36 | for any number of threads: everything pushed is what was popped or dropped, in order, followed by the queue; the bound holds while the mutex is free; a bound of 0 never drops, and any bound drops only what has that many newer elements; a pop returns what it took; a thread sleeps beside a non-empty queue only while a push is about to notify |
| BoundedQueue.EveryCallHasItsEffect | utils/realtime_executor/include/queue.h:12-25 | in every run each `push` appends one element and each `waitAndPop` takes one |
| BoundedQueue.EmptyPopBlocks | utils/realtime_executor/include/queue.h:19-21 | a pop of an empty queue ends up asleep, without the mutex, and does not move on its own |
| BoundedQueue.Replay | utils/realtime_executor/include/queue.h:12-36 | any operations of one thread leave the object with the queue of the step machine and return what it popped |
| BoundedQueue.OnlyEmptyQueueBlocks | utils/realtime_executor/include/queue.h:15-21 | when no thread can move, all are idle or asleep, and one is asleep only beside an empty queue |
| PrettyName.ScanTail | cpp_practices/design_pattern_in_modern_cpp/src/nameof.hpp:324-342 | with a counter that wraps below zero, scans exactly to the first place where the tail is balanced and no bracket precedes it |
| PrettyName.RemoveArguments | cpp_practices/design_pattern_in_modern_cpp/src/nameof.hpp:304-322 | drops that tail for parentheses, unless the scan met no place to stop |
| PrettyName.FindRunStart | cpp_practices/design_pattern_in_modern_cpp/src/nameof.hpp:344-352 | finds where the last run of name characters starts |
| PrettyName.RemoveScope | cpp_practices/design_pattern_in_modern_cpp/src/nameof.hpp:324-355 | cuts out that run, with or without the template suffix, in bounds |
| PrettyName.PrettyName | cpp_practices/design_pattern_in_modern_cpp/src/nameof.hpp:287-364 | the three passes compute the trimmed name for every name that fits a `size_t` |
| PrettyName.TrimGivesIdentifier | cpp_practices/design_pattern_in_modern_cpp/src/nameof.hpp:353-363 | the result is empty or an identifier, the run of name characters before the template suffix; it is empty exactly for literals and where that run is empty or does not start with a letter; the argument tail dropped is balanced, and so is the template suffix unless it is all there is |
| PrettyName.RejectedExactly | cpp_practices/design_pattern_in_modern_cpp/src/nameof.hpp:288-302 | what is rejected at once is exactly what starts with a quote, one of five prefixes and a quote, or a digit |
| PrettyName.LiteralsAreNameless | cpp_practices/design_pattern_in_modern_cpp/src/nameof.hpp:288-302 | all of that gives the empty name |
| PrettyName.NameCharacters | cpp_practices/design_pattern_in_modern_cpp/src/nameof.hpp:344-352 | name characters are letters, digits and the underscore, by code |
| PrettyName.IdentifiersKeepTheirName | cpp_practices/design_pattern_in_modern_cpp/src/nameof.hpp:287-364 | every identifier is its own name |
| PrettyName.TrimFindsIdentifier | cpp_practices/design_pattern_in_modern_cpp/src/nameof.hpp:304-360 | scope, identifier, closed template suffix and closed argument list give back the identifier, or the identifier with its suffix, unless the scope opens a literal or a number |
| PrettyName.TrimFindsName | cpp_practices/design_pattern_in_modern_cpp/src/nameof.hpp:304-360 | "scope::name<...>(...)" gives name, or name<...> |
| EnumTable.TypeRanges | cpp_practices/design_pattern_in_modern_cpp/src/nameof.hpp:390-404 | the ranges of the eight integer types |
| EnumTable.MixedSignLessIsLess | cpp_practices/design_pattern_in_modern_cpp/src/nameof.hpp:390-404 | for every pair of integer types the comparison is that of the numbers |
| EnumTable.ReflectedRange | cpp_practices/design_pattern_in_modern_cpp/src/nameof.hpp:406-424 | the searched range is the intersection of the configured range and the underlying type |
| EnumTable.FillValues | cpp_practices/design_pattern_in_modern_cpp/src/nameof.hpp:443-457 | the array holds the enumerators of the searched range in order |
| EnumTable.FillLoop | cpp_practices/design_pattern_in_modern_cpp/src/nameof.hpp:449-454 | the loop ends, stays inside `valid`, and fills the array exactly |
| EnumTable.ValuesSorted | cpp_practices/design_pattern_in_modern_cpp/src/nameof.hpp:443-457 | the values are strictly increasing and are exactly the named ones |
| EnumTable.IndexIsRank | cpp_practices/design_pattern_in_modern_cpp/src/nameof.hpp:484-496 | the running counter gives each enumerator its position, without wrapping and never equal to the marker of a hole |
| EnumTable.LookupIsName | cpp_practices/design_pattern_in_modern_cpp/src/nameof.hpp:526-548 | both tables give every enumerator its own name; exactly when a value without a name gets the empty name |
| EnumTable.SmallerTableIsBuilt | cpp_practices/design_pattern_in_modern_cpp/src/nameof.hpp:484-520 | of the dense and the sparse table the one with fewer bytes is built, the dense one if they are equal |
| EnumTable.HoleIsEmptyWhenSparse | cpp_practices/design_pattern_in_modern_cpp/src/nameof.hpp:499-546 | an unnamed value between the enumerators gets the empty name exactly when the sparse table is the smaller one |
| EnumTable.SparseTableHasNoHole | cpp_practices/design_pattern_in_modern_cpp/src/nameof.hpp:499-546 | enumerators 0 and 10 get the sparse table, which answers 5 with the empty name |
| EnumTable.DenseTableHasHole | cpp_practices/design_pattern_in_modern_cpp/src/nameof.hpp:526-548 | eight enumerators over a range of nine get a dense table, which answers the hole with a null pointer |
| ExprTemplate.BuiltExactly | cpp_practices/expression_templates/include/operators.h:41-59 | the trees the operators build are those in which a scalar is only ever a left operand |
| ExprTemplate.SizeIsCommonLength | cpp_practices/expression_templates/include/operators.h:29-32 | over arrays of one length, `size()` is that length and the asserts pass |
| ExprTemplate.SizeIsFirstLength | cpp_practices/expression_templates/include/operators.h:29-32 | on every tree `size()` is the length of the first array from the left that is not empty |
| ExprTemplate.AssertsMissMismatch | cpp_practices/expression_templates/include/operators.h:30 | the asserts never fail on non-empty arrays |
| ExprTemplate.AssertsExactly | cpp_practices/expression_templates/include/operators.h:29-32 | on every tree the size is 0 exactly when all arrays are empty, and the asserts fail exactly when some operator has a non-empty array on its left and only empty ones on its right |
| ExprTemplate.ReadsFitExactly | cpp_practices/expression_templates/include/operators.h:28-32 | all reads below `size()` are inside their arrays exactly when no array is shorter than `size()`; the asserts never fail on such a tree |
| ExprTemplate.MismatchReadsOutside | cpp_practices/expression_templates/include/operators.h:28-32 | arrays of lengths 2 and 1 pass the asserts and are read outside |
| ExprTemplate.ReadIsAt | cpp_practices/expression_templates/include/operators.h:28 | indexing a tree on the heap is its value on the arrays' contents |
| ExprTemplate.Assign | cpp_practices/expression_templates/include/array.h:34-41 | the assignment changes only the destination, and leaves it equal to the eager value on the old contents unless a scalar operand is an early element of it |
| ExprTemplate.OperatorsAreElementwise | cpp_practices/expression_templates/include/operators.h:28-39 | on every tree `+` adds and `*` multiplies the elements of the operands |
| ExprTemplate.AssignedElements | cpp_practices/expression_templates/include/array.h:34-41 | `x = x + y`, `x = x * y` and `x = c * y` leave the sums, products and multiples of the old elements |
| ExprTemplate.ThreeAndFour | cpp_practices/expression_templates/include/operators.h:35-39 | [3] + [4] is [7] and [3] * [4] is [12] |
| ExprTemplate.FusedIsEager | cpp_practices/expression_templates/include/array.h:37-39 | fused in-place evaluation is eager evaluation, with the destination anywhere in the tree and operands at least as long as it |
| ExprTemplate.EarlyReadIsWrong | cpp_practices/expression_templates/include/scaler.h:14-15 | with a scalar operand that is an early element of the destination, arrays of twos come out wrong |
| ExprTemplate.FusedIsEagerExactly | cpp_practices/expression_templates/include/scaler.h:4-16 | fused evaluation is right for all integer contents exactly when there is no such scalar operand |
| GuardPrinter.PrintParses | third_party_examples/sml_examples/src/dump_uml.cpp:113-145 | the printed tokens read back, with `!` above `&&` above `||`, as the guard with its conjunctions grouped to the left |
| GuardPrinter.ParenthesesCounted | third_party_examples/sml_examples/src/dump_uml.cpp:119-145 | there are as many pairs of parentheses as disjunctions and negations of something other than a name |
| GuardPrinter.AcceptedExactly | third_party_examples/sml_examples/src/dump_uml.cpp:136-145 | the guards that can be printed are those without a double negation |
| GuardPrinter.PrintKeepsMeaning | third_party_examples/sml_examples/src/dump_uml.cpp:119-145 | the guard read back has the same truth value under every valuation |
| GuardPrinter.PrintAlike | third_party_examples/sml_examples/src/dump_uml.cpp:128-135 | two guards print alike exactly when they differ only in the grouping of conjunctions |
| GuardPrinter.RightNestedIsUnflattened | third_party_examples/sml_examples/src/dump_uml.cpp:71-91 | of a, then b and c nested to the right, the list shows two entries |
| GuardPrinter.ActionsListed | third_party_examples/sml_examples/src/dump_uml.cpp:71-91 | the flattened list shows the actions in order exactly when they are nested to the left |

## Left out

- The rest of date.h: time of day, durations, locale facets, and the conversions of `to_stream` and `from_stream` other than `%G`, `%V` and `%u`.
- `year_month` and its arithmetic with months and years: closed forms of the kind already proved.
- IsoWeek.FormatParseRoundTrip: is about numbers; `IsoText.TextRoundTrip` is about the text, where the width of the year matters too.
- IsoWeek.ParseFormatRoundTrip: weeks have at most two digits, the default width of `%V`; wider fields are not modelled.
- IsoText.TextRoundTrip: default widths, and one format; other separators only change the literal characters.
- KeywordScan.Scan: the stream is good on entry and allocation of the status array for more than 100 keywords does not fail.
- Reservoir.Sample: the quality of the random source and the bias of the modulo are not modelled; the draws are free.
- TripleBufferProtocol.ShutdownTerminates: assumes that `produce` and `consume` return; each is two steps, a begin and an end.
- TripleBuffer.TripleBuffer.WaitLoad: only calls that return are modelled, so its spin is a precondition; the spin and overlapping operations are in `TripleBufferThreads`.
- BoundedQueue.Queue.Pop: the wait itself belongs to the threads' step machine, not to the class.
- `SArray` construction, `init` and `copy`, and `Array::operator==`: loops without an interesting property.
- The lifetime of the temporary a `Scaler` refers to: cells always exist in the model.
- GuardPrinter.PrintParses: names are single tokens; how type names are demangled and spaced is not modelled.
- The PlantUML output around guards and actions, and the set of sub-machines already dumped: printing in the order of the transitions.
- The dense table's null pointer is a result of its own in the model; what the library does with it is undefined in C++.
- The other copies of nameof.hpp are older versions of the code modelled here.
- Sockets, CAN, EtherCAT, tracing, user interface, physics, learning and optimisation examples: calls into libraries that are not part of this model.
