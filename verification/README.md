# logpp in Dafny

A model of the parts of the logpp logging library whose correctness is hard to see, with proofs that hold for every
input, every run and every interleaving. `dafny verify dfyconfig.toml` checks the project.

* **The queue behind `AsyncSink`** (`MpmcQueue`, `MpmcQueueTheorems`, `MpmcQueueCalls`, `BoundedQueue`,
  `BitRounding`). The lock-free
  bounded queue is a transition system: shared head and tail, a turn and a storage cell per slot, and one program
  counter per thread. A step is one atomic load, store, compare-exchange or fetch-add, or one access to a slot's
  storage. `Exec` runs an arbitrary schedule, so a statement about every schedule is one about every interleaving of
  any number of threads. Three histories that no step reads (`claims`, `takers`, `delivered`) name the owner of each
  ticket. The typed queue on top, and the bit-smearing rounding that sizes it, are modelled as the class and the loop
  they are.
* **Time-zone rules** (`Rules`, `RuleCuts`, `RuleTable`, `RuleCursor`, `MonthDayTime`). The rule table is cut in place
  until year ranges are identical or disjoint; a cursor then walks the result as a sequence of (rule, year) pairs.
* **Calendar and clocks** (`Civil`, `Weekdays`, `LeapSeconds`, `Keywords`, and `Ascii` for letter case). Civil day numbers, weekdays, ISO week
  dates (section 4.1.4 of ISO 8601:2004), UTC with leap seconds, and the keyword scanner of the date parser.
* **Rolling files** (`RollingFile`, `RollingBuffer`, `RollingPieces`). Archiving by shifting numbered files and by time stamp, over a
  map from paths to contents, and the buffer that decides when to roll.
* **Log buffer and loggers** (`LogBuffers`, `Loggers`). The growing buffer with 32-bit offsets, and the in-place
  resolution of what configured loggers inherit.

Some natural expectations are false of the code as written, and the project says exactly when they hold:

* Fixing the day of a single-year rule keeps that day only if the weekday search stays within the year
  (`MonthDayTime.CanonicalKeepsDay`, with the last days of 2007 as an instance in `CanonicalCanMoveTheDay`).
* The conversion from system time to UTC and back is the identity, every inserted second is recognised, and system
  time never goes back, exactly when the entries of the leap-second table are far enough apart
  (`LeapSeconds.RoundTripIff`, `DetectionIff`, `ToSysMonotoneIff`; the last also holds of any table at one tick to the
  second). Real tables, with months between entries, qualify.
* A week date read and written again is unchanged exactly when the year has that week. The reader takes any two digits
  for the week number; 00, a 53 the year does not have, and 54 to 99 name days of another week year
  (`Weekdays.WeekDateInverse`, with weeks 0, 53 and 99 of 2021 as instances in `WeeksThatDoNotComeBack`).
* Resolving a logger ends unless there is a default logger and neither the logger's own ancestors nor the default's
  supply what is missing; in that case the loop goes on for ever (`Loggers.UnresolvableNeverEnds`).
* An offset into a log buffer is good for whatever was written exactly when the buffer's size before the write, and a
  string's length, fit 32 bits (`LogBuffers.ReadBackIff`).

## Model

| member | source | states |
|---|---|---|
| `MpmcQueue.InitialInv` | include/logpp/queue/impl/MPMCQueue.h:139-164 | the invariant that links tickets, slots, turns, storage and deliveries holds of a new queue of any capacity of at least 1 |
| `MpmcQueue.EvolvesOtherThread` | include/logpp/queue/impl/MPMCQueue.h:191-301 | interference freedom: whatever step another thread takes, what a thread relies on at its own program counter stays true |
| `MpmcQueue.StepInv` | include/logpp/queue/impl/MPMCQueue.h:191-301 | every atomic step of every operation keeps the invariant |
| `MpmcQueue.NextInv` | include/logpp/queue/impl/MPMCQueue.h:191-301 | so does starting any of the four operations on an idle thread |
| `MpmcQueue.ExecInv` | include/logpp/queue/impl/MPMCQueue.h:191-301 | the invariant holds after every schedule |
| `MpmcQueueTheorems.DeliveredExactlyOnce` | include/logpp/queue/impl/MPMCQueue.h:191-301 | in every interleaving the pop that owns ticket t returns the value of the push that owns ticket t; no ticket is returned twice, exactly the released tickets have been returned, and each thread returns its tickets in increasing order |
| `MpmcQueueTheorems.SlotExclusion` | include/logpp/queue/impl/MPMCQueue.h:198-201 | two operations that are both between passing the turn test and storing the new turn are in different slots |
| `MpmcQueueTheorems.StorageIsUsedSafely` | include/logpp/queue/impl/MPMCQueue.h:107-121 | construct always meets empty storage; move and destroy always meet the live object, holding the claimed value |
| `MpmcQueueTheorems.TurnsGrowByOne` | include/logpp/queue/impl/MPMCQueue.h:201-272 | one step changes the turn of at most one slot, and then by plus one |
| `MpmcQueueTheorems.OddTurnMeansLive` | include/logpp/queue/impl/MPMCQueue.h:98-104 | with no operation inside a slot, its turn is odd if and only if its storage holds a live object, which is what the slot's destructor assumes |
| `MpmcQueueTheorems.CapacityBound` | include/logpp/queue/impl/MPMCQueue.h:191-301 | no pop completes before the push of its ticket, and completed pushes minus completed pops never exceed the capacity |
| `MpmcQueueTheorems.FailedTryPop` | include/logpp/queue/impl/MPMCQueue.h:275-301 | a `try_pop` that finds the tail unchanged after a failed turn test, and so is about to return false, read in that same call a turn that showed the push of the then current tail ticket unpublished |
| `MpmcQueueTheorems.FailedTryEmplace` | include/logpp/queue/impl/MPMCQueue.h:205-232 | a `try_emplace` about to return false read, earlier in that same call, a turn that showed the then current head ticket's slot not yet released by the pop of one lap earlier |
| `MpmcQueueTheorems.SingleConsumerOrder` | include/logpp/queue/BoundedTypedConcurrentAsyncQueue.h:31-47 | when one thread does all the popping, in whatever interleaving with any number of pushers, its k-th value is the value of push ticket k: ticket order, none skipped |
| `MpmcQueueTheorems.AtRest` | include/logpp/queue/impl/MPMCQueue.h:178-185 | with no operation under way the slots from tail to head hold exactly the pushed values, at most a capacity of them, and every earlier ticket was returned |
| `MpmcQueueTheorems.NoDeadlock` | include/logpp/queue/impl/MPMCQueue.h:191-301 | no deadlock in any interleaving: when a step of no thread changes anything, every thread inside an operation is a push waiting for room or a pop waiting for a push, and there are not both kinds |
| `MpmcQueueCalls.FinishedCall` | include/logpp/queue/impl/MPMCQueue.h:191-301 | in every interleaving, once the thread is idle again: `emplace` has claimed exactly one ticket, for its value, and published it; `pop` has taken exactly one ticket, released its slot and returned one value; `try_emplace` and `try_pop` have done the same, or nothing at all, and then there was no room, or no entry, at some point inside this very call |
| `MpmcQueueCalls.TryNeverWaits` | include/logpp/queue/impl/MPMCQueue.h:205-301 | wherever a `try_emplace` or `try_pop` stands in a run, and whatever the others are doing, it returns within eight steps of its own if they pause |
| `MpmcQueueCalls.TryEndsAlone` | include/logpp/queue/impl/MPMCQueue.h:205-301 | the same from any state that satisfies the invariant, for any operation that is past its spin loop |
| `BoundedQueue.BoundedTypedConcurrentAsyncQueue.constructor` | include/logpp/queue/BoundedTypedConcurrentAsyncQueue.h:27-29 | up to 2^63 a new queue is empty and its capacity is the least power of two not below the requested size; larger sizes are in `Create` |
| `BoundedQueue.BoundedTypedConcurrentAsyncQueue.Create` | include/logpp/queue/impl/MPMCQueue.h:146-149 | building a queue of any 64-bit size fails exactly above 2^63, where the rounded capacity is 0, and otherwise gives an empty queue of the rounded capacity |
| `BoundedQueue.BoundedTypedConcurrentAsyncQueue.Push` | include/logpp/queue/BoundedTypedConcurrentAsyncQueue.h:66-69 | on a queue with room the steps of `push` terminate and append the entry to what the queue holds |
| `BoundedQueue.PushOnFullQueueWaits` | include/logpp/queue/impl/MPMCQueue.h:196-199 | on a full queue at rest a started `push` takes a ticket for its value, is not done, and its further steps change nothing, so the room required by `Push` is exactly what it needs to end by itself |
| `BoundedQueue.BoundedTypedConcurrentAsyncQueue.TryPop` | include/logpp/queue/impl/MPMCQueue.h:275-301 | the steps of a lone `try_pop` terminate; it fails exactly on an empty queue, and otherwise removes and returns the oldest entry |
| `BoundedQueue.BoundedTypedConcurrentAsyncQueue.PollOne` | include/logpp/queue/BoundedTypedConcurrentAsyncQueue.h:49-59 | hands over the oldest entry and returns 1, or returns 0 on an empty queue |
| `BoundedQueue.BoundedTypedConcurrentAsyncQueue.Poll` | include/logpp/queue/BoundedTypedConcurrentAsyncQueue.h:31-47 | terminates, hands every entry to the handler oldest first, leaves the queue empty and returns their number |
| `BitRounding.PowerOfTwoTest` | include/logpp/queue/BoundedTypedConcurrentAsyncQueue.h:105-108 | the bit test is true exactly of the powers of two |
| `BitRounding.Round` | include/logpp/queue/BoundedTypedConcurrentAsyncQueue.h:97-100 | one shift-or round doubles the run of ones below the leading digit |
| `BitRounding.SmearBits` | include/logpp/queue/BoundedTypedConcurrentAsyncQueue.h:97-100 | after the loop every digit from the leading one down is set |
| `BitRounding.RoundNextPowerOfTwo` | include/logpp/queue/BoundedTypedConcurrentAsyncQueue.h:88-103 | for every 64-bit argument up to 2^63 the result is the least power of two not below it, 1 for 0; above 2^63 it wraps to 0 |
| `BitRounding.WordSize` | include/logpp/queue/BoundedTypedConcurrentAsyncQueue.h:97-97 | the loop runs over the 64 digits of a word |
| `Rules.CoverBoundsSize` | src/tz.cpp:1334-1349 | non-empty year ranges: a list has at most as many rules as the (rule, year) pairs it covers, the measure that ends the cutting |
| `Rules.CoverCounts` | src/tz.cpp:1267-1331 | a (rule body, year) pair is covered as many times as rules with that body are in force in that year, which is what a split conserves |
| `Rules.KeyLessMeans` | src/tz.cpp:1147-1158 | rules of one name are ordered by the first of start year, month, end year and day in which they differ |
| `Rules.StringLessMeans` | src/tz.cpp:1153-1156 | names are ordered by the first character in which they differ, a prefix first |
| `Rules.KeyDayIsNear` | src/tz.cpp:755-769 | the month and day rules are ordered by are those of a fixed day, at most six days from the day of a rule by weekday, and the 31st for a last weekday of that month |
| `RuleCuts.OverlapsMeans` | src/tz.cpp:1252-1265 | two rules overlap if and only if some year belongs to both and some year to one only |
| `RuleCuts.CutCovers` | src/tz.cpp:1267-1331 | in all five cases a split leaves the multiset of (rule, year) pairs the list covers unchanged |
| `RuleCuts.PiecesAreCutFrom` | src/tz.cpp:1267-1331 | each piece of a split is a non-empty range inside one of the two rules, bounded by boundaries of the original list |
| `RuleCuts.CutKeepsBoundaries` | src/tz.cpp:1267-1331 | no boundary between year ranges disappears in a split |
| `RuleCuts.SettleFirst` | src/tz.cpp:1338-1349 | a rule compared with all later ones has no original boundary inside its range, never changes again, and comes no later in start year, month and day than any of the others |
| `RuleCuts.SortedCutIsUnsettled` | src/tz.cpp:1344-1346 | a split followed by the sort from i to e keeps the invariant of the loops |
| `RuleCuts.FirstAreNoEarlier` | src/tz.cpp:1338-1349 | after a cut and the sort, rules up to the cut position that start with the first one come no earlier in month and day, though the sort puts the end year before the day |
| `RuleCuts.CutComesFrom` | src/tz.cpp:1267-1331 | every rule of the cut list is no earlier, in start year, month and day, than some rule from before |
| `RuleTable.Table.Split` | src/tz.cpp:1267-1331 | the in-place insertions and assignments of the five cases amount to replacing the two rules by their pieces, and e grows with the vector |
| `RuleTable.Table.CutOverlaps` | src/tz.cpp:1334-1349 | the nested loops terminate although the vector keeps growing; they end sorted by the source's full order, every two year ranges identical or disjoint, with the same (rule, year) pairs covered and nothing outside the group touched |
| `RuleTable.Table.SplitOverlaps` | src/tz.cpp:1334-1355 | the same for the whole function, followed by fixing the day of every rule of a single year |
| `RuleTable.Table.EndOfName` | src/tz.cpp:1363-1368 | the search by name finds the end of the group |
| `RuleTable.Table.SplitAllOverlaps` | src/tz.cpp:1358-1393 | on a sorted table every name's group reaches the normal form, the whole table is sorted by name, start year, month, end year and day before days are fixed, and it covers the same (rule, year) pairs as before |
| `RuleTable.FixedKeepsDays` | src/tz.cpp:1350-1354 | fixing changes nothing but the day specification, and that only of single-year rules, which end with a fixed day; the day of every year of a rule is kept if and only if it is not a single-year rule whose weekday search leaves that year |
| `RuleTable.WholeIsNormal` | src/tz.cpp:1334-1349 | ranges with no original boundary inside are pairwise identical or disjoint, and the rules settled one after the other are sorted |
| `RuleCursor.TableGivesGroups` | src/tz.cpp:1358-1393 | what `split_overlaps` leaves of one name meets what the cursor functions rely on |
| `RuleCursor.FindNext` | src/tz.cpp:1435-1456 | returns the pair that comes right after in (year, position) order, or none exactly after the last pair |
| `RuleCursor.FindNextInTable` | src/tz.cpp:1465-1487 | the same where the end of the group is recognised by name only |
| `RuleCursor.FindPrevious` | src/tz.cpp:1402-1424 | returns the pair whose next is the given one, for every pair but the first |
| `RuleCursor.NextIsUnique` | src/tz.cpp:1402-1487 | next and previous are inverse: of two such steps the starts agree exactly if the ends do |
| `RuleCursor.Walk` | src/tz.cpp:1435-1456 | following `find_next_rule` from the first rule and its first year terminates and visits every (rule, year) pair exactly once, in order |
| `RuleCursor.FindFirstStdRule` | src/tz.cpp:1489-1503 | finds the earliest pair without daylight saving, or reports that every rule saves |
| `MonthDayTime.ResolvesToNearest` | src/tz.cpp:864-888 | the resolved day has the weekday asked for and is the nearest such day on or before, or on or after, the date given |
| `MonthDayTime.LastWeekdayResolves` | src/tz.cpp:873-874 | a last-weekday rule falls on that weekday, in that month of that year, within its last seven days |
| `MonthDayTime.FixedDayResolves` | src/tz.cpp:871-872 | a fixed day falls on itself if the month has it, and in the year in any case |
| `MonthDayTime.ResolvedYear` | src/tz.cpp:864-888 | the resolved day is in year y exactly if the weekday search does not leave it |
| `MonthDayTime.CanonicalKeepsDay` | src/tz.cpp:897-931 | canonicalising for year y leaves the day of year y unchanged if and only if the weekday search stays in that year |
| `MonthDayTime.CanonicalNamesTheDay` | src/tz.cpp:897-931 | canonicalising always leaves a fixed day, and in the year in which the search ended it is exactly the day found |
| `MonthDayTime.CanonicalCanMoveTheDay` | src/tz.cpp:921-928 | an instance where it does not: on or after December 30, 2007, Tuesday |
| `MonthDayTime.CanonicalIsIdempotent` | src/tz.cpp:897-931 | canonicalising twice is canonicalising once |
| `MonthDayTime.MonthDayTime.Canonicalize` | src/tz.cpp:897-931 | the in-place update leaves a fixed day, which in the year in which the search ended is exactly the day found |
| `Civil.ToDaysIsMonotone` | include/logpp/date/date.h:2675-2691 | a later valid date has a larger day number, negative years included |
| `Civil.ToDaysIsInjective` | include/logpp/date/date.h:2675-2691 | two valid dates with one day number are equal |
| `Civil.NextDateIsNextDay` | include/logpp/date/date.h:2487-2498 | the calendar's next date, by month lengths and leap years, is valid and has the next day number |
| `Civil.YearLength` | include/logpp/date/date.h:1662-1667 | a year spans 366 days if leap and 365 otherwise |
| `Civil.Epoch` | include/logpp/date/date.h:2690-2690 | day 0 is January 1, 1970 |
| `Civil.FromDays` | include/logpp/date/date.h:2777-2795 | every day number yields a valid date, and converting that date back returns the day number |
| `Civil.FromDaysInvertsToDays` | include/logpp/date/date.h:2675-2795 | every valid date comes back from its day number |
| `Civil.FromDaysSuccessor` | include/logpp/date/date.h:2777-2795 | the date of day z+1 is the calendar successor of the date of day z |
| `Civil.FromDaysIsMonotone` | include/logpp/date/date.h:2777-2795 | a larger day number has a later date |
| `Weekdays.WeekdayIsCyclic` | include/logpp/date/date.h:1765-1771 | the unsigned 32-bit computation equals (z + 4) mod 7 for every 32-bit z |
| `Weekdays.IndexedIsInMonth` | include/logpp/date/date.h:2950-2956 | a valid n-th weekday of a month is a day of that month, of that weekday, the n-th one |
| `Weekdays.IndexedRoundTrip` | include/logpp/date/date.h:2940-2956 | the n-th-weekday form of any day converts back to that day, with n in 1 to 5 |
| `Weekdays.IndexedInverse` | include/logpp/date/date.h:2940-2956 | a valid n-th weekday comes back from its day number |
| `Weekdays.LastWeekdayIsLatest` | include/logpp/date/date.h:3101-3107 | the last-weekday form gives a day of the month, of that weekday, with no later one in the month |
| `Weekdays.WeekYearStartIsMonday` | include/logpp/date/date.h:4819-4819 | a week-numbering year starts on the Monday of the week that holds January 4 |
| `Weekdays.WeekYearHoldsDay` | include/logpp/date/date.h:5279-5286 | the week year computed for a day is the one whose weeks contain that day |
| `Weekdays.WeekDateRoundTrip` | include/logpp/date/date.h:5274-5286 | writing a date as week year, week number and weekday and rebuilding it as the parser does returns the date; the week number is in 1 to 53 |
| `Weekdays.WeekDateFollowsThursday` | include/logpp/date/date.h:4817-4821 | independently of the code's route: the week year is the calendar year of the week's Thursday, and the week number counts that year's Thursdays |
| `Weekdays.IsoWeekdayCounts` | include/logpp/date/date.h:4817-4821 | weekdays run from Monday, 1, to Sunday, 7, day 0 being a Thursday; the Thursday that decides the week year is the one of that week |
| `Weekdays.WeekDateCounts` | include/logpp/date/date.h:7158-7160 | a week date names the day that many weeks and days after the start of its week year |
| `Weekdays.WeekDateInverse` | include/logpp/date/date.h:7158-7160 | for every two-digit week number the reader takes: the week date read and written again is unchanged if and only if the year has that week; week 0 leads to an earlier and any other missing week to a later week year |
| `Weekdays.WeekNumberComesBack` | include/logpp/date/date.h:7158-7160 | the same for a week number of any size that names a day in range |
| `Weekdays.TwoDigitWeeksFit` | include/logpp/date/date.h:6887-6894 | two-digit week numbers always name a day in range |
| `Weekdays.WeeksThatDoNotComeBack` | include/logpp/date/date.h:7158-7160 | instances: weeks 53, 0 and 99 of 2021 are read as January 3, 2022, December 28, 2020 and November 27, 2022 |
| `Weekdays.WeekYearsDoNotOverlap` | include/logpp/date/date.h:5279-5286 | a day's week year is y exactly between the starts of y and of y+1 |
| `LeapSeconds.InsertedIsFlagged` | include/logpp/date/tz.h:1746-1796 | during the second inserted by entry i the flag is set, the count includes it, and system time stands at the last tick before it |
| `LeapSeconds.OrdinaryIsShifted` | include/logpp/date/tz.h:1746-1796 | outside inserted seconds the flag is clear and system time is UTC less the seconds inserted so far |
| `LeapSeconds.FromSysCounts` | include/logpp/date/tz.h:1732-1741 | UTC is ahead by one second for each entry not later than the system time |
| `LeapSeconds.RoundTripIff` | include/logpp/date/tz.h:1732-1796 | `to_sys(from_sys(t)) == t` for every t if and only if entry i+1 comes at least i seconds after entry i, for all i |
| `LeapSeconds.BackAndForth` | include/logpp/date/tz.h:1732-1796 | the other way round: `from_sys(to_sys(u)) == u` if and only if u is not in an inserted second |
| `LeapSeconds.DetectionIff` | include/logpp/date/tz.h:1746-1769 | the flag is true exactly during the inserted seconds if and only if entry i+1 comes at least i+1 seconds after entry i |
| `LeapSeconds.ToSysIsMonotone` | include/logpp/date/tz.h:1785-1796 | on a table with room between its entries later UTC times never have earlier system times |
| `LeapSeconds.ToSysMonotoneIff` | include/logpp/date/tz.h:1785-1796 | the conversion is monotone if and only if there is one tick to the second, or entry i+1 comes at least i+1 seconds after entry i for all i |
| `LeapSeconds.GoesBack` | include/logpp/date/tz.h:1785-1796 | where an entry comes sooner, passing it sets system time back |
| `Keywords.TestKeywords` | include/logpp/date/date.h:4448-4477 | one pass over the keywords updates every status for the next character, and the two counters still count the statuses |
| `Keywords.ToUpperIgnoresCase` | include/logpp/date/date.h:4448-4461 | comparing what `toupper` gives is comparing characters up to the case of the letters A to Z |
| `Keywords.ReadChar` | include/logpp/date/date.h:4448-4496 | a whole round keeps: each status says whether its keyword might still match or does, and the counters equal the numbers of keywords in each status |
| `Keywords.ScanKeyword` | include/logpp/date/date.h:4407-4507 | consumes exactly the longest prefix of the input that begins some keyword, where letters match in either case by their character codes; returns the first keyword equal to it and fails when there is none; hits end of input exactly if all of it was consumed and some keyword could go on |
| `RollingFile.ArchivePathsDiffer` | include/logpp/sinks/file/RollingOfstream.h:490-495 | archive names with different numbers differ, and none is the live file's |
| `RollingFile.ArchiveName` | include/logpp/sinks/file/RollingOfstream.h:490-495 | an archive is named like the live file, a dot, and its number; the newest has number 0 |
| `RollingFile.DecimalReadsBack` | include/logpp/sinks/file/RollingOfstream.h:490-495 | numbers are printed in decimal digits without a leading zero, and read back as the number |
| `RollingFile.FileSystem.Archive` | include/logpp/sinks/file/RollingOfstream.h:488-517 | shifts exactly the archives below the least unused number and the live file up by one, returns that number, and no rename ever replaces an existing file |
| `RollingFile.ArchivesAreBounded` | include/logpp/sinks/file/RollingOfstream.h:497-502 | from some number on every archive name is unused, so the search for one ends and a run has a highest archive to start from |
| `RollingFile.ShiftKeepsHistory` | include/logpp/sinks/file/RollingOfstream.h:488-517 | archives from the highest number down, then the live file, hold the same bytes after a shift as before |
| `RollingBuffer.RollingFilebuf.Archive` | include/logpp/sinks/file/RollingOfstream.h:476-486 | either archive policy: what happens to every file, that none is replaced, and when the file is open again |
| `RollingBuffer.RollingFilebuf.Roll` | include/logpp/sinks/file/RollingOfstream.h:137-141 | archives whatever the rolling policy answers |
| `RollingBuffer.RollingFilebuf.Write` | include/logpp/sinks/file/RollingOfstream.h:144-153 | an open automatic buffer that rolls by size archives first, and then writes to an empty file, if and only if the file holds at least the threshold; one that rolls by time does so when the policy is due; otherwise, and always in manual mode, the bytes are appended; no file is replaced |
| `RollingBuffer.RollsAreApart` | include/logpp/sinks/file/RollingOfstream.h:440-453 | two rolls by time are at least the interval apart, whenever writes happen, and the first request never rolls |
| `RollingBuffer.TimedRollIff` | include/logpp/sinks/file/RollingOfstream.h:440-453 | a request rolls if and only if at least the interval has passed since the last roll, or since the first request when there was no roll |
| `RollingBuffer.StampedName` | include/logpp/sinks/file/RollingOfstream.h:613-615 | the stamped file is named like the live one, a dot, and the stamp |
| `RollingBuffer.IncrementalKeepsLog` | include/logpp/sinks/file/RollingOfstream.h:476-518 | a roll with incremental archives keeps every byte in its place in the log |
| `RollingBuffer.TimestampKeepsLog` | include/logpp/sinks/file/RollingOfstream.h:592-624 | so does a roll to a time-stamped file, whether that file exists already (the fallback shift) or not |
| `RollingBuffer.EvolvesGrowsLog` | include/logpp/sinks/file/RollingOfstream.h:144-153 | one write, with or without a roll, adds exactly its bytes at the end of the log |
| `RollingBuffer.RunKeepsEverything` | include/logpp/sinks/file/RollingOfstream.h:137-153 | over any run of writes and rolls, under one stamp if stamps are used, the files read from the oldest archive to the live file hold what was there before and then every byte written, in order |
| `RollingPieces.ShiftConserves` | include/logpp/sinks/file/RollingOfstream.h:488-517 | a shift leaves the multiset of file contents unchanged |
| `RollingPieces.RollConserves` | include/logpp/sinks/file/RollingOfstream.h:476-624 | a roll under either policy makes the live file's content one more archive and changes no other content |
| `RollingPieces.RunKeepsPieces` | include/logpp/sinks/file/RollingOfstream.h:137-153 | over any run, whatever the stamp of each roll: what was in the live file and every byte written since are, in order, the pieces moved to the archives and then the live file, and the contents of the archives are those of before and exactly these pieces |
| `LogBuffers.OffsetsReadBack` | include/logpp/core/LogBuffer.h:70-91 | while the total fits the offset type, every offset ever returned reads back the value or string written |
| `LogBuffers.ReadIsStable` | include/logpp/core/LogBuffer.h:70-91 | later writes do not disturb what an offset reads |
| `LogBuffers.TextLayout` | src/LogBuffer.cpp:52-58 | a string is stored as four bytes of length, least significant first, and then its bytes |
| `LogBuffers.NewestReadsBack` | src/LogBuffer.cpp:52-58 | a string written below the limit reads back if and only if its length fits the offset type; a value always does |
| `LogBuffers.ReadBackIff` | include/logpp/core/LogBuffer.h:86-90 | whatever bytes are written next read back if and only if the size before the write, and a string's length, fit the offset type |
| `LogBuffers.WrappedOffsetMisreads` | include/logpp/core/LogBuffer.h:86-90 | beyond the limit, for every length some item is not read back |
| `LogBuffers.LogBuffer.Reserve` | include/logpp/core/LogBuffer.h:176-199 | the bytes in use survive a reallocation; the capacity at least doubles when it must grow |
| `LogBuffers.LogBuffer.Encode` | src/LogBuffer.cpp:43-50 | appends the bytes and returns where they start |
| `LogBuffers.LogBuffer.WriteValue` | include/logpp/core/LogBuffer.h:70-78 | the memory is that of all items written so far, and the offset is that of the new item |
| `LogBuffers.LogBuffer.WriteText` | src/LogBuffer.cpp:33-58 | the same for a string and its length prefix |
| `LogBuffers.LogBuffer.ReadValue` | include/logpp/core/Offset.h:29-32 | from a buffer that is written, copied or moved into, reads the k-th value written |
| `LogBuffers.LogBuffer.ReadText` | include/logpp/core/Offset.h:65-70 | the same for a string |
| `LogBuffers.LogBuffer.Copy` | include/logpp/core/LogBuffer.h:110-131 | a copy has its own memory and everything the source was written is readable from it; it is as writable as any buffer exactly when the capacity taken over is what was allocated for it |
| `LogBuffers.LogBuffer.Move` | include/logpp/core/LogBuffer.h:116-161 | a moved-to buffer has everything the source was written, steals an allocated buffer, copies an inline one, and can be written to if the source could |
| `Loggers.FragmentsAreDottedPrefixes` | include/logpp/core/LoggerRegistry.h:74-84 | the fragments of a name are exactly its non-empty dotted prefixes, each once, strictly shrinking |
| `Loggers.ReverseIterator.constructor` | include/logpp/core/LoggerRegistry.h:110-113 | `rbegin` has all fragments of the key still to come |
| `Loggers.ReverseIterator.AtEnd` | include/logpp/core/LoggerRegistry.h:44-52 | comparing with `rend` is true exactly when no fragment is left, also when the position has wrapped around |
| `Loggers.ReverseIterator.Increment` | include/logpp/core/LoggerRegistry.h:31-35 | `++` drops exactly the current fragment |
| `Loggers.LineFollowsFragments` | src/TomlConfigurator.cpp:340-365 | the loggers a name inherits from are those configured for its proper dotted prefixes, longest first, then the default |
| `Loggers.FillTakesTheNearest` | src/TomlConfigurator.cpp:379-382 | resolving takes each missing part from the nearest logger in line that has it and changes nothing else |
| `Loggers.SameLine` | include/logpp/utils/string.h:18-26 | names equal but for case inherit from the same loggers |
| `Loggers.LowerIgnoresCase` | include/logpp/utils/string.h:23-25 | comparing what `tolower` gives is comparing characters up to the case of the letters A to Z |
| `Loggers.IEquals` | include/logpp/utils/string.h:18-26 | two strings are equal in this sense if and only if they have one length and the same letters in either case, by character codes |
| `Loggers.AncestorInAnotherCase` | src/TomlConfigurator.cpp:349-354 | an instance: a logger "app.net" inherits from "App" rather than from the default |
| `Loggers.DefaultCompletesAll` | src/TomlConfigurator.cpp:357-364 | with a complete default every logger resolves to a complete one, by its own line alone |
| `Loggers.FindParent` | src/TomlConfigurator.cpp:340-365 | returns the logger of the nearest configured dotted ancestor, else the default, else nothing |
| `Loggers.PrepareLoggers` | src/TomlConfigurator.cpp:368-389 | whenever the loop ends for every logger: in place and in order, each logger ends as if resolved against the list as configured; with a default there is no error, and an error names the first logger that cannot be completed |
| `Loggers.UnresolvableNeverEnds` | src/TomlConfigurator.cpp:373-385 | the other case: with a default, a logger that neither its own line nor the default's completes is still incomplete after any number of rounds |
| `Loggers.DefaultWithoutLevel` | src/TomlConfigurator.cpp:373-385 | an instance: a single default logger without a level |
| `Loggers.StillPending` | src/TomlConfigurator.cpp:373-385 | in that case every round finds a parent, so the loop reports no error either |
| `Loggers.ParentStep` | src/TomlConfigurator.cpp:373-385 | one round of the inner loop: it makes no difference whether the parent has already been completed in place, and the round gets closer to the end unless the logger cannot be resolved |
| `Loggers.FillAbsorbs` | src/TomlConfigurator.cpp:379-382 | inheriting from a parent that has inherited already gives what inheriting along the line as configured gives |

## Left out

- Hardware memory ordering and wrap-around of the queue's `size_t` counters: the model's atomic steps are sequentially consistent and tickets are unbounded.
- Fair progress of the queue under contention: freedom from deadlock is proved (`NoDeadlock`), and termination for one thread by itself, but not that a given operation ends under a fair schedule.
- BoundedQueue.BoundedTypedConcurrentAsyncQueue.constructor: sizes above 2^63 are excluded here because a constructor cannot fail; `Create` has the failing case.
- BoundedQueue.BoundedTypedConcurrentAsyncQueue.Push: on a full queue it waits until another thread pops, so a method that ends requires room (`PushOnFullQueueWaits`); the concurrent case is in `MpmcQueueTheorems`.
- BoundedQueue.BoundedTypedConcurrentAsyncQueue.PollOne: stated for a queue no other thread is using at the time; polling beside any number of pushers is `MpmcQueueTheorems.SingleConsumerOrder`.
- BoundedQueue.BoundedTypedConcurrentAsyncQueue.Poll: likewise.
- Allocation failure, alignment, padding, `free`, and object lifetimes beyond empty, live and moved-from.
- Queue storage as memory: a slot's storage is a value, and a value's own copy and move operations are not modelled.
- `short` overflow of `date::year`: the statements about `Civil` range over all integers and describe the source for dates of the years -32767 to 32767; those about weekdays and week dates carry that bound (`YearOk`, and `WeekDateInRange` for days of the years -32765 to 32765).
- Date members that are not valid dates, time of day, time zones of a rule, zone look-ups by time point and zonelet handling.
- Trimming the rule table to `min_year` and `max_year` (src/tz.cpp:1372-1389): these are the least and greatest years there are, so nothing is removed.
- RuleTable.Table.SplitAllOverlaps: the order by day is stated before days are fixed; fixing the day of a single-year rule may change it within the year, and nothing sorts again.
- Rules of a table hold their day as a value; only a `MonthDayTime` on its own is updated as an object.
- RuleCursor.FindPrevious: the first pair of a group is excluded, where the source terminates the program.
- `std::sort` is any method that returns a sorted permutation; its order among equal rules is not used.
- Text parsing of tz database files, compiled zone files, downloads and the platform-specific parts of `src/tz.cpp`.
- The formatting and parsing of a week date as text: fields are numbers; the two-digit week year is not modelled.
- Keywords.ScanKeyword: characters outside ASCII, locales, and streams that have already failed.
- RollingFile.FileSystem.Archive: failing renames of existing files and paths cut at 255 characters.
- The buffering of file output: a write reaches the file at once, and the position that `RollBySize` looks at is the file's length.
- `RoundInterval` and clocks: the current time and the formatted time stamp are parameters, and the interval of `RollEvery` is an exact one.
- RollingBuffer.RunKeepsEverything: which file comes after which is stated per stamp; across stamps `RollingPieces.RunKeepsPieces` says that the pieces are all there, unchanged, not in which file each is.
- LogBuffers.LogBuffer.Copy: writing to a copy whose capacity differs from what is allocated, and assignment to a buffer already written to, are not modelled.
- LogBuffers.LogBuffer.Reserve: a failing allocation, after which the source goes on with the old memory.
- Alignment and the typed overlays of the log buffer: a fixed-size value is its bytes, stored least significant first where it is a length.
- Loggers.PrepareLoggers: lists on which the source loops for ever are excluded; they are exactly the ones `UnresolvableNeverEnds` is about.
- Forward iteration over a logger key, the logger registry, sinks, levels as text, TOML parsing and the file watcher.
