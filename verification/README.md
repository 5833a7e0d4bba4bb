# Verified model of glacier

A Dafny model of the parts of the glacier web server whose behaviour is exact and unbounded: its
calendar and time-zone arithmetic, its asynchronous logging, the queues between its threads, its HTTP
request parser, its robust I/O layer (with the Rio functions of CS:APP) and its connection timers.
`dafny verify dfyconfig.toml` checks everything.

| files | what they model |
|---|---|
| `CInt`, `Sequences` | C++ truncating division; options and concatenation of lists of lists |
| `Calendar`, `UtcTime`, `TimeZones`, `ZoneFiles` | Julian days against the Gregorian calendar; seconds against broken-down UTC; local time and its inverse; the reader of zone files |
| `LogStreams`, `LogFiles` | the fixed log buffer and in-place integer formatting; rolling log files |
| `AsyncLog`, `AsyncLogging` | the hand-off of log buffers as a transition system over every interleaving; the class that carries it out |
| `EventLoops`, `ThreadPools` | the functor queue with its eventfd; the task queue with its condition variable |
| `HttpHeaders`, `HttpRequests`, `HttpChunks` | the header machine against a grammar; the request line and the print/parse round trip; a request that comes in pieces |
| `RobustIo`, `Transfers` | the buffered Rio reader against a plain byte stream; unbuffered reads and writes, and a connection's output |
| `Timers` | the heap of timers with lazily deleted entries, the connections and the descriptor table |

How it is modelled. Straight-line computations are functions. Loops and updates in place are methods
over arrays or class fields, proved against functions. What several threads share is a transition system
whose events are the critical sections and the single steps of each thread; a sequence of events is an
interleaving, and the classes are shown to take exactly those steps. The clock, the outcome of each
system call and the time text of a notice are parameters: a script says what the next calls do.

What the proofs found. These hold of the code as it is; each is a row below.

- `getYearMonthDay` yields dates of the calendar exactly from Julian day -32044 (1 March of year -4800),
  `weekDay` is negative before day -1 except on Sundays, and `tm_yday` is one short throughout year -4800.
- `fromLocalTime` inverts `toLocalTime` on a whole zone, each backward change of the clock with an hour
  to itself, exactly when every backward change ends one hour of daylight saving.
- A request without headers stays in `PARSE_HEADER_AGAIN` for ever; after a header block one more
  character is swallowed; taking a header parse up again after `PARSE_HEADER_AGAIN` is right only before
  the first key or inside it.
- The thread pool's destructor stores its flag without the mutex, so a worker can sleep through it:
  exactly when the store falls between the worker's test and its wait.
- A connection that is `DISCONNECTING` with output left gets no timer and no timer ever closes it; a
  timer that falls due after the ten-thousand-second clock starts again never expires.
- `writen` on a string keeps bytes that were sent exactly when the connection breaks after it took some,
  so only the `error_` flag of the connection prevents sending them twice; an error page arrives in order
  exactly when all before it had been sent and it has no hole, or when none of it arrives.
- `readTimeZoneFile` returns true for a file that is bad or too short.  `findLocaltime` then has a rule to
  give exactly when the first rule was read; `toLocalTime` also needs that no rule in force points behind
  the names that were read, which nothing checks.
- The first assertion of the log thread breaks exactly when `stop` comes between `start` and it.

## Model

| member | source | states |
|---|---|---|
| `Calendar.JulianDayOfYearMonthDay` | glacier/base/date.cc:7-26 | splitting a Julian day into a date and counting it again gives the day back, for every day from -32044 on |
| `Calendar.YearMonthDayOfJulianDay` | glacier/base/date.cc:7-26 | counting a date and splitting it again gives the date back, for every date of the proleptic Gregorian calendar from 1 March of year -4800 on |
| `Calendar.ValidExactlyFromFirst` | glacier/base/date.cc:7-19 | the day produced is within its month under the 4/100/400 rule exactly from Julian day -32044 on |
| `Calendar.ConsecutiveDays` | glacier/base/date.cc:7-19 | the date of the next Julian day is the next day of the calendar: next in the month, in the year, or New Year |
| `Calendar.JulianDayOfNextDay` | glacier/base/date.cc:21-26 | the next day of the calendar counts one more |
| `Calendar.DatesIncrease` | glacier/base/date.cc:7-19 | later Julian days are later dates, year first, then month, then day |
| `Calendar.Epoch` | glacier/base/date.cc:28 | the epoch constant is 2440588, which splits into 1 January 1970, a Thursday |
| `Calendar.WeekDayInRange` | glacier/base/date.h:40-41 | weekDay is in 0..6 exactly for days from -1 on and for Sundays before, and moves on by one a day modulo 7 |
| `Calendar.FitsExactlyUpToLast` | glacier/base/date.cc:7-19 | from the first day on, no intermediate value leaves 32 bits exactly up to Julian day 536838867 |
| `Calendar.CountFits` | glacier/base/date.cc:21-26 | counting any date whose day the 32-bit splitting covers, no intermediate value leaves 32 bits either |
| `UtcTime.ToUtcFits` | glacier/base/timezone.cc:229-252 | for every instant in range no cast, sum or difference toUtcTime keeps in an int leaves 32 bits, the count of 1 January included |
| `UtcTime.FromUtcFits` | glacier/base/timezone.cc:254-264 | nor does any of fromUtcTime, for every valid time of a day in range |
| `UtcTime.FromUtcOfToUtc` | glacier/base/timezone.cc:229-264 | fromUtcTime undoes toUtcTime on every instant in range, positive or negative |
| `UtcTime.ToUtcOfFromUtc` | glacier/base/timezone.cc:229-264 | toUtcTime gives back the date and time of day of every valid broken-down time |
| `UtcTime.ToUtcTimeIsValid` | glacier/base/timezone.cc:229-252 | every instant in range breaks down into a real date and a time of day in 00:00:00..23:59:59 |
| `UtcTime.ToUtcTimeIncreases` | glacier/base/timezone.cc:229-252 | toUtcTime is strictly increasing in the order year, month, day, hour, minute, second |
| `UtcTime.DayAndSecond` | glacier/base/timezone.cc:229-242 | the day and second of a negative instant too are counted downward from the epoch, and hour, minute and second make up that second |
| `UtcTime.YearDay` | glacier/base/timezone.cc:247-250 | tm_yday is the number of days since New Year exactly from the 307th day of the range on; before that it is one short |
| `UtcTime.FirstYearIs` | glacier/base/timezone.cc:247-250 | the instants before that are exactly those of year -4800 |
| `UtcTime.OtherFields` | glacier/base/timezone.cc:229-252 | the weekday is that of the date shown, the zone fields are those of UTC, and without the flag no day of the year is given |
| `UtcTime.PosixFormula` | glacier/base/timezone.cc:259-264 | for years from 1970 the instant equals the formula of section 4.16 of the POSIX.1-2017 Base Definitions on its broken-down time |
| `TimeZones.LowerBound` | glacier/base/timezone.cc:167-168 | the binary search ends between an entry before the key and one not before it, on any table |
| `TimeZones.FindIsLinearScan` | glacier/base/timezone.cc:162-181 | on a strictly increasing table, under either comparator, the lookup returns the rule a linear scan finds for the last transition not after the key, the front rule when there is none |
| `TimeZones.NamedExactly` | glacier/base/timezone.cc:193-209 | toLocalTime stays inside n characters of names at every instant if and only if the first rule and the rule of every transition do |
| `TimeZones.RulesNamedIsEnough` | glacier/base/timezone.cc:193-209 | rules that all do are enough on any table, sorted or not |
| `TimeZones.LocalTimeSays` | glacier/base/timezone.cc:193-209 | on any zone the date and time shown, less the offset tm_gmtoff shown with them, are the instant; tm_gmtoff and tm_isdst are those of the rule found, weekday and day of the year those of the date shown |
| `TimeZones.LocalTimeNames` | glacier/base/timezone.cc:193-209 | on an increasing table tm_gmtoff and tm_isdst are those of the last transition not after the instant, or of the first rule of all |
| `TimeZones.FromLocalReads` | glacier/base/timezone.cc:211-227 | fromLocalTime depends on the date, the time of day and tm_isdst alone |
| `TimeZones.FromLocalOfShown` | glacier/base/timezone.cc:211-227 | a time of day anyone fills in that the clock shows at one instant and not again gives that instant, or an hour less when it is marked as daylight saving and the rule there is not |
| `TimeZones.RoundTripOnAnyZone` | glacier/base/timezone.cc:193-227 | on any zone, sorted or not, an instant comes back if and only if the rule its local time finds has its offset, or an hour less and the daylight-saving retry applies |
| `TimeZones.LocalLookup` | glacier/base/timezone.cc:162-181 | on a table that std::lower_bound may search, the local seconds of an instant find its own rule, or a later one with a smaller offset exactly when the wall clock will show that time again |
| `TimeZones.RetryPeriod` | glacier/base/timezone.cc:219-225 | the instant the retry converts lies in the period the local time found, or in a later one exactly when that period ends before it |
| `TimeZones.RoundTripExactly` | glacier/base/timezone.cc:193-227 | on every such table an instant survives the trip through local time if and only if its local time is not shown again or the retry fits; both passes through a repeated hour are told apart |
| `TimeZones.RetryFitsExactly` | glacier/base/timezone.cc:219-225 | where the repeated time does not reach the transition after next, the retry fits if and only if one hour of daylight saving ends |
| `TimeZones.RoundTripNeedsDst` | glacier/base/timezone.cc:193-227 | if a backward change of the clock and the instant that shows the same time before it both come back, the change ends one hour of daylight saving |
| `TimeZones.ZoneRoundTrips` | glacier/base/timezone.cc:193-227 | a zone gives every instant back if and only if the retry fits each repeated instant; where each backward change has an hour to itself, if and only if each goes from daylight saving with offset o+3600 to standard time with offset o |
| `TimeZones.DaylightZonesRoundTrip` | glacier/base/timezone.cc:193-227 | a zone whose transitions are more than an hour apart and whose backward changes all end daylight saving gives every instant back |
| `TimeZones.TwoHoursBackFails` | glacier/base/timezone.cc:193-227 | a zone that goes two hours back without daylight saving, and the instant it does not give back |
| `TimeZones.FixedZoneRoundTrips` | glacier/base/timezone.cc:187-191 | a zone of one fixed offset gives every instant back |
| `ZoneFiles.File.ReadInt32` | glacier/base/timezone.cc:82-87 | four bytes, most significant first, as a signed number, or an exception when fewer are left |
| `ZoneFiles.ReadTimeZoneFile` | glacier/base/timezone.cc:107-160 | returns true for every file that opens; ends whole exactly on the files that hold everything, outside what C++ defines exactly when a transition names a missing rule or the length of the names is negative or too much for the stack; otherwise leaves all transitions or none, and exactly the rules the file holds |
| `ZoneFiles.FileExactly` | glacier/base/timezone.cc:107-160 | in byte counts: which files are read whole and which are outside what C++ defines |
| `ZoneFiles.RulesHeldExactly` | glacier/base/timezone.cc:122-146 | in byte counts: how many rules a file that is short or bad leaves |
| `ZoneFiles.ExampleIsRead` | glacier/base/timezone.cc:82-160 | a file of 63 bytes, its negative offset, flag, index and local time as read |
| `ZoneFiles.ReadRules` | glacier/base/timezone.cc:140-146 | exactly the rules the file holds whole are read and stay, also when it ends early |
| `ZoneFiles.BuildTransitions` | glacier/base/timezone.cc:148-152 | local times are derived from the rule each transition names; stops exactly at an index outside the rules |
| `ZoneFiles.WholeTablesAreWellFormed` | glacier/base/timezone.cc:140-152 | whole tables with a rule have the rule numbers inside the table and the derived local times the lemmas about local time ask for; it says nothing of names |
| `ZoneFiles.LeftIsIndexedExactly` | glacier/base/timezone.cc:107-181 | whatever file was read, findLocaltime has a rule to give if and only if the first rule was read |
| `ZoneFiles.ConvertsExactly` | glacier/base/timezone.cc:107-209 | whatever file was read, with transitions in order, toLocalTime has a rule and points into the names at every instant if and only if the first rule was read and no rule ever in force points behind the names that were read |
| `ZoneFiles.CutOffExactly` | glacier/base/timezone.cc:107-209 | a file cut off before its names can be converted with if and only if all rules ever in force have index zero |
| `ZoneFiles.NoRules` | glacier/base/timezone.cc:107-181 | a file of 44 bytes that is read whole and leaves findLocaltime without a rule |
| `ZoneFiles.BehindTheNames` | glacier/base/timezone.cc:141-206 | a file of 50 bytes that is read whole and whose one rule points behind its names at every instant |
| `ZoneFiles.WrittenReadsBack` | glacier/base/timezone.cc:107-160 | every zone written in the format is read back whole: the same transitions, rules and names, whatever the unread bytes and whatever follows |
| `LogStreams.ParseOfFormat` | glacier/base/logstream.cc:7-45 | reading the text back gives the value, the least signed one included, and the text has no leading zero |
| `LogStreams.FormatOfParse` | glacier/base/logstream.cc:7-45 | every canonical numeral is the text of its value |
| `LogStreams.FormatLength` | glacier/base/logstream.cc:10-45 | at most 20 characters in decimal and 16 in hexadecimal, for all 64-bit values, signed and unsigned |
| `LogStreams.EmitDigits` | glacier/base/logstream.cc:12-19 | the division loop leaves the digits least significant first and touches nothing else |
| `LogStreams.Convert` | glacier/base/logstream.cc:10-45 | the buffer holds the text of the value and its terminator, at most 21 bytes; every other byte is unchanged |
| `LogStreams.LogStream.FormatInteger` | glacier/base/logstream.cc:47-54 | the whole numeral is appended when at least 32 bytes are free, and nothing otherwise |
| `LogStreams.LogStream.InsertPointer` | glacier/base/logstream.cc:101-111 | 0x and the hexadecimal digits are appended when at least 32 bytes are free |
| `LogStreams.FixedBuffer.Reset` | glacier/base/logstream.h:31 | an empty buffer over the same storage |
| `LogStreams.FixedBuffer.Append` | glacier/base/logstream.h:37-42 | a string is taken whole, leaving a byte free, or not at all |
| `LogFiles.EveryRun` | glacier/base/logfile.cc:73-113 | with a clock that never runs backward, all files in creation order hold exactly the appended lines, their creation seconds strictly increase, and no file gets more than checkEveryN late appends |
| `LogFiles.AppendKeepsInv` | glacier/base/logfile.cc:73-93 | one append keeps the bounds on every file, the roll condition and the counter |
| `LogFiles.AppendKeepsLines` | glacier/base/logfile.cc:73-93 | one append puts its line, whole, behind all earlier lines |
| `LogFiles.AppendExactly` | glacier/base/logfile.cc:73-93 | a file is opened exactly when the clock has passed the creation of the open one and it is too long, or checkEveryN appends were made without a look and the day is another; counter and flush time as they follow |
| `LogFiles.EveryFileSize` | glacier/base/logfile.cc:73-113 | over every run no file is written to any more once it holds more than rollSize bytes and the second of its creation has passed |
| `LogFiles.SameDayExactly` | glacier/base/logfile.cc:82-83 | two seconds fall into the same period exactly when they are on the same day |
| `LogFiles.AppendFile.Append` | glacier/base/logfile.cc:28-37 | whatever fwrite accepts at a time, exactly the line is added and counted |
| `LogFiles.LogFile.Roll` | glacier/base/logfile.cc:100-113 | a new file only when the second has advanced past the last roll |
| `LogFiles.LogFile.AppendLine` | glacier/base/logfile.cc:73-93 | the class takes exactly the step of the specification |
| `AsyncLog.FaultsExactly` | glacier/base/asynclogging.cc:33-140 | in no interleaving is a null buffer used or an assertion broken but one: the first assertion of the log thread breaks if and only if stop comes between start and it |
| `AsyncLog.StoppedWhileStarting` | glacier/base/asynclogging.cc:33-67 | the run of three events that does it |
| `AsyncLog.RunKeepsInv` | glacier/base/asynclogging.cc:45-140 | in every reachable state between critical sections the spare buffer is missing exactly when a full one waits, and the lines and the output are accounted for |
| `AsyncLog.Accounting` | glacier/base/asynclogging.cc:45-140 | in every reachable state the accepted lines in lock order are the lines of the collected batches, then of the waiting buffers, then of the current one |
| `AsyncLog.NothingLostExactly` | glacier/base/asynclogging.cc:99-115 | between passes the log file holds all lines collected so far if and only if no overloaded batch had a line beyond its first two buffers |
| `AsyncLog.LossExactly` | glacier/base/asynclogging.cc:99-110 | lines are lost exactly by batches of more than 25 buffers with lines beyond the first two, and never gained |
| `AsyncLog.OutputIsPrefix` | glacier/base/asynclogging.cc:76-140 | as long as no batch exceeds 25 buffers, what is written is a prefix of what was accepted, in every reachable state |
| `AsyncLog.WaitingIsWritten` | glacier/base/asynclogging.cc:76-137 | from every reachable state with the log thread running, its own steps alone collect every accepted line and write every buffer that is not dropped |
| `AsyncLog.StopEnds` | glacier/base/asynclogging.cc:76-139 | once the flag is cleared, from every reachable state of the loop the log thread's own steps write the batch at hand and end the loop |
| `AsyncLog.OverloadExactly` | glacier/base/asynclogging.cc:99-110 | exactly a batch of more than 25 buffers is cut to its first two, and the notice counts the others |
| `AsyncLog.AcceptedExactly` | glacier/base/logstream.h:37-42 | a line is kept exactly when it has fewer than 4000000 characters |
| `AsyncLog.AppendKeepsInv` | glacier/base/asynclogging.cc:45-64 | an append keeps lines whole and in order, also when the line fills the buffer or is too long for any |
| `AsyncLog.CollectKeepsInv` | glacier/base/asynclogging.cc:77-97 | at the head of the loop both spares are there and empty; the swap hands over every waiting buffer and leaves a spare |
| `AsyncLog.OverloadKeepsInv` | glacier/base/asynclogging.cc:97-110 | the batch is not empty; an overloaded one becomes a notice and its first two buffers |
| `AsyncLog.RecycleKeepsInv` | glacier/base/asynclogging.cc:117-136 | after the resize to two there is a buffer to take for each missing spare |
| `AsyncLogging.AsyncLogging.Append` | glacier/base/asynclogging.cc:45-64 | the critical section does the append step, byte for byte |
| `AsyncLogging.AsyncLogging.Collect` | glacier/base/asynclogging.cc:77-95 | the critical section does the collect step |
| `AsyncLogging.AsyncLogging.CheckOverload` | glacier/base/asynclogging.cc:97-110 | the overload check does the drop step and logs the notice |
| `AsyncLogging.AsyncLogging.WriteBatch` | glacier/base/asynclogging.cc:112-115 | the write loop logs every buffer of the batch in order |
| `AsyncLogging.TextOfData` | glacier/base/asynclogging.cc:112-115 | without notices the text written is the lines of the buffers, one after the other |
| `AsyncLogging.TextIsPrefix` | glacier/base/asynclogging.cc:76-139 | while no batch is overloaded the text written is a prefix of the accepted lines, byte for byte, and between passes all that were collected |
| `AsyncLogging.AsyncLogging.FilesHoldLines` | glacier/base/asynclogging.cc:45-139 | the same of the bytes in the log files, in every valid state of the class |
| `AsyncLogging.NoticeSays` | glacier/base/asynclogging.cc:99-107 | the words of the notice; its number reads back as the count; it is cut after 255 characters |
| `AsyncLogging.AsyncLogging.Recycle` | glacier/base/asynclogging.cc:117-136 | the spares are refilled as in the recycle step |
| `AsyncLogging.AsyncLogging.Start` | glacier/base/asynclogging.cc:33-35 | the flag is set before the log thread exists |
| `AsyncLogging.AsyncLogging.Begin` | glacier/base/asynclogging.cc:66-75 | two empty buffers for the log thread, once the flag is found set |
| `AsyncLogging.AsyncLogging.Stop` | glacier/base/asynclogging.cc:39-43 | stop only clears the flag that the loop tests |
| `EventLoops.EveryRun` | glacier/eventloop.cc:54-117 | in every interleaving what has run, the rest of the batch and what is pending are exactly what was queued, in order; and a loop about to block with functors pending has a signalled eventfd or a producer about to write it |
| `EventLoops.StepKeepsInv` | glacier/eventloop.cc:79-117 | each step of a producer or of the loop thread keeps the wakeup safe |
| `EventLoops.PendingCanRun` | glacier/eventloop.cc:54-117 | once the producers are done, the loop thread by its own steps leaves poll and runs everything that was pending |
| `EventLoops.QuitIsReached` | glacier/eventloop.cc:54-69 | once quit was asked for, from every reachable state the loop thread's own steps, and the write the request owes, end the loop |
| `EventLoops.EveryRunQuits` | glacier/eventloop.cc:54-77 | in every interleaving the flag is set exactly when quit was asked for, and a request never leaves the loop asleep without a signal or a write to come |
| `EventLoops.QueuedTooLate` | glacier/eventloop.cc:79-85 | a run in which a functor queued while expired timers are handled leaves the loop in poll with nothing of its own to wake it |
| `EventLoops.EventLoop.DoPendingFunctors` | glacier/eventloop.cc:106-117 | exactly the functors pending before the call run, in order; what they queue and what other threads push between them waits, in order, with the eventfd written or a producer about to write it |
| `EventLoops.EventLoop.QueueInLoop` | glacier/eventloop.cc:79-85 | on the loop thread the push, and the write only while functors are called |
| `EventLoops.EventLoop.Push` | glacier/eventloop.cc:79-83 | the critical section of a producer |
| `EventLoops.EventLoop.HandleRead` | glacier/eventloop.cc:95-102 | the read resets the eventfd |
| `ThreadPools.EveryRun` | glacier/base/threadpool.h:26-92 | in every interleaving, also after stop, committed tasks are exactly the dequeued ones, each taken by one worker, followed by the queued ones, first in first out |
| `ThreadPools.NoLostWakeup` | glacier/base/threadpool.h:32-43 | before stop, while a worker sleeps every queued task has a worker on its way or a notification to come; with a worker in the pool a task never waits with all asleep and none to be notified |
| `ThreadPools.StepKeepsInv` | glacier/base/threadpool.h:26-92 | each step keeps that balance |
| `ThreadPools.EveryTaskIsTaken` | glacier/base/threadpool.h:29-46 | from every reachable state before stop, with a worker in the pool, the workers' own steps and the notifications still to come dequeue every committed task, in order |
| `ThreadPools.AllReturn` | glacier/base/threadpool.h:29-58 | where nobody can be stranded, the notification and the workers' own steps bring every worker to its end |
| `ThreadPools.TestedExactly` | glacier/base/threadpool.h:31-43 | a worker takes the first task while there is one; without one it waits with the mutex in hand before stop and returns after it |
| `ThreadPools.WokenIsServed` | glacier/base/threadpool.h:33-43 | a worker that was woken, for whatever reason, tests again and takes a task that waits |
| `ThreadPools.StopStrandsExactly` | glacier/base/threadpool.h:53-59 | a continuation in which a worker sleeps though the pool is stopped and everyone notified exists if and only if the flag is stored while a worker is between its test and its wait; stored under the mutex it strands nobody in any run |
| `ThreadPools.NotifyAllReachesAllExactly` | glacier/base/threadpool.h:54-55 | between the store and the notification, all workers will be awake after it if and only if none holds the mutex |
| `ThreadPools.AwakeInEveryRun` | glacier/base/threadpool.h:29-58 | once all are awake with the flag stored, nobody sleeps after the notification in any run |
| `ThreadPools.StrandedForGood` | glacier/base/threadpool.h:32-57 | a stranded worker sleeps for ever unless a task is committed after stop or the system wakes it for no reason |
| `ThreadPools.StopCanStrandAWorker` | glacier/base/threadpool.h:53-59 | a run in which the flag and the notification fall between a worker's test and its wait, which then never ends |
| `ThreadPools.ThreadPool.Refuse` | glacier/base/threadpool.h:66 | the test of the template overload outside the mutex; it throws once the pool is stopped |
| `ThreadPools.ThreadPool.Enqueue` | glacier/base/threadpool.h:73-76 | its critical section, after which a stop may have come between |
| `ThreadPools.ThreadPool.CommitTask` | glacier/base/threadpool.h:84-92 | the other overload: run by the caller without workers, otherwise queued and notified under the mutex |
| `ThreadPools.ThreadPool.Take` | glacier/base/threadpool.h:31-43 | the worker's critical section: the oldest task, or none when it blocks or returns |
| `HttpHeaders.SuccessExactly` | glacier/httpdata.cc:297-383 | a parse from START succeeds if and only if the buffer begins with a block of the grammar, and leaves nothing if and only if at most one character follows it |
| `HttpHeaders.BlocksAreAccepted` | glacier/httpdata.cc:297-383 | every block of the grammar is accepted whatever follows, the header map is the last-wins map of its pairs, and one following character is lost |
| `HttpHeaders.AcceptedAreBlocks` | glacier/httpdata.cc:297-383 | a buffer that is accepted begins with a block |
| `HttpHeaders.ReadAllIsSound` | glacier/httpdata.cc:302-377 | the characters read are the text of the headers read and of the unfinished one, all within the grammar |
| `HttpHeaders.ReadAllIsComplete` | glacier/httpdata.cc:302-377 | every text of the grammar is read in exactly one way |
| `HttpHeaders.ScanIsReadOn` | glacier/httpdata.cc:297-383 | the machine with its indices into the buffer gives the outcome of reading character by character, the same slices included |
| `HttpHeaders.ErrorExactly` | glacier/httpdata.cc:297-383 | an error is returned if and only if no continuation could succeed, and AGAIN if and only if the buffer does not succeed but a continuation does |
| `HttpHeaders.AgainExactly` | glacier/httpdata.cc:297-383 | what PARSE_HEADER_AGAIN leaves: the headers of the complete lines, and of the buffer the unfinished line with the LF before it |
| `HttpHeaders.ErrorKeeps` | glacier/httpdata.cc:297-383 | what PARSE_HEADER_ERROR leaves: the headers of the lines complete before the first character no block can go on with |
| `HttpHeaders.HeaderlessNeverSucceeds` | glacier/httpdata.cc:304-309 | an input of line ends only stays in AGAIN, in START |
| `HttpHeaders.ResumeExactly` | glacier/httpdata.cc:297-383 | going on after AGAIN agrees with parsing at once for every continuation if and only if the machine stopped before the first key, or inside it and the key does not begin with a colon |
| `HttpHeaders.ResumeFails` | glacier/httpdata.cc:297-383 | from any other state some continuation is answered differently |
| `HttpRequests.LineRoundTrip` | glacier/httpdata.cc:243-294 | method, file name and version of a printed request line are recovered if and only if the path holds no method word that is looked for earlier |
| `HttpRequests.RequestRoundTrip` | glacier/httpdata.cc:232-383 | a printed request comes back: request line from parseURI, header map from parseHeaders on what it leaves |
| `HttpRequests.UriOfChunks` | glacier/httpdata.cc:232-242 | parseURI gives the same answer however the bytes were chunked, and changes nothing before the line is complete |
| `HttpRequests.NoMethodIsError` | glacier/httpdata.cc:245-260 | a line without GET, POST and HEAD is an error |
| `HttpRequests.NoSlashIsIndex` | glacier/httpdata.cc:262-267 | without a slash from the method word on, the file is index.html and the version 1.1 |
| `HttpRequests.NoBlankIsError` | glacier/httpdata.cc:268-279 | a path that no blank ends is an error |
| `HttpRequests.NoVersionIsError` | glacier/httpdata.cc:282-284 | so is a line without a slash behind the path |
| `HttpRequests.VersionDecides` | glacier/httpdata.cc:245-294 | every other line succeeds exactly when 1.0 or 1.1 stands behind that slash, and gives the first method word of GET, POST and HEAD in that order, the path up to its first question mark, and that version |
| `HttpRequests.PrintedFile` | glacier/httpdata.cc:268-276 | of a printed line the query is cut off the file name, a path without one is the file name, and the empty path is index.html |
| `HttpRequests.Find` | glacier/httpdata.cc:235-290 | the first occurrence of a word from an index on, or none |
| `HttpRequests.HttpData.ParseUri` | glacier/httpdata.cc:232-295 | the method does what the specification of parseURI says to the members |
| `HttpRequests.HttpData.ParseHeaderBlock` | glacier/httpdata.cc:297-383 | the index loop gives the outcome of the specified machine from any state, buffer, state and headers included; on an error the buffer stays |
| `HttpChunks.ChunksAsWhole` | glacier/httpdata.cc:82-132 | a printed request, cut into any chunks before the end of its first key and nowhere behind it, gives what it gives in one piece: method, file name, version and all headers, with nothing left |
| `HttpChunks.ChunksAndMore` | glacier/httpdata.cc:82-130 | when the last piece already holds the beginning of more, the answer is that of the request alone and what follows it loses one character |
| `HttpChunks.FeedOn` | glacier/httpdata.cc:105-132 | from one place where the request may be cut to a later one, whichever stage that is in |
| `HttpChunks.BadLineFails` | glacier/httpdata.cc:103-112 | a request line without a method word ends the parse with an empty buffer |
| `HttpChunks.BadHeadersFail` | glacier/httpdata.cc:117-125 | a header error ends the parse and keeps the buffer |
| `HttpChunks.EndedOnlyCollects` | glacier/httpdata.cc:103-130 | what comes after the end of the two stages only waits in the buffer |
| `HttpRequests.LineArrives` | glacier/httpdata.cc:232-295 | once the CR is in, parseURI recovers a printed request line and leaves exactly what follows |
| `RobustIo.ServedInOrder` | csapp/csapp.c:849-893 | what any series of block and line reads delivers, put together with what is left, is the stream: nothing lost, repeated or reordered |
| `RobustIo.LineStops` | csapp/csapp.c:871-893 | a line read stops at the first newline, at its room or at the end of the stream, and nowhere else |
| `RobustIo.DeliversExactly` | csapp/csapp.c:849-893 | how many bytes a block read and a line read deliver, whatever the stream |
| `RobustIo.LineBufferExactly` | csapp/csapp.c:869-893 | behind the line stands a zero byte and then what was there; at the end of the stream nothing has changed |
| `RobustIo.Serve` | csapp/csapp.c:805-893 | for every script of short reads and interrupts, any mix of rio_readnb and rio_readlineb delivers what a plain byte stream would |
| `RobustIo.Rio.Refill` | csapp/csapp.c:809-820 | interrupted reads are repeated; the stream seen by the caller does not change |
| `RobustIo.Rio.RioRead` | csapp/csapp.c:805-831 | a non-empty prefix of the stream, its end, or an error that takes nothing |
| `RobustIo.Rio.RioReadnb` | csapp/csapp.c:849-865 | exactly the next n bytes, or all that is left; on an error less than n have been taken |
| `RobustIo.Rio.RioReadlineb` | csapp/csapp.c:871-893 | the next line cut at maxlen-1 bytes, and a terminator, but the buffer is untouched at the end of the stream |
| `RobustIo.Rio.LineLoop` | csapp/csapp.c:876-890 | the loop stores the line character by character and stops where the specification says |
| `Transfers.RioReadn` | csapp/csapp.c:749-768 | the next n bytes straight from the descriptor, or all that is left |
| `Transfers.RioWriten` | csapp/csapp.c:775-792 | all bytes are sent and n returned, or -1 after a strict prefix; interrupts and short writes alone never fail it |
| `Transfers.Readn` | glacier/utils.cc:127-149 | the descriptor is drained until it would block, ends or fails; bytes read before a failure stay in the buffer |
| `Transfers.WriteLoop` | glacier/utils.cc:151-201 | exactly the bytes the descriptor lets through before it refuses or breaks are sent; the result is their number, or -1 when it breaks |
| `Transfers.Writen` | glacier/utils.cc:151-177 | sent bytes and the rest of the string together stay the same if and only if the connection does not break, or breaks before it took any |
| `Transfers.KeptExactly` | glacier/utils.cc:171-176 | whatever the descriptor does, no byte is both sent and kept if and only if that holds |
| `Transfers.BreakAfterOne` | glacier/utils.cc:164-165 | one of two characters is sent, the connection breaks, and the string keeps both |
| `Transfers.OnlyShortSendsAll` | glacier/utils.cc:151-177 | short writes and interrupts alone send everything |
| `Transfers.Output.HandleWrite` | glacier/httpdata.cc:159-169 | without an earlier error the peer has a prefix of everything produced, in order, and what waits is exactly the rest until the connection breaks; asks to be called again exactly when not all went through |
| `Transfers.Output.Respond` | glacier/httpdata.cc:409-434 | a response goes behind what is waiting; on a missing file the page is produced behind everything and written at once, and the peer is served in order if and only if none of it got through, or all before it had been sent and it has no hole |
| `Transfers.Output.RejectRequest` | glacier/httpdata.cc:92-94 | the same for a request that cannot be read or parsed |
| `Transfers.Output.HandleError` | glacier/httpdata.cc:205-225 | the two parts of the error page are written one after the other whatever becomes of the first |
| `Transfers.PageIsStraightExactly` | glacier/httpdata.cc:205-225 | the positions of the page are in place behind what arrived if and only if that holds |
| `Transfers.PageTexts` | glacier/httpdata.cc:206-220 | the body of an error page begins with a character no head contains |
| `Transfers.NotFoundPage` | glacier/httpdata.cc:205-225 | head and body of the page for a missing file, word for word, its length of 114 included |
| `Transfers.PageIsPrefixExactly` | glacier/httpdata.cc:221-224 | a page with such texts arrives as a prefix of itself if and only if its head went through whole or none of its body did |
| `Transfers.ErrorPageIsPrefixExactly` | glacier/httpdata.cc:205-225 | every error page handleError makes has such texts |
| `Transfers.SplicedExactly` | glacier/httpdata.cc:205-225 | behind a waiting text that begins unlike head and body, the page comes in order if and only if none of it got through, or nothing was waiting and it has no hole |
| `Transfers.PageInsideResponse` | glacier/httpdata.cc:148-413 | a response cut after its first character, a request for a missing file, and the page in the middle of the response |
| `Transfers.PageWithAHole` | glacier/httpdata.cc:221-224 | a page that arrives with a hole |
| `Timers.ClockStartsAgain` | glacier/timer.cc:8-11 | the reading is the time in milliseconds modulo ten million |
| `Timers.LooksExpiredExactly` | glacier/timer.cc:31-41 | a timer looks expired exactly when its timeout and a whole period for each restart of the clock have passed, so never early |
| `Timers.CanExpireExactly` | glacier/timer.cc:6-12 | a timer can ever expire if and only if it falls due before the clock starts again |
| `Timers.RunKeepsInv` | glacier/timer.cc:19-64 | in every run a timer in the heap that still holds a connection is the one linked to it, armed last and not deleted |
| `Timers.EveryRun` | glacier/httpdata.cc:199-203 | in every run a connection is owned by something exactly until it is closed, the table has exactly the open ones, and deleted timers hold nothing |
| `Timers.ClosedOnlyWhenDue` | glacier/timer.cc:19-64 | a timer closes only the connection it is linked to, only when the timeout of its most recent arming has passed, and touches no other |
| `Timers.RefreshedSurvives` | glacier/httpdata.cc:171-192 | a connection that is not handled again stays open, in every run, until the timeout it was last armed with has passed, whatever timers it left in the heap |
| `Timers.HandledExactly` | glacier/httpdata.cc:171-203 | a healthy connection is armed anew for 300000 ms when kept alive, else for 2000 after an event and 150000 without; it is left without a timer exactly when it is disconnecting with output left, and closed in every other case |
| `Timers.HandledLetsGo` | glacier/httpdata.cc:74-80 | the timer that watched the connection is deleted and unlinked; no other timer or connection changes |
| `Timers.RegisteredExactly` | glacier/httpdata.cc:227-230 | a new connection is in the table and watched for 2000 ms |
| `Timers.UnwatchedExactly` | glacier/httpdata.cc:171-197 | a step leaves an open connection without a timer if and only if it handled it in the DISCONNECTING branch with output left, or it had none before |
| `Timers.LeftUnwatched` | glacier/httpdata.cc:193-194 | a run of three events that leaves a connection so |
| `Timers.LeftIsNeverReaped` | glacier/httpdata.cc:193-194 | such a connection is closed by no timer in any run |
| `Timers.WatchedIsNotDue` | glacier/timer.cc:55-64 | once no timer in the heap looks expired, no watched connection has outlived its timeout, restarts of the clock counted |
| `Timers.OwnedExactly` | glacier/epoll.cc:15-58 | a descriptor that nothing owns belongs to closed connections only, so a new connection under it has the table entry to itself |
| `Timers.StepKeepsInv` | glacier/timer.cc:43-64 | each step keeps the links between heap, connections and table |
| `Timers.Reactor.AddTimer` | glacier/timer.cc:48-53 | a new timer in the heap, linked to the connection |
| `Timers.Reactor.SeparateTimer` | glacier/httpdata.cc:74-80 | the linked timer lets go of the connection and is marked as deleted |
| `Timers.Reactor.NewEvent` | glacier/epoll.cc:15-32 | a timer, then the table entry |
| `Timers.Reactor.HandleConn` | glacier/httpdata.cc:171-197 | the step of the transition system the outcome of the event decides on |
| `Timers.Reactor.HandleClose` | glacier/epoll.cc:48-58 | the connection is closed and its descriptor's entry cleared |
| `Timers.Reactor.IsValid` | glacier/timer.cc:31-41 | compares with a fresh reading and marks an expired timer as deleted |
| `Timers.Reactor.HandleExpiredEvent` | glacier/timer.cc:55-64 | only deleted or expired timers leave the heap, top first, and none that is expired at the last reading is left anywhere in it |

## Left out

- Sockets, `epoll_ctl` and its failures, the limit on events per poll, `mmap`, `stat`, MIME types, the headers of a response; the names of log files, `flush`, and the text of a time: plumbing, or parameters here.
- `toLocalTime` and `fromLocalTime` call `gmtime_r` and `timegm`; the model calls the repository's own `toUtcTime` and `fromUtcTime`, as its FIXME asks. Zone abbreviations and names in `struct tm` are not part of it.
- `Date(const struct tm&)`, floating-point insertion, the formats of `Logger`, `CountDownLatch` and the choice of the next loop.
- Log buffers are values: a `unique_ptr` is the only owner of its buffer, so two of them never name the same one, and the model does not show this over again. `FixedBuffer` itself is verified on its array. `currentBuffer_` being null only inside a critical section is not shown.
- Lines of 4000000 bytes or more vanish in `FixedBuffer::append`; the accounting is about the shorter ones. What is still in the buffers when the log thread stops is accounted for, not written, as in the code.
- AsyncLogging.AsyncLogging.Stop: only the store of the flag; the notification adds nothing to a wait that may end at any time, and joining is not modelled.
- `LogFile` is created before the log thread starts rather than inside `threadFunc`; `condition_.wait_for` may return at any time.
- LogFiles.EveryRun: a full disk, where `fwrite` makes no progress and the loop does not end, is not modelled: a script of partial writes is finite.
- EventLoops.EveryRun: on the loop thread, a push and its write are one step, since nothing else of that thread comes between; `quit` issued before `loop` resets the flag, and an eventfd that is full, are not modelled.
- ThreadPools.AllReturn: from states where nobody can be stranded, by StopStrandsExactly the only ones. That the queue is empty at the end is not claimed: a worker takes one more task at most once the flag is set, and what is left is dropped.
- Accesses to plain bools from several threads are single steps: races in the sense of the C++ memory model are not modelled.
- HttpChunks.ChunksAsWhole: the stages behind the headers, and the next request of the connection, are not part of it; what of that is already in the buffer is ChunksAndMore, and how a parse goes on from other places is HttpHeaders.ResumeExactly.
- RobustIo.Serve: scripts without read errors; what an error leaves is stated by each call. The file offset, signals and the C `errno` of other calls are not modelled.
- Timers: a shared or weak pointer is an index, and the order of ties in the heap is left open. `Timer::update`, which nothing calls, and the event masks passed to epoll are not part of it. A failing `epoll_ctl` only means that no further event comes, and a hang-up or error event, which returns before `handleConn`, changes nothing here.
- ZoneFiles.ReadTimeZoneFile: running out of memory while reserving room for the transitions is not modelled.
- TimeZones.RoundTripExactly: tables that are not increasing in UTC and local time, which `std::lower_bound` may not search, are left to TimeZones.RoundTripOnAnyZone, for the halving search that is written out here.
- HttpRequests.RequestRoundTrip: for the requests the grammar can print with at least one header; without one the code never answers, as HeaderlessNeverSucceeds states.
