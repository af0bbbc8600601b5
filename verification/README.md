# InstabugLogger, modelled in Dafny

A model of the core of InstabugLogger, a small Swift logging library. Callers
log leveled text events. The library keeps them for the session and hands each
one to a destination that formats and emits it. A separate CoreData-backed
manager keeps a bounded, persisted history of log records.

The model has four parts, one module each, plus a small `Results` module
(`Option`, `Result`):

- `LoggerValue` (`logger_value.dfy`): the `Level` enum with its raw values and
  display names; message validation, which cuts a message over 1000 characters
  to its first 1000 characters plus `...`; the two initialisers of a log value.
- `LoggerDestination` (`logger_destination.dfy`): destinations, `formatLog`
  (`"[<date> - <LEVEL> - <message>]"`) and `emit`. Date rendering is a
  parameter `render: int -> string`. `FormatLog` is a function of the
  event's date, level and message, so equal events format alike by
  construction.
- `LoggerDataManager` (`logger_data_manager.dfy`): the persisted store. It is
  an abstract sequence of records `{id, creationDate, logLevel, message}` kept
  in insertion order. `saveLog` evicts the first record in date order when the
  store holds `logsLimit` (default 5000) records or more, then inserts.
  `deleteLog`, `deleteFirstLog`, `deleteAllLogs` and `fetchAllLogs` (ascending
  by date) are modelled too.
- `InstabugLogger` (`instabug_logger.dfy`): the session logger. It keeps an
  in-memory, append-only list. `log` throws `logsPerSessionExceed` when the
  list already holds more than 5000 events, so a session holds at most 5001.
  It also records the texts delivered to its destination. It does not use the
  persisted store; the two capacity policies are modelled separately.

Every operation is a pure function from state to new state, or to a
`Result`. A Swift throw or runtime trap is a `Failure`, and the caller keeps
its old state. Each operation is one atomic step. Clock readings (`Date()`)
are an integer parameter `now`. Dates are integers.

Four facts about the code shape the model:

- The session logger throws `logsPerSessionExceed` once it holds more than
  5000 events. It never calls the persisted store, which evicts instead.
- Clearing the previous session's history when a logger is constructed is
  only a TODO (`InstabugLogger.swift:40`), so nothing is cleared. The
  in-memory session list does start empty.
- The dated initialiser `init(level:message:date:)` stores its message as
  given, without validation. `InitialisersAgreeIffValidated` and
  `DatedInitialiserSkipsValidation` show the difference.
- The logger has no operation to swap its destination after construction.

Two behaviours of the code as written are made explicit:

- `saveLog` traps on `logs[0]` when it decides to evict from an empty fetch.
  That happens when `logsLimit <= 0`, and the model returns
  `Failure(IndexOutOfRange)` there. `deleteFirstLog` traps the same way on an
  empty store.
- `fetchAllLogs` catches a failing fetch and returns no records. `saveLog` then
  sees an empty store and evicts nothing, so a full store grows past its limit
  (`FailedFetchSkipsEviction`). Whether the fetch succeeds is a parameter.

## Model

| member | source | states |
|---|---|---|
| LoggerValue.RawValue | InstabugLogger/Sources/LoggerValue.swift:12-14 | verbose is persisted as 0 and error as 1 |
| LoggerValue.LevelFromRaw | InstabugLogger/Sources/LoggerValue.swift:12-14 | the enum's failable raw-value initialiser accepts exactly 0 and 1 |
| LoggerValue.RawValueRoundTrip | InstabugLogger/Sources/LoggerValue.swift:12-14 | decoding a level's raw value gives the level back, and only its own raw value decodes to it |
| LoggerValue.LevelName | InstabugLogger/Sources/LoggerValue.swift:16-23 | verbose is displayed "VERBOSE" and error "ERROR", in both directions |
| LoggerValue.LevelNameInjective | InstabugLogger/Sources/LoggerValue.swift:16-23 | two levels share a display name only if they are the same level |
| LoggerValue.ValidateMessage | InstabugLogger/Sources/LoggerValue.swift:47-56 | a message of at most 1000 characters is unchanged; a longer one becomes 1003 characters ending in "..."; the result is never longer than 1003 and keeps the first min(length, 1000) characters |
| LoggerValue.ValidateMessageFixedPoints | InstabugLogger/Sources/LoggerValue.swift:47-56 | validation leaves a message unchanged exactly when it is at most 1000 characters long or is 1000 characters followed by "..." |
| LoggerValue.ValidateMessageIdempotent | InstabugLogger/Sources/LoggerValue.swift:47-56 | validating a validated message changes nothing |
| LoggerValue.LongMessageExample | InstabugLoggerTests/LoggerValueTests.swift:50-60 | 1050 'A's become 1000 'A's followed by "...", 1003 characters in all |
| LoggerValue.NewValue | InstabugLogger/Sources/LoggerValue.swift:30-34 | the value has the given level, the clock reading as its date, and a validated message that agrees with the input on its first min(length, 1000) characters |
| LoggerValue.NewValueWithDate | InstabugLogger/Sources/LoggerValue.swift:37-41 | the value keeps the supplied date, level and message exactly, without validation |
| LoggerValue.InitialisersAgreeIffValidated | InstabugLogger/Sources/LoggerValue.swift:30-41 | the two initialisers agree on the same date exactly when the message is already validated |
| LoggerValue.DatedInitialiserSkipsValidation | InstabugLogger/Sources/LoggerValue.swift:37-41 | the dated initialiser keeps a 1001-character message whole, which breaks the validation rule |
| LoggerValue.CurrentLevelName | InstabugLogger/Sources/LoggerValue.swift:59-61 | the name is the display name of the value's own level |
| LoggerDestination.NewDestination | InstabugLogger/Sources/Destination/LoggerDestination.swift:15-29 | a new destination keeps its identification and is synchronous |
| LoggerDestination.NewConsoleDestination | InstabugLogger/Sources/Destination/ConsoleDestination.swift:12-15 | a console destination keeps its identifier and inherits the synchronous default |
| LoggerDestination.FormatLog | InstabugLogger/Sources/Destination/LoggerDestination.swift:39-44 | the text is '[', the rendered date, " - ", the level's display name, " - ", the message and ']', in that order |
| LoggerDestination.FormatLogMessageInjective | InstabugLogger/Sources/Destination/LoggerDestination.swift:43 | with date and level fixed, the message can be read back from the formatted text |
| LoggerDestination.FormatLogLevelInjective | InstabugLogger/Sources/Destination/LoggerDestination.swift:43 | with the date fixed, different levels give different texts |
| LoggerDestination.FormatErrorExample | InstabugLoggerTests/Destination/LoggerDestinationTests.swift:19-34 | "Message" at error level formats as "[<date> - ERROR - Message]" |
| LoggerDestination.Emit | InstabugLogger/Sources/Destination/LoggerDestination.swift:34-36 | emitting returns the formatted event, for the base and the console destination alike |
| LoggerDataManager.NewManager | InstabugLogger/Sources/CoreData/LoggerDataManager.swift:21-31 | a manager keeps the given limit and storage mode over the records the store already holds, and new IDs are above theirs |
| LoggerDataManager.NewDefaultManager | InstabugLogger/Sources/CoreData/LoggerDataManager.swift:21-31 | the default limit is 5000 and the store is the on-disk one, with whatever records it holds |
| LoggerDataManager.InsertByDatePermutes | InstabugLogger/Sources/CoreData/LoggerDataManager.swift:97-99 | inserting a record into the sorted sequence adds exactly that record |
| LoggerDataManager.InsertByDateSorted | InstabugLogger/Sources/CoreData/LoggerDataManager.swift:97-99 | inserting a record into a date-sorted sequence keeps it sorted |
| LoggerDataManager.SortByDate | InstabugLogger/Sources/CoreData/LoggerDataManager.swift:97-99 | the ascending creationDate sort is sorted and a permutation of the records |
| LoggerDataManager.SortedHeadIsEarliest | InstabugLogger/Sources/CoreData/LoggerDataManager.swift:35-38 | the first record of the date-sorted fetch is a record of the store with no earlier record |
| LoggerDataManager.FetchAllLogs | InstabugLogger/Sources/CoreData/LoggerDataManager.swift:96-111 | a successful fetch returns every record, sorted ascending by date; a failed fetch returns no records |
| LoggerDataManager.RemoveByIdMembers | InstabugLogger/Sources/CoreData/LoggerDataManager.swift:61-68 | removal by object ID keeps exactly the records with another ID, and shrinks the store when the ID is present |
| LoggerDataManager.RemoveByIdExactlyOne | InstabugLogger/Sources/CoreData/LoggerDataManager.swift:61-68 | with unique IDs, removing a record's ID removes that record only and keeps the rest in order |
| LoggerDataManager.RemoveByIdAbsent | InstabugLogger/Sources/CoreData/LoggerDataManager.swift:64 | removing an ID that no record has changes nothing |
| LoggerDataManager.NewEntity | InstabugLogger/Sources/CoreData/LoggerDataManager.swift:45-51 | the inserted record has a fresh ID and the log's date and message, and its level field decodes to the log's level |
| LoggerDataManager.SaveLog | InstabugLogger/Sources/CoreData/LoggerDataManager.swift:34-58 | traps exactly when it must evict from an empty fetch; otherwise the new record comes last; below the limit, or after a failed fetch, nothing is removed; at or above it, exactly the records with the earliest record's ID are removed |
| LoggerDataManager.SaveLogKeepsCapacity | InstabugLogger/Sources/CoreData/LoggerDataManager.swift:35-51 | with a working fetch and a positive limit, a store within its limit stays within it: it grows by one below the limit and stays at the limit once there, with IDs unique |
| LoggerDataManager.SaveLogThenFetch | InstabugLogger/Sources/CoreData/LoggerDataManager.swift:45-51 | the next successful fetch returns a record with the saved log's date, message and level |
| LoggerDataManager.FailedFetchSkipsEviction | InstabugLogger/Sources/CoreData/LoggerDataManager.swift:35-44 | when the fetch fails, a full store grows to one record past its limit |
| LoggerDataManager.SaveAllCount | InstabugLogger/Sources/CoreData/LoggerDataManager.swift:34-58 | any series of saves into a store within its limit succeeds and leaves min(count + saves, limit) records |
| LoggerDataManager.SaveLogEvictsOldest | InstabugLoggerTests/CoreData/LoggerDataManagerTests.swift:54-90 | a full store with strictly increasing dates loses its oldest record and gains the new one at the end, whatever the new log's date |
| LoggerDataManager.DeleteLog | InstabugLogger/Sources/CoreData/LoggerDataManager.swift:61-69 | with unique IDs, a present record is removed and the others keep their order; an absent record changes nothing |
| LoggerDataManager.DeleteFirstLog | InstabugLogger/Sources/CoreData/LoggerDataManager.swift:71-79 | traps exactly on an empty store; otherwise the store shrinks and gains nothing |
| LoggerDataManager.DeleteFirstLogRemovesEarliest | InstabugLogger/Sources/CoreData/LoggerDataManager.swift:71-79 | on a non-empty store with unique IDs, exactly one earliest record is removed and the others keep their order |
| LoggerDataManager.DeleteFirstLogOfIncreasing | InstabugLoggerTests/CoreData/LoggerDataManagerTests.swift:92-120 | with strictly increasing dates, the remaining records are exactly all but the first, in order |
| LoggerDataManager.SortByDateOfSorted | InstabugLogger/Sources/CoreData/LoggerDataManager.swift:97-99 | the date sort leaves an already sorted sequence as it is |
| LoggerDataManager.SaveLaterLogFetchOrder | InstabugLoggerTests/CoreData/LoggerDataManagerTests.swift:54-90 | after a full store of increasing dates saves a later log, the fetch returns the old records after the first, then the new one |
| LoggerDataManager.SaveLogKeepsIds | InstabugLogger/Sources/CoreData/LoggerDataManager.swift:34-58 | a save keeps record IDs unique, whether its fetch succeeds or fails |
| LoggerDataManager.DeleteLogKeepsIds | InstabugLogger/Sources/CoreData/LoggerDataManager.swift:61-69 | deleting a record keeps record IDs unique |
| LoggerDataManager.DeleteFirstLogKeepsIds | InstabugLogger/Sources/CoreData/LoggerDataManager.swift:71-79 | deleting the first record keeps record IDs unique |
| LoggerDataManager.DeleteAllLogs | InstabugLogger/Sources/CoreData/LoggerDataManager.swift:81-92 | both storage modes end with an empty store, keep the limit and the ID counter, and so keep IDs unique |
| InstabugLogger.NewLogger | InstabugLogger/Sources/InstabugLogger.swift:39-46 | a new logger has the given identifier and destination and an empty session |
| InstabugLogger.NewConsoleLogger | InstabugLogger/Sources/InstabugLogger.swift:51-54 | the convenience initialiser uses a synchronous console destination and starts empty |
| InstabugLogger.Log | InstabugLogger/Sources/InstabugLogger.swift:64-79 | throws exactly when more than 5000 events are held; otherwise appends one event at the end with the given level and clock reading and a validated message |
| InstabugLogger.Verbose | InstabugLogger/Sources/InstabugLogger.swift:87-93 | behaves exactly as log at the verbose level, including the error |
| InstabugLogger.Error | InstabugLogger/Sources/InstabugLogger.swift:101-107 | behaves exactly as log at the error level, including the error |
| InstabugLogger.LogValue | InstabugLogger/Sources/InstabugLogger.swift:149-159 | the same cap as log, but appends the given value as it is |
| InstabugLogger.FetchLogs | InstabugLogger/Sources/InstabugLogger.swift:110-112 | returns the session's events as held, in append order |
| InstabugLogger.LogAppendsInOrder | InstabugLogger/Sources/InstabugLogger.swift:70-75 | after a successful log, fetchLogs returns the earlier events followed by the new one |
| InstabugLogger.FetchLogsStrings | InstabugLogger/Sources/InstabugLogger.swift:115-121 | one text per fetched event, element i being the formatted event i |
| InstabugLogger.ApplyCap | InstabugLogger/Sources/InstabugLogger.swift:66-68 | every public or test call throws exactly when more than 5000 events are held, and otherwise appends one |
| InstabugLogger.ApplyIsAppend | InstabugLogger/Sources/InstabugLogger.swift:70-78 | a call that does not throw appends its event and delivers its formatted text |
| InstabugLogger.AppendDeliversInOrder | InstabugLogger/Sources/InstabugLogger.swift:71-78 | appending keeps delivered texts and events in step |
| InstabugLogger.RunCount | InstabugLogger/Sources/InstabugLogger.swift:17-79 | any series of calls leaves min(count + calls, 5001) events and keeps the earlier ones |
| InstabugLogger.SessionCapExample | InstabugLoggerTests/InstabugLoggerTests.swift:78-107 | 5001 calls on a new logger give 5001 events, and the next call throws |
| InstabugLogger.RunDeliversInOrder | InstabugLogger/Sources/InstabugLogger.swift:125-138 | after any series of calls, the texts delivered to the destination are the formatted events in append order |

## Left out

- Concurrency: the logger's concurrent queue with barrier writes and sync
  reads, and the destinations' serial queues with async or sync delivery.
  Each call is one atomic step. Delivery happens in the same step as the
  append. `saveLog`'s fetch outside `performAndWait`, which races with other
  writers, is not modelled either.
- The `DateFormatter` with pattern "y-MM-dd H:m:ss.SSSS" is a parameter
  `render`. `Date()` is a parameter `now`. Swift's floating-point dates are
  integers.
- CoreData: contexts, fetch requests, merge policies, batch deletes, and
  `CoreDataManager`. The store is a sequence of records. Object IDs are
  naturals that are never reused.
- `saveLog`'s `fatalError` on a failed save: saves always succeed here. The
  `try?` failures of `deleteLog` and `deleteAllLogs` are likewise taken to
  succeed.
- `deleteFirstLog`'s `try!` fetch failure: only its trap on an empty store is
  modelled.
- LoggerDataManager.FetchAllLogs: does not say in which order records of equal
  date come. CoreData does not fix that order (the model keeps insertion
  order).
- The `Int16` cast of the raw level: raw values are 0 and 1 and always fit.
- ConsoleDestination's `print`, and the `print` by which `fetchAllLogs`
  reports a failed fetch. LoggerFormat.swift, which only declares a
  protocol.
- LoggerDataManager.DeleteAllLogs: both branches are taken to empty this
  manager's store. The in-memory branch really destroys the shared
  container's store through a new coordinator, which need not be the store
  behind this manager's contexts, and a failure there is only printed.
- The `[weak self]` and nil-queue early returns: the logger and its
  destination queue always exist here.
- Swift grapheme-cluster counting: strings are sequences of characters.
- The clearing of the previous session on construction: the code does not do
  it (a TODO).
- Mismatched initialiser labels between the destination classes and their
  tests. Each initialiser takes its identifier as one argument.
