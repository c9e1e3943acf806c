# Models of the chat system and the libraries it ships

This project models, in Dafny, the behaviour of a small chat system: the server's
request handling, and the vendored libraries that the server and the client rely on.
Each module follows one source file or one component of it. Code that updates state
is modelled by classes and methods with loops; code that only computes is modelled by
functions. Methods are proved against specification functions, and lemmas state what
holds of these for all inputs and over whole runs.

| file | what it models |
|---|---|
| Common.dfy | what several modules need |
| Calendar.dfy, Weekdays.dfy, WeekNumbers.dfy | the proleptic Gregorian calendar of date.h: day numbers and civil dates, weekdays, nth and last weekdays, ISO and year-based week numbers |
| SqlCursor.dfy, StatelessCursor.dfy, CursorStream.dfy | libpqxx cursors: a server position inferred from row counts, stateless retrieval on top of it, and a stream shared by registered iterators |
| Pipeline.dfy, PipelineRuns.dfy | the libpqxx query pipeline: issued range, dummy query, batch failure and replay; whole runs of calls |
| Transaction.dfy, TransactionRuns.dfy | the libpqxx transaction life cycle: focus, pending errors, commit, abort, close; runs over the transactions of a connection |
| Encodings.dfy, EncodedText.dfy | libpqxx's glyph scanners and glyph-wise search; UTF-8 text under them |
| CopyText.dfy, ServerRows.dfy | the COPY text format written and read by libpqxx, and by the server at the other end |
| IntegerText.dfy | libpqxx conversion between integers and text, with exact overflow checks |
| Masking.dfy, FrameHeader.dfy, Utf8.dfy, Uri.dfy | websocketpp: payload masking, frame headers, the UTF-8 validator, URIs |
| CLibrary.dfy, Sql.dfy | number reading of the C and C++ libraries, and the SQL text the server writes and the backend reads |
| ChatServer.dfy, ChatRequests.dfy, ChatReplies.dfy | the chat server: tables, database methods, dispatcher, runs of requests, and what each command is answered |

The machine is 64-bit and little-endian with a 32-bit int. Integers that can wrap or
be narrowed in the source are written out as such; the others are unbounded. A `char`
of Dafny stands for one character of a string, whatever its bytes.

`dafny verify dfyconfig.toml` checks the whole project.

## Where the code differs from its documentation

The models follow the code.

- The header of the pipeline says that `flush` clears a registered error; the code
  keeps it (third-party/libpqxx-7.5.2/include/pqxx/pipeline.hxx:89-99,
  third-party/libpqxx-7.5.2/src/pipeline.cxx:106-118).
- If no query of a rejected batch fails when run alone, the pipeline's range is left with
  its end before its start (`Pipeline.Pipe.RejectBatch` states the condition both ways,
  `PipelineRuns.ReplayWithoutCulprit` is an instance).
- `cancel` does not take the results under way off the connection.
- `stateless_cursor_retrieve` with `begin == size` and an end inside the result set
  returns one row more than its documentation promises.
- A year_month_weekday in year -32768 is not `ok()` and still survives the conversion to
  days and back.
- FETCH ALL is sent for any distance of at least `all()` rows, so a result set of that
  many rows is misjudged by one.
- An `icursor_iterator` built on a stream that has read past the requested position
  never gets the rows passed.
- After `\N` in a COPY field further text is silently ignored, although a comment in
  `parse_line` expects a crash (third-party/libpqxx-7.5.2/src/stream_from.cxx:251-257).
- Parameterised statements go out on a transaction that has ended.
- `abort` with a pending error sends no ROLLBACK.
- `get_chat_id` repeats the requested name with its quotes doubled.
- A negative port in a URI wraps around instead of being refused.

## Model

| member | source | states |
|---|---|---|
| Calendar.YearOfEraIsExact | third-party/date/date.h:2917 | for every year of the 400-year era and every day in it, the division trick of `from_days` yields exactly that year |
| Calendar.WideRoundTrip | third-party/date/date.h:2791-2808 | every day number, of any size, names a date on the calendar, and converting that date gives the number back |
| Calendar.WideRoundTripBack | third-party/date/date.h:2904-2923 | every date on the calendar is given back by its own day number |
| Calendar.SuccessorAddsOne | third-party/date/date.h:2791-2808 | the next day by the leap-year and month-length rules is on the calendar and has the next day number |
| Calendar.DayByDay | third-party/date/date.h:2904-2923 | `from_days(z+1)` is the calendar successor of `from_days(z)`, and `from_days(z)` the predecessor of `from_days(z+1)` |
| Calendar.ClosedFormIsWalk | third-party/date/date.h:2904-2923 | the closed form agrees with walking from 1970-01-01 one day at a time, forwards and backwards, for every day number |
| Calendar.ToDaysIsOrderPreserving | third-party/date/date.h:2791-2808 | day numbers order dates on the calendar exactly as year, month and day do |
| Calendar.DayRoundTrip | third-party/date/date.h:2825-2832 | with the year narrowed to 16 bits, a day number gives an `ok()` date that converts back to it if and only if it lies between the first and the last representable day |
| Calendar.DateRoundTrip | third-party/date/date.h:2791-2832 | every `ok()` date has a day number in that range, and it returns the date |
| Calendar.NextDay | third-party/date/date.h:2904-2923 | inside the range the next day number is the next calendar day, 16-bit years included |
| Weekdays.WeekdayIsDayModSeven | third-party/date/date.h:1777-1784 | for every 32-bit day number the weekday is (z+4) mod 7, the unsigned wrap notwithstanding |
| Weekdays.WeekdayDiffIsModular | third-party/date/date.h:1859-1867 | the difference of two weekdays is their difference modulo 7, in 0..6 |
| Weekdays.RoundTripIsInsideMonth | third-party/date/date.h:3094-3112 | over every value the fields can store, 7 for Sunday included, converting a year_month_weekday to days and back returns an equal one if and only if its month and weekday are real and its index stays inside the month |
| Weekdays.NthOkIffRoundTrip | third-party/date/date.h:3079-3112 | over every value the fields can store, a year_month_weekday is `ok()` if and only if converting it to days and back returns an equal one and its year is not -32768 |
| Weekdays.LeastYearRoundTrips | third-party/date/date.h:1674-1677 | in year -32768, the one short that is not `ok()`, the first four of every weekday are returned by the conversion although they are not `ok()` |
| Weekdays.DayHasNthWeekday | third-party/date/date.h:3094-3112 | every representable day has an `ok()` nth-weekday name that converts back to the day |
| Weekdays.LastWeekdayIsGreatest | third-party/date/date.h:3282-3289 | the last-weekday conversion gives a day of that month with that weekday, and no later day of the month has it |
| WeekNumbers.IsoStartIsMondayOfFirstThursday | third-party/date/date.h:5156-5157 | the start of ISO week 1 is the Monday of the week of the year's first Thursday |
| WeekNumbers.IsoYearByGuess | third-party/date/date.h:5154-5159 | guessing the year of z+3 and stepping back before the start of week 1 gives the year of the Thursday of z's week |
| WeekNumbers.IsoWeekByStart | third-party/date/date.h:5613-5630 | counting weeks from the start of week 1 gives the number of the week's Thursday in its year |
| WeekNumbers.PrintIsoYear | third-party/date/date.h:5148-5170 | `%G` prints the ISO year of section 4.1.4 of ISO 8601:2004 and fails the stream exactly on invalid dates |
| WeekNumbers.PrintIsoWeek | third-party/date/date.h:5604-5640 | `%V` prints the ISO week, always between 1 and 53, and fails the stream exactly on invalid dates |
| WeekNumbers.IsoWeekRoundTrip | third-party/date/date.h:7511-7532 | the parser's formula rebuilds every day from its printed ISO year, week and weekday |
| WeekNumbers.IsoWeekDateRoundTrip | third-party/date/date.h:7511-7532 | a parsed ISO week date names a day that prints as the same year, week and weekday if and only if the year has that week: week 53 needs a year that starts on a Thursday, or on a Wednesday and is leap |
| WeekNumbers.CountByWeeks | third-party/date/date.h:5569-5583 | dividing by seven counts the Sundays (or Mondays) of the year up to the day, so week 0 is the part before the first one |
| WeekNumbers.PrintYearWeek | third-party/date/date.h:5559-5600 | `%U` and `%W` print that count, at most 53, and the parser's formula gives the day back |
| WeekNumbers.YearWeekRoundTrip | third-party/date/date.h:7533-7566 | the parser's formula rebuilds every day from its year, `%U` or `%W` week (0 included) and weekday |
| SqlCursor.AdjustTracks | third-party/libpqxx-7.5.2/src/sql_cursor.cxx:168-221 | one move leaves the client's position, end flags and displacement true of the server, and raises no internal error, if and only if the server does not pass as many rows as an ALL distance stands for |
| SqlCursor.AllRowsCountedAsReached | third-party/libpqxx-7.5.2/src/sql_cursor.cxx:168-221 | the least table for which it fails: FETCH ALL over `all()` rows counts the rows as merely reached, and the position is off by one |
| SqlCursor.AdjustUnknown | third-party/libpqxx-7.5.2/src/sql_cursor.cxx:168-221 | on an adopted cursor one move raises no internal error and leaves every claim true if and only if the server does not pass more rows than an ALL distance stands for; the position becomes known exactly when the cursor falls back to the start, and the condition for a true displacement is exact, too |
| SqlCursor.TrueRunIff | third-party/libpqxx-7.5.2/src/sql_cursor.cxx:168-255 | for tables of any size, owned and adopted cursors and every run of fetches and moves: the bookkeeping is true and free of errors after every step if and only if no step passes as many rows as an ALL distance stands for (more, while the position is unknown) |
| SqlCursor.SmallTablesFit | third-party/libpqxx-7.5.2/src/sql_cursor.cxx:257-272 | on tables with fewer rows than `all()` that is so in every run |
| SqlCursor.OwnedRun | third-party/libpqxx-7.5.2/src/sql_cursor.cxx:168-255 | in every such run on an owned cursor `m_pos` is the server's position at the end, `m_at_end` is -1 exactly at 0 and +1 exactly at N+1, a known `m_endpos` is N+1, and the displacements add up to the true one, without an internal error |
| SqlCursor.AdoptedRun | third-party/libpqxx-7.5.2/src/sql_cursor.cxx:168-255 | in every such run on an adopted cursor the position is unknown or true, without an internal error |
| SqlCursor.Cursor.Adjust | third-party/libpqxx-7.5.2/src/sql_cursor.cxx:168-221 | the in-place updates of the three fields, errors included, are the transition the lemmas above are about |
| SqlCursor.Cursor.Fetch | third-party/libpqxx-7.5.2/src/sql_cursor.cxx:223-237 | FETCH returns exactly the rows between the old and the new server position, in the order passed, and keeps the bookkeeping true |
| SqlCursor.Cursor.Move | third-party/libpqxx-7.5.2/src/sql_cursor.cxx:239-255 | MOVE reports how many rows were passed and keeps the bookkeeping true; ALL makes the end known, BACKWARD ALL the position |
| StatelessCursor.PromiseKept | third-party/libpqxx-7.5.2/include/pqxx/cursor.hxx:188-204 | what is delivered is what the interface promises if and only if the request does not go backwards from one past the last row to an end inside the result set |
| StatelessCursor.PromisedRows | third-party/libpqxx-7.5.2/include/pqxx/cursor.hxx:188-204 | the promised rows are begin, begin+1, ..., end-1 or begin, begin-1, ..., end+1, after clamping end to [-1, size] |
| StatelessCursor.ObtainSize | third-party/libpqxx-7.5.2/src/cursor.cxx:46-52 | the size is the number of rows whenever the position is known, and -2 where it is not; a known position stays known |
| StatelessCursor.RetrieveRows | third-party/libpqxx-7.5.2/src/cursor.cxx:55-73 | wherever earlier calls left the cursor, the rows returned depend on begin and end alone, and a begin outside 0..size is refused |
| StatelessCursor.StatelessCursorObject.Adopt | third-party/libpqxx-7.5.2/include/pqxx/cursor.hxx:168-174 | an adopted cursor has a known position once it is constructed, wherever it stood |
| StatelessCursor.StatelessCursorObject.Retrieve | third-party/libpqxx-7.5.2/include/pqxx/cursor.hxx:200-204 | the same for the public member, over any sequence of calls |
| CursorStream.Interleave | third-party/libpqxx-7.5.2/src/cursor.cxx:120-332 | for every table and stride and every sequence of builds (before the first read), advances, increments, copies, assignments, destructions, refreshes and comparisons with the end, on any number of iterators: what is seen is fixed by each iterator's own position. Every refresh shows exactly rows [pos, min(pos+stride, N)), whatever was read or skipped for the others |
| CursorStream.Act | third-party/libpqxx-7.5.2/src/cursor.cxx:209-332 | each single action moves the iterators as the position arithmetic says, leaves all others where they are, and keeps the stream valid |
| CursorStream.ReadingLoopShowsRows | third-party/libpqxx-7.5.2/src/cursor.cxx:246-260 | a loop that refreshes and advances by one shows, after k rounds, the first k strides of the rows, each row once and in order |
| CursorStream.Stream.FetchBlock | third-party/libpqxx-7.5.2/src/cursor.cxx:120-128 | a read returns the rows from `m_realpos` on, at most stride of them, and advances by as many |
| CursorStream.Stream.Ignore | third-party/libpqxx-7.5.2/src/cursor.cxx:130-138 | skipping advances to the requested row or the end and marks the stream done exactly past the end |
| CursorStream.Stream.InsertIterator | third-party/libpqxx-7.5.2/src/cursor.cxx:147-155 | the doubly linked list stays one, with the new iterator in front |
| CursorStream.Stream.RemoveIterator | third-party/libpqxx-7.5.2/src/cursor.cxx:158-178 | the doubly linked list stays one, without that iterator and with the others in order, their rows and positions untouched |
| CursorStream.Stream.CollectIterators | third-party/libpqxx-7.5.2/src/cursor.cxx:181-190 | the to-do list holds exactly the iterators due, in order of position |
| CursorStream.Stream.StillServed | third-party/libpqxx-7.5.2/src/cursor.cxx:191-206 | handing out one block passes nobody by: every iterator behind the new read position holds its own block |
| CursorStream.Stream.StillRemaining | third-party/libpqxx-7.5.2/src/cursor.cxx:191-206 | what is left of the to-do list still covers every iterator whose rows are ahead |
| CursorStream.Stream.ServeNext | third-party/libpqxx-7.5.2/src/cursor.cxx:191-206 | one round of the loop keeps the stream positioned and every registered iterator served, and shortens the list |
| CursorStream.Stream.ServiceIterators | third-party/libpqxx-7.5.2/src/cursor.cxx:181-206 | afterwards every iterator up to topos holds exactly rows [pos, min(pos+stride, N)), and every other registered iterator still holds its own block or nothing |
| CursorStream.Iterator.OnStream | third-party/libpqxx-7.5.2/src/cursor.cxx:212-219 | a new iterator keeps the stream's invariant if and only if the stream has not yet read past the requested position; the others keep rows and position |
| CursorStream.Iterator.Copy | third-party/libpqxx-7.5.2/src/cursor.cxx:222-229 | a copy shares position and rows and keeps the invariant |
| CursorStream.Iterator.Advance | third-party/libpqxx-7.5.2/src/cursor.cxx:250-272 | advancing moves to the stream's requested position plus n strides, drops the rows held, refuses negative distances, and keeps the invariant |
| CursorStream.Iterator.PostIncrement | third-party/libpqxx-7.5.2/src/cursor.cxx:239-247 | the copy handed back keeps the old position and rows, the others keep theirs, and the invariant holds |
| CursorStream.Iterator.Assign | third-party/libpqxx-7.5.2/src/cursor.cxx:275-296 | assignment within a stream or between streams takes over position and rows, registers with the right stream only, leaves all other iterators of both streams as they are, and keeps both invariants |
| CursorStream.Iterator.Refresh | third-party/libpqxx-7.5.2/src/cursor.cxx:321-326 | after a refresh the iterator holds exactly its own block, whatever the others did before; positions, registration, stride and requested position are untouched |
| CursorStream.Iterator.EqualsEnd | third-party/libpqxx-7.5.2/src/cursor.cxx:299-308 | comparison with the end marker is true exactly when the iterator's position is at or past the last row, and changes no position or registration |
| CursorStream.Iterator.Destroy | third-party/libpqxx-7.5.2/src/cursor.cxx:232-236 | exactly the destroyed iterator leaves the list, the others keep rows and position, and the stream stays valid |
| Pipeline.Pipe.WaitingIsCounted | third-party/libpqxx-7.5.2/src/pipeline.cxx:67-90 | while there is no error, in every reachable state issued.first <= issued.second and `m_num_waiting` is the number of queries from issued.second on |
| Pipeline.Pipe.ObtainResult | third-party/libpqxx-7.5.2/src/pipeline.cxx:229-261 | results go to the pending queries in order, and what is stored is the very result that came off the connection, failures included; neither of the two internal errors about surplus results can occur; running dry sets the error at the first unanswered query |
| Pipeline.Pipe.Replay | third-party/libpqxx-7.5.2/src/pipeline.cxx:311-337 | if a query of the batch fails alone, every query before the first such gets what the server answered when it was run alone, that one keeps the failure, and the error starts right behind it; otherwise all get their own. No query is run that had an answer |
| Pipeline.Pipe.RejectBatch | third-party/libpqxx-7.5.2/src/pipeline.cxx:287-346 | a rejected batch leaves a consistent pipeline if and only if some query of it fails when run alone. Then the first such yields the failure, all before it have their own results, and all behind it are refused; otherwise the issued range ends back to front |
| Pipeline.Pipe.ObtainDummy | third-party/libpqxx-7.5.2/src/pipeline.cxx:264-346 | the dummy's result is always there and taken off first; unless it is a rejection of a batch in which no query fails alone, the pipeline stays consistent; of a rejected batch the first query that fails alone yields the failure, earlier ones keep their own results and all later ones are refused |
| Pipeline.Pipe.Issue | third-party/libpqxx-7.5.2/src/pipeline.cxx:189-218 | everything that waits goes out as one batch in order, or nothing if an error turned up on the way |
| Pipeline.Pipe.Receive | third-party/libpqxx-7.5.2/src/pipeline.cxx:427-439 | afterwards every pending query before the stop has its result unless an error put it out of reach |
| Pipeline.Pipe.Insert | third-party/libpqxx-7.5.2/src/pipeline.cxx:67-90 | a new query gets the next id; it only waits while no more than the retention capacity wait, and otherwise something is under way; finished queries stay finished with their results; a registered error stays and covers the new query, and a new one starts behind all finished queries |
| Pipeline.Pipe.Retrieve | third-party/libpqxx-7.5.2/src/pipeline.cxx:349-400 | from every reachable state: an unknown query is reported, a query is refused exactly when it is at or behind the error, otherwise it is removed and yields exactly what the server answered to it, by the record kept on the server's side: rows as they were answered, as a result, and a failure as a failure. The failure is its own, or, if it failed alone in a replay, that of its batch, and then everything behind it is refused. Finished queries stay finished with their results, so they can be retrieved in any order, and no answer is ever given twice or changed |
| Pipeline.Pipe.RetrieveOldest | third-party/libpqxx-7.5.2/src/pipeline.cxx:143-149 | the query retrieved is the one with the least id, with all that is promised of retrieving it, the server's recorded answer included; an empty pipeline is reported |
| Pipeline.Pipe.Drain | third-party/libpqxx-7.5.2/include/pqxx/pipeline.hxx:80-88 | retrieving until the pipeline is empty or refuses: exactly the queries before the error come out, in the order of submission and each with exactly the answer the server is on record with; only the last can instead carry the failure of its batch, if it failed when run alone, and exactly the queries behind it are left |
| Pipeline.Pipe.constructor | third-party/libpqxx-7.5.2/src/pipeline.cxx:33-38 | a new pipeline is consistent, holds no queries, has given out no ids and knows no error |
| PipelineRuns.ReplayWithoutCulprit | third-party/libpqxx-7.5.2/src/pipeline.cxx:264-346 | two queries in a batch that is rejected although each succeeds alone: afterwards issued.first is past the end and issued.second at the first query |
| PipelineRuns.Perform | third-party/libpqxx-7.5.2/src/pipeline.cxx:67-400 | each call is answered as its kind and the queries in the pipeline allow; the range never moves back, and a new error starts behind all queries dealt with |
| PipelineRuns.Session | third-party/libpqxx-7.5.2/src/pipeline.cxx:67-439 | in every run of calls from construction on: ids count the insertions; a query is known exactly from its insertion until it is retrieved or flushed; each result handed out is what the server is on record to have answered to that query, or the failure of its batch if it failed when run alone, and is handed out once; one error separates all queries ever answered from all ever refused; and without an error issued.first <= issued.second and `m_num_waiting` is the number of queries from issued.second on |
| Pipeline.Pipe.IsFinished | third-party/libpqxx-7.5.2/src/pipeline.cxx:133-140 | a query counts as finished exactly when its own result is there and it is not refused |
| Pipeline.Pipe.Complete | third-party/libpqxx-7.5.2/src/pipeline.cxx:93-103 | nothing is pending any more; every query before the error has the server's answer to it, except that the one right before the error may hold the failure of its batch; ids, capacity and finished results are kept |
| Pipeline.Pipe.Flush | third-party/libpqxx-7.5.2/src/pipeline.cxx:106-118 | all queries are forgotten and nothing is pending; a registered error is kept, although the header says that it is cleared |
| Pipeline.Pipe.Cancel | third-party/libpqxx-7.5.2/src/pipeline.cxx:121-130 | exactly the pending queries are dropped; the pipeline stays consistent if and only if no results for them were under way |
| Pipeline.Pipe.Resume | third-party/libpqxx-7.5.2/src/pipeline.cxx:168-177 | without an error nothing waits any more unless something is still under way; finished results survive |
| Pipeline.Pipe.Retain | third-party/libpqxx-7.5.2/src/pipeline.cxx:152-165 | a negative capacity is refused and changes nothing; otherwise the old one is returned, and fewer queries than the new one wait unless something is under way |
| Transaction.TransactionBase.constructor | third-party/libpqxx-7.5.2/src/transaction_base.cxx:86-91 | a transaction becomes its connection's current one exactly if there is none; it has started exactly if the server then answered BEGIN with success, and otherwise gives the connection up again |
| Transaction.TransactionBase.CheckPendingError | third-party/libpqxx-7.5.2/src/transaction_base.cxx:501-509 | a waiting error is thrown once and then gone |
| Transaction.TransactionBase.RegisterFocus | third-party/libpqxx-7.5.2/src/transaction_base.cxx:411-417 | at most one focus is held: a second one is refused and the first stays |
| Transaction.TransactionBase.Exec | third-party/libpqxx-7.5.2/src/transaction_base.cxx:245-270 | a query goes out exactly when no error waits, no focus is open and the transaction is active, and it is reported as done exactly if the server answered so; in any case the focus is as before |
| Transaction.TransactionBase.ExecParams | third-party/libpqxx-7.5.2/src/transaction_base.cxx:323-330 | parameterised statements respect the focus only: they go out even after the transaction has ended, and are reported as done exactly if the server answered so |
| Transaction.TransactionBase.DoCommit | third-party/libpqxx-7.5.2/src/transaction.cxx:56-103 | one COMMIT goes out, and by the server's answer to it: success exactly if it was done; doubt exactly if its completion is unknown or it failed and the connection is gone; an SQL error exactly if it failed on an open connection |
| Transaction.TransactionBase.Commit | third-party/libpqxx-7.5.2/src/transaction_base.cxx:94-162 | a commit is refused and the status kept while an error waits, a focus is open or the connection is down; otherwise exactly one COMMIT goes out: the transaction is committed exactly if the server answered that it is done, in doubt exactly if completion is unknown or it failed and the connection is gone, and otherwise aborted with the server's error; COMMIT and ROLLBACK together stay at one at most. The connection's current transaction changes only by this one giving it up |
| Transaction.TransactionBase.Abort | third-party/libpqxx-7.5.2/src/transaction_base.cxx:172-209 | an active transaction ends aborted and leaves its connection free, whatever fails on the way; ROLLBACK goes out unless an error was waiting, which is then dropped in its place; another transaction's registration is untouched; the recursion with `close` ends |
| Transaction.TransactionBase.Close | third-party/libpqxx-7.5.2/src/transaction_base.cxx:345-392 | afterwards the transaction is not active, not registered and has no error waiting; the connection is free if it was held by this one, and untouched otherwise; one ROLLBACK goes out exactly if it was active |
| TransactionRuns.Act | third-party/libpqxx-7.5.2/src/transaction_base.cxx:86-459 | each single call on one of several transactions of a connection keeps all of them in order, and the order of what each has sent unless it is a parameterised statement that comes late |
| TransactionRuns.Session | third-party/libpqxx-7.5.2/src/connection.cxx:705-726 | whatever is called on any number of transactions of one connection, in whatever order: the connection's current transaction is the one flagged registered and there is at most one, only that one can be active; each has sent at most one COMMIT or ROLLBACK, which is the last thing it sends, as a BEGIN the server accepted is the first, unless a parameterised statement came after its end; and it is held to be committed exactly if the server has confirmed its COMMIT, and in doubt only if that was unclear or refused on a lost connection |
| CopyText.StreamFrom.ParseLine | third-party/libpqxx-7.5.2/src/stream_from.cxx:171-309 | the in-place loop delivers, as views into a buffer of line_size+1 cells, exactly the fields of the pure split-and-unescape of the line, and fails exactly where that is undefined; the write index never passes the read index |
| CopyText.StreamFrom.UnescapeGlyph | third-party/libpqxx-7.5.2/src/stream_from.cxx:216-294 | one round of the loop consumes one token, a glyph of several bytes whole, writes at most as many bytes as it reads, and keeps the fields already delivered intact |
| CopyText.StreamTo.EscapeFieldToBuffer | third-party/libpqxx-7.5.2/src/stream_to.cxx:101-131 | the loop appends the escaped field and a tab |
| CopyText.StreamTo.WriteBuffer | third-party/libpqxx-7.5.2/src/stream_to.cxx:54-65 | the line sent is the buffer without its last tab, and the buffer is empty afterwards |
| CopyText.WriteRow | third-party/libpqxx-7.5.2/include/pqxx/stream_to.hxx:207-211 | a row written field by field goes out as exactly the line of its fields |
| CopyText.LineShape | third-party/libpqxx-7.5.2/src/stream_to.cxx:54-131 | for all bytes in the fields the line has no raw newline, no byte above ASCII, and exactly fields-1 tabs |
| CopyText.CopyRoundTrip | third-party/libpqxx-7.5.2/src/stream_from.cxx:171-309 | in every encoding a written row is read back unchanged if and only if it has a field and every character is printable ASCII or one of \b \f \n \r \t \v; every nonempty row is read back with other characters as the three digits of their octal escape |
| CopyText.WriteAndRead | third-party/libpqxx-7.5.2/src/stream_from.cxx:171-309 | a row written by the one loop and parsed by the other is shown field by field as its characters reread, so a nonempty row of plain fields comes back as it is; it is refused exactly if its line is too long for the reader |
| ServerRows.SentRowIsRead | third-party/libpqxx-7.5.2/src/stream_from.cxx:216-305 | in every encoding, every row of nulls and texts made of the encoding's glyphs, printed as the server prints it (the seven escapes, every other glyph raw, nulls as backslash and N, tabs between fields), is read as exactly those fields |
| ServerRows.ReadSentRow | third-party/libpqxx-7.5.2/src/stream_from.cxx:171-309 | and the in-place loop shows exactly those fields, unless the line is too long for it |
| ServerRows.BadLineIsRefused | third-party/libpqxx-7.5.2/src/stream_from.cxx:243-257 | in every encoding, a line is refused if after a good beginning it stops at a backslash, goes on with bytes that are no glyph, or has a null mark behind a text or another null |
| ServerRows.AcceptedRowIsSent | third-party/libpqxx-7.5.2/src/stream_from.cxx:216-294 | every row of nulls and texts that the encoding's scanner accepts is such a row |
| ServerRows.UnicodeRowIsRead | third-party/libpqxx-7.5.2/src/stream_from.cxx:289-293 | in particular every row of Unicode texts, in UTF-8, comes through character by character |
| ServerRows.WrittenRowArrives | third-party/libpqxx-7.5.2/src/stream_to.cxx:101-131 | from the line of every nonempty row, whatever its bytes, a server that undoes letter and octal escapes reads exactly the bytes written |
| Encodings.Scan | third-party/libpqxx-7.5.2/src/encodings.cxx:166-562 | every scanner advances by one to four bytes, stays in the buffer, and steps only over bytes that cannot be mistaken for low ASCII; which steps it takes is stated by `ScanIsExact` |
| Encodings.ScanIsExact | third-party/libpqxx-7.5.2/src/encodings.cxx:76-562 | in every encoding and any surroundings, the scanner steps from start to end if and only if the bytes between are one glyph by the rows and columns of the character set |
| Encodings.RefusedIffNoGlyph | third-party/libpqxx-7.5.2/src/encodings.cxx:76-562 | it refuses a position if and only if no glyph stands there |
| Encodings.AcceptsExactly | third-party/libpqxx-7.5.2/src/encodings.cxx:166-562 | the texts accepted are exactly the sequences of glyphs |
| Encodings.BoundariesAreCuts | third-party/libpqxx-7.5.2/src/encodings.cxx:166-562 | scanning a sequence of glyphs stops exactly between them |
| EncodedText.EncodedIsStepped | third-party/libpqxx-7.5.2/src/encodings.cxx:512-562 | the UTF-8 encoding of every Unicode scalar value, in any surroundings, is stepped over exactly as one glyph |
| EncodedText.EncodedIsAccepted | third-party/libpqxx-7.5.2/src/encodings.cxx:512-562 | every encoded text is accepted, and the scan stops exactly between its characters |
| EncodedText.TextSearchIsByteSearch | third-party/libpqxx-7.5.2/src/encodings.cxx:694-710 | for every text and every nonempty needle in UTF-8, the search by glyphs never meets a bad glyph and answers exactly as a search by bytes |
| Encodings.LowByteStartsGlyph | third-party/libpqxx-7.5.2/src/encodings.cxx:76-156 | in accepted text every byte below the encoding's trail bytes starts a glyph |
| Encodings.StringFinder | third-party/libpqxx-7.5.2/src/encodings.cxx:694-710 | the result is the least glyph boundary where the needle's bytes stand, or there is none, or a glyph before any match is malformed |
| Encodings.CharFinder | third-party/libpqxx-7.5.2/src/encodings.cxx:676-690 | the same for a single byte |
| Encodings.GlyphSearchIsByteSearch | third-party/libpqxx-7.5.2/src/encodings.cxx:676-710 | in accepted text a needle that starts below the trail bytes is found exactly where a search that knows nothing of glyphs finds it |
| Encodings.AsciiSearchIsByteSearch | third-party/libpqxx-7.5.2/src/encodings.cxx:676-710 | this holds for all nonempty ASCII needles if and only if the encoding keeps ASCII out of its longer glyphs: UTF8, EUC and single-byte ones do, BIG5, GBK, SJIS and UHC do not |
| Encodings.QueryEndIsUnique | third-party/libpqxx-7.5.2/src/sql_cursor.cxx:56-85 | there is only one end a query can have, so any two scans that reach an end agree |
| Encodings.TrailIsCut | third-party/libpqxx-7.5.2/src/sql_cursor.cxx:30-33 | however many semicolons and characters of white space follow a query, its end is before them |
| Encodings.FindQueryEnd | third-party/libpqxx-7.5.2/src/sql_cursor.cxx:56-85 | the backward scan over single-byte text and the forward scan by glyphs both find that end; only the forward one fails, exactly on text its scanner rejects |
| IntegerText.DigitsValueOfDigits | third-party/libpqxx-7.5.2/src/strconv.cxx:62-73 | the digits written for a number denote it |
| IntegerText.NonnegToBuf | third-party/libpqxx-7.5.2/src/strconv.cxx:62-73 | the loop writes exactly the number's digits and a zero at the end of the buffer and touches nothing else |
| IntegerText.NegToBuf | third-party/libpqxx-7.5.2/src/strconv.cxx:77-82 | the same with a minus sign in front |
| IntegerText.BottomToBuf | third-party/libpqxx-7.5.2/src/strconv.cxx:88-115 | the least value, which has no positive counterpart in its type, is written right too |
| IntegerText.TextFits | third-party/libpqxx-7.5.2/src/strconv.cxx:149-173 | every value of every type fits the buffer size the type asks for |
| IntegerText.ToBuf | third-party/libpqxx-7.5.2/src/strconv.cxx:149-173 | the text of the value ends at the end of the buffer; it is refused exactly when the buffer is smaller than the type may need |
| IntegerText.SafeMultiplyByTen | third-party/libpqxx-7.5.2/src/strconv.cxx:320-337 | the product is refused exactly when it leaves the type |
| IntegerText.SafeAddDigit | third-party/libpqxx-7.5.2/src/strconv.cxx:340-348 | the sum is refused exactly when it leaves the type |
| IntegerText.SafeSubDigit | third-party/libpqxx-7.5.2/src/strconv.cxx:351-359 | the difference is refused exactly when it leaves the type |
| IntegerText.AbsorbPositive | third-party/libpqxx-7.5.2/src/strconv.cxx:362-367 | a further digit is refused exactly when the longer number leaves the type |
| IntegerText.AbsorbNegative | third-party/libpqxx-7.5.2/src/strconv.cxx:370-375 | the same below zero |
| IntegerText.FromString | third-party/libpqxx-7.5.2/src/strconv.cxx:384-448 | on every text the result is the value of [blanks][-]digits if it fits the type, and an error otherwise, with no overflow on the way |
| IntegerText.TextRoundTrip | third-party/libpqxx-7.5.2/src/strconv.cxx:390-420 | the text of every value of every type is read back as that value, behind any number of spaces and tabs |
| Masking.PrepareIsPrepared | third-party/websocketpp-0.8.2/websocketpp/frame.hpp:595-604 | a prepared key holds key octet j mod 4 in its byte j |
| Masking.CircShiftAdvances | third-party/websocketpp-0.8.2/websocketpp/frame.hpp:612-623 | the circular shift turns a key prepared for a payload position into the key prepared for any position up to seven bytes on |
| Masking.ByteMask | third-party/websocketpp-0.8.2/websocketpp/frame.hpp:644-655 | octet i becomes its exclusive or with key octet (offset+i) mod 4 (section 5.3 of RFC 6455), over separate buffers or in place |
| Masking.WordMaskExact | third-party/websocketpp-0.8.2/websocketpp/frame.hpp:702-717 | masking word by word with a byte tail equals byte masking of the whole payload |
| Masking.WordMaskCirc | third-party/websocketpp-0.8.2/websocketpp/frame.hpp:768-789 | words and tail are masked with the prepared key, and the key handed back is shifted by the length |
| Masking.ByteMaskCirc | third-party/websocketpp-0.8.2/websocketpp/frame.hpp:830-841 | byte masking with a prepared key does the same as the word-wise routine, key handed back included |
| Masking.ChunkIsMasked | third-party/websocketpp-0.8.2/websocketpp/frame.hpp:768-789 | with a key prepared for its position a chunk is masked as the standard says, and the key handed back is prepared for the next chunk |
| Masking.StreamedMask | third-party/websocketpp-0.8.2/websocketpp/frame.hpp:768-789 | for every payload, key and split into chunks, masking chunk by chunk equals masking the whole |
| Masking.ZerosShowKey | third-party/websocketpp-0.8.2/websocketpp/frame.hpp:644-655 | masking four zeros shows the four bytes of the key in their order |
| Masking.MaskTwice | third-party/websocketpp-0.8.2/websocketpp/frame.hpp:644-655 | masking twice restores the payload |
| FrameHeader.BasicHeader | third-party/websocketpp-0.8.2/websocketpp/frame.hpp:194-228 | a constructed basic header has the flags, the four opcode bits and the length code asked for |
| FrameHeader.SizeRoundTrip | third-party/websocketpp-0.8.2/websocketpp/frame.hpp:240-274 | every 64-bit payload size is read back from a constructed header, whichever of the three forms it took |
| FrameHeader.KeyRoundTrip | third-party/websocketpp-0.8.2/websocketpp/frame.hpp:516-528 | the masking key is read back behind the size, and is zero if the mask flag is off |
| FrameHeader.GettersAgree | third-party/websocketpp-0.8.2/websocketpp/frame.hpp:393-585 | on every header, constructed or not, the getters read what section 5.2 of RFC 6455 says stands on the wire, and the payload starts where `get_header_len` says |
| FrameHeader.HeaderRoundTrip | third-party/websocketpp-0.8.2/websocketpp/frame.hpp:194-274 | a constructed header, serialized, stands for exactly the flags, opcode, size and key it was made from |
| FrameHeader.HeaderIsShortest | third-party/websocketpp-0.8.2/websocketpp/frame.hpp:445-478 | no frame with the same size and mask flag has a shorter header than the constructed one |
| Utf8.FeedInChunks | third-party/websocketpp-0.8.2/websocketpp/utf8_validator.hpp:104-126 | feeding text in chunks ends in the same state as feeding it at once |
| Utf8.RejectAbsorbs | third-party/websocketpp-0.8.2/websocketpp/utf8_validator.hpp:45-78 | no byte leads out of the reject state |
| Utf8.EncodeIsAccepted | third-party/websocketpp-0.8.2/websocketpp/utf8_validator.hpp:45-78 | the encoding of every character leads from accept to accept, and the code point held there is that character |
| Utf8.AcceptedIsEncoded | third-party/websocketpp-0.8.2/websocketpp/utf8_validator.hpp:45-78 | whatever ends in accept is the concatenation of the encodings of the code points seen at the accept states |
| Utf8.AcceptedExactly | third-party/websocketpp-0.8.2/websocketpp/utf8_validator.hpp:143-149 | text is accepted if and only if it is a concatenation of well-formed sequences of section 4 of RFC 3629: no overlong form, no surrogate, nothing above U+10FFFF |
| Utf8.Validator.Decode | third-party/websocketpp-0.8.2/websocketpp/utf8_validator.hpp:104-118 | the loop is the automaton over the bytes given, stopping at the first rejection |
| Utf8.Validate | third-party/websocketpp-0.8.2/websocketpp/utf8_validator.hpp:143-149 | `validate` is true exactly on well-formed UTF-8 |
| Uri.PortRoundTrip | third-party/websocketpp-0.8.2/websocketpp/uri.hpp:321-341 | a printed port from 1 to 65535 is read back |
| Uri.ParseBracketedHost | third-party/websocketpp-0.8.2/websocketpp/uri.hpp:86-121 | the loop finds the first closing bracket and accepts only an end, a slash or a colon after it |
| Uri.ParsePlainHost | third-party/websocketpp-0.8.2/websocketpp/uri.hpp:122-143 | the loop takes the host up to the first colon or slash, and nothing is refused |
| Uri.Parse | third-party/websocketpp-0.8.2/websocketpp/uri.hpp:51-168 | the state machine over one iterator accepts exactly the strings the grammar function accepts, with the same parts |
| Uri.AcceptedIsWellFormed | third-party/websocketpp-0.8.2/websocketpp/uri.hpp:51-168 | an accepted string has a known scheme with its secure flag, a port from 1 to 65535 and a resource that starts with a slash; without brackets its host has no colon, slash or leading bracket |
| Uri.UriRoundTrip | third-party/websocketpp-0.8.2/websocketpp/uri.hpp:274-285 | a URI of known scheme, port from 1 to 65535 and resource starting with a slash parses back from its `str()` if and only if its host has no colon or slash and no leading bracket |
| Uri.NormalForm | third-party/websocketpp-0.8.2/websocketpp/uri.hpp:274-285 | for every accepted string, parsing `str()` of the result gives the same result if and only if the host was not bracketed or its brackets held a plain host |
| Uri.BracketedHostIsRead | third-party/websocketpp-0.8.2/websocketpp/uri.hpp:86-121 | a host in brackets is read without them, if it holds no closing bracket |
| Uri.PortsByScheme | third-party/websocketpp-0.8.2/websocketpp/uri.hpp:321-328 | without a port, wss and https mean 443, ws and http 80 |
| Uri.NegativePort | third-party/websocketpp-0.8.2/websocketpp/uri.hpp:321-341 | a negative port is not refused but wraps around in 32 bits |
| Sql.ConstantRoundTrip | server/server.cpp:86-95 | reading back a quoted constant undoes the doubling of quotes, for every text |
| Sql.QuotedIsRead | server/server.cpp:86-98 | a quoted value reaches the backend unchanged if and only if it holds no zero byte; with one, the statement is cut inside the constant and fails |
| ChatServer.Database.AddMessage | server/server.cpp:86-106 | through the SQL text, a message is stored word for word exactly if chat and sender exist and it holds no zero byte; otherwise nothing changes and the reply is FAIL |
| ChatServer.Database.AddChat | server/server.cpp:108-122 | a chat is added exactly if its name fits 50 characters (blanks cut off) and is new |
| ChatServer.Database.AddUser | server/server.cpp:124-138 | the same for users |
| ChatServer.Database.LinkUserToChat | server/server.cpp:140-165 | a link that exists is confirmed and not stored again; a new one is stored exactly if user and chat exist |
| ChatServer.Database.FindUser | server/server.cpp:167-183 | the reply is the first user stored under the very name, quotes included, or that there is none |
| ChatServer.Database.GetChatHistory | server/server.cpp:185-205 | the reply lists exactly the chat's messages in table order, or is null |
| ChatServer.Database.GetChatId | server/server.cpp:226-244 | the reply holds the chat's identifier, but the name with its quotes doubled |
| ChatServer.Database.GetChatList | server/server.cpp:246-263 | the reply lists the chats linked to the user, or is null |
| ChatServer.Database.GetChatMembers | server/server.cpp:304-322 | the reply lists the users linked to the chat, or is null |
| ChatServer.Database.SetTrelloToken | server/server.cpp:265-283 | a token is stored exactly if its user exists, it is new and it holds no zero byte |
| ChatRequests.OnMessage | server/server.cpp:378-505 | the dispatcher takes the first matching command, drops what raises an exception without a change, and otherwise does what the request says; the lemmas of ChatReplies say for each of the fourteen commands what that is |
| ChatReplies.ClientMessageIsRead | client/src/mainwindow.cpp:72-75 | for all ids and every text, spaces, digits and the empty text included, the client's command is taken apart into the same ids and text |
| ChatReplies.ClientLinkIsRead | client/src/add_member.cpp:40-42 | the client's command to link a user to a chat is taken apart into the same ids |
| ChatReplies.MessageIsStored | server/server.cpp:423-434 | one add_message request of the client stores exactly its text under the same ids, or is refused without a trace; which of the two depends on the chat, the sender and zero bytes alone |
| ChatReplies.MessageStays | server/server.cpp:86-205 | after any run of requests, a message so stored comes next in its chat's history, behind the messages that were there in their order, and stays there whatever requests follow; a client that asks for the history is shown it |
| ChatRequests.RunIsSound | server/server.cpp:140-165 | in every run of requests each link is stored at most once, names and ids are unique, and every link, message and token refers to rows that exist |
| ChatRequests.ListsAgree | server/server.cpp:246-322 | after every run, a chat is in a user's chat list exactly when the user is in the chat's member list, and neither list repeats an entry |
| ChatRequests.LinkedIff | server/server.cpp:140-165 | a user is in a chat after a run if and only if some request of the run linked them after both had been added |
| ChatReplies.AddedUserIsFound | server/server.cpp:124-183 | after any run, a user just added is found by the same name with the new id if and only if the name has at most 50 characters |
| ChatReplies.ChatIdIsRight | server/server.cpp:226-244 | after any run, get_chat_id gives an identifier that stands for the name asked for, and repeats the name itself if and only if it holds no quote |
| ChatRequests.NameCommandsAreRead | server/server.cpp:401-422 | echo, find_user, add_user, add_chat and get_chat_id are each recognised, and take the rest of the payload, behind one character, as it is |
| ChatRequests.ListCommandsAreRead | server/server.cpp:423-479 | add_message, link_user_to_chat and set_trello_token are each recognised, and the rest is read as their list of arguments |
| ChatRequests.IdCommandsAreRead | server/server.cpp:444-491 | the six commands about an identifier are each recognised as that command, and read it with stoi |
| ChatReplies.QuestionsAreAnswered | server/server.cpp:444-491 | each of get_chat_name, get_chat_history, get_chat_list, get_chat_members, get_trello_token and get_user_name is answered with what it asks for, and changes nothing; it is answered exactly for identifiers that fit an int, although links and messages take all that fit a size_t |
| ChatReplies.NegativeIdWraps | server/server.cpp:446-447 | a negative identifier stands for the one that far below 2^64 |
| ChatReplies.EchoIsAnswered | server/server.cpp:402-404 | echo is answered with the text itself |
| ChatReplies.NewNameIsAccepted | server/server.cpp:108-138 | a user or chat is added if and only if its name has no zero byte, only blanks behind its first 50 characters, and is not taken as it would be stored; it gets the next identifier, and the other table is untouched |
| ChatReplies.UserIsFound | server/server.cpp:167-183 | a user is found by a name if and only if one is stored under it |
| ChatReplies.NameIsRight | server/server.cpp:207-339 | after every run, get_chat_name and get_user_name answer with the one row of that identifier, or say that there is none |
| ChatReplies.LinkIsStored | server/server.cpp:140-165 | one link request of the client: confirmed if the link is there, stored if user and chat exist, and otherwise refused without a trace |
| ChatReplies.ListsAreRight | server/server.cpp:246-322 | after every run, get_chat_list answers with exactly the chats the user is linked to and get_chat_members with exactly the users linked to the chat, each once, or with null if there is none |
| ChatReplies.TokenIsStored | server/server.cpp:468-479 | a token of one line is stored if and only if the user exists, nobody has it and it has no zero byte |
| ChatReplies.FirstTokenStays | server/server.cpp:265-302 | after any run, a user's first token is what get_trello_token answers whatever requests follow |
| ChatServer.Database.GetChatName | server/server.cpp:207-224 | the reply holds the name stored for that chat, or is null |
| ChatServer.Database.GetTrelloToken | server/server.cpp:285-302 | the reply holds the first token stored for the user, or is null |
| ChatServer.Database.GetUserName | server/server.cpp:324-339 | the reply holds the user's stored name or that there is none; an identifier beyond the range of bigint fails, as it is written as a string constant |
| CLibrary.ReadSizeOfDigits | server/server.cpp:425-430 | a printed size_t, with or without a blank before it, is read back from the stream, and what follows it is left unread |
| CLibrary.StoiOfDigits | server/server.cpp:446-447 | a printed number is read back by stoi exactly if it fits an int |
| CLibrary.StoiOfNegative | server/server.cpp:446-447 | so is one with a minus sign, down to the least int |
| Transaction.TransactionBase.DirectExec | third-party/libpqxx-7.5.2/src/transaction_base.cxx:437-450 | a command goes out unless an error waits, which is then thrown instead; it is reported as done exactly if the server answered so |
| Transaction.TransactionBase.RegisterPendingError | third-party/libpqxx-7.5.2/src/transaction_base.cxx:453-498 | the first error is kept until it is reported; empty messages are no errors |
| Transaction.TransactionBase.UnregisterFocus | third-party/libpqxx-7.5.2/src/transaction_base.cxx:420-434 | the focus is given up only by the object that holds it |
| Utf8.Validator.Consume | third-party/websocketpp-0.8.2/websocketpp/utf8_validator.hpp:91-96 | one byte is one step of the automaton, and the answer tells whether it is rejected |
| Utf8.Validator.Reset | third-party/websocketpp-0.8.2/websocketpp/utf8_validator.hpp:129-132 | the validator is as new |
| CursorStream.Stream.constructor | third-party/libpqxx-7.5.2/src/cursor.cxx:76-94 | a new stream stands at row 0, has no iterators, and its invariant holds |
| CursorStream.Stream.Forward | third-party/libpqxx-7.5.2/src/cursor.cxx:140-144 | the requested position moves by n strides and stays on the grid of block starts |
| StatelessCursor.StatelessCursorObject.Create | third-party/libpqxx-7.5.2/include/pqxx/cursor.hxx:162-166 | a declared cursor has a known position from the start |
| SqlCursor.Cursor.Declare | third-party/libpqxx-7.5.2/src/sql_cursor.cxx:89-125 | a declared cursor stands before the first row, and its bookkeeping is true |
| SqlCursor.Cursor.Adopt | third-party/libpqxx-7.5.2/src/sql_cursor.cxx:128-140 | an adopted cursor claims no position, wherever the server stands |
| Pipeline.Pipe.ReceiveIfAvailable | third-party/libpqxx-7.5.2/src/pipeline.cxx:412-424 | whatever has arrived by then is dealt out; the pipeline stays valid and finished results are untouched |
| Pipeline.Pipe.GetFurtherAvailableResults | third-party/libpqxx-7.5.2/src/pipeline.cxx:403-409 | the same once the dummy's result is off the stream |
| Uri.ParsePort | third-party/websocketpp-0.8.2/websocketpp/uri.hpp:139-155 | the port is the text up to the next slash, and reading goes on behind that slash |
| FrameHeader.PrepareHeader | third-party/websocketpp-0.8.2/websocketpp/frame.hpp:489-501 | the serialized header has exactly `get_header_len` bytes |

## Left out

Stated weaker than the source, or under an assumption:

- WeekNumbers.PrintIsoYear: only days whose week lies in the representable years on both sides, so that year G-1 is representable too; the same holds for WeekNumbers.PrintIsoWeek and WeekNumbers.IsoWeekRoundTrip.
- WeekNumbers.PrintYearWeek: week counts are related to `%U` and `%W` as numbers; padding and the alternative digits of the locale are not modelled.
- Calendar.WideRoundTrip: day numbers are unbounded; the overflow of 32-bit arithmetic near its ends is not modelled.
- SqlCursor.Cursor.Fetch: the class is for result sets smaller than `all()` rows, on which every run fits (SmallTablesFit); the same holds for SqlCursor.Cursor.Move. 32-bit overflow of positions is not modelled.
- CursorStream.Stream.ServiceIterators: a stream on a declared cursor with a fixed stride, read through iterators only; adopted streams, changes of the stride and reads that bypass iterators are not modelled.
- Pipeline.Pipe.Insert: does not give out the last two ids of the 64-bit range.
- Pipeline.Pipe.Retrieve: assumes of the backend that a rejected batch holds a query that fails alone (ObtainDummy says what happens otherwise), and that which queries fail alone is settled beforehand. Which query a result answers is kept in the result, and the number of its rows stands for its content; query texts, the separator between them and attaching to the transaction are not modelled. A connection that fails while it is polled is not modelled.
- PipelineRuns.Session: without `cancel`, which can leave results on the connection (Cancel has the exact condition), and for fewer calls than there are ids.
- CursorStream.Interleave: tables smaller than `all()` rows, as for the cursor it reads through.
- Transaction.TransactionBase.constructor: the plain BEGIN/COMMIT transaction; isolation levels, nontransaction, subtransaction and robusttransaction are not modelled, and of the destructor only its call of `close`.
- Encodings.Scan: without JOHAB, MULE_INTERNAL and GB18030, whose scanners do not match the layout they document.
- CopyText.CopyRoundTrip: octal escapes are undone by the server and not by `parse_line`, so characters written in octal come back as digits (ServerRows.WrittenRowArrives has the server's side); null fields are written by code in a header and only read here.
- Encodings.StringFinder: positions are unbounded, so a start near 2^64, where start plus needle size wraps, is not modelled; the same holds for Encodings.CharFinder.
- IntegerText.FromString: text that ends with a zero byte, as `parse_line` and the result accessors provide it. The digit loop for positive numbers has no bound of its own.
- ChatServer.Database.AddUser: names are measured in characters; encodings the backend would refuse are not modelled. Of the refused rows only one whose name is taken uses up a number of its sequence.
- ChatServer.Database.GetChatHistory: rows come in the order of insertion; SQL promises no order. JSON text is modelled by its content.

Not modelled:

- SQL execution beyond the statements the server writes, the schema's keys and the string-constant rule with standard-conforming strings.
- The Qt client except for the commands it sends; OAuth, Trello, curl, logging, configuration and the event loop.
- The byte stream of WebSocket connections, the handshake, extensions, close codes; setters of single header bits.
- Other constructors of `uri`, its query part, and getters.
- date.h: format strings, time zones, durations, literals and stream output other than the week numbers.
- libpqxx: connections, results, rows, fields, prepared statements, large objects, notifications, arrays, floating-point conversion, `robusttransaction`.
- `fail` and `HTTP` handlers of the server.
