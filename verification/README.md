# Verified model of the Binance client's stateful algorithms

This project models, in Dafny 4.11, the parts of the C++ Binance client that carry state from one step to the next,
and proves what they do over whole runs:

* the three **paging loops** that turn bounded-page queries into full downloads (`CandleDownload`, `FundingDownload`,
  `StatisticsDownload`, with the records and pages in `History`), and the parallel multi-symbol download
  (`ParallelDownload`);
* the **request-weight limiter** shared by several threads (`WeightThrottle`), how much weight it lets through in a
  clock minute (`WeightBound`) and the runs that get that much through (`WeightWorstCase`);
* the **stream caches** between WebSocket callbacks and polling readers (`TickCache`, `CandleCache`);
* the **session registry** that prevents double subscription (`StreamRegistry`) and the chain of asynchronous
  operations of one session (`SessionChain`);
* **request signing** (`RequestSigning`) and the age-limited **exchange-info cache** (`ExchangeCache`).

`dafny verify dfyconfig.toml` checks everything.

## How the environment is modelled

* **The exchange, seen by a download**, is a timeline: `server(i)` is its history when request `i` is answered. Histories
  only grow. A candle history may also revise its newest candle (same open and close time, other prices) at any moment;
  every theorem quantifies over all such timelines. `Frozen(h)` is the timeline that stands still at `h`.
* **A page** is what the REST endpoints return: the records whose stamp lies in the asked closed range, at most `size` of
  them, the earliest ones when a start is sent and the most recent ones when it is not. `size` is what the exchange makes
  of the caller's limit (its own default when the limit is not sent). A start or end of -1 is not sent at all, as in the
  query builders. Stamps are milliseconds since the epoch, so a start is -1 or non-negative.
* **Failures**: a request of the two forward downloads that fails throws out of the download (`fails(i)`); a request of
  the backward downloads that fails is swallowed after some number of records has been converted (`FailsAfter(n)`).
* **Threads**: `WeightThrottle` is a step system in which every load and store of the two atomics is a step of its own.
  Each thread has one request in progress, of any weight from zero to `maxWeight`; weight and date headers are present,
  and the date of a reply lies between the moment its request was counted and the moment the reply is received. The
  caches' steps are whole critical sections; a polling reader is interrupted by arbitrary steps of other threads between
  its tries.
* **Weak references and session deaths**: sessions are numbered; a set says which are alive; sessions may die at any
  moment, also in the middle of a subscription. `SessionChain.Dead` says when a session dies, and that it stays dead.
* Clock readings, the message digest, the JSON parser and the message callback are parameters.

A loop over mutable state is a method; it is proved equal to a recursive function of its inputs (`Collected`, `Gathered`,
`Replay`, `Step`, ...), and the lemmas say what that function means. `hide` statements only remove definitions a proof
does not need.

## What was found false, and when it holds

* *Every returned candle is final.* Not if the newest candle closes before the asked end: it can be gathered and then
  revised. `FinalExactlyWhenSettled` gives the exact condition on the first history.
* *Only an incomplete candle is dropped.* The last candle is dropped even if it closed long ago;
  `DropsOnlyOpenCandleExactlyWhen` says exactly when nothing closed is lost.
* *The funding download is complete.* Not with one record a page, and not if the start is not before the end
  (`CompleteExactlyWhen`). In particular the call without start and end, which is documented to return the most recent
  records, returns them exactly if there are none. The loop need not end when times are shared by several records
  (`EndsExactlyWhenNotStuck`).
* *The backward downloads end.* Not if a record is stamped zero, because the next cursor is then the "not sent" value
  (`EndsExactlyWhenNoZeroStamp`); and a request that fails midway leaves a gap (`ContentUnderFailures`).
* *After the limit is reported each thread gets at most one more request in.* In all interleavings this holds exactly
  for a single thread, or for requests without weight (`OneRequestEachExactlyWhen`). What n threads get in at worst is
  known exactly (`WorstCaseExactly`): n * n requests of the greatest weight for up to 60 threads, and
  (n * n + 119 n) / 2 - 1770 for more (`MostRequestsAre`). Threads that store and check in one piece keep to one request
  each (`MinuteBoundInOnePiece`).
* *The backward downloads are complete on stamps that repeat.* Exactly if no page boundary separates records with the
  same stamp (`CompleteExactlyWhenCutsBetweenStamps`).
* *A signed request verifies.* Only if its target contains a question mark (`AcceptedExactlyWithQuery`).

Where code and documentation disagree the model follows the code: `getFundingRates` without start and end returns nothing
(include/stonky/binance/binance_futures_rest_client.h:31 promises the most recent data; `CompleteExactlyWhen` says when
that makes a difference), and the `force` flag of the subscribe functions is not consulted
(include/stonky/binance/binance_ws_stream_manager.h:30 promises a re-subscription).

## Model

| member | source | states |
|---|---|---|
| `History.WithinBetween` | src/binance_futures_rest_client.cpp:308-339 | The one-shot range query returns exactly the stretch of positions whose stamps are asked for |
| `History.WithinExactly` | src/binance_futures_rest_client.cpp:315-323 | The range query returns exactly the records of the history that lie in the range, both ends included; an end of -1 is not sent and does not bound it |
| `History.WithinIsSlice` | src/binance_futures_rest_client.cpp:308-339 | On a time-ordered history the range query is one contiguous stretch, found by position |
| `History.PageIsSlice` | src/binance_futures_rest_client.cpp:308-339 | A page starts at the cursor, is cut at the page size or the range end, and is shorter than the page size only at the range end |
| `History.AnchorIsPageStart` | src/binance_futures_rest_client.cpp:315-318 | Leaving the start out amounts to starting at the first record of the first page, also in every later history |
| `History.CeilDivRoundsUp` | src/binance_futures_rest_client.cpp:375-402 | The page count used below is the quotient rounded up |
| `CandleDownload.GetHistoricalPrices` | src/binance_futures_rest_client.cpp:375-402 | The loop succeeds exactly when none of the requests it needs throws, and then returns the specified download; otherwise it reports the first failing request |
| `CandleDownload.PageAdvances` | src/binance_futures_rest_client.cpp:386-394 | Every non-empty page moves the cursor strictly forward, also from the "not sent" start, so the loop ends |
| `CandleDownload.DownloadCoversRange` | src/binance_spot_rest_client.cpp:159-186 | Whatever is appended or revised between requests, the gathered candles are, slot by slot, the range query against the history of the last request; they are strictly ordered with none missing or repeated |
| `CandleDownload.Gathered` | src/binance_futures_rest_client.cpp:386-394 | From any cursor and request on, the loop gathers the slots from the page start to the range end of the last history |
| `CandleDownload.GatheredAsServed` | src/binance_futures_rest_client.cpp:386-394 | Every gathered candle is one the exchange served during the download, at that position of its history |
| `CandleDownload.FrozenDownloadIsRange` | src/binance_futures_rest_client.cpp:375-402 | On a history that stands still the caller gets the range query without its last candle, for every page size, if and only if the start is before the end or at most one candle is in range |
| `CandleDownload.DropsOnlyOpenCandleExactlyWhen` | src/binance_futures_rest_client.cpp:396-399 | For every start and end, sent or not, the caller gets exactly the range's candles closed before the asked end if and only if the range is empty or its last candle had not closed before it |
| `CandleDownload.ReturnedCandlesHaveClosed` | src/binance_futures_rest_client.cpp:386-401 | Every returned candle closed before the asked end, on every timeline |
| `CandleDownload.SettledIsFinal` | src/binance_futures_rest_client.cpp:386-401 | If the first history's newest candle closes no earlier than the asked end, or is not in range, no returned candle ever changes afterwards |
| `CandleDownload.StaleCandleGathered` | src/binance_futures_rest_client.cpp:386-401 | Otherwise there is a moment of revision at which the loop gathers the newest candle in its stale version, and not as the last one |
| `CandleDownload.FinalExactlyWhenSettled` | src/binance_spot_rest_client.cpp:170-185 | All returned candles are final on every timeline that starts from a history if and only if that history is settled for the asked range |
| `CandleDownload.DownloadCost` | src/binance_futures_rest_client.cpp:375-402 | On a history that stands still, with or without a start, the download issues exactly one request for each filled or started page, plus one unless the last candle reaches the asked end: at most the page count plus one; and none if the start is not before the end |
| `FundingDownload.GetFundingRates` | src/binance_futures_rest_client.cpp:702-730 | The loop, with its break on a page that repeats only the cursor's record, succeeds exactly when none of its requests throws, and then returns the specified download |
| `FundingDownload.PageMovesCursor` | src/binance_futures_rest_client.cpp:713-727 | On strictly increasing times every page that does not end the loop moves the cursor strictly forward |
| `FundingDownload.GatheredIsRange` | src/binance_futures_rest_client.cpp:713-727 | With pages of two or more, collapsing what a page in hand leads to gives the history of the last request from that page's position to the range end |
| `FundingDownload.OverlapsCollapseToRange` | src/binance_futures_rest_client.cpp:703-729 | Without its overlaps the download is the range query against the history of the last request, although rates are appended meanwhile |
| `FundingDownload.EachRecordAtMostTwice` | src/binance_futures_rest_client.cpp:713-727 | Positions two apart always have increasing times: a record is returned at most twice, and its copies are neighbours |
| `FundingDownload.RawLength` | src/binance_futures_rest_client.cpp:703-729 | On a history that stands still, with or without a start, the raw result has N + ceil(max(0, N - L) / (L - 1)) records for N in range and pages of L, and none if the start is not before the end |
| `FundingDownload.RawLengthWhileGrowing` | src/binance_futures_rest_client.cpp:703-729 | On any timeline the raw result has one record more than the range of the last request for each request after the first, except for the one that only finds the record under the cursor |
| `FundingDownload.OneRecordPages` | src/binance_futures_rest_client.cpp:718-726 | With one record a page the download stops after the first record |
| `FundingDownload.CompleteExactlyWhen` | src/binance_futures_rest_client.cpp:703-729 | For every start and end, sent or not, the download of a history that stands still is complete if and only if nothing is asked for, or the start is before the end and pages hold at least two records or at most one record is in range |
| `FundingDownload.UnrepeatedExactlyWhen` | src/binance_futures_rest_client.cpp:703-729 | For every start and end, the download of a history that stands still is the range itself, without repeats, if and only if nothing is asked for, or the start is before the end and one page holds the range |
| `FundingDownload.NeverPastStuck` | src/binance_futures_rest_client.cpp:713-727 | A cursor at or before a time shared by a whole page, or by the last records of the range before its end, never gets past it in any number of requests |
| `FundingDownload.EndsExactlyWhenNotStuck` | src/binance_futures_rest_client.cpp:713-727 | On times that may repeat, the loop ends if and only if pages hold one record, or there is no such time at or after the start; without a start, if and only if pages hold one record, the range is empty or its last time is no such time |
| `FundingDownload.AscendingIsNeverStuck` | src/binance_futures_rest_client.cpp:713-727 | Strictly increasing times always let the loop end |
| `StatisticsDownload.DownloadBackwards` | src/binance_futures_rest_client.cpp:786-800 | The prepending loop of the three statistics downloads (also lines 846-859 and 905-918), asking for 500 records at a time, returns the specified result under every pattern of swallowed failures, on stamps that may repeat; with every request answered this is every record up to the asked time, in ascending order |
| `StatisticsDownload.CursorMovesDown` | src/binance_futures_rest_client.cpp:792-797 | With positive stamps the cursor moves strictly down and never becomes the "not sent" value |
| `StatisticsDownload.OneTurn` | src/binance_futures_rest_client.cpp:846-859 | A page is the newest part of what is asked; stepping to just before its oldest record asks for exactly the rest, whatever has been appended meanwhile |
| `StatisticsDownload.ContentUnderFailures` | src/binance_futures_rest_client.cpp:747-799 | With strictly increasing stamps the result is a gap-free newest part of the true answer if and only if no request issued fails midway through its page, and the whole answer if and only if every request issued delivers its page |
| `StatisticsDownload.SuffixOnRepeatedStamps` | src/binance_futures_rest_client.cpp:747-799 | With stamps that may repeat, on distinct records, it is a gap-free newest part if and only if, besides, no page followed by more records splits records with the same stamp |
| `StatisticsDownload.AllOnRepeatedStamps` | src/binance_futures_rest_client.cpp:747-799 | With stamps that may repeat, on distinct records, it is the whole answer if and only if every request issued delivers its page and no page splits records with the same stamp |
| `StatisticsDownload.FailureKeepsConverted` | src/binance_futures_rest_client.cpp:774-784 | A request that fails after n records leaves exactly those n at the end of the result, and a gap unless they are all of its page or none |
| `StatisticsDownload.DownloadIsRange` | src/binance_futures_rest_client.cpp:905-918 | With all requests answered the result is every record up to the asked time (every record at all for the "not sent" time), ascending, without duplicates |
| `StatisticsDownload.CompleteExactlyWhenCutsBetweenStamps` | src/binance_futures_rest_client.cpp:787-797 | On stamps that may repeat, with records appended meanwhile, the download is complete if and only if cutting the asked records into pages from the newest on never separates records with the same stamp |
| `StatisticsDownload.RequestCount` | src/binance_futures_rest_client.cpp:786-800 | With all requests answered it takes exactly the page count plus one requests |
| `StatisticsDownload.EndsExactlyWhenNoZeroStamp` | src/binance_futures_rest_client.cpp:792-797 | With non-negative stamps, which may repeat, the loop ends if and only if no asked record is stamped zero |
| `ParallelDownload.RunTasks` | src/binance_futures_rest_client.cpp:631-647 | In whatever order the tasks finish, every future holds its own symbol's download or failure |
| `ParallelDownload.Gather` | src/binance_futures_rest_client.cpp:649-654 | The map has exactly the requested symbols as keys, each with its last future's candles; the first failed future, in the order of the symbols, fails the whole |
| `ParallelDownload.GetHistoricalPricesOf` | src/binance_spot_rest_client.cpp:188-220 | For every completion order, repeats included: succeeds exactly when all downloads do, and maps each requested symbol to its single-symbol download; otherwise it fails with the first symbol whose download fails |
| `WeightBound.PaidKeeps` | src/binance_http_session.cpp:216-241 | Weight counted beyond the limit is paid for by threads that send nothing more in this minute and by early departures; counting a request, in particular the one that reaches the limit, and every other step keep it so |
| `WeightBound.DepartureBooked` | src/binance_http_session.cpp:237-240 | A thread told of the limit that does not sleep past the minute, because of a stored weight below the limit or of a stored date of an earlier minute, is booked as leaving early |
| `WeightBound.WeightsKeep` | src/binance_http_session.cpp:224-229 | Storing a weight below the limit over a newer one frees at most the threads that have no such weight to store themselves, and each once |
| `WeightBound.DatesKeep` | src/binance_http_session.cpp:230-240 | A thread sleeps too shortly at most once for each stale date stored, and every time through a second of its own |
| `WeightBound.ChancesKeep` | src/binance_http_session.cpp:230-234 | Storing a date of an earlier minute over a newer one gives a chance to sleep shortly to at most the threads that have no such date to store themselves |
| `WeightBound.StepKeeps` | src/binance_http_session.cpp:222-241 | Every step of every thread keeps this accounting |
| `WeightBound.MinuteBound` | src/binance_http_session.cpp:222-241 | In every interleaving of n threads, loads and stores apart, at most limit - 1 + maxWeight * MostRequests(n) is counted in any clock minute |
| `WeightBound.MostRequestsAre` | src/binance_futures_rest_client.cpp:631-647 | MostRequests(n) is n * n for up to 60 threads and (n * n + 119 n) / 2 - 1770 from there on; it exceeds n for two threads or more |
| `WeightBound.MinuteBoundInOnePiece` | src/binance_http_session.cpp:222-241 | If each thread stores and checks in one piece, at most limit - 1 + n * maxWeight is counted in any clock minute |
| `WeightThrottle.WholeIsOutcome` | src/binance_http_session.cpp:222-241 | The separate steps of an uninterrupted thread amount to one step: store, then sleep by the stored date or go on |
| `WeightWorstCase.NextRound` | src/binance_http_session.cpp:222-241 | A thread with a stale reply can free every thread done with its own twice: once by the weight, once by the date as long as the minute has a second left |
| `WeightWorstCase.MinuteReaches` | src/binance_http_session.cpp:222-241 | For every limit, weight and number of threads some interleaving has limit - 1 + maxWeight * MostRequests(n) counted in one minute |
| `WeightWorstCase.WorstCaseExactly` | src/binance_http_session.cpp:222-241 | A bound on the weight counted in a minute holds in every interleaving of n threads if and only if it is at least limit - 1 + maxWeight * MostRequests(n) |
| `WeightWorstCase.OneRequestEachExactlyWhen` | src/binance_futures_rest_client.cpp:631-647 | The bound limit - 1 + n * maxWeight holds in every interleaving of n threads sharing a session if and only if n <= 1 or requests have no weight |
| `WeightThrottle.HttpSession.HandleReply` | src/binance_http_session.cpp:222-241 | The header loop leaves the last weight and the last date in the session, and the thread sleeps 60 minus the date's seconds exactly when the weight has reached the limit |
| `WeightThrottle.HeadersOfReply` | src/binance_http_session.cpp:224-235 | The last header named X-MBX-USED-WEIGHT-1M in any letter case and the last one named exactly Date are what is stored, among whatever others; without one the earlier value stays |
| `Ascii.LowerChars` | src/binance_http_session.cpp:225-228 | Comparing without letter case turns the 26 upper-case letters into their lower-case ones and no other character |
| `WeightThrottle.ReplyIsOutcome` | src/binance_http_session.cpp:222-241 | Over headers that end, as far as these two names go, in the reply's weight and date, the header loop and the decision after it do what the step system calls the outcome of a reply |
| `TickCache.TickStore.OnBookTicker` | src/binance_ws_stream_manager.cpp:57-80 | The callback replaces the entry's quote and adds its volumes, or makes the entry, leaves every other entry alone, and appends its event to the log the cache refines |
| `TickCache.TickStore.TryRead` | src/binance_ws_stream_manager.cpp:169-184 | One locked try returns the entry, zeroes its volumes and, when consuming, removes it; every other entry stays |
| `TickCache.TickStore.ReadEventTickPrice` | src/binance_ws_stream_manager.cpp:158-190 | The polling read returns the entry of the first try that finds one, gives up exactly after the allowed tries (100 per second of the initial timeout, and one) or on timeout zero, and sleeps no longer than the timeout, whatever other threads do meanwhile |
| `TickCache.CacheRefinesLog` | src/binance_ws_stream_manager.cpp:62-76 | For every log: an entry exists exactly when an event arrived after the last consuming read, with the latest quote and the volumes since the last read |
| `TickCache.EntryIsLatestUnconsumed` | src/binance_ws_stream_manager.cpp:169-184 | For every log: there is an entry exactly when some event of the symbol has no later event and no later consuming read, and the entry shows that event's quote |
| `TickCache.VolumeIsConserved` | src/binance_ws_stream_manager.cpp:71-73 | For every symbol and every interleaving, bid and ask volume delivered equals volume handed out by reads plus volume pending |
| `TickCache.ReadHandsOutUnread` | src/binance_ws_stream_manager.cpp:171-182 | A read succeeds exactly when there are unconsumed events, and hands out the volumes of exactly the events since the read before it |
| `CandleCache.CandleStore.OnCandlestick` | src/binance_ws_stream_manager.cpp:98-140 | The callback keeps both maps equal to what the log says, for every symbol and interval |
| `CandleCache.CandleStore.ReadEventCandlestick` | src/binance_ws_stream_manager.cpp:192-232 | The polling read returns the slot's last event, or the one before its last change of start when the previous candle is asked for, at the first try that finds one; it gives up exactly after the allowed tries (100 per second of the initial timeout, and one) or on timeout zero, and sleeps no longer than the timeout |
| `CandleCache.CandleStore.TryRead` | src/binance_ws_stream_manager.cpp:204-226 | One locked try returns the slot's last event, or the event before its last change of start when the previous candle is asked for |
| `CandleCache.MissedMeans` | src/binance_ws_stream_manager.cpp:204-226 | At every try before, the slot had no event, or no change of start when the previous candle is asked for, and the timeout was not zero |
| `CandleCache.PreviousIsBeforeLastChange` | src/binance_ws_stream_manager.cpp:115-118 | "Previous" exists exactly when some adjacent pair of the slot's events differs in start time, and is the event just before the most recent such pair |
| `CandleCache.PreviousIsLastOther` | src/binance_ws_stream_manager.cpp:113-135 | In any order of start times "previous" is the last received event whose start differs from the current one |
| `CandleCache.PreviousIsNewestEarlier` | src/binance_ws_stream_manager.cpp:113-135 | With starts that never decrease it is the last received version of the newest earlier candle, and no received start lies between it and the current one |
| `CandleCache.PreviousNeverMovesBack` | src/binance_ws_stream_manager.cpp:204-226 | Once present it stays readable, and with starts that never decrease its start never moves back |
| `CandleCache.OrderedExactlyWhenNeverDecreases` | src/binance_ws_stream_manager.cpp:113-135 | "Previous" is earlier than "current" at every moment if and only if the received starts never decrease |
| `StreamRegistry.NamesCollideExactlyWhen` | src/binance_futures_ws_client.cpp:62-76 | Pairs and channels without '@' get the same stream name if and only if the pairs agree up to letter case and the channels agree |
| `StreamRegistry.NameShape` | src/binance_futures_ws_client.cpp:62-76 | A stream name is "/ws/" and the channel, with the lower-cased pair and '@' between them if there is a pair |
| `StreamRegistry.ChannelNames` | src/binance_ws_stream_manager.cpp:85-88 | The channels are bookTicker and, for the fifteen intervals, kline_1m to kline_1M |
| `StreamRegistry.SameSessionExactlyWhen` | src/binance_ws_stream_manager.cpp:85-91 | Two subscriptions share a session if and only if pair (up to case), kind of stream and interval agree |
| `StreamRegistry.WebSocketClient.RemoveDeadWebsockets` | src/binance_futures_ws_client.cpp:37-45 | The erasing loop keeps exactly the live references, in order |
| `StreamRegistry.AliveKeeps` | src/binance_futures_ws_client.cpp:37-45 | A reference is kept exactly when it was registered and its session is alive |
| `StreamRegistry.AliveConcat` | src/binance_futures_ws_client.cpp:37-45 | What is kept is in the order of the references |
| `StreamRegistry.WebSocketClient.FindStream` | src/binance_futures_ws_client.cpp:115-125 | True exactly when a live registered session serves the stream |
| `StreamRegistry.WebSocketClient.OpenSession` | src/binance_futures_ws_client.cpp:127-146 | Prunes, then registers one new live session for the stream, with sessions dying before and after the pruning; no other session dies and no other target changes |
| `StreamRegistry.WebSocketClient.Subscribe` | src/binance_ws_stream_manager.cpp:47-83 | Opens a session only if none is found, whatever the force flag says |
| `StreamRegistry.LiveTargetsStayDistinct` | src/binance_ws_stream_manager.cpp:47-50 | Over every run of subscriptions and deaths, live sessions are registered and serve pairwise distinct streams |
| `StreamRegistry.SessionsLiveOn` | src/binance_futures_ws_client.cpp:127-146 | Over every run a live session stays alive, with the stream it was opened for, until it dies itself: no subscription ends another session |
| `StreamRegistry.SubscribeLeavesOne` | src/binance_futures_ws_client.cpp:127-134 | A subscription leaves exactly one live session for its stream: the one found, and then nothing changes, or a new one exactly when none was found; on opening, the references kept are exactly those of the sessions still alive at the pruning, plus the new one |
| `SessionChain.DeliveredExactly` | src/binance_futures_ws_session.cpp:109-144 | In every run the callback gets, in order, exactly the received messages up to the first frame that stops the chain, and the pending operations stay well chained |
| `SessionChain.ExpectedWithoutThrows` | src/binance_futures_ws_session.cpp:128-143 | With a callback that never throws these are exactly the non-error objects before the first malformed frame |
| `SessionChain.ExpectedExactly` | src/binance_futures_ws_session.cpp:128-143 | In general these are the messages before the first frame that is malformed or makes the callback throw, and that frame too if it is a message |
| `SessionChain.ChainOverRuns` | src/binance_futures_ws_session.cpp:49-107 | In every reachable state at most one establishment step is pending, or else at most one read and one ping wait, and the buffer is empty whenever a read is armed |
| `SessionChain.PendingExactly` | src/binance_futures_ws_session.cpp:49-183 | Over every run each operation is pending exactly if the last event that concerns it started it: every establishment step starts the next, the last one the first read and the first ping wait, and these go on until one fails, or for reads until a text is malformed or its callback throws |
| `SessionChain.ClosePendingExactly` | src/binance_futures_ws_session.cpp:140-143 | The closes pending are those begun, one for each malformed frame, each callback that throws a JSON exception and each call, less those completed |
| `SessionChain.HostGetsPort` | src/binance_futures_ws_session.cpp:72-74 | Over every run the host is the one given, with ':' and the port of the connect that succeeded |
| `SessionChain.EstablishedBeforeReading` | src/binance_futures_ws_session.cpp:49-107 | The four establishment steps complete in order, each only after the success of the one before; a read is armed or a message delivered only if all four succeeded |
| `SessionChain.SilentStaysSilent` | src/binance_futures_ws_session.cpp:112-115 | Once neither a read nor an establishment step is pending, no frame is received and nothing delivered ever again |
| `SessionChain.DeadStaysDead` | src/binance_futures_ws_session.cpp:175-183 | A session that no pending operation keeps alive never comes back |
| `SessionChain.FailureIsFinal` | src/binance_futures_ws_session.cpp:49-103 | A run in which some establishment step fails leaves nothing that keeps the session alive, and delivers nothing, before the failure or after it |
| `SessionChain.WebSocketSession.OnHandshake` | src/binance_futures_ws_session.cpp:100-107 | Success starts one read and one ping wait; an error starts nothing |
| `SessionChain.WebSocketSession.OnRead` | src/binance_futures_ws_session.cpp:109-144 | The read handler empties the buffer and delivers, re-arms, closes or stops as the step function says |
| `SessionChain.WebSocketSession.OnConnect` | src/binance_futures_ws_session.cpp:60-75 | Success with the host name set starts the TLS handshake and appends the port to the host; otherwise the chain ends |
| `SessionChain.WebSocketSession.OnPingTimer` | src/binance_futures_ws_session.cpp:175-183 | The ping wait re-arms itself exactly when it completes without error |
| `RequestSigning.AddTimestampToTargetPath` | src/binance_http_session.cpp:255-278 | The rewritten target is path, parameters, a receive window of 60000 ms, timestamp and signature, the last over everything between path and signature |
| `RequestSigning.PathSplits` | src/binance_http_session.cpp:256-257 | Path and parameters make up the target, cut after its first '?'; without one all of it is parameters |
| `RequestSigning.DecimalDigits` | src/binance_http_session.cpp:263 | The timestamp is written in decimal digits, without leading zeros |
| `RequestSigning.LastParameter` | src/binance_http_session.cpp:259-275 | A parameter whose value holds no '&' is found at its last occurrence, so the cut is unique |
| `RequestSigning.AcceptedExactlyWithQuery` | src/binance_http_session.cpp:255-278 | A verifier that splits at the first '?' and cuts at the last "&signature=" accepts if and only if the target contains '?', and then sees exactly the signed bytes |
| `RequestSigning.SignedTextReadsBack` | src/binance_http_session.cpp:259-263 | The original parameters, a receive window of 60000 and the timestamp are read back from the signed bytes |
| `RequestSigning.SigningIsInjective` | src/binance_http_session.cpp:255-278 | Different targets or times never give the same signed request, whatever the digest |
| `ExchangeCache.RestClient.UpdateExchangeInfo` | src/binance_futures_rest_client.cpp:484-498 | Refreshes exactly when forced, undated, older than 3600 s or without symbols; a failed refresh changes nothing |
| `ExchangeCache.RestClient.GetExchangeInfo` | src/binance_futures_rest_client.cpp:479-482 | Returns the cache after the update, or fails with it |
| `ExchangeCache.RestClient.FindPrecisionForSymbol` | src/binance_futures_rest_client.cpp:53-72 | Returns the quantity, price or quote precision, as asked, of the first symbol of that name in the refreshed cache, or 1 if there is none; refreshes exactly when undated or older than 3600 s |
| `ExchangeCache.NeverFromTheFuture` | src/binance_futures_rest_client.cpp:484-498 | Over every run on a clock that never goes back the cached date is not in the future |
| `ExchangeCache.ReturnedSnapshotIsFresh` | src/binance_futures_rest_client.cpp:484-498 | Any snapshot returned from is dated and at most 3600 s old when checked, and a failed refresh leaves the cache as it was; a forced call returns the exchange's reply, no symbols are returned unless that was the reply, and a recent snapshot with symbols is only replaced when forced |
| `ExchangeCache.SnapshotHasOneOrigin` | src/binance_futures_rest_client.cpp:484-498 | Symbols and date of the cached snapshot always come from one and the same reply or set call |

## Left out

- Sockets, TLS, name resolution, the I/O context's thread and the ping frames: abstract completions stand for them.
- JSON field copying, decimal formatting of order parameters and the single-request wrappers; records arrive parsed.
- Floating point: volumes are exact reals, the weight limit is an integer, and the scaling of the limit by 0.85 and 0.95 and of the timeout by 0.01 is not modelled (a timeout of T seconds gives 100 T tries).
- 64-bit overflow of times: times are unbounded integers.
- Interval labels in events: the parsed interval is the input, so labels that differ only in letter case are not told apart or confused here.
- Missing weight or date headers, and a limit changed while requests are in progress; a limit below one is also outside the two minute bounds (every reply then makes its thread sleep).
- FundingDownload.GetFundingRates: takes strictly increasing funding times, because on repeated times the loop may not end; exactly when is FundingDownload.EndsExactlyWhenNotStuck.
- StatisticsDownload.DownloadBackwards: takes positive stamps, because with a zero stamp the loop may not end; exactly when is StatisticsDownload.EndsExactlyWhenNoZeroStamp.
- Direct calls of the WebSocket client's stream functions, which do not look for an existing session, and partial-depth streams.
- The cancellation of the ping timer: a ping wait may complete with or without an error at any time, and no claim is made that a session whose reads have stopped always dies.
- An exception while an API error message is being decoded; the model takes that decoding to return.
- The spot client's exchange cache, which declares a maximum age but never consults it.
- Credentials and the strength of the message digest.
