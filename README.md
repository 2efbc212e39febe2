# PrivatBank exchange-rate chat: a Dafny model

This project models two small Python programs that ask PrivatBank's public
API for the EUR and USD exchange rates of recent days:

- `chat/server.py`, a websocket chat server. A message is broadcast to every
  connected client as `"<name>: <message>"`. A message starting with
  `exchange` is a command: `exchange N` sends the rates of the last `N` days
  to the sender alone.
- `exchange_rates.py`, a command-line script. It prints the same rates as a
  list of `{date: rates}` dictionaries, for at most ten days.

Both programs have the same `get_dates` (the `N` most recent dates, today
first, written `DD.MM.YYYY`) and the same `parse_data` (which keeps the EUR and
USD entries of the `exchangeRate` list). The two copies are identical, so each
is modelled once: `Dates.GetDates` and `Rates.ParseData`.

The modules are:

- `Wrappers`: `Option`.
- `Errors`: the Python exceptions the code can raise, and `Completion`, which
  says whether a call ended normally or raised.
- `Text`: the Python string operations the code uses: `str.startswith`,
  `str.split()` with no argument, and `int()` of a string. `int()` ignores
  surrounding whitespace, so `Text` also defines the stripping it does. It
  strips a smaller set than `str.split()` splits on: `IsIntSpace` leaves out
  the four separators U+001C..U+001F, which `int()` rejects. `Text` also has
  the limit of 4300 digits CPython applies to decimal strings.
- `Calendar`: `datetime.date` as a proleptic Gregorian date.
  - `DayNumber` is `date.toordinal()`.
  - `Back(d, k)` is `d - timedelta(k)`.
  - `Format` is `strftime('%d.%m.%Y')`, and `ParseDate` is its inverse.
- `Rates`: `parse_data`.
  - `ParseSpec` is a reference function.
  - `ParseData` is the loop, proved equal to `ParseSpec`.
- `Dates`: `get_dates`.
  - `Window` is the reference list.
  - `GetDates` is the loop, proved equal to `Window`.
- `Aggregate`: the per-date request loop that `main_ex` and `main` share.
  - `Collect` is the reference fold.
  - `OkPositions` lists the dates whose request succeeded.
- `ChatServer`:
  - `MainEx`;
  - `Classify`, which is the branch `distrubute` takes for a text message, and
    `ClassifyFrame`, which also covers binary frames;
  - the class `Server`, with `clients`, the `name` given to each connection
    and a log (`outbox`) of every send made.
- `ExchangeRates`: `main` and the `__main__` block.

Things the programs get from outside are parameters of the model:

- Today's date is `today`. Over a session it is `today: nat -> Date`:
  `today(k)` is the date while message `k` is handled, so the date may move on
  between two messages.
- The generated display name is `name`.
- The upstream API is `upstream: string -> Fetch`. It maps a date string to
  an HTTP response or to a connector error.
- The state of each connection is `links: ConnId -> Link`, one of open,
  closed normally, or closed with an error. Over a session it is
  `links: nat -> ConnId -> Link`: `links(k)` holds while message `k` is
  handled, so a connection may close between two messages.
- A connection's inbound frames are a sequence of `Frame`s, plus a
  `StreamEnd` saying how the stream ends. A `Frame` is a text frame, which
  `async for` yields as a `str`, or a binary frame, yielded as `bytes`.

A broadcast iterates over a Python `set`, whose order is unspecified.
`BroadcastRel` therefore describes every order the loop may take. The read
loop of a session is described by `StepRel` for one message and by
`StepsRel`/`SessionRel` for the whole session.

Three behaviours of the code are easy to miss:

- `unregister` calls `set.remove`, which raises KeyError for a connection that
  is not a member. It is not a silent no-op. This is `Server.Unregister`.
- A message that starts with `exchange` but has no second token raises
  IndexError. One whose second token is not an integer raises ValueError.
  Neither falls back to chat. The exception ends the session, and the
  connection is then unregistered. This is `Classify`, `Distribute` and
  `WsHandler`. A binary frame ends the session the same way, with the
  TypeError `startswith('exchange')` raises on `bytes`. This is
  `ClassifyFrame`.
- A broadcast is not fault-isolated. The first send to a closed connection
  raises, the remaining members get nothing, and the exception ends the
  sender's session. This is `BroadcastRel` and `Server.SendToClients`.

## Model

| member | source | states |
|---|---|---|
| Text.SplitSpaced | chat/server.py:106 | `s.split()` of whitespace-free words, with whitespace runs of any length between them (and optionally before and after), returns exactly those words in order |
| Text.SplitTwoWords | chat/server.py:106 | two words joined by a space split into exactly those two words |
| Text.ParseIntNumeral | chat/server.py:106 | `int()` of an optionally signed numeral (underscores between digits allowed), with any whitespace `int()` strips around it, gives its value, negated for `-`, when it has at most 4300 digits; with more digits it raises ValueError |
| Text.ParseIntAccepts | chat/server.py:106 | every string `int()` accepts is whitespace `int()` strips, an optional `+` or `-`, a numeral of at most 4300 digits and such whitespace, and the value is that numeral's, negated for `-` |
| Text.ParseIntRejects | chat/server.py:106 | `int()` raises ValueError if and only if the string is not whitespace `int()` strips, an optional sign, a numeral of at most 4300 digits and such whitespace |
| Text.ParseIntRejectsSeparator | exchange_rates.py:76 | `int()` rejects a string that starts or ends with one of U+001C..U+001F, although `str.split()` treats these as whitespace |
| Text.ParseShowInt | chat/server.py:106 | `int()` reads `str(i)` back as `i` for every integer whose spelling has at most 4300 digits, negative ones included |
| Calendar.PrevDayNumber | chat/server.py:21 | the day before a valid date is a valid date whose ordinal is one less |
| Calendar.NextPrevDay | chat/server.py:21 | `PrevDay` is undone by the next-day step and the other way round, so no two valid dates have the same previous day |
| Calendar.BackDayNumber | chat/server.py:21 | `today - timedelta(k)` is the date whose ordinal is today's minus `k` |
| Calendar.BackStrictlyEarlier | chat/server.py:20-21 | for `i < k`, the date `k` days back is strictly earlier in the calendar than the date `i` days back |
| Calendar.DayNumberInjective | chat/server.py:21 | two valid dates with the same ordinal are equal |
| Calendar.FormatShape | chat/server.py:22 | `strftime('%d.%m.%Y')` writes ten characters: digits, with dots at positions 2 and 5 |
| Calendar.ParseFormat | chat/server.py:22 | reading a rendered date with a four-digit year gives back that date (round trip) |
| Calendar.FormatInjective | chat/server.py:22 | distinct dates with four-digit years render as distinct strings |
| Dates.Window | chat/server.py:19-20 | the window has one item per value of `range(days)`: `days` items, and none when `days <= 0` |
| Dates.GetDates | chat/server.py:15-25 | the list built by the loop is the window: item `i` is the date `i` days before today, rendered (the copy at exchange_rates.py:12-22 is identical) |
| Dates.WindowDates | chat/server.py:20-22 | item `i` has the date shape and reads back as the date whose ordinal is today's minus `i`; item 0 is today |
| Dates.WindowDecreasing | chat/server.py:20-22 | later items are strictly earlier dates, so no date appears twice |
| Rates.ParseData | chat/server.py:28-40 | the loop over the `exchangeRate` list returns the reference dictionary `ParseSpec` (the copy at exchange_rates.py:25-37 is identical) |
| Rates.ParseKeys | chat/server.py:34 | the only possible keys are EUR and USD |
| Rates.ParsePresent | chat/server.py:32-36 | a currency is a key if and only if it is EUR or USD and some entry carries it |
| Rates.ParseLastWins | chat/server.py:36-38 | a present currency's quote comes from the last entry carrying that currency: its sale and purchase are that entry's `saleRate` and `purchaseRate`, each None exactly when the entry lacks the field |
| Rates.IgnoresUntracked | chat/server.py:34 | inserting an entry of any other currency anywhere leaves the result unchanged |
| Rates.ParseAppend | chat/server.py:32-38 | the result for a concatenated list is the first half's result overridden by the second half's |
| Aggregate.OkPositionsSound | chat/server.py:51-58 | the listed positions ascend, and each is a date whose request returned status 200 |
| Aggregate.OkPositionsComplete | chat/server.py:51-58 | a date's request returned status 200 if and only if its position is listed |
| Aggregate.CollectLength | chat/server.py:51-69 | the result has one item per successful request, so never more items than dates |
| Aggregate.CollectAt | chat/server.py:58-63 | item `k` is `{date: parse_data(body)}` of the `k`-th successful date |
| Aggregate.CollectByPositions | chat/server.py:51-69 | the result is the successful dates in order, each with its parsed body; failed dates contribute nothing |
| Aggregate.CollectAllFail | chat/server.py:65-69 | when no request returns status 200, the result is empty |
| Aggregate.CollectAllSucceed | chat/server.py:58-63 | when every request succeeds, there is one item per date, in date order |
| Aggregate.CollectAppend | chat/server.py:51-69 | dates are handled independently: the result over a concatenation is the concatenation of the results |
| Aggregate.WindowReplyAt | chat/server.py:49-63 | over the `get_dates` window, each item is keyed by a date of the window whose request succeeded, reads back as a date no later than today, and carries that date's parsed body |
| Aggregate.WindowReplyNewestFirst | chat/server.py:49-63 | over the window, a later item is keyed by a strictly earlier date |
| ChatServer.MainEx | chat/server.py:43-71 | the reply lists, in order, `{date: parse_data(data)}` for every window date whose request returned status 200 |
| ChatServer.Classify | chat/server.py:104-106 | a message is chat text if and only if it does not start with `exchange` |
| ChatServer.ClassifyFrame | chat/server.py:103-104 | a frame raises TypeError if and only if it is binary, and is chat text if and only if it is a text frame that does not start with `exchange` |
| ChatServer.ClassifyTwoWords | chat/server.py:104-106 | a first word starting with `exchange`, a space and a second word: ValueError when `int` rejects the second word, otherwise a command for the value `int` gives |
| ChatServer.ClassifyCommand | chat/server.py:104-106 | any first word starting with `exchange`, then a space and `str(n)` of at most 4300 digits, is a command for `n` days |
| ChatServer.ClassifySpaced | chat/server.py:104-106 | for a message that starts with a word beginning with `exchange`, whatever the whitespace and however many later words: one word raises IndexError, a second word rejected by `int()` raises ValueError, and a second word accepted by `int()` is a command for that value |
| ChatServer.LeadingSpaceIsChat | chat/server.py:104 | a message starting with whitespace is chat text, whatever follows |
| ChatServer.ClassifyMissingCount | chat/server.py:106 | a single word starting with `exchange` raises IndexError |
| ChatServer.ClassifyBadCount | chat/server.py:106 | `exchange` followed by a token that is not an integer raises ValueError, and is never treated as chat |
| ChatServer.BroadcastToNobody | chat/server.py:87 | with no clients, a broadcast sends nothing and ends normally |
| ChatServer.BroadcastCompleted | chat/server.py:86-88 | sending once to every member, all open, is a broadcast that ends normally |
| ChatServer.BroadcastStopped | chat/server.py:88 | reaching a closed member stops the broadcast with that connection's exception |
| ChatServer.StepsRelAt | chat/server.py:103-111 | every handled message of a session did what the one-message relation says |
| ChatServer.Server.constructor | chat/server.py:74-75 | a new server has no clients and has sent nothing |
| ChatServer.Server.Register | chat/server.py:77-80 | the connection joins `clients` under its new name; nothing is sent |
| ChatServer.Server.Unregister | chat/server.py:82-84 | a member leaves `clients`; a non-member raises KeyError and changes nothing |
| ChatServer.Server.SendToClients | chat/server.py:86-88 | the sends satisfy `BroadcastRel`: at most one per current member, only to open connections, all of them exactly when every member is open, otherwise stopping with a closed member's exception |
| ChatServer.Server.SendToClient | chat/server.py:90-91 | one send to `ws` if it is open, otherwise nothing sent and the connection's exception raised |
| ChatServer.Server.HandleMessage | chat/server.py:104-111 | one frame: a command replies to `ws` alone with `main_ex(days)`, chat text is broadcast as `"<name>: <message>"`, and a malformed command or a binary frame raises before sending |
| ChatServer.Server.HandleNext | chat/server.py:102-111 | one turn of the read loop: the next frame is handled, its sends are appended to the log and follow the earlier steps' sends, and the step is recorded after the earlier ones |
| ChatServer.Server.Distribute | chat/server.py:102-111 | frames, text or binary, are handled in arrival order, message `k` on the date `today(k)` and against the connection states `links(k)`; the loop goes on while steps end normally and stops at the first exception; otherwise the session ends as the inbound stream ends |
| ChatServer.Server.WsHandler | chat/server.py:93-100 | register, run the read loop, swallow ConnectionClosedOK and propagate other exceptions; on every path the connection is unregistered, and since it is still a member this raises nothing |
| ChatServer.ChatReachesEveryone | chat/server.py:110-111 | when every member is open, a chat message reaches each member exactly once, the sender included |
| ChatServer.CommandRepliesPrivately | chat/server.py:104-109 | `exchange n`, for `n` of at most 4300 digits, sends exactly one reply, to the sender, and broadcasts nothing; if every request succeeds, the reply has `max(n, 0)` lines |
| ChatServer.MalformedSendsNothing | chat/server.py:104-106 | a malformed command or a binary frame sends nothing and raises: TypeError if and only if the frame is binary, otherwise IndexError or ValueError |
| ExchangeRates.RatesMain | exchange_rates.py:40-68 | the result is one `{date: rates}` dictionary per window date whose request returned status 200, in window order |
| ExchangeRates.MainItems | exchange_rates.py:46-60 | at most `days` items; each is a single-key dictionary keyed by a window date whose request succeeded, holding that date's parsed body |
| ExchangeRates.MainNewestFirst | exchange_rates.py:46-60 | the key of a later item is a strictly earlier date |
| ExchangeRates.MainAllFail | exchange_rates.py:62-66 | when every request fails, the result is `[]` |
| ExchangeRates.Cli | exchange_rates.py:71-81 | prints the usage message if and only if no argument is given; raises ValueError if and only if `int()` rejects the argument (not an integer, or more than 4300 digits); prints the limit message if and only if it exceeds 10; otherwise prints `main(days)` |
| ExchangeRates.CliResultBounded | exchange_rates.py:76-81 | a run reaching `main` prints at most ten items, and none for a day count that is zero or negative |

## Left out

- Dates.GetDates: requires `WindowInRange`, i.e. every date of the window lies in a year from 1000 to 9999. Python's `date - timedelta` raises OverflowError before year 1. `'%Y'` writes years below 1000 in a platform-dependent way. Neither is modelled.
- ChatServer.MainEx: inherits the `WindowInRange` precondition of `GetDates`.
- ExchangeRates.RatesMain: inherits the `WindowInRange` precondition of `GetDates`.
- ExchangeRates.Cli: requires `WindowInRange(today, 10)`, so every day count the script accepts keeps the window in range.
- ChatServer.Server.HandleMessage: require every command among the messages to keep its window in range (`CommandInRange`).
- ChatServer.Server.Distribute: require every command among the messages to keep its window in range (`CommandInRange`).
- ChatServer.Server.WsHandler: require every command among the messages to keep its window in range (`CommandInRange`).
- ChatServer.Server.SendToClients: the set's iteration order is unspecified, so the contract allows every order. The send log is kept per server, not per connection object.
- Text.ParseInt: accepts only ASCII digits. Python's `int()` also accepts other Unicode decimal digits. The 4300-digit limit is the default; `sys.set_int_max_str_digits` and the interpreters before 3.11 (or 3.10.7 and 3.9.14) differ and are not modelled.
- ChatServer.Server.Distribute: connection states may change between two messages but not between two sends of one broadcast. So a member closing partway through a broadcast is not modelled, nor is the order of closes relative to individual sends.
- ChatServer.Server.WsHandler: inherits the per-message connection states of `Distribute`.
- The transport: `websockets.serve`, the `main` coroutine of the chat server (chat/server.py:114-121) and the websocket protocol. Connections are plain identifiers; their state and inbound frames are parameters.
- The HTTP client: the aiohttp session, building the URL from the date, and decoding JSON. A response is modelled as its status and its already-decoded `exchangeRate` list. Besides ClientConnectorError, other client exceptions and JSON errors are not modelled.
- A KeyError from a reply lacking the `exchangeRate` or `currency` field: the reply is assumed to have the shape `parse_data` expects.
- Answers changing over time: `upstream` is one fixed function per session.
- The rates themselves: `RateValue` keeps the JSON value opaque, with no floating point.
- The rendering of results: `str(date_dct) + '\n'` in `main_ex` and `print(result)` in the script. The reply is kept as its sequence of `{date: rates}` lines.
- Logging (`logging.info`, `logging.error`): output only.
- `names.get_full_name()` and `datetime.today()`: external, so they are parameters (the date one per message, as `today(k)`).
- `clients` being a class attribute shared by every `Server` instance: modelled as a field of the one server `main` creates.
- Interleaving between sessions on the event loop. Each session is modelled alone, with membership fixed while it runs. So the RuntimeError a set changed during the broadcast comprehension would raise is not modelled.
