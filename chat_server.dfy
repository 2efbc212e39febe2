/** chat/server.py: `main_ex`, the classification of inbound messages, and the
    `Server` class that keeps the set of connected clients and sends to them. */
module ChatServer {
  import opened Errors
  import opened Text
  import opened Calendar
  import opened Rates
  import opened Dates
  import opened Aggregate

  /** `main_ex(days)`, with "today" and the answers of the upstream API as
      parameters; the reply string is kept as its sequence of lines. */
  method MainEx(days: int, today: Date, upstream: string -> Fetch) returns (reply: seq<ReplyLine>)
    requires WindowInRange(today, days)
    ensures reply == Collect(Window(today, days), upstream)
  {
    reply := [];
    var dates := GetDates(days, today);
    var i := 0;
    while i < |dates|
      invariant 0 <= i <= |dates|
      invariant reply == Collect(dates[..i], upstream)
    {
      var date := dates[i];
      var response := upstream(date);
      assert dates[..i + 1][..i] == dates[..i];
      if response.Responded? && response.status == 200 {
        var data := ParseData(response.body);
        reply := reply + [ReplyLine(date, data)];
      }
      i := i + 1;
    }
    assert dates[..i] == dates;
  }

  // ---------------------------------------------------------------------------
  // Inbound messages

  /** What `distrubute` does with one message. */
  datatype Action =
    | Command(days: int)   // reply to the sender with `main_ex(days)`
    | ChatText             // broadcast `"<name>: <message>"`
    | Malformed(exc: Exc)  // the prefix test or `int(message.split()[1])` raised

  /** The branch `distrubute` takes: a bare prefix test, then the second
      whitespace-separated token through `int`. */
  function Classify(message: string): (a: Action)
    ensures a == ChatText <==> !StartsWith(message, "exchange")
  {
    if !StartsWith(message, "exchange") then ChatText
    else
      var tokens := Split(message);
      if |tokens| < 2 then Malformed(IndexError)
      else
        match ParseInt(tokens[1])
        case None => Malformed(ValueError)
        case Some(n) => Command(n)
  }

  /** A first word that starts with `exchange` followed by a second word: the
      second word goes through `int`. */
  lemma ClassifyTwoWords(word: string, arg: string)
    requires StartsWith(word, "exchange") && NoSpace(word) && arg != [] && NoSpace(arg)
    ensures Classify(word + " " + arg) == match ParseInt(arg)
                                         case None => Malformed(ValueError)
                                         case Some(n) => Command(n)
  {
    StartsWithConcat(word, " " + arg, "exchange");
    assert word + " " + arg == word + (" " + arg);
    SplitTwoWords(word, arg);
  }

  /** Any first word that merely starts with `exchange`, followed by an integer,
      is a command for that many days (so `"exchanges 5"` is one too). */
  lemma ClassifyCommand(word: string, n: int)
    requires StartsWith(word, "exchange") && NoSpace(word)
    requires DigitCount(ShowInt(n)) <= MaxStrDigits
    ensures Classify(word + " " + ShowInt(n)) == Command(n)
  {
    ClassifyTwoWords(word, ShowInt(n));
    ParseShowInt(n);
  }

  /** A message whose only word starts with `exchange` (such as `"exchange"` or
      `"exchange5"`) has no second token: IndexError. */
  lemma ClassifyMissingCount(word: string)
    requires StartsWith(word, "exchange") && NoSpace(word)
    ensures Classify(word) == Malformed(IndexError)
  {
    SplitWord(word);
  }

  /** A second token that is not an integer literal: ValueError, never chat. */
  lemma ClassifyBadCount(word: string, arg: string)
    requires StartsWith(word, "exchange") && NoSpace(word)
    requires arg != [] && NoSpace(arg) && ParseInt(arg).None?
    ensures Classify(word + " " + arg) == Malformed(ValueError)
  {
    ClassifyTwoWords(word, arg);
  }

  /** A message that starts with a word beginning with `exchange`, however the
      whitespace between and after its words falls: a lone word raises
      IndexError, a second word `int` rejects raises ValueError, and a second
      word `int` accepts makes a command for that many days; later words are
      ignored. */
  lemma ClassifySpaced(words: seq<string>, gaps: seq<string>)
    requires Separates(words, gaps) && gaps[0] == [] && words != [] && StartsWith(words[0], "exchange")
    ensures |words| == 1 ==> Classify(Spaced(words, gaps)) == Malformed(IndexError)
    ensures |words| >= 2 && ParseInt(words[1]).None? ==> Classify(Spaced(words, gaps)) == Malformed(ValueError)
    ensures |words| >= 2 && ParseInt(words[1]).Some? ==>
              Classify(Spaced(words, gaps)) == Command(ParseInt(words[1]).value)
  {
    var m := Spaced(words, gaps);
    assert m == gaps[0] + words[0] + Spaced(words[1..], gaps[1..]);
    assert m[..8] == words[0][..8];
    SplitSpaced(words, gaps);
  }

  /** Whitespace before the first word makes any message chat text, even
      `" exchange 5"`: the prefix test is on the raw message. */
  lemma LeadingSpaceIsChat(words: seq<string>, gaps: seq<string>)
    requires Separates(words, gaps) && gaps[0] != []
    ensures Classify(Spaced(words, gaps)) == ChatText
  {
    var m := Spaced(words, gaps);
    var g := gaps[0];
    assert IsSpace(g[0]);
    assert m == g + m[|g|..];
    assert m[0] == g[0];
    assert !StartsWith(m, "exchange") by {
      if |m| >= 8 {
        assert m[..8][0] == m[0];
      }
    }
  }

  /** An inbound frame as `async for message in ws` yields it: a `str` for a
      text frame, `bytes` for a binary one. */
  datatype Frame = TextFrame(text: string) | BinaryFrame(data: seq<bv8>)

  /** The branch `distrubute` takes for a frame. On `bytes`,
      `message.startswith('exchange')` raises TypeError, since the prefix is a
      `str`; a text frame is classified by its text. */
  function ClassifyFrame(frame: Frame): (a: Action)
    ensures a == Malformed(TypeError) <==> frame.BinaryFrame?
    ensures a == ChatText <==> frame.TextFrame? && !StartsWith(frame.text, "exchange")
  {
    match frame
    case BinaryFrame(_) => Malformed(TypeError)
    case TextFrame(message) => Classify(message)
  }

  /** A command frame keeps the date window within the years `'%Y'` renders
      with four digits. */
  predicate CommandInRange(today: Date, frame: Frame) {
    match ClassifyFrame(frame)
    case Command(d) => WindowInRange(today, d)
    case _ => true
  }

  // ---------------------------------------------------------------------------
  // Connections and sends

  /** A connection handle (the `WebSocketServerProtocol` object). */
  type ConnId = nat

  /** What the transport would do with a send on a connection right now. */
  datatype Link = Open | ClosedOK | ClosedError

  /** How the inbound stream of a connection ends: `async for` stops quietly on
      a normal close and raises on an abnormal one. */
  datatype StreamEnd = EndOK | EndError

  /** The exception a send on a closed connection raises. */
  function ClosedExc(l: Link): Exc
    requires l != Open
  {
    if l == ClosedOK then ConnectionClosedOK else ConnectionClosedError
  }

  /** A message sent: chat text, or the reply of `main_ex` (kept as its lines). */
  datatype Payload = Text(text: string) | RateReply(lines: seq<ReplyLine>)

  datatype Send = Send(to: ConnId, payload: Payload)

  function Recipients(sends: seq<Send>): set<ConnId> {
    set i | 0 <= i < |sends| :: sends[i].to
  }

  predicate Distinct(sends: seq<Send>) {
    forall i, j | 0 <= i < j < |sends| :: sends[i].to != sends[j].to
  }

  lemma RecipientsSnoc(sends: seq<Send>, s: Send)
    ensures Recipients(sends + [s]) == Recipients(sends) + {s.to}
  {
    var all := sends + [s];
    assert forall i | 0 <= i < |sends| :: all[i] == sends[i];
    assert all[|sends|] == s;
  }

  /** Sends to pairwise distinct connections reach as many connections as there are sends. */
  lemma {:induction false} DistinctRecipients(sends: seq<Send>)
    requires Distinct(sends)
    ensures |Recipients(sends)| == |sends|
  {
    if sends != [] {
      var n := |sends| - 1;
      var init := sends[..n];
      DistinctRecipients(init);
      assert sends == init + [sends[n]];
      RecipientsSnoc(init, sends[n]);
      assert sends[n].to !in Recipients(init);
    }
  }

  /** What one pass of `send_to_clients(p)` may have done: `sends` went, in
      some order, to distinct members, all of them open; the pass ends normally
      iff every member is open, and then every member got exactly one send;
      otherwise it stopped at a closed member, raising that member's exception. */
  ghost predicate BroadcastRel(members: set<ConnId>, p: Payload, links: ConnId -> Link,
                               sends: seq<Send>, r: Completion)
  {
    && Distinct(sends)
    && (forall i | 0 <= i < |sends| :: sends[i].payload == p && links(sends[i].to) == Open)
    && Recipients(sends) <= members
    && (r == Normal <==> forall c | c in members :: links(c) == Open)
    && (r == Normal ==> Recipients(sends) == members && |sends| == |members|)
    && (r != Normal ==>
          exists c | c in members - Recipients(sends) :: links(c) != Open && r == Raised(ClosedExc(links(c))))
  }

  /** With no members a pass sends nothing and ends normally (the `if
      self.clients` guard). */
  lemma BroadcastToNobody(p: Payload, links: ConnId -> Link, sends: seq<Send>, r: Completion)
    requires BroadcastRel({}, p, links, sends, r)
    ensures sends == [] && r == Normal
  {
  }

  /** A pass that sent `p` once to every member, all open, ended normally. */
  lemma BroadcastCompleted(members: set<ConnId>, p: Payload, links: ConnId -> Link, sent: seq<Send>)
    requires Distinct(sent) && Recipients(sent) == members
    requires forall i | 0 <= i < |sent| :: sent[i].payload == p && links(sent[i].to) == Open
    ensures BroadcastRel(members, p, links, sent, Normal)
  {
    DistinctRecipients(sent);
    forall c | c in members ensures links(c) == Open {
      var i :| 0 <= i < |sent| && sent[i].to == c;
    }
  }

  /** A pass that reached a closed member `c` before sending to it stopped with
      `c`'s exception. */
  lemma BroadcastStopped(members: set<ConnId>, pending: set<ConnId>, p: Payload, links: ConnId -> Link,
                         sent: seq<Send>, c: ConnId)
    requires Distinct(sent) && pending <= members && Recipients(sent) == members - pending
    requires forall i | 0 <= i < |sent| :: sent[i].payload == p && links(sent[i].to) == Open
    requires c in pending && links(c) != Open
    ensures BroadcastRel(members, p, links, sent, Raised(ClosedExc(links(c))))
  {
    assert c in members - Recipients(sent);
  }

  /** What `send_to_client(p, ws)` does: one send to `ws`, or the exception of
      its closed connection. */
  ghost predicate UnicastRel(ws: ConnId, p: Payload, links: ConnId -> Link, sends: seq<Send>, r: Completion) {
    if links(ws) == Open then sends == [Send(ws, p)] && r == Normal
    else sends == [] && r == Raised(ClosedExc(links(ws)))
  }

  /** What handling one inbound `frame` from `ws` (named `name`) does. */
  ghost predicate StepRel(members: set<ConnId>, name: string, ws: ConnId, frame: Frame, today: Date,
                          links: ConnId -> Link, upstream: string -> Fetch, sends: seq<Send>, r: Completion)
  {
    match ClassifyFrame(frame)
    case ChatText => BroadcastRel(members, Text(name + ": " + frame.text), links, sends, r)
    case Command(d) =>
      WindowInRange(today, d) && UnicastRel(ws, RateReply(Collect(Window(today, d), upstream)), links, sends, r)
    case Malformed(e) => sends == [] && r == Raised(e)
  }

  /** The first `n` steps of the read loop handled `messages` in order, step
      `k` sending `trace[k]` and ending with `results[k]` while the date was
      `today(k)` and the connections were as `links(k)` says. */
  ghost predicate StepsRel(members: set<ConnId>, name: string, ws: ConnId, messages: seq<Frame>, today: nat -> Date,
                           links: nat -> ConnId -> Link, upstream: string -> Fetch,
                           trace: seq<seq<Send>>, results: seq<Completion>, n: nat)
    requires n <= |messages| && n <= |trace| && n <= |results|
  {
    n > 0 ==>
      && StepsRel(members, name, ws, messages, today, links, upstream, trace, results, n - 1)
      && StepRel(members, name, ws, messages[n - 1], today(n - 1), links(n - 1), upstream, trace[n - 1], results[n - 1])
  }

  /** Each of the first `n` steps did what `StepRel` says. */
  lemma {:induction false} StepsRelAt(members: set<ConnId>, name: string, ws: ConnId, messages: seq<Frame>,
                                      today: nat -> Date, links: nat -> ConnId -> Link, upstream: string -> Fetch,
                                      trace: seq<seq<Send>>, results: seq<Completion>, n: nat, k: nat)
    requires n <= |messages| && n <= |trace| && n <= |results|
    requires StepsRel(members, name, ws, messages, today, links, upstream, trace, results, n)
    requires k < n
    ensures StepRel(members, name, ws, messages[k], today(k), links(k), upstream, trace[k], results[k])
  {
    if k < n - 1 {
      StepsRelAt(members, name, ws, messages, today, links, upstream, trace, results, n - 1, k);
    } else {
      StepsRelLast(members, name, ws, messages, today, links, upstream, trace, results, k);
    }
  }

  /** The last of the first `k + 1` steps did what `StepRel` says. */
  lemma StepsRelLast(members: set<ConnId>, name: string, ws: ConnId, messages: seq<Frame>,
                     today: nat -> Date, links: nat -> ConnId -> Link, upstream: string -> Fetch,
                     trace: seq<seq<Send>>, results: seq<Completion>, k: nat)
    requires k < |messages| && k < |trace| && k < |results|
    requires StepsRel(members, name, ws, messages, today, links, upstream, trace, results, k + 1)
    ensures StepRel(members, name, ws, messages[k], today(k), links(k), upstream, trace[k], results[k])
  {
  }

  /** Appending a step leaves the record of the earlier steps as it was. */
  lemma {:induction false} StepsRelSnoc(members: set<ConnId>, name: string, ws: ConnId, messages: seq<Frame>,
                                        today: nat -> Date, links: nat -> ConnId -> Link, upstream: string -> Fetch,
                                        trace: seq<seq<Send>>, results: seq<Completion>, n: nat,
                                        sends: seq<Send>, r: Completion)
    requires n <= |messages| && n <= |trace| && n <= |results|
    requires StepsRel(members, name, ws, messages, today, links, upstream, trace, results, n)
    ensures StepsRel(members, name, ws, messages, today, links, upstream, trace + [sends], results + [r], n)
  {
    if n > 0 {
      StepsRelSnoc(members, name, ws, messages, today, links, upstream, trace, results, n - 1, sends, r);
      assert (trace + [sends])[n - 1] == trace[n - 1] && (results + [r])[n - 1] == results[n - 1];
    }
  }

  /** Recording one more step that did what `StepRel` says extends the record,
      and its sends follow those of the earlier steps. */
  lemma StepsRelExtend(members: set<ConnId>, name: string, ws: ConnId, messages: seq<Frame>,
                       today: nat -> Date, links: nat -> ConnId -> Link, upstream: string -> Fetch,
                       trace: seq<seq<Send>>, results: seq<Completion>, n: nat,
                       sends: seq<Send>, r: Completion)
    requires n < |messages| && n == |trace| && n == |results|
    requires StepsRel(members, name, ws, messages, today, links, upstream, trace, results, n)
    requires StepRel(members, name, ws, messages[n], today(n), links(n), upstream, sends, r)
    ensures StepsRel(members, name, ws, messages, today, links, upstream, trace + [sends], results + [r], n + 1)
    ensures Flatten(trace + [sends]) == Flatten(trace) + sends
  {
    StepsRelSnoc(members, name, ws, messages, today, links, upstream, trace, results, n, sends, r);
    assert (trace + [sends])[n] == sends && (results + [r])[n] == r;
    assert (trace + [sends])[..n] == trace;
  }

  /** The read loop handled `messages` in order as `StepsRel` says; it went on
      while steps ended normally and stopped at the first that raised. */
  ghost predicate SessionRel(members: set<ConnId>, name: string, ws: ConnId, messages: seq<Frame>, today: nat -> Date,
                             links: nat -> ConnId -> Link, upstream: string -> Fetch,
                             trace: seq<seq<Send>>, results: seq<Completion>)
  {
    && |trace| == |results| <= |messages|
    && StepsRel(members, name, ws, messages, today, links, upstream, trace, results, |results|)
    && (forall k | 0 <= k < |results| - 1 :: results[k] == Normal)
    && (|results| < |messages| ==> |results| > 0 && results[|results| - 1].Raised?)
  }

  /** How the read loop ends: with the exception of the step that raised, or,
      once every message is handled, as the inbound stream ends. */
  function SessionResult(results: seq<Completion>, ending: StreamEnd): Completion {
    if |results| > 0 && results[|results| - 1].Raised? then results[|results| - 1]
    else if ending == EndOK then Normal
    else Raised(ConnectionClosedError)
  }

  /** All sends of a session, in order. */
  function Flatten(trace: seq<seq<Send>>): seq<Send> {
    if trace == [] then [] else Flatten(trace[..|trace| - 1]) + trace[|trace| - 1]
  }

  /** The `Server` object: the set `clients`, the `name` given to each
      connection at registration, and the log of every send it has made. */
  class Server {
    var clients: set<ConnId>
    var names: map<ConnId, string>
    var outbox: seq<Send>

    constructor ()
      ensures clients == {} && names == map[] && outbox == []
    {
      clients := {};
      names := map[];
      outbox := [];
    }

    /** `register(ws)`, with the generated full name a parameter. */
    method Register(ws: ConnId, name: string)
      modifies this
      ensures clients == old(clients) + {ws}
      ensures names == old(names)[ws := name]
      ensures outbox == old(outbox)
    {
      names := names[ws := name];
      clients := clients + {ws};
    }

    /** `unregister(ws)`: `set.remove` raises KeyError for a non-member. */
    method Unregister(ws: ConnId) returns (r: Completion)
      modifies this
      ensures ws in old(clients) ==> r == Normal && clients == old(clients) - {ws}
      ensures ws !in old(clients) ==> r == Raised(KeyError) && clients == old(clients)
      ensures names == old(names) && outbox == old(outbox)
    {
      if ws !in clients {
        return Raised(KeyError);
      }
      clients := clients - {ws};
      r := Normal;
    }

    /** `send_to_clients(message)`: one send per member, the sender included, in
      the set's iteration order; a send that raises ends the loop. */
    method SendToClients(message: Payload, links: ConnId -> Link) returns (r: Completion)
      modifies this`outbox
      ensures |old(outbox)| <= |outbox| && outbox[..|old(outbox)|] == old(outbox)
      ensures BroadcastRel(clients, message, links, outbox[|old(outbox)|..], r)
    {
      r := Normal;
      ghost var sent: seq<Send> := [];
      if clients != {} {
        var pending := clients;
        while pending != {}
          invariant pending <= clients
          invariant outbox == old(outbox) + sent
          invariant Distinct(sent)
          invariant Recipients(sent) == clients - pending
          invariant forall i | 0 <= i < |sent| :: sent[i].payload == message && links(sent[i].to) == Open
          decreases pending
        {
          var client :| client in pending;
          if links(client) != Open {
            r := Raised(ClosedExc(links(client)));
            assert outbox[|old(outbox)|..] == sent;
            BroadcastStopped(clients, pending, message, links, sent, client);
            return;
          }
          outbox := outbox + [Send(client, message)];
          RecipientsSnoc(sent, Send(client, message));
          sent := sent + [Send(client, message)];
          pending := pending - {client};
        }
      }
      assert outbox[|old(outbox)|..] == sent;
      BroadcastCompleted(clients, message, links, sent);
    }

    /** `send_to_client(message, ws)`. */
    method SendToClient(message: Payload, ws: ConnId, links: ConnId -> Link) returns (r: Completion)
      modifies this`outbox
      ensures |old(outbox)| <= |outbox| && outbox[..|old(outbox)|] == old(outbox)
      ensures UnicastRel(ws, message, links, outbox[|old(outbox)|..], r)
    {
      if links(ws) != Open {
        return Raised(ClosedExc(links(ws)));
      }
      outbox := outbox + [Send(ws, message)];
      r := Normal;
    }

    /** The body of the read loop of `distrubute(ws)` for one inbound `frame`:
      a command is answered to `ws` alone, chat text goes to every member, and
      a malformed command or a binary frame raises before anything is sent. */
    method HandleMessage(ws: ConnId, frame: Frame, today: Date,
                         links: ConnId -> Link, upstream: string -> Fetch)
      returns (step: Completion, ghost sends: seq<Send>)
      requires ws in names && CommandInRange(today, frame)
      modifies this`outbox
      ensures outbox == old(outbox) + sends
      ensures StepRel(clients, names[ws], ws, frame, today, links, upstream, sends, step)
    {
      match ClassifyFrame(frame) {
        case Command(day) =>
          var reply := MainEx(day, today, upstream);
          step := SendToClient(RateReply(reply), ws, links);
        case ChatText =>
          step := SendToClients(Text(names[ws] + ": " + frame.text), links);
        case Malformed(e) =>
          step := Raised(e);
      }
      sends := outbox[|old(outbox)|..];
      assert outbox == old(outbox) + sends;
    }

    /** `distrubute(ws)`: the read loop over the inbound frames `messages` of
      `ws`, which end as `ending` says; while message `k` is handled, `today(k)` is
      what `datetime.today()` gives and `links(k)` is the state of the
      connections, so the date may move on and a connection may close between
      two messages. */
    /** One turn of the read loop of `distrubute(ws)`: the next frame is
      handled and its step recorded after the earlier ones. */
    method HandleNext(ws: ConnId, messages: seq<Frame>, today: nat -> Date,
                      links: nat -> ConnId -> Link, upstream: string -> Fetch, i: nat,
                      ghost trace: seq<seq<Send>>, ghost results: seq<Completion>)
      returns (step: Completion, ghost sends: seq<Send>)
      requires ws in names && i == |trace| == |results| < |messages|
      requires CommandInRange(today(i), messages[i])
      requires StepsRel(clients, names[ws], ws, messages, today, links, upstream, trace, results, |trace|)
      modifies this`outbox
      ensures outbox == old(outbox) + sends && Flatten(trace + [sends]) == Flatten(trace) + sends
      ensures StepsRel(clients, names[ws], ws, messages, today, links, upstream,
                       trace + [sends], results + [step], |trace| + 1)
    {
      step, sends := HandleMessage(ws, messages[i], today(i), links(i), upstream);
      StepsRelExtend(clients, names[ws], ws, messages, today, links, upstream, trace, results, i, sends, step);
    }

    method Distribute(ws: ConnId, messages: seq<Frame>, ending: StreamEnd, today: nat -> Date,
                      links: nat -> ConnId -> Link, upstream: string -> Fetch)
      returns (r: Completion, ghost trace: seq<seq<Send>>, ghost results: seq<Completion>)
      requires ws in names
      requires forall k | 0 <= k < |messages| :: CommandInRange(today(k), messages[k])
      modifies this`outbox
      ensures outbox == old(outbox) + Flatten(trace)
      ensures SessionRel(clients, names[ws], ws, messages, today, links, upstream, trace, results)
      ensures r == SessionResult(results, ending)
    {
      trace, results := [], [];
      var i := 0;
      while i < |messages|
        invariant 0 <= i <= |messages|
        invariant |trace| == i && |results| == i
        invariant outbox == old(outbox) + Flatten(trace)
        invariant forall k | 0 <= k < i :: results[k] == Normal
        invariant StepsRel(clients, names[ws], ws, messages, today, links, upstream, trace, results, i)
      {
        var step;
        ghost var sends;
        step, sends := HandleNext(ws, messages, today, links, upstream, i, trace, results);
        trace, results := trace + [sends], results + [step];
        if step.Raised? {
          return step, trace, results;
        }
        i := i + 1;
      }
      r := if ending == EndOK then Normal else Raised(ConnectionClosedError);
    }

    /** `ws_handler(ws)`: register, run the read loop, swallow
      ConnectionClosedOK, and unregister on every exit path. */
    method WsHandler(ws: ConnId, name: string, messages: seq<Frame>, ending: StreamEnd, today: nat -> Date,
                     links: nat -> ConnId -> Link, upstream: string -> Fetch)
      returns (r: Completion, ghost trace: seq<seq<Send>>, ghost results: seq<Completion>)
      requires forall k | 0 <= k < |messages| :: CommandInRange(today(k), messages[k])
      modifies this
      ensures clients == old(clients) - {ws}
      ensures ws !in old(clients) ==> clients == old(clients)
      ensures names == old(names)[ws := name]
      ensures outbox == old(outbox) + Flatten(trace)
      ensures SessionRel(old(clients) + {ws}, name, ws, messages, today, links, upstream, trace, results)
      ensures r == if SessionResult(results, ending) == Raised(ConnectionClosedOK) then Normal
                   else SessionResult(results, ending)
    {
      Register(ws, name);
      var outcome;
      outcome, trace, results := Distribute(ws, messages, ending, today, links, upstream);
      if outcome == Raised(ConnectionClosedOK) {
        r := Normal;
      } else {
        r := outcome;
      }
      var unregistered := Unregister(ws);
      assert unregistered == Normal;  // `ws` is still a member, so the `finally` raises nothing
    }
  }

  // ---------------------------------------------------------------------------
  // What the relations promise

  /** A chat message reaches every member exactly once, the sender included,
      when every member is open. */
  lemma ChatReachesEveryone(members: set<ConnId>, name: string, ws: ConnId, message: string, today: Date,
                            links: ConnId -> Link, upstream: string -> Fetch, sends: seq<Send>, r: Completion)
    requires !StartsWith(message, "exchange")
    requires StepRel(members, name, ws, TextFrame(message), today, links, upstream, sends, r)
    requires forall c | c in members :: links(c) == Open
    ensures r == Normal && |sends| == |members|
    ensures forall c | c in members :: Send(c, Text(name + ": " + message)) in sends
  {
    forall c | c in members ensures Send(c, Text(name + ": " + message)) in sends {
      assert c in Recipients(sends);
    }
  }

  /** `"<word> <n>"` with `word` starting with `exchange` sends exactly one
      reply, to the sender only, and broadcasts nothing; when every request
      succeeds the reply has one line per requested day, today first. */
  lemma CommandRepliesPrivately(members: set<ConnId>, name: string, ws: ConnId, word: string, n: int,
                                today: Date, links: ConnId -> Link, upstream: string -> Fetch,
                                sends: seq<Send>, r: Completion)
    requires StartsWith(word, "exchange") && NoSpace(word) && DigitCount(ShowInt(n)) <= MaxStrDigits
    requires StepRel(members, name, ws, TextFrame(word + " " + ShowInt(n)), today, links, upstream, sends, r)
    requires links(ws) == Open
    ensures WindowInRange(today, n)
    ensures r == Normal && sends == [Send(ws, RateReply(Collect(Window(today, n), upstream)))]
    ensures (forall i | 0 <= i < Count(n) :: Succeeded(upstream(Window(today, n)[i]))) ==>
              |Collect(Window(today, n), upstream)| == Count(n)
  {
    ClassifyCommand(word, n);
    if forall i | 0 <= i < Count(n) :: Succeeded(upstream(Window(today, n)[i])) {
      CollectAllSucceed(Window(today, n), upstream);
    }
  }

  /** A malformed command or a binary frame sends nothing and ends the session
      with its exception: TypeError exactly for a binary frame, otherwise
      IndexError or ValueError. */
  lemma MalformedSendsNothing(members: set<ConnId>, name: string, ws: ConnId, frame: Frame, today: Date,
                              links: ConnId -> Link, upstream: string -> Fetch, sends: seq<Send>, r: Completion)
    requires ClassifyFrame(frame).Malformed?
    requires StepRel(members, name, ws, frame, today, links, upstream, sends, r)
    ensures sends == [] && r.Raised? && r.exc in {IndexError, ValueError, TypeError}
    ensures r == Raised(TypeError) <==> frame.BinaryFrame?
  {
  }
}
