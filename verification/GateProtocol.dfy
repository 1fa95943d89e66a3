/**
  * The gates and the server as one state machine: gates send requests, the server takes them in turn, and gates
  * fetch replies in any order. Every run keeps each reply with its own request, at the gate that sent it.
  */
module GateProtocol {
  import opened Options
  import opened Text
  import opened Messages

  datatype Request = Request(number: string, action: string, body: string)

  /** The text of a request, and the identifier that the gate then waits for: its second field. */
  function CallText(r: Request): string {
    AddBase(r.body, CALL, r.action, r.number, "")
  }

  function ReplyText(answer: string, messageId: string): string {
    AddBase(answer, RESPOND, "", "", messageId)
  }

  predicate Sendable(r: Request) {
    ',' !in r.number && ',' !in r.action && '#' !in r.number && '#' !in r.action && '#' !in r.body
  }

  /** What the connection hands to `AddMessage`. */
  function Raw(origin: string, uri: string, payload: string): string {
    origin + "#" + uri + "#" + payload
  }

  function Deliver(q: Queues, raw: string): Option<Queues> {
    if |Split(raw, '#')| < 3 then None else Some(Added(q, raw))
  }

  // ----- One message -----

  lemma RawItems(origin: string, uri: string, payload: string)
    requires '#' !in origin && '#' !in uri
    ensures Split(Raw(origin, uri, payload), '#') == [origin, uri] + Split(payload, '#')
  {
    assert Raw(origin, uri, payload) == origin + ['#'] + (uri + ['#'] + payload);
    hide *;
    SplitFirst(origin, '#', uri + ['#'] + payload);
    SplitFirst(uri, '#', payload);
  }

  /** A payload arrives whole exactly when it holds no `#`. */
  lemma DeliveredWhole(origin: string, uri: string, payload: string)
    requires '#' !in origin && '#' !in uri
    ensures |Split(Raw(origin, uri, payload), '#')| >= 3
    ensures Split(Raw(origin, uri, payload), '#')[2] == payload <==> '#' !in payload
  {
    RawItems(origin, uri, payload);
    hide Split, Raw;
    if '#' !in payload { SplitSingle(payload, '#'); }
    assert '#' !in Split(payload, '#')[0];
  }

  lemma CleanCall(r: Request)
    requires Sendable(r)
    ensures '#' !in CallText(r)
  {
  }

  lemma CleanReply(answer: string, messageId: string)
    requires '#' !in answer && '#' !in messageId
    ensures '#' !in ReplyText(answer, messageId)
  {
  }

  lemma CleanQuoted(s: string)
    ensures '#' in Quoted(s) <==> '#' in s
    ensures ',' in Quoted(s) <==> ',' in s
  {
    assert forall i :: 0 <= i < |s| ==> Quoted(s)[i + 1] == s[i];
  }

  /** The message type is the digit after the opening bracket. */
  lemma FirstField(digit: char, rest: string)
    requires digit != ','
    ensures Split(Inside("[" + [digit] + [','] + rest + "]"), ',')[0] == [digit]
  {
    var text := "[" + [digit] + [','] + rest + "]";
    assert Inside(text) == [digit] + [','] + rest;
    hide *;
    SplitFirst([digit], ',', rest);
  }

  lemma CallType(r: Request)
    ensures CallText(r) != "" && Split(Inside(CallText(r)), ',')[0] == "0"
  {
    var rest := "\"" + r.number + "\",\"" + r.action + "\"," + r.body;
    assert CallText(r) == "[" + ['0'] + [','] + rest + "]";
    hide *;
    FirstField('0', rest);
  }

  lemma ReplyType(answer: string, messageId: string)
    ensures ReplyText(answer, messageId) != "" && Split(Inside(ReplyText(answer, messageId)), ',')[0] == "1"
  {
    var rest := "\"" + messageId + "\"," + answer;
    assert ReplyText(answer, messageId) == "[" + ['1'] + [','] + rest + "]";
    hide *;
    FirstField('1', rest);
  }

  lemma CallDelivered(q: Queues, uri: string, r: Request)
    requires '#' !in uri && Sendable(r)
    ensures Deliver(q, Raw("Server", uri, CallText(r))) ==
            Some(q.(calls := q.calls + [WSMessage("Server", uri, CallText(r))]))
  {
    CleanCall(r);
    CallType(r);
    hide Split, Raw, CallText, Inside;
    RawItems("Server", uri, CallText(r));
    SplitSingle(CallText(r), '#');
  }

  /** A gate is a local controller: what it receives is labelled `LC`. */
  lemma ReplyDelivered(q: Queues, name: string, answer: string, messageId: string)
    requires '#' !in name && '#' !in answer && '#' !in messageId
    ensures Deliver(q, Raw("LC", name, ReplyText(answer, messageId))) ==
            Some(q.(results := q.results + [WSMessage("LC", name, ReplyText(answer, messageId))]))
  {
    CleanReply(answer, messageId);
    ReplyType(answer, messageId);
    hide Split, Raw, ReplyText, Inside;
    RawItems("LC", name, ReplyText(answer, messageId));
    SplitSingle(ReplyText(answer, messageId), '#');
  }

  /** A message is queued by the type in front of its first comma: calls are 0, replies 1, and any other is dropped. */
  lemma TypeRoutes(q: Queues, origin: string, uri: string, messageType: string, rest: string)
    requires '#' !in origin && '#' !in uri && '#' !in messageType && '#' !in rest && ',' !in messageType
    ensures var m := WSMessage(origin, uri, "[" + messageType + [','] + rest + "]");
            Deliver(q, Raw(origin, uri, m.payload)) ==
            Some(if messageType == "0" then q.(calls := q.calls + [m])
                 else if messageType == "1" then q.(results := q.results + [m])
                 else q)
    ensures Deliver(q, Raw(origin, uri, "")) == Some(q)
  {
    var payload := "[" + messageType + [','] + rest + "]";
    assert Inside(payload) == messageType + [','] + rest;
    assert '#' !in payload;
    hide Split, Raw, Inside;
    SplitFirst(messageType, ',', rest);
    RawItems(origin, uri, payload);
    SplitSingle(payload, '#');
    RawItems(origin, uri, "");
    SplitSingle("", '#');
  }

  /** The identifier the gate waits for. */
  function GateId(r: Request): Option<string> {
    var items := Split(CallText(r), ',');
    if |items| < 2 then None else Some(items[1])
  }

  lemma GateIdIsQuoted(r: Request)
    requires ',' !in r.number
    ensures GateId(r) == Some(Quoted(r.number))
  {
    CallFields(r.body, r.action, r.number, "");
    QuotedField(r.number);
    hide Split, AddBase;
  }

  /** The reply that the server builds with the identifier it extracted is matched by that same identifier. */
  lemma KeyOfReply(origin: string, uri: string, answer: string, messageId: string)
    requires ',' !in messageId && messageId != ""
    ensures Key(WSMessage(origin, uri, ReplyText(answer, messageId))) == Some(messageId)
  {
    ResponseFields(answer, "", "", messageId);
    QuotedField(messageId);
    assert Quoted(messageId)[1..|messageId| + 1] == messageId;
    hide Split, AddBase;
  }

  // ----- The state machine -----

  /** `uri` and `name` label the two ends of its connection; `waiting` says which requests its queued replies answer. */
  datatype Gate = Gate(uri: string, name: string, queues: Queues, waiting: seq<nat>)

  datatype Call = Call(gate: nat, request: Request)

  /**
    * `sent` are the requests of all gates in the order they arrived at the server, `answers` the bodies that the
    * server replied with so far, and `received` the requests whose replies were fetched.
    */
  datatype System = System(gates: seq<Gate>, server: Queues, sent: seq<Call>, answers: seq<Option<string>>, received: set<nat>)

  datatype Event =
    | Send(gate: nat, request: Request)
    | Serve(answer: string)
    | Fetch(index: nat)

  /** No text holds the separators of the envelopes. */
  predicate Enabled(s: System, e: Event) {
    match e
    case Send(g, r) => g < |s.gates| && Sendable(r)
    case Serve(answer) => s.server.calls != [] && '#' !in answer
    case Fetch(i) => i < |s.sent|
  }

  predicate Contains(s: string, part: string) {
    part <= s || (s != "" && Contains(s[1..], part))
  }

  /** The actions that the server replies to; for others it writes a log message. */
  predicate Handled(field: string) {
    || Contains(field, Quoted("GateRegistration"))
    || Contains(field, Quoted("CarStatusUpdate"))
    || Contains(field, Quoted("CarEnterence"))
  }

  /** The connection with a URI. */
  function GateAt(gates: seq<Gate>, uri: string): (g: nat)
    ensures g <= |gates| && (g < |gates| ==> gates[g].uri == uri)
    ensures forall k :: 0 <= k < g ==> gates[k].uri != uri
  {
    if gates == [] || gates[0].uri == uri then 0 else 1 + GateAt(gates[1..], uri)
  }

  function Sent(s: System, g: nat, r: Request): Option<System> {
    if g >= |s.gates| then None
    else
      match Deliver(s.server, Raw("Server", s.gates[g].uri, CallText(r)))
      case None => None
      case Some(q) => Some(s.(server := q, sent := s.sent + [Call(g, r)]))
  }

  /** The server takes the first call, and replies to its sender with the identifier it extracts from it. */
  function Served(s: System, answer: string): Option<System> {
    if s.server.calls == [] then None
    else
      var m := s.server.calls[0];
      var fields := Split(m.payload, ',');
      if |fields| < 3 then None
      else if m.origin != "Server" || !Handled(fields[2]) then Some(NotAnswered(s))
      else
        match Extracted(m.payload, CALL)
        case None => None
        case Some(call) => Replied(s, GateAt(s.gates, m.uri), answer, call.messageId)
  }

  function NotAnswered(s: System): System
    requires s.server.calls != []
  {
    s.(server := s.server.(calls := s.server.calls[1..]), answers := s.answers + [None])
  }

  function Replied(s: System, g: nat, answer: string, messageId: string): Option<System>
    requires s.server.calls != []
  {
    if g >= |s.gates| then Some(NotAnswered(s))
    else
      var gate := s.gates[g];
      match Deliver(gate.queues, Raw("LC", gate.name, ReplyText(answer, messageId)))
      case None => None
      case Some(q) =>
        Some(s.(server := s.server.(calls := s.server.calls[1..]), answers := s.answers + [Some(answer)],
                gates := s.gates[g := gate.(queues := q, waiting := gate.waiting + [|s.answers|])]))
  }

  /** The gate that sent request `i` looks once for a reply to it. */
  function Fetched(s: System, i: nat): Option<System> {
    if i >= |s.sent| || s.sent[i].gate >= |s.gates| then None
    else
      var g := s.sent[i].gate;
      var gate := s.gates[g];
      match GateId(s.sent[i].request)
      case None => None
      case Some(messageId) =>
        var p := Poll(gate.queues.results, messageId, []);
        match p.outcome
        case Undefined => None
        case Timeout => Some(s)
        case Response(_) =>
          var k := Scan(gate.queues.results, messageId);
          if k >= |gate.waiting| then None else Some(Taken(s, g, k, p.results))
  }

  function Taken(s: System, g: nat, k: nat, results: seq<WSMessage>): System
    requires g < |s.gates| && k < |s.gates[g].waiting|
  {
    var gate := s.gates[g];
    s.(gates := s.gates[g := gate.(queues := gate.queues.(results := results),
                                   waiting := gate.waiting[..k] + gate.waiting[k + 1..])],
       received := s.received + {gate.waiting[k]})
  }

  /** None is a step whose outcome the program does not define. */
  function Step(s: System, e: Event): Option<System> {
    match e
    case Send(g, r) => Sent(s, g, r)
    case Serve(answer) => Served(s, answer)
    case Fetch(i) => Fetched(s, i)
  }

  predicate AtStart(s: System) {
    && Connected(s.gates) && s.server == Queues([], []) && s.sent == [] && s.answers == [] && s.received == {}
    && forall g :: 0 <= g < |s.gates| ==> s.gates[g].queues == Queues([], []) && s.gates[g].waiting == []
  }

  // ----- What every run keeps -----

  /** Every gate has a connection of its own. */
  predicate Connected(gates: seq<Gate>) {
    && (forall g, h :: 0 <= g < h < |gates| ==> gates[g].uri != gates[h].uri)
    && (forall g :: 0 <= g < |gates| ==> '#' !in gates[g].uri && '#' !in gates[g].name)
  }

  predicate Labelled(s: System) {
    && Connected(s.gates)
    && (forall k :: 0 <= k < |s.sent| ==> s.sent[k].gate < |s.gates| && Sendable(s.sent[k].request))
    && (forall k :: 0 <= k < |s.answers| && s.answers[k].Some? ==> '#' !in s.answers[k].value)
  }

  function CallMessage(s: System, i: nat): WSMessage
    requires i < |s.sent| && s.sent[i].gate < |s.gates|
  {
    WSMessage("Server", s.gates[s.sent[i].gate].uri, CallText(s.sent[i].request))
  }

  /** The calls in the server's queue are the requests not yet taken, in the order they were sent. */
  predicate CallsInOrder(s: System)
    requires Labelled(s)
  {
    && |s.answers| + |s.server.calls| == |s.sent|
    && (forall k {:trigger s.server.calls[k]} :: 0 <= k < |s.server.calls| ==>
                 s.server.calls[k] == CallMessage(s, |s.answers| + k))
  }

  function ReplyMessage(name: string, answer: string, r: Request): WSMessage {
    WSMessage("LC", name, ReplyText(answer, Quoted(r.number)))
  }

  /** A reply that the server sent to gate `g` for request `w`. */
  predicate RepliedTo(s: System, g: nat, w: nat) {
    w < |s.answers| && w < |s.sent| && s.sent[w].gate == g && s.answers[w].Some?
  }

  /** Each reply in the queue of gate `g` holds the answer to the request it belongs to. */
  predicate QueueMatches(s: System, g: nat)
    requires g < |s.gates|
  {
    var gate := s.gates[g];
    && |gate.queues.results| == |gate.waiting|
    && forall k :: 0 <= k < |gate.waiting| ==>
         && RepliedTo(s, g, gate.waiting[k])
         && gate.queues.results[k] ==
            ReplyMessage(gate.name, s.answers[gate.waiting[k]].value, s.sent[gate.waiting[k]].request)
  }

  predicate RepliesMatch(s: System) {
    forall g :: 0 <= g < |s.gates| ==> QueueMatches(s, g)
  }

  predicate Increasing(list: seq<nat>) {
    forall j, k :: 0 <= j < k < |list| ==> list[j] < list[k]
  }

  /** Every reply is either queued once, in the order of the requests, or was fetched, never both. */
  ghost predicate EachOnce(s: System) {
    && (forall g :: 0 <= g < |s.gates| ==> Increasing(s.gates[g].waiting))
    && (forall g: nat, i: nat :: g < |s.gates| && RepliedTo(s, g, i) ==> (i in s.gates[g].waiting <==> i !in s.received))
    && (forall i :: i in s.received ==> i < |s.answers| && s.answers[i].Some?)
  }

  ghost predicate Consistent(s: System) {
    Labelled(s) && CallsInOrder(s) && RepliesMatch(s) && EachOnce(s)
  }

  // ----- Sending -----

  lemma SendKeeps(s: System, g: nat, r: Request)
    requires Consistent(s) && Enabled(s, Send(g, r))
    ensures Sent(s, g, r).Some? && Consistent(Sent(s, g, r).value)
  {
    CallDelivered(s.server, s.gates[g].uri, r);
    hide CallText, Raw, Deliver, ReplyText, Sendable, QueueMatches, Increasing, RepliedTo, Labelled, CallsInOrder, EachOnce;
    var t := Sent(s, g, r).value;
    SentCalls(s, t, g, r);
    forall h | 0 <= h < |t.gates|
      ensures QueueMatches(t, h)
    {
      SentReplies(s, t, h);
    }
    SentOnce(s, t);
  }

  lemma SentCalls(s: System, t: System, g: nat, r: Request)
    requires Labelled(s) && CallsInOrder(s) && g < |s.gates| && Sendable(r)
    requires t.gates == s.gates && t.answers == s.answers && t.sent == s.sent + [Call(g, r)]
    requires t.server.calls == s.server.calls + [WSMessage("Server", s.gates[g].uri, CallText(r))]
    ensures Labelled(t) && CallsInOrder(t)
  {
    hide CallText, Sendable, Connected;
  }

  lemma SentReplies(s: System, t: System, g: nat)
    requires g < |s.gates| && QueueMatches(s, g) && t.gates == s.gates && t.answers == s.answers && s.sent <= t.sent
    ensures QueueMatches(t, g)
  {
    hide ReplyMessage;
  }

  lemma SentOnce(s: System, t: System)
    requires EachOnce(s) && t.gates == s.gates && t.answers == s.answers && t.received == s.received
    requires |s.answers| <= |s.sent| && s.sent <= t.sent
    ensures EachOnce(t)
  {
    hide Increasing;
    forall g: nat, i: nat | g < |t.gates| && RepliedTo(t, g, i)
      ensures i in t.gates[g].waiting <==> i !in t.received
    {
      assert RepliedTo(s, g, i);
    }
  }

  // ----- Serving -----

  /** The server works on the oldest request not yet taken and sees its number, action and body unchanged. */
  lemma ServerSees(s: System)
    requires Consistent(s) && s.server.calls != []
    ensures |s.answers| < |s.sent|
    ensures var call := s.sent[|s.answers|];
            var r := call.request;
            var m := s.server.calls[0];
            && call.gate < |s.gates| && m.origin == "Server" && m.uri == s.gates[call.gate].uri
            && Extracted(m.payload, CALL) == Some(Incoming(Quoted(r.number), r.body))
            && |Split(m.payload, ',')| > 2 && Split(m.payload, ',')[2] == Quoted(r.action)
  {
    hide RepliesMatch, EachOnce;
    var r := s.sent[|s.answers|].request;
    assert s.server.calls[0] == CallMessage(s, |s.answers| + 0);
    SeesRequest(r);
  }

  lemma SeesRequest(r: Request)
    requires Sendable(r)
    ensures Extracted(CallText(r), CALL) == Some(Incoming(Quoted(r.number), r.body))
    ensures |Split(CallText(r), ',')| > 2 && Split(CallText(r), ',')[2] == Quoted(r.action)
  {
    CallRecovered(r.body, r.action, r.number, "");
    CallFields(r.body, r.action, r.number, "");
    QuotedField(r.number);
    QuotedField(r.action);
    hide Split, Extracted, AddBase, Quoted;
  }

  /** The reply goes to the gate that sent the request. */
  lemma SenderFound(gates: seq<Gate>, g: nat)
    requires Connected(gates) && g < |gates|
    ensures GateAt(gates, gates[g].uri) == g
  {
  }

  lemma ServeKeeps(s: System, answer: string)
    requires Consistent(s) && Enabled(s, Serve(answer))
    ensures Served(s, answer).Some? && Consistent(Served(s, answer).value)
  {
    ServerSees(s);
    hide CallText, Raw, Deliver, ReplyText, Extracted, Quoted, Sendable, Split, Handled, QueueMatches, EachOnce;
    var call := s.sent[|s.answers|];
    if Handled(Quoted(call.request.action)) {
      SenderFound(s.gates, call.gate);
      RepliedKeeps(s, answer);
    } else {
      NotAnsweredKeeps(s);
    }
  }

  lemma NotAnsweredKeeps(s: System)
    requires Consistent(s) && s.server.calls != []
    ensures Consistent(NotAnswered(s))
  {
    hide CallMessage, Sendable, QueueMatches, EachOnce;
    var t := NotAnswered(s);
    TakenCalls(s, t);
    forall g | 0 <= g < |t.gates|
      ensures QueueMatches(t, g)
    {
      AnsweredReplies(s, t, g);
    }
    NotAnsweredOnce(s, t);
  }

  lemma NotAnsweredOnce(s: System, t: System)
    requires EachOnce(s) && t.gates == s.gates && t.answers == s.answers + [None] && t.received == s.received && t.sent == s.sent
    ensures EachOnce(t)
  {
    hide Increasing;
    forall g: nat, i: nat | g < |t.gates| && RepliedTo(t, g, i)
      ensures i in t.gates[g].waiting <==> i !in t.received
    {
      assert RepliedTo(s, g, i);
    }
  }

  lemma RepliedKeeps(s: System, answer: string)
    requires Consistent(s) && Enabled(s, Serve(answer)) && |s.answers| < |s.sent|
    ensures var call := s.sent[|s.answers|];
            var t := Replied(s, call.gate, answer, Quoted(call.request.number));
            t.Some? && Consistent(t.value)
  {
    var n := |s.answers|;
    var g, r := s.sent[n].gate, s.sent[n].request;
    var gate := s.gates[g];
    CleanQuoted(r.number);
    ReplyDelivered(gate.queues, gate.name, answer, Quoted(r.number));
    hide CallMessage, Raw, Deliver, ReplyText, Quoted, Sendable, QueueMatches, EachOnce;
    var t := Replied(s, g, answer, Quoted(r.number)).value;
    TakenCalls(s, t);
    forall h | 0 <= h < |t.gates|
      ensures QueueMatches(t, h)
    {
      if h == g { RepliedMatches(s, t, g, answer); } else { AnsweredReplies(s, t, h); }
    }
    RepliedOnce(s, t, g);
  }

  predicate SameEnds(s: seq<Gate>, t: seq<Gate>) {
    |s| == |t| && forall g :: 0 <= g < |s| ==> s[g].uri == t[g].uri && s[g].name == t[g].name
  }

  /** One call is taken. */
  lemma TakenCalls(s: System, t: System)
    requires Labelled(s) && CallsInOrder(s) && s.server.calls != [] && SameEnds(s.gates, t.gates)
    requires t.sent == s.sent && |t.answers| == |s.answers| + 1 && s.answers <= t.answers
    requires t.answers[|s.answers|].Some? ==> '#' !in t.answers[|s.answers|].value
    requires t.server.calls == s.server.calls[1..]
    ensures Labelled(t) && CallsInOrder(t)
  {
    hide CallText, Sendable;
    assert Labelled(t);
    forall k | 0 <= k < |t.server.calls|
      ensures t.server.calls[k] == CallMessage(t, |t.answers| + k)
    {
      assert t.server.calls[k] == s.server.calls[k + 1];
      assert |t.answers| + k == |s.answers| + (k + 1);
    }
  }

  /** A further answer leaves the queue of another gate as it is. */
  lemma AnsweredReplies(s: System, t: System, g: nat)
    requires g < |s.gates| && QueueMatches(s, g) && g < |t.gates| && t.gates[g] == s.gates[g]
    requires t.sent == s.sent && s.answers <= t.answers
    ensures QueueMatches(t, g)
  {
    hide ReplyMessage;
  }

  lemma RepliedMatches(s: System, t: System, g: nat, answer: string)
    requires g < |s.gates| && QueueMatches(s, g) && RepliedTo(t, g, |s.answers|)
    requires g < |t.gates| && t.gates[g].name == s.gates[g].name && t.sent == s.sent && t.answers == s.answers + [Some(answer)]
    requires t.gates[g].waiting == s.gates[g].waiting + [|s.answers|]
    requires t.gates[g].queues.results ==
             s.gates[g].queues.results + [ReplyMessage(s.gates[g].name, answer, s.sent[|s.answers|].request)]
    ensures QueueMatches(t, g)
  {
    hide ReplyMessage;
    var was, now := s.gates[g], t.gates[g];
    forall k | 0 <= k < |was.waiting|
      ensures RepliedTo(t, g, now.waiting[k])
      ensures now.queues.results[k] == ReplyMessage(now.name, t.answers[now.waiting[k]].value, t.sent[now.waiting[k]].request)
    {
      assert now.waiting[k] == was.waiting[k] && now.queues.results[k] == was.queues.results[k];
      assert RepliedTo(s, g, was.waiting[k]);
    }
  }

  lemma RepliedOnce(s: System, t: System, g: nat)
    requires RepliesMatch(s) && EachOnce(s) && g < |s.gates| && |s.answers| < |s.sent| && s.sent[|s.answers|].gate == g
    requires t.sent == s.sent && t.received == s.received && |t.answers| == |s.answers| + 1 && s.answers <= t.answers
    requires |t.gates| == |s.gates| && t.gates == s.gates[g := t.gates[g]] && t.gates[g].waiting == s.gates[g].waiting + [|s.answers|]
    ensures EachOnce(t)
  {
    var n := |s.answers|;
    assert QueueMatches(s, g);
    LaterComes(s.gates[g].waiting, n);
    hide Increasing, QueueMatches;
    forall h: nat, i: nat | h < |t.gates| && RepliedTo(t, h, i)
      ensures i in t.gates[h].waiting <==> i !in t.received
    {
      if i < n { assert RepliedTo(s, h, i); }
    }
  }

  lemma LaterComes(list: seq<nat>, n: nat)
    requires Increasing(list) && forall k :: 0 <= k < |list| ==> list[k] < n
    ensures Increasing(list + [n])
  {
  }

  // ----- Fetching -----

  /** The first request in a list that has a number. */
  function FirstWith(sent: seq<Call>, waiting: seq<nat>, number: string): (k: nat)
    requires forall k :: 0 <= k < |waiting| ==> waiting[k] < |sent|
    ensures k <= |waiting| && (k < |waiting| ==> sent[waiting[k]].request.number == number)
    ensures forall j :: 0 <= j < k ==> sent[waiting[j]].request.number != number
  {
    if waiting == [] || sent[waiting[0]].request.number == number then 0 else 1 + FirstWith(sent, waiting[1..], number)
  }

  lemma WaitingSent(s: System, g: nat)
    requires g < |s.gates| && QueueMatches(s, g)
    ensures forall k :: 0 <= k < |s.gates[g].waiting| ==> s.gates[g].waiting[k] < |s.sent| && RepliedTo(s, g, s.gates[g].waiting[k])
  {
  }

  /** The reply that is found is the first one queued that answers a request with the same number. */
  lemma ScanFinds(s: System, i: nat)
    requires Consistent(s) && i < |s.sent|
    ensures s.sent[i].gate < |s.gates|
    ensures var gate := s.gates[s.sent[i].gate];
            && (forall k :: 0 <= k < |gate.waiting| ==> gate.waiting[k] < |s.sent|)
            && |gate.waiting| == |gate.queues.results|
            && Scan(gate.queues.results, Quoted(s.sent[i].request.number)) ==
               FirstWith(s.sent, gate.waiting, s.sent[i].request.number)
            && forall k :: 0 <= k < |gate.queues.results| ==> Key(gate.queues.results[k]).Some?
  {
    var g, number := s.sent[i].gate, s.sent[i].request.number;
    assert QueueMatches(s, g);
    WaitingSent(s, g);
    hide Consistent, QueueMatches, Key, Quoted, RepliedTo;
    var gate := s.gates[g];
    forall k | 0 <= k < |gate.waiting|
      ensures Key(gate.queues.results[k]) == Some(Quoted(s.sent[gate.waiting[k]].request.number))
      ensures Key(gate.queues.results[k]) == Some(Quoted(number)) <==> s.sent[gate.waiting[k]].request.number == number
    {
      KeyOfQueued(s, g, k);
      QuotedInjective(s.sent[gate.waiting[k]].request.number, number);
    }
    var j, k := FirstWith(s.sent, gate.waiting, number), Scan(gate.queues.results, Quoted(number));
    assert k < |gate.waiting| ==> j <= k;
    assert j < |gate.waiting| ==> k <= j;
  }

  lemma KeyOfQueued(s: System, g: nat, k: nat)
    requires Labelled(s) && g < |s.gates| && QueueMatches(s, g) && k < |s.gates[g].waiting|
    ensures s.gates[g].waiting[k] < |s.sent|
    ensures Key(s.gates[g].queues.results[k]) == Some(Quoted(s.sent[s.gates[g].waiting[k]].request.number))
  {
    var gate := s.gates[g];
    var w := gate.waiting[k];
    assert RepliedTo(s, g, w);
    var r := s.sent[w].request;
    assert Sendable(r);
    CleanQuoted(r.number);
    hide Key, ReplyText;
    KeyOfReply("LC", gate.name, s.answers[w].value, Quoted(r.number));
    assert gate.queues.results[k] == ReplyMessage(gate.name, s.answers[w].value, r);
  }

  lemma QuotedInjective(a: string, b: string)
    ensures Quoted(a) == Quoted(b) <==> a == b
  {
    assert Quoted(a)[1..|Quoted(a)| - 1] == a;
    assert Quoted(b)[1..|Quoted(b)| - 1] == b;
  }

  /** A reply that a fetch for request `i` can be given: one that the same gate has not fetched, to the same number. */
  predicate Matches(s: System, i: nat, j: nat)
    requires i < |s.sent|
  {
    RepliedTo(s, s.sent[i].gate, j) && j !in s.received && s.sent[j].request.number == s.sent[i].request.number
  }

  /** The first one of them, or none. */
  lemma FirstMatch(s: System, i: nat)
    requires Consistent(s) && i < |s.sent|
    ensures s.sent[i].gate < |s.gates|
    ensures var waiting := s.gates[s.sent[i].gate].waiting;
            && (forall k :: 0 <= k < |waiting| ==> waiting[k] < |s.sent|)
            && var k := FirstWith(s.sent, waiting, s.sent[i].request.number);
            if k < |waiting| then Matches(s, i, waiting[k]) && forall j: nat :: j < waiting[k] ==> !Matches(s, i, j)
            else forall j: nat :: !Matches(s, i, j)
  {
    var g, number := s.sent[i].gate, s.sent[i].request.number;
    var waiting := s.gates[g].waiting;
    assert QueueMatches(s, g);
    WaitingSent(s, g);
    hide Labelled, CallsInOrder, RepliesMatch, QueueMatches, RepliedTo;
    var k := FirstWith(s.sent, waiting, number);
    assert k < |waiting| ==> waiting[k] in waiting;
    forall j: nat | Matches(s, i, j)
      ensures k < |waiting| && waiting[k] <= j
    {
      assert j in waiting;
      var x :| 0 <= x < |waiting| && waiting[x] == j;
      assert x >= k;
    }
  }

  /** What a fetch gives: the body of the first answer to that number that the gate has not fetched, or nothing. */
  lemma FetchGetsAnswer(s: System, i: nat)
    requires Consistent(s) && i < |s.sent|
    ensures s.sent[i].gate < |s.gates| && GateId(s.sent[i].request).Some?
    ensures var results := s.gates[s.sent[i].gate].queues.results;
            var p := Poll(results, GateId(s.sent[i].request).value, []);
            || (p.outcome == Timeout && p.results == results && forall j: nat :: !Matches(s, i, j))
            || (exists j: nat :: Matches(s, i, j) && (forall k: nat :: k < j ==> !Matches(s, i, k))
                 && Gives(p.outcome, s.answers[j].value))
  {
    assert Sendable(s.sent[i].request);
    GateIdIsQuoted(s.sent[i].request);
    ScanFinds(s, i);
    FirstMatch(s, i);
    var g, number := s.sent[i].gate, s.sent[i].request.number;
    var gate := s.gates[g];
    var k := Scan(gate.queues.results, Quoted(number));
    assert QueueMatches(s, g);
    hide Consistent, Gives, ReplyMessage, Matches, GateId, Key, Quoted, QueueMatches;
    if k < |gate.waiting| { ReplyGives(s, g, k); }
  }

  /** A fetch that delivers a body. */
  predicate Gives(outcome: Outcome, body: string) {
    && outcome.Response? && Extracted(outcome.payload, RESPOND).Some?
    && Extracted(outcome.payload, RESPOND).value.body == body
  }

  lemma ReplyGives(s: System, g: nat, k: nat)
    requires Labelled(s) && g < |s.gates| && QueueMatches(s, g) && k < |s.gates[g].waiting|
    ensures RepliedTo(s, g, s.gates[g].waiting[k])
    ensures Gives(Response(s.gates[g].queues.results[k].payload), s.answers[s.gates[g].waiting[k]].value)
  {
    var w := s.gates[g].waiting[k];
    assert RepliedTo(s, g, w);
    var r, answer := s.sent[w].request, s.answers[w].value;
    assert Sendable(r);
    CleanQuoted(r.number);
    ResponseRecovered(answer, "", "", Quoted(r.number));
    hide Extracted, AddBase;
    assert s.gates[g].queues.results[k] == ReplyMessage(s.gates[g].name, answer, r);
  }

  /** A fetch takes the first matching reply, if there is one, and keeps all others. */
  lemma FetchKeeps(s: System, i: nat)
    requires Consistent(s) && i < |s.sent|
    ensures Fetched(s, i).Some? && Consistent(Fetched(s, i).value)
    ensures var t := Fetched(s, i).value;
            && t.sent == s.sent && t.answers == s.answers
            && ((t == s && forall j: nat :: !Matches(s, i, j))
                || exists j: nat :: Matches(s, i, j) && (forall k: nat :: k < j ==> !Matches(s, i, k)) && t.received == s.received + {j})
  {
    assert Sendable(s.sent[i].request);
    GateIdIsQuoted(s.sent[i].request);
    ScanFinds(s, i);
    FirstMatch(s, i);
    var g := s.sent[i].gate;
    var gate := s.gates[g];
    var k := Scan(gate.queues.results, Quoted(s.sent[i].request.number));
    FetchedIs(s, i, k);
    hide Fetched, Quoted, Matches, Consistent, Scan;
    if k < |gate.waiting| { TakenKeeps(s, g, k); }
  }

  lemma TakenKeeps(s: System, g: nat, k: nat)
    requires Consistent(s) && g < |s.gates| && k < |s.gates[g].waiting| == |s.gates[g].queues.results|
    ensures var results := s.gates[g].queues.results;
            Consistent(Taken(s, g, k, results[..k] + results[k + 1..]))
  {
    hide CallMessage, Sendable, QueueMatches, EachOnce;
    var results := s.gates[g].queues.results;
    var t := Taken(s, g, k, results[..k] + results[k + 1..]);
    FetchedRest(s, t);
    forall h | 0 <= h < |t.gates|
      ensures QueueMatches(t, h)
    {
      if h == g { FetchedMatches(s, t, g, k); } else { AnsweredReplies(s, t, h); }
    }
    FetchedOnce(s, t, g, k);
  }

  lemma FetchedIs(s: System, i: nat, k: nat)
    requires i < |s.sent| && s.sent[i].gate < |s.gates|
    requires GateId(s.sent[i].request) == Some(Quoted(s.sent[i].request.number))
    requires var gate := s.gates[s.sent[i].gate];
             && k == Scan(gate.queues.results, Quoted(s.sent[i].request.number))
             && |gate.waiting| == |gate.queues.results|
             && forall k :: 0 <= k < |gate.queues.results| ==> Key(gate.queues.results[k]).Some?
    ensures var g := s.sent[i].gate;
            var gate := s.gates[g];
            Fetched(s, i) ==
            if k == |gate.waiting| then Some(s)
            else Some(Taken(s, g, k, gate.queues.results[..k] + gate.queues.results[k + 1..]))
  {
    hide Key, GateId, Quoted, Scan, Taken;
  }

  lemma FetchedRest(s: System, t: System)
    requires Labelled(s) && CallsInOrder(s) && SameEnds(s.gates, t.gates)
    requires t.sent == s.sent && t.answers == s.answers && t.server == s.server
    ensures Labelled(t) && CallsInOrder(t)
  {
    hide CallText, Sendable;
  }

  lemma FetchedMatches(s: System, t: System, g: nat, k: nat)
    requires g < |s.gates| && QueueMatches(s, g) && g < |t.gates| && k < |s.gates[g].waiting|
    requires t.gates[g].name == s.gates[g].name && t.sent == s.sent && t.answers == s.answers
    requires t.gates[g].waiting == s.gates[g].waiting[..k] + s.gates[g].waiting[k + 1..]
    requires t.gates[g].queues.results == s.gates[g].queues.results[..k] + s.gates[g].queues.results[k + 1..]
    ensures QueueMatches(t, g)
  {
    hide ReplyMessage;
    var was, now := s.gates[g], t.gates[g];
    forall j | 0 <= j < |now.waiting|
      ensures RepliedTo(t, g, now.waiting[j])
      ensures now.queues.results[j] == ReplyMessage(now.name, t.answers[now.waiting[j]].value, t.sent[now.waiting[j]].request)
    {
      var x := if j < k then j else j + 1;
      assert now.waiting[j] == was.waiting[x] && now.queues.results[j] == was.queues.results[x];
      assert RepliedTo(s, g, was.waiting[x]);
    }
  }

  lemma FetchedOnce(s: System, t: System, g: nat, k: nat)
    requires RepliesMatch(s) && EachOnce(s) && g < |s.gates| && k < |s.gates[g].waiting|
    requires t.sent == s.sent && t.answers == s.answers && |t.gates| == |s.gates| && t.gates == s.gates[g := t.gates[g]]
    requires t.gates[g].waiting == s.gates[g].waiting[..k] + s.gates[g].waiting[k + 1..]
    requires t.received == s.received + {s.gates[g].waiting[k]}
    ensures EachOnce(t)
  {
    var w := s.gates[g].waiting[k];
    assert QueueMatches(s, g);
    assert RepliedTo(s, g, w);
    OneTaken(s.gates[g].waiting, k);
    hide Increasing, QueueMatches;
    forall h: nat, i: nat | h < |t.gates| && RepliedTo(t, h, i)
      ensures i in t.gates[h].waiting <==> i !in t.received
    {
      assert RepliedTo(s, h, i);
    }
  }

  /** Taking one element out of an increasing list. */
  lemma OneTaken(list: seq<nat>, k: nat)
    requires k < |list| && Increasing(list)
    ensures var rest := list[..k] + list[k + 1..];
            Increasing(rest) && forall x :: x in rest <==> x in list && x != list[k]
  {
    var rest := list[..k] + list[k + 1..];
    assert forall j :: 0 <= j < |rest| ==> rest[j] == list[if j < k then j else j + 1];
    forall x
      ensures x in rest <==> x in list && x != list[k]
    {
      if x in list && x != list[k] {
        var j :| 0 <= j < |list| && list[j] == x;
        assert rest[if j < k then j else j - 1] == x;
      }
    }
  }

  // ----- Runs -----

  lemma StepKeeps(s: System, e: Event)
    requires Consistent(s) && Enabled(s, e)
    ensures Step(s, e).Some? && Consistent(Step(s, e).value)
  {
    hide Consistent, Sent, Served, Fetched;
    match e
    case Send(g, r) => SendKeeps(s, g, r);
    case Serve(answer) => ServeKeeps(s, answer);
    case Fetch(i) => FetchKeeps(s, i);
  }

  lemma StartIsConsistent(s: System)
    requires AtStart(s)
    ensures Consistent(s)
  {
  }

  /** The states of a run from the start, each event enabled in the state it happens in. */
  ghost predicate Run(start: System, events: seq<Event>, s: System)
    decreases |events|
  {
    if events == [] then s == start
    else
      var n := |events| - 1;
      exists before :: Run(start, events[..n], before) && Enabled(before, events[n]) && Step(before, events[n]) == Some(s)
  }

  /** Whatever gates send and fetch, and whenever the server serves, each reply stays with its own request and gate. */
  lemma {:induction false} RunsAreConsistent(start: System, events: seq<Event>, s: System)
    requires AtStart(start) && Run(start, events, s)
    ensures Consistent(s)
    decreases |events|
  {
    hide Consistent, Step, Enabled, AtStart;
    if events == [] {
      StartIsConsistent(start);
    } else {
      var n := |events| - 1;
      var before :| Run(start, events[..n], before) && Enabled(before, events[n]) && Step(before, events[n]) == Some(s);
      RunsAreConsistent(start, events[..n], before);
      StepKeeps(before, events[n]);
    }
  }

  /**
    * In every run, a fetch for request `i` is defined. It delivers the answer to the earliest request of the same gate
    * with the same number whose answer was not fetched yet, and nothing if there is none.
    */
  lemma RunsCorrelate(start: System, events: seq<Event>, s: System, i: nat)
    requires AtStart(start) && Run(start, events, s) && i < |s.sent|
    ensures s.sent[i].gate < |s.gates| && GateId(s.sent[i].request).Some?
    ensures var p := Poll(s.gates[s.sent[i].gate].queues.results, GateId(s.sent[i].request).value, []);
            || (p.outcome == Timeout && forall j: nat :: !Matches(s, i, j))
            || (exists j: nat :: Matches(s, i, j) && (forall k: nat :: k < j ==> !Matches(s, i, k))
                 && Gives(p.outcome, s.answers[j].value))
  {
    RunsAreConsistent(start, events, s);
    FetchGetsAnswer(s, i);
    hide Poll, GateId, Extracted, Run, Matches, Gives;
  }

  /**
    * In every run, a fetch for request `i` takes the reply to request `i` exactly when it was answered, its reply was not
    * fetched, and no earlier request of the same gate with the same number has a reply that was not fetched.
    */
  lemma OwnReplyIff(start: System, events: seq<Event>, s: System, i: nat)
    requires AtStart(start) && Run(start, events, s) && i < |s.sent|
    ensures Fetched(s, i).Some?
    ensures i !in s.received && i in Fetched(s, i).value.received <==>
            Matches(s, i, i) && forall j: nat :: j < i ==> !Matches(s, i, j)
  {
    assert Matches(s, i, i) ==> i !in s.received;
    hide *;
    RunsAreConsistent(start, events, s);
    FetchKeeps(s, i);
  }

  /** In every run, the server takes requests in the order they were sent, and sees each one unchanged. */
  lemma RunsServeInOrder(start: System, events: seq<Event>, s: System)
    requires AtStart(start) && Run(start, events, s)
    ensures |s.answers| + |s.server.calls| == |s.sent|
    ensures s.server.calls != [] ==>
              var r := s.sent[|s.answers|].request;
              var text := s.server.calls[0].payload;
              && Extracted(text, CALL) == Some(Incoming(Quoted(r.number), r.body))
              && |Split(text, ',')| > 2 && Split(text, ',')[2] == Quoted(r.action)
  {
    RunsAreConsistent(start, events, s);
    hide Run, Extracted, Split;
    if s.server.calls != [] { ServerSees(s); }
  }

  // ----- What is answered -----

  predicate OccursAt(part: string, s: string, i: nat) {
    i + |part| <= |s| && s[i..i + |part|] == part
  }

  /** Some stretch of `s` is `part`. */
  ghost predicate Occurs(part: string, s: string) {
    exists i: nat :: OccursAt(part, s, i)
  }

  lemma {:induction false} ContainsIsOccurs(s: string, part: string)
    ensures Contains(s, part) <==> Occurs(part, s)
    decreases |s|
  {
    assert OccursAt(part, s, 0) <==> part <= s;
    if s != "" {
      ContainsIsOccurs(s[1..], part);
      forall i: nat
        ensures OccursAt(part, s[1..], i) <==> OccursAt(part, s, i + 1)
      {
        if i + |part| <= |s[1..]| { assert s[1..][i..i + |part|] == s[i + 1..i + 1 + |part|]; }
      }
      if Occurs(part, s) && !OccursAt(part, s, 0) {
        var i: nat :| OccursAt(part, s, i);
        assert OccursAt(part, s[1..], i - 1);
      }
    }
  }

  /** A quoted name occurs in a quoted text without quotes only when the text is the name. */
  lemma QuotedOccurs(name: string, text: string)
    requires '"' !in text
    ensures Occurs("\"" + name + "\"", "\"" + text + "\"") <==> name == text
  {
    var part, s := "\"" + name + "\"", "\"" + text + "\"";
    if name == text {
      assert OccursAt(part, s, 0);
    }
    forall i: nat | OccursAt(part, s, i)
      ensures name == text
    {
      QuotesMeet(name, text, i);
    }
  }

  lemma QuotesMeet(name: string, text: string, i: nat)
    requires '"' !in text && OccursAt("\"" + name + "\"", "\"" + text + "\"", i)
    ensures name == text
  {
    var part, s := "\"" + name + "\"", "\"" + text + "\"";
    assert forall k :: 0 <= k < |text| ==> s[k + 1] == text[k] && s[k + 1] != '"';
    var cut := s[i..i + |part|];
    assert cut[0] == '"' && cut[|part| - 1] == '"';
    assert s[i] == '"' && s[i + |part| - 1] == '"';
    assert i == 0 && |part| == |s|;
    assert cut == s && name == part[1..|part| - 1] && text == s[1..|s| - 1];
  }

  /** The three names, looked for between quotes in the quoted action of a request. */
  ghost predicate Known(action: string) {
    || Occurs("\"" + "GateRegistration" + "\"", "\"" + action + "\"")
    || Occurs("\"" + "CarStatusUpdate" + "\"", "\"" + action + "\"")
    || Occurs("\"" + "CarEnterence" + "\"", "\"" + action + "\"")
  }

  lemma HandledIsKnown(action: string)
    ensures Handled(Quoted(action)) <==> Known(action)
  {
    hide Occurs, Contains;
    ContainsIsOccurs(Quoted(action), Quoted("GateRegistration"));
    ContainsIsOccurs(Quoted(action), Quoted("CarStatusUpdate"));
    ContainsIsOccurs(Quoted(action), Quoted("CarEnterence"));
  }

  /** For an action without quotes, it has to be one of the three names. */
  lemma KnownNames(action: string)
    requires '"' !in action
    ensures Known(action) <==> action == "GateRegistration" || action == "CarStatusUpdate" || action == "CarEnterence"
  {
    hide Occurs;
    QuotedOccurs("GateRegistration", action);
    QuotedOccurs("CarStatusUpdate", action);
    QuotedOccurs("CarEnterence", action);
  }

  /** The texts of a request and of the reply to it, whose identifier keeps its own quotes. */
  lemma WireTexts(r: Request, answer: string)
    ensures CallText(r) == "[0,\"" + r.number + "\",\"" + r.action + "\"," + r.body + "]"
    ensures ReplyText(answer, Quoted(r.number)) == "[1,\"\"" + r.number + "\"\"," + answer + "]"
  {
  }

  /** `t` is `s` after its gate `g` was sent the reply to request `n`, or nothing when the answer is None. */
  predicate Answered(s: System, t: System, g: nat, n: nat, answer: Option<string>)
    requires n < |s.sent| && g < |s.gates|
  {
    var gate, number := s.gates[g], s.sent[n].request.number;
    && t.sent == s.sent && t.received == s.received
    && t.server.results == s.server.results
    && t.answers == s.answers + [answer]
    && t.gates ==
       if answer == None then s.gates
       else
         s.gates[g := gate.(
           waiting := gate.waiting + [n],
           queues := gate.queues.(
             results := gate.queues.results
                        + [WSMessage("LC", gate.name, "[1,\"\"" + number + "\"\"," + answer.value + "]")]))]
  }

  lemma ReplySent(s: System, g: nat, n: nat, answer: string)
    requires Connected(s.gates) && g < |s.gates| && n == |s.answers| < |s.sent| && s.server.calls != []
    requires Sendable(s.sent[n].request) && '#' !in answer
    ensures var t := Replied(s, g, answer, Quoted(s.sent[n].request.number));
            t.Some? && t.value.server.calls == s.server.calls[1..] && Answered(s, t.value, g, n, Some(answer))
  {
    var gate, r := s.gates[g], s.sent[n].request;
    CleanQuoted(r.number);
    ReplyDelivered(gate.queues, gate.name, answer, Quoted(r.number));
    WireTexts(r, answer);
    hide Raw, Deliver, ReplyText, Quoted;
  }

  lemma NothingSent(s: System, g: nat, n: nat)
    requires g < |s.gates| && n < |s.sent| && s.server.calls != []
    ensures NotAnswered(s).server.calls == s.server.calls[1..] && Answered(s, NotAnswered(s), g, n, None)
  {
  }

  lemma ServesKnown(s: System, answer: string)
    requires Consistent(s) && Enabled(s, Serve(answer))
    ensures |s.answers| < |s.sent| && s.sent[|s.answers|].gate < |s.gates|
    ensures Served(s, answer).Some?
    ensures var t, call := Served(s, answer).value, s.sent[|s.answers|];
            && t.server.calls == s.server.calls[1..]
            && Answered(s, t, call.gate, |s.answers|, if Known(call.request.action) then Some(answer) else None)
  {
    ServerSees(s);
    var n := |s.answers|;
    var g, r := s.sent[n].gate, s.sent[n].request;
    HandledIsKnown(r.action);
    SenderFound(s.gates, g);
    ReplySent(s, g, n, answer);
    NothingSent(s, g, n);
    hide Replied, NotAnswered, Answered, Extracted, Quoted, Split, Handled, Known, Consistent;
  }

  /**
    * In every run, the server answers the oldest request not yet taken exactly when its action is known, and puts the
    * reply to it last into the queue of the gate that sent it; otherwise no gate hears of it.
    */
  lemma RunsAnswerKnown(start: System, events: seq<Event>, s: System, answer: string)
    requires AtStart(start) && Run(start, events, s) && Enabled(s, Serve(answer))
    ensures |s.answers| < |s.sent| && s.sent[|s.answers|].gate < |s.gates|
    ensures Step(s, Serve(answer)).Some?
    ensures var t, call := Step(s, Serve(answer)).value, s.sent[|s.answers|];
            var action := call.request.action;
            && t.server.calls == s.server.calls[1..]
            && Answered(s, t, call.gate, |s.answers|, if Known(action) then Some(answer) else None)
            && ('"' !in action ==>
                  (Known(action) <==> action == "GateRegistration" || action == "CarStatusUpdate" || action == "CarEnterence"))
  {
    RunsAreConsistent(start, events, s);
    ServesKnown(s, answer);
    var action := s.sent[|s.answers|].request.action;
    if '"' !in action { KnownNames(action); }
    hide Known, Run, Consistent, Served, Enabled;
  }

  /** In every run, a request that is sent goes last into the queue of the server, with the connection it came from. */
  lemma RunsSend(start: System, events: seq<Event>, s: System, g: nat, r: Request)
    requires AtStart(start) && Run(start, events, s) && Enabled(s, Send(g, r))
    ensures Step(s, Send(g, r)).Some?
    ensures var t := Step(s, Send(g, r)).value;
            && t == s.(server := t.server, sent := s.sent + [Call(g, r)])
            && t.server == s.server.(
                 calls := s.server.calls
                          + [WSMessage("Server", s.gates[g].uri,
                                       "[0,\"" + r.number + "\",\"" + r.action + "\"," + r.body + "]")])
  {
    RunsAreConsistent(start, events, s);
    CallDelivered(s.server, s.gates[g].uri, r);
    WireTexts(r, "");
    hide CallText, Raw, Deliver, Run;
  }

  /** The server knows any gates whose connections differ, and nothing else, when a run starts. */
  lemma StartsWithAnyGates(ends: seq<(string, string)>)
    requires forall g, h :: 0 <= g < h < |ends| ==> ends[g].0 != ends[h].0
    requires forall g :: 0 <= g < |ends| ==> '#' !in ends[g].0 && '#' !in ends[g].1
    ensures var gates := seq(|ends|, g requires 0 <= g < |ends| => Gate(ends[g].0, ends[g].1, Queues([], []), []));
            AtStart(System(gates, Queues([], []), [], [], {}))
  {
  }

  /**
    * No run gets stuck: any gate can send any request without separators, the server can take a call whenever one is
    * queued, and any request that was sent can be fetched; each makes the run longer by one.
    */
  lemma RunsGoOn(start: System, events: seq<Event>, s: System, e: Event)
    requires AtStart(start) && Run(start, events, s)
    requires match e
             case Send(g, r) =>
               g < |s.gates| && (forall c :: c in r.number || c in r.action ==> c != ',' && c != '#') && '#' !in r.body
             case Serve(answer) => |s.answers| < |s.sent| && '#' !in answer
             case Fetch(i) => i < |s.sent|
    ensures Step(s, e).Some? && Run(start, events + [e], Step(s, e).value)
  {
    RunsAreConsistent(start, events, s);
    assert Enabled(s, e) by { hide Run, EachOnce, RepliesMatch, CallMessage, Connected; }
    hide *;
    StepKeeps(s, e);
    RunLonger(start, events, s, e);
  }

  lemma RunLonger(start: System, events: seq<Event>, s: System, e: Event)
    requires Run(start, events, s) && Enabled(s, e) && Step(s, e).Some?
    ensures Run(start, events + [e], Step(s, e).value)
  {
    hide Enabled, Step;
    var all := events + [e];
    assert all[..|all| - 1] == events && all[|all| - 1] == e;
  }
}
