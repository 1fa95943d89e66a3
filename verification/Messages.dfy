/**
  * The envelopes that gates and the server exchange, the two message queues, and the way a reply
  * finds the request that it answers.
  */
module Messages {
  import opened Options
  import opened Text
  import opened Sequences

  const CALL := 0
  const RESPOND := 1

  // ----- Envelopes -----

  function Quoted(s: string): string {
    "\"" + s + "\""
  }

  /** `AddBase`: `number` is the random number that a call is labelled with. */
  function AddBase(body: string, mT: int, action: string, number: string, messageId: string): string {
    if mT == CALL then "[" + "0" + ",\"" + number + "\",\"" + action + "\"," + body + "]"
    else if mT == RESPOND then "[" + "1" + ",\"" + messageId + "\"," + body + "]"
    else ""
  }

  datatype Incoming = Incoming(messageId: string, body: string)

  function Offset(mT: int): (n: nat)
    ensures n >= 2
  {
    if mT == CALL then 3 else 2
  }

  /** A comma after each field. */
  function Concat(fields: seq<string>): string {
    if fields == [] then "" else Concat(fields[..|fields| - 1]) + fields[|fields| - 1] + ","
  }

  /** All but the last two characters; the length is unsigned, so a single character stays. */
  function WithoutEnd(s: string): string {
    if |s| >= 2 then s[..|s| - 2] else s
  }

  /** What `handleIncomingMsg` extracts; it has no defined result on a text with too few fields. */
  function Extracted(text: string, mT: int): Option<Incoming> {
    var fields := Split(text, ',');
    if |fields| < Offset(mT) then None
    else Some(Incoming(fields[1], WithoutEnd(Concat(fields[Offset(mT)..]))))
  }

  /** `handleIncomingMsg` */
  method HandleIncomingMsg(text: string, mT: int) returns (r: Option<Incoming>)
    ensures r == Extracted(text, mT)
  {
    hide Split, Concat;
    var requestItems := Split(text, ',');
    var offset := if mT == CALL then 3 else 2;
    if |requestItems| < offset {
      return None;
    }
    var messageId, body := requestItems[1], "";
    ghost var rest := requestItems[offset..];
    assert body == Concat(rest[..0]) by { ConcatNothing(rest[..0]); }
    for i := offset to |requestItems|
      invariant body == Concat(rest[..i - offset])
    {
      ConcatStep(rest, i - offset);
      body := body + requestItems[i] + ",";
    }
    assert rest[..|rest|] == rest;
    return Some(Incoming(messageId, WithoutEnd(body)));
  }

  lemma ConcatNothing(fields: seq<string>)
    requires fields == []
    ensures Concat(fields) == ""
  {
  }

  lemma ConcatStep(fields: seq<string>, i: nat)
    requires i < |fields|
    ensures Concat(fields[..i + 1]) == Concat(fields[..i]) + fields[i] + ","
  {
    assert fields[..i + 1][..i] == fields[..i];
  }

  lemma {:induction false} ConcatIsJoin(fields: seq<string>)
    requires |fields| >= 1
    ensures Concat(fields) == Join(fields, ',') + ","
  {
    var init, last := fields[..|fields| - 1], fields[|fields| - 1];
    if init == [] {
      assert Concat(init) == "";
    } else {
      ConcatIsJoin(init);
      JoinLast(init, last);
      assert fields == init + [last];
    }
  }

  lemma {:induction false} JoinLast(fields: seq<string>, last: string)
    requires |fields| >= 1
    ensures Join(fields + [last], ',') == Join(fields, ',') + "," + last
  {
    if |fields| > 1 {
      JoinLast(fields[1..], last);
      assert (fields + [last])[1..] == fields[1..] + [last];
    } else {
      assert (fields + [last])[1..] == [last];
    }
  }

  /** The text after a closed list of fields comes back without its bracket. */
  lemma BodyOf(body: string)
    ensures WithoutEnd(Concat(Split(body + "]", ','))) == body
  {
    ConcatIsJoin(Split(body + "]", ','));
    JoinSplit(body + "]", ',');
    hide Concat, Split, Join;
    assert Concat(Split(body + "]", ',')) == body + "]" + ",";
  }

  /** Splitting at a separator cuts a text there, whatever the front holds. */
  lemma {:induction false} SplitAt(a: string, c: char, b: string)
    ensures Split(a + [c] + b, c) == Split(a, c) + Split(b, c)
    decreases |a|
  {
    hide *;
    var i := IndexOf(a, c);
    if i == |a| {
      assert c !in a;
      SplitFirst(a, c, b);
      SplitSingle(a, c);
    } else {
      var front, rest := a[..i], a[i + 1..];
      assert c !in front;
      Reassociate(a, front, c, rest, b);
      SplitFirst(front, c, rest);
      SplitFirst(front, c, rest + [c] + b);
      SplitAt(rest, c, b);
    }
  }

  lemma Reassociate(a: string, front: string, c: char, rest: string, b: string)
    requires |front| < |a| && a[..|front|] == front && a[|front|] == c && a[|front| + 1..] == rest
    ensures a == front + [c] + rest
    ensures a + [c] + b == front + [c] + (rest + [c] + b)
  {
  }

  lemma CallShape(body: string, action: string, number: string, messageId: string)
    ensures AddBase(body, CALL, action, number, messageId) ==
            "[0" + [','] + (Quoted(number) + [','] + (Quoted(action) + [','] + (body + "]")))
  {
  }

  lemma ResponseShape(body: string, action: string, number: string, messageId: string)
    ensures AddBase(body, RESPOND, action, number, messageId) ==
            "[1" + [','] + (Quoted(messageId) + [','] + (body + "]"))
  {
  }

  lemma CallFields(body: string, action: string, number: string, messageId: string)
    ensures Split(AddBase(body, CALL, action, number, messageId), ',') ==
            ["[0"] + (Split(Quoted(number), ',') + (Split(Quoted(action), ',') + Split(body + "]", ',')))
  {
    CallShape(body, action, number, messageId);
    hide *;
    SplitFirst("[0", ',', Quoted(number) + [','] + (Quoted(action) + [','] + (body + "]")));
    SplitAt(Quoted(number), ',', Quoted(action) + [','] + (body + "]"));
    SplitAt(Quoted(action), ',', body + "]");
  }

  lemma ResponseFields(body: string, action: string, number: string, messageId: string)
    ensures Split(AddBase(body, RESPOND, action, number, messageId), ',') ==
            ["[1"] + (Split(Quoted(messageId), ',') + Split(body + "]", ','))
  {
    ResponseShape(body, action, number, messageId);
    hide *;
    SplitFirst("[1", ',', Quoted(messageId) + [','] + (body + "]"));
    SplitAt(Quoted(messageId), ',', body + "]");
  }

  lemma {:induction false} ConcatAppend(x: seq<string>, y: seq<string>)
    ensures Concat(x + y) == Concat(x) + Concat(y)
    decreases |y|
  {
    hide *;
    if y == [] {
      assert x + y == x;
      ConcatNothing(y);
    } else {
      var init, last := y[..|y| - 1], y[|y| - 1];
      ConcatAppend(x, init);
      assert y == init + [last] && x + y == (x + init) + [last];
      ConcatLast(init, last);
      ConcatLast(x + init, last);
    }
  }

  lemma ConcatLast(init: seq<string>, last: string)
    ensures Concat(init + [last]) == Concat(init) + last + ","
  {
    assert (init + [last])[..|init + [last]| - 1] == init;
  }

  lemma ConcatLength(x: seq<string>)
    requires x != []
    ensures |Concat(x)| > 0
  {
  }

  /** With further fields in front of the body, more than the body comes back. */
  lemma BodyTooLong(front: seq<string>, body: string)
    requires front != []
    ensures |WithoutEnd(Concat(front + Split(body + "]", ',')))| > |body|
  {
    var rest := Split(body + "]", ',');
    ConcatAppend(front, rest);
    ConcatLength(front);
    ConcatIsJoin(rest);
    JoinSplit(body + "]", ',');
    hide Concat, Split, Join;
  }

  lemma CommaInQuoted(s: string)
    ensures ',' in Quoted(s) <==> ',' in s
  {
    assert Quoted(s)[1..|s| + 1] == s;
    assert forall i :: 0 <= i < |s| ==> Quoted(s)[i + 1] == s[i];
  }

  /** A quoted text is its own first field exactly when it holds no comma, and then it is the only one. */
  lemma QuotedField(s: string)
    ensures Split(Quoted(s), ',')[0] == Quoted(s) <==> ',' !in s
    ensures ',' !in s ==> Split(Quoted(s), ',') == [Quoted(s)]
  {
    CommaInQuoted(s);
    hide Split, Quoted;
    if ',' !in s { SplitSingle(Quoted(s), ','); }
    assert ',' !in Split(Quoted(s), ',')[0];
  }

  /** The server recovers number and body of a call exactly when neither number nor action holds a comma. */
  lemma CallRecovered(body: string, action: string, number: string, messageId: string)
    ensures Extracted(AddBase(body, CALL, action, number, messageId), CALL) == Some(Incoming(Quoted(number), body))
            <==> ',' !in number && ',' !in action
  {
    var n, a, b := Split(Quoted(number), ','), Split(Quoted(action), ','), Split(body + "]", ',');
    CallFields(body, action, number, messageId);
    QuotedField(number);
    QuotedField(action);
    BodyOf(body);
    hide Split, Concat, AddBase, Quoted, WithoutEnd;
    var fields := ["[0"] + (n + (a + b));
    assert fields[1] == n[0];
    if ',' !in number {
      assert fields[3..] == a[1..] + b;
      if ',' !in action {
        assert a[1..] + b == b;
      } else {
        CommaInQuoted(action);
        FieldsOfComma(Quoted(action));
        BodyTooLong(a[1..], body);
      }
    }
  }

  lemma FieldsOfComma(s: string)
    requires ',' in s
    ensures |Split(s, ',')| >= 2
  {
    var i := IndexOf(s, ',');
    assert i < |s|;
  }

  /** The same for a reply and the identifier it carries. */
  lemma ResponseRecovered(body: string, action: string, number: string, messageId: string)
    ensures Extracted(AddBase(body, RESPOND, action, number, messageId), RESPOND) == Some(Incoming(Quoted(messageId), body))
            <==> ',' !in messageId
  {
    var m, b := Split(Quoted(messageId), ','), Split(body + "]", ',');
    ResponseFields(body, action, number, messageId);
    QuotedField(messageId);
    BodyOf(body);
    hide Split, Concat, AddBase, Quoted, WithoutEnd;
    var fields := ["[1"] + (m + b);
    assert fields[1] == m[0];
    if ',' !in messageId {
      assert fields[2..] == b;
    }
  }

  // ----- Queues -----

  /** `WSMessage`; `origin` is its `type` field. */
  datatype WSMessage = WSMessage(origin: string, uri: string, payload: string)

  datatype Queues = Queues(calls: seq<WSMessage>, results: seq<WSMessage>)

  /** `substr(1, length - 2)` with an unsigned length. */
  function Inside(s: string): string
    requires s != ""
  {
    if |s| >= 2 then s[1..|s| - 1] else ""
  }

  /** Which queue a raw message goes to, by the first field inside its brackets. */
  function Added(q: Queues, raw: string): Queues
    requires |Split(raw, '#')| >= 3
  {
    var items := Split(raw, '#');
    var m := WSMessage(items[0], items[1], items[2]);
    if m.payload == "" then q
    else
      var messageType := Split(Inside(m.payload), ',')[0];
      if messageType == "0" then q.(calls := q.calls + [m])
      else if messageType == "1" then q.(results := q.results + [m])
      else q
  }

  /** The identifier that a queued reply is matched by; looking for it in a reply without one is undefined. */
  function Key(m: WSMessage): Option<string> {
    var items := Split(m.payload, ',');
    if |items| < 2 || items[1] == "" then None else Some(Inside(items[1]))
  }

  /** The first reply that matches, or that has no identifier. */
  function Scan(results: seq<WSMessage>, messageId: string): (i: nat)
    ensures i <= |results|
    ensures i < |results| ==> Key(results[i]) == None || Key(results[i]) == Some(messageId)
    ensures forall k :: 0 <= k < i ==> Key(results[k]).Some? && Key(results[k]) != Some(messageId)
  {
    if results == [] || Key(results[0]) == None || Key(results[0]) == Some(messageId) then 0
    else 1 + Scan(results[1..], messageId)
  }

  datatype Outcome = Response(payload: string) | Timeout | Undefined

  datatype Polled = Polled(outcome: Outcome, results: seq<WSMessage>, pending: seq<seq<WSMessage>>)

  /** One scan, then another after each batch of replies that arrives in time. */
  function Poll(results: seq<WSMessage>, messageId: string, arrivals: seq<seq<WSMessage>>): Polled
    decreases |arrivals|
  {
    var i := Scan(results, messageId);
    if i < |results| then
      if Key(results[i]) == None then Polled(Undefined, results, arrivals)
      else Polled(Response(results[i].payload), results[..i] + results[i + 1..], arrivals)
    else if arrivals == [] then Polled(Timeout, results, arrivals)
    else Poll(results + arrivals[0], messageId, arrivals[1..])
  }

  class MessageManager {
    var callQueue: seq<WSMessage>
    var resultQueue: seq<WSMessage>

    function View(): Queues
      reads this
    {
      Queues(callQueue, resultQueue)
    }

    constructor ()
      ensures View() == Queues([], [])
    {
      callQueue, resultQueue := [], [];
    }

    /** `AddMessage`; every caller joins three fields with `#`. */
    method AddMessage(rawMessage: string) returns (rc: bool)
      requires |Split(rawMessage, '#')| >= 3
      modifies this
      ensures View() == Added(old(View()), rawMessage)
      ensures rc <==> View() != old(View())
    {
      hide Split, Inside;
      rc := false;
      var items := Split(rawMessage, '#');
      var payload := items[2];
      if |payload| > 0 {
        var messageType := Split(Inside(payload), ',')[0];
        var message := WSMessage(items[0], items[1], payload);
        if messageType == "0" {
          callQueue := callQueue + [message];
          rc := true;
        } else if messageType == "1" {
          resultQueue := resultQueue + [message];
          rc := true;
        }
      }
    }

    /** `GetCALLMessage`, which `GateHanlder` calls only when there is a message. */
    method GetCALLMessage() returns (message: WSMessage)
      requires callQueue != []
      modifies this
      ensures old(View()).calls == [message] + View().calls
      ensures View().results == old(View()).results
    {
      message := callQueue[0];
      callQueue := callQueue[1..];
    }

    /** The inner loop of `GetResponseMessage`. */
    method ScanOnce(messageId: string) returns (outcome: Outcome)
      modifies this
      ensures callQueue == old(callQueue)
      ensures var was := old(resultQueue);
              var i := Scan(was, messageId);
              if i == |was| then outcome == Timeout && resultQueue == was
              else if Key(was[i]) == None then outcome == Undefined && resultQueue == was
              else outcome == Response(was[i].payload) && resultQueue == was[..i] + was[i + 1..]
    {
      hide Key;
      var it := 0;
      while it < |resultQueue|
        invariant it <= |resultQueue| && resultQueue == old(resultQueue)
        invariant forall k :: 0 <= k < it ==> Key(resultQueue[k]).Some? && Key(resultQueue[k]) != Some(messageId)
      {
        var message := resultQueue[it];
        var key := Key(message);
        if key == None {
          return Undefined;
        }
        if key.value == messageId {
          resultQueue := resultQueue[..it] + resultQueue[it + 1..];
          return Response(message.payload);
        }
        it := it + 1;
      }
      return Timeout;
    }

    /** `GetResponseMessage`: `arrivals` are the replies that come in between its scans until its time is up. */
    method GetResponseMessage(messageId: string, arrivals: seq<seq<WSMessage>>)
      returns (outcome: Outcome, ghost pending: seq<seq<WSMessage>>)
      modifies this
      ensures callQueue == old(callQueue)
      ensures Polled(outcome, resultQueue, pending) == Poll(old(resultQueue), messageId, arrivals)
    {
      hide Scan, Key;
      var i := 0;
      outcome := ScanOnce(messageId);
      while outcome == Timeout && i < |arrivals|
        invariant i <= |arrivals| && callQueue == old(callQueue)
        invariant outcome != Timeout ==>
                    Polled(outcome, resultQueue, arrivals[i..]) == Poll(old(resultQueue), messageId, arrivals)
        invariant outcome == Timeout ==> Scan(resultQueue, messageId) == |resultQueue|
        invariant outcome == Timeout ==>
                    Poll(resultQueue, messageId, arrivals[i..]) == Poll(old(resultQueue), messageId, arrivals)
      {
        assert arrivals[i..][1..] == arrivals[i + 1..];
        resultQueue := resultQueue + arrivals[i];
        i := i + 1;
        outcome := ScanOnce(messageId);
      }
      pending := arrivals[i..];
    }
  }

  /** A reply found in the front of a queue is the one found in the whole queue. */
  lemma {:induction false} ScanFront(front: seq<WSMessage>, rest: seq<WSMessage>, messageId: string)
    ensures Scan(front, messageId) < |front| ==> Scan(front + rest, messageId) == Scan(front, messageId)
  {
    hide Key, Scan;
    var i, j := Scan(front, messageId), Scan(front + rest, messageId);
    if i < |front| {
      assert forall k :: 0 <= k < |front| ==> (front + rest)[k] == front[k];
      assert Key((front + rest)[i]) == Key(front[i]);
      assert forall k :: 0 <= k < i ==> Key((front + rest)[k]) == Key(front[k]);
      assert j >= i && j <= i;
    }
  }

  /** Polling finds the first match among all replies, whenever they arrive; it takes that one and keeps the others in order. */
  lemma {:induction false} PollTakesFirst(results: seq<WSMessage>, messageId: string, arrivals: seq<seq<WSMessage>>)
    ensures var p := Poll(results, messageId, arrivals);
            var all := results + Flatten(arrivals);
            var i := Scan(all, messageId);
            if i == |all| then p.outcome == Timeout && p.results + Flatten(p.pending) == all
            else if Key(all[i]) == None then p.outcome == Undefined
            else p.outcome == Response(all[i].payload) && p.results + Flatten(p.pending) == all[..i] + all[i + 1..]
    decreases |arrivals|
  {
    hide Key, Scan;
    var i := Scan(results, messageId);
    var flat := Flatten(arrivals);
    ScanFront(results, flat, messageId);
    if i == |results| {
      if arrivals == [] {
        assert results + flat == results;
      } else {
        assert results + flat == results + arrivals[0] + Flatten(arrivals[1..]);
        hide Flatten;
        PollTakesFirst(results + arrivals[0], messageId, arrivals[1..]);
      }
    } else {
      Taken(results, flat, i);
    }
  }

  lemma Taken(results: seq<WSMessage>, flat: seq<WSMessage>, i: nat)
    requires i < |results|
    ensures (results + flat)[i] == results[i]
    ensures results[..i] + results[i + 1..] + flat == (results + flat)[..i] + (results + flat)[i + 1..]
  {
  }
}
