/**
 * The websocket gateway: the middleware that admits a connection on a
 * verified token (`authenticateWS`), and the handler that registers the
 * connection with the broker for the length of its read loop (`wsHandler`).
 * Token verification is a parameter; the connection's reads are a sequence
 * of outcomes, and the handler reports the calls it makes as a log.
 */
module Gateway {
  import opened Text
  import opened PubSub
  import opened Responses
  import opened Router

  /** What verifying a token gives: refused, claims of the wrong shape, or the subject id it carries. */
  datatype Verification = Rejected | ClaimsMismatch | Verified(subId: string)

  /** The middleware's decision: answer the request itself, or pass it on with the subject id recorded. */
  datatype Admission = Refuse(response: Response) | Admit(subId: string)

  /**
   * authenticateWS: a missing token is a 400, a token that does not verify or
   * whose claims do not have the expected shape is a 401, and a verified token
   * lets the request through with its subject id.
   */
  function AuthenticateWS(token: string, verify: string -> Verification): (r: Admission)
    ensures token == "" ==> r == Refuse(Response(BadRequest, JsonError("missing token")))
    ensures r.Admit? <==> token != "" && verify(token).Verified?
    ensures r.Admit? ==> r.subId == verify(token).subId
    ensures token != "" && verify(token).Rejected? ==> r == Refuse(Response(Unauthorized, PlainText("Invalid token")))
    ensures token != "" && verify(token).ClaimsMismatch? ==>
              r == Refuse(Response(Unauthorized, PlainText("Could not parse claims")))
  {
    if token == "" then Refuse(Response(BadRequest, JsonError("missing token")))
    else
      match verify(token)
      case Rejected => Refuse(Response(Unauthorized, PlainText("Invalid token")))
      case ClaimsMismatch => Refuse(Response(Unauthorized, PlainText("Could not parse claims")))
      case Verified(subId) => Admit(subId)
  }

  /** The topic a gateway connection subscribes to: the event is taken as written. */
  function WsTopic(event: string, table: string): string
  {
    event + ":" + table
  }

  /** The outcome of one ReadMessage call. */
  datatype ReadOutcome = Received | ReadFailed

  /** The calls the handler makes, in order. */
  datatype Call =
    | Subscribed(topic: string, subscriber: Subscriber)
    | Read(failed: bool)
    | Unsubscribed(topic: string, subscriber: Subscriber)
    | Closed

  /**
   * The number of reads that succeed before the first failing one. A
   * connection that has delivered all of `outcomes` is closed, and a read on
   * it fails.
   */
  function FirstError(outcomes: seq<ReadOutcome>): (n: nat)
    ensures n <= |outcomes|
    ensures forall k :: 0 <= k < n ==> outcomes[k] == Received
    ensures n < |outcomes| ==> outcomes[n] == ReadFailed
  {
    if outcomes == [] || outcomes[0] == ReadFailed then 0
    else
      assert outcomes[0] == Received;
      var n := FirstError(outcomes[1..]);
      assert forall k :: 1 <= k < |outcomes| ==> outcomes[k] == outcomes[1..][k - 1];
      1 + n
  }

  /**
   * The calls wsHandler makes: with a parameter missing it only closes the
   * connection; otherwise it subscribes, reads until the first failing read,
   * then (deferred, in reverse order) unsubscribes and closes.
   */
  function Lifecycle(conn: nat, subId: string, event: string, table: string, outcomes: seq<ReadOutcome>): seq<Call>
  {
    if event == "" || table == "" then [Closed]
    else
      var topic := WsTopic(event, table);
      var s := Subscriber(conn, subId);
      [Subscribed(topic, s)]
      + seq(FirstError(outcomes), _ => Read(false)) + [Read(true)]
      + [Unsubscribed(topic, s), Closed]
  }

  /** The broker's map after the handler has run on `m`. */
  function AfterHandler(m: map<string, seq<Subscriber>>, conn: nat, subId: string, event: string, table: string)
    : map<string, seq<Subscriber>>
  {
    if event == "" || table == "" then m
    else
      var topic := WsTopic(event, table);
      var s := Subscriber(conn, subId);
      AfterUnsubscribe(AfterSubscribe(m, topic, s), topic, s)
  }

  /** wsHandler, for the connection `conn` admitted with `subId`. */
  method WsHandler(conn: nat, subId: string, event: string, table: string, outcomes: seq<ReadOutcome>,
                   broker: SubscriptionManager)
    returns (log: seq<Call>)
    modifies broker
    ensures log == Lifecycle(conn, subId, event, table, outcomes)
    ensures broker.subscribers == AfterHandler(old(broker.subscribers), conn, subId, event, table)
  {
    if event == "" || table == "" {
      return [Closed];
    }
    var topic := event + ":" + table;
    var subscriber := Subscriber(conn, subId);
    broker.Subscribe(topic, subscriber);
    log := [Subscribed(topic, subscriber)];
    var i := 0;
    while i < |outcomes| && outcomes[i] == Received
      invariant 0 <= i <= |outcomes|
      invariant forall k :: 0 <= k < i ==> outcomes[k] == Received
      invariant log == [Subscribed(topic, subscriber)] + seq(i, _ => Read(false))
    {
      log := log + [Read(false)];
      i := i + 1;
    }
    FirstErrorIs(outcomes, i);
    log := log + [Read(true)];
    broker.Unsubscribe(topic, subscriber);
    log := log + [Unsubscribed(topic, subscriber), Closed];
  }

  // ---------------------------------------------------------------------
  // Lemmas

  /** FirstError is the index where the read loop stops. */
  lemma {:induction false} FirstErrorIs(outcomes: seq<ReadOutcome>, i: nat)
    requires i <= |outcomes| && forall k :: 0 <= k < i ==> outcomes[k] == Received
    requires i == |outcomes| || outcomes[i] == ReadFailed
    ensures FirstError(outcomes) == i
    decreases i
  {
    if i > 0 {
      FirstErrorIs(outcomes[1..], i - 1);
    }
  }

  /** With a parameter missing, the handler neither subscribes nor unsubscribes. */
  lemma MissingParameterNoSubscription(conn: nat, subId: string, event: string, table: string, outcomes: seq<ReadOutcome>)
    requires event == "" || table == ""
    ensures forall c :: c in Lifecycle(conn, subId, event, table, outcomes) ==> c == Closed
  {
  }

  /**
   * Otherwise it subscribes once, first, and unsubscribes once, with the same
   * topic and subscriber, after the read loop and before the close.
   */
  lemma SubscribedOnce(conn: nat, subId: string, event: string, table: string, outcomes: seq<ReadOutcome>)
    requires event != "" && table != ""
    ensures var log := Lifecycle(conn, subId, event, table, outcomes);
            var s := Subscriber(conn, subId);
            var n := |log|;
            n >= 4
            && log[0] == Subscribed(WsTopic(event, table), s)
            && log[n - 2] == Unsubscribed(WsTopic(event, table), s)
            && log[n - 1] == Closed
            && (forall k :: 0 <= k < n && log[k].Subscribed? ==> k == 0)
            && (forall k :: 0 <= k < n && log[k].Unsubscribed? ==> k == n - 2)
  {
  }

  /**
   * The read loop ends at the first failing read: the reads logged are the
   * successful ones, in order, and then exactly one failure.
   */
  lemma ReadLoopStopsAtFirstError(conn: nat, subId: string, event: string, table: string, outcomes: seq<ReadOutcome>)
    requires event != "" && table != ""
    ensures var log := Lifecycle(conn, subId, event, table, outcomes);
            |log| == FirstError(outcomes) + 4
            && (forall k :: 1 <= k < |log| - 3 ==> log[k] == Read(false) && outcomes[k - 1] == Received)
            && log[|log| - 3] == Read(true)
            && (|log| - 4 < |outcomes| ==> outcomes[|log| - 4] == ReadFailed)
  {
  }

  /** The gateway's topic is the ingest topic exactly when the event is already lower case. */
  lemma TopicMatchesIngest(event: string, table: string)
    ensures WsTopic(event, table) == IngestTopic(event, table) <==> Lower(event) == event
  {
    if WsTopic(event, table) == IngestTopic(event, table) {
      assert |Lower(event)| == |event|;
      assert WsTopic(event, table)[..|event|] == event;
      assert IngestTopic(event, table)[..|event|] == Lower(event);
    }
  }

  /** A connection that was not registered leaves its topic's list as it found it. */
  lemma HandlerRestoresTopic(m: map<string, seq<Subscriber>>, conn: nat, subId: string, event: string, table: string)
    requires Subscriber(conn, subId) !in Subscribers(m, WsTopic(event, table))
    ensures Subscribers(AfterHandler(m, conn, subId, event, table), WsTopic(event, table))
            == Subscribers(m, WsTopic(event, table))
  {
    if event != "" && table != "" {
      SubscribeThenUnsubscribe(m, WsTopic(event, table), Subscriber(conn, subId));
    }
  }

  /**
   * While its read loop runs, a connection subscribed with a lower-case event
   * is among the writes of an ingest on the same event and table.
   */
  lemma IngestReachesConnection(m: map<string, seq<Subscriber>>, conn: nat, subId: string, event: string, table: string,
                                message: Message, broken: set<nat>)
    requires Lower(event) == event
    ensures var during := AfterSubscribe(m, WsTopic(event, table), Subscriber(conn, subId));
            var writes := Deliveries(Subscribers(during, IngestTopic(event, table)), message, broken);
            |writes| > 0 && writes[|writes| - 1].conn == conn && writes[|writes| - 1].message == message
            && (writes[|writes| - 1].ok <==> conn !in broken)
  {
    TopicMatchesIngest(event, table);
  }
}
