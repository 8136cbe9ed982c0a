/**
 * The in-process broker between the ingestion endpoint and the gateway: a
 * map from topic to the ordered list of subscribers of that topic. The
 * broker is used sequentially here; its read/write lock is not modelled.
 */
module PubSub {

  /**
   * A subscriber: the websocket connection it was registered with (compared
   * by identity, so a number) and the subject id it authenticated as. Two
   * subscribers are equal when both parts are.
   */
  datatype Subscriber = Subscriber(conn: nat, id: string)

  /** A published message, before its JSON encoding. */
  type Message = map<string, string>

  /** One write attempted on a connection; `ok` is false when the write reported an error. */
  datatype Write = Write(conn: nat, message: Message, ok: bool)

  /** The subscribers of `topic`, the empty list when the topic has none. */
  function Subscribers(m: map<string, seq<Subscriber>>, topic: string): seq<Subscriber>
  {
    if topic in m then m[topic] else []
  }

  /** `subs` with its first entry equal to `s` removed, the rest in order. */
  function RemoveFirst(subs: seq<Subscriber>, s: Subscriber): seq<Subscriber>
  {
    if subs == [] then []
    else if subs[0] == s then subs[1..]
    else [subs[0]] + RemoveFirst(subs[1..], s)
  }

  /** The index of the first entry equal to `s`: where Unsubscribe's scan stops. */
  function IndexOf(subs: seq<Subscriber>, s: Subscriber): (i: nat)
    requires s in subs
    ensures i < |subs| && subs[i] == s
    ensures forall k :: 0 <= k < i ==> subs[k] != s
  {
    if subs[0] == s then 0 else 1 + IndexOf(subs[1..], s)
  }

  /** The subscriber map after Subscribe(topic, s). */
  function AfterSubscribe(m: map<string, seq<Subscriber>>, topic: string, s: Subscriber): map<string, seq<Subscriber>>
  {
    m[topic := Subscribers(m, topic) + [s]]
  }

  /** The subscriber map after Unsubscribe(topic, s): the list is only reassigned when `s` is found in it. */
  function AfterUnsubscribe(m: map<string, seq<Subscriber>>, topic: string, s: Subscriber): map<string, seq<Subscriber>>
  {
    if topic in m && s in m[topic] then m[topic := RemoveFirst(m[topic], s)] else m
  }

  /**
   * The writes publishing `message` to `subs` attempts: one per entry, in
   * list order, each failing exactly when its connection is broken. A
   * failed write does not stop the later ones.
   */
  function Deliveries(subs: seq<Subscriber>, message: Message, broken: set<nat>): (ws: seq<Write>)
    ensures |ws| == |subs|
    ensures forall k :: 0 <= k < |subs| ==>
              ws[k].conn == subs[k].conn && ws[k].message == message
              && (ws[k].ok <==> subs[k].conn !in broken)
  {
    if subs == [] then []
    else
      var last := subs[|subs| - 1];
      Deliveries(subs[..|subs| - 1], message, broken) + [Write(last.conn, message, last.conn !in broken)]
  }

  class SubscriptionManager {
    var subscribers: map<string, seq<Subscriber>>

    /** NewSubscriptionManager: no topic has subscribers. */
    constructor()
      ensures subscribers == map[]
    {
      subscribers := map[];
    }

    /** Subscribe appends `s` to the list of `topic`. */
    method Subscribe(topic: string, s: Subscriber)
      modifies this
      ensures subscribers == AfterSubscribe(old(subscribers), topic, s)
    {
      subscribers := subscribers[topic := Subscribers(subscribers, topic) + [s]];
    }

    /** Unsubscribe scans the list of `topic` and splices out the first entry equal to `s`. */
    method Unsubscribe(topic: string, s: Subscriber)
      modifies this
      ensures subscribers == AfterUnsubscribe(old(subscribers), topic, s)
    {
      var subs := Subscribers(subscribers, topic);
      var i := 0;
      while i < |subs|
        invariant 0 <= i <= |subs|
        invariant forall k :: 0 <= k < i ==> subs[k] != s
      {
        if subs[i] == s {
          RemoveFirstAt(subs, s, i);
          subscribers := subscribers[topic := subs[..i] + subs[i + 1..]];
          return;
        }
        i := i + 1;
      }
    }

    /** Publish writes `message` to every subscriber of `topic` in turn; the map is left as it is. */
    method Publish(topic: string, message: Message, broken: set<nat>) returns (writes: seq<Write>)
      ensures writes == Deliveries(Subscribers(subscribers, topic), message, broken)
    {
      var subs := Subscribers(subscribers, topic);
      writes := [];
      for k := 0 to |subs|
        invariant writes == Deliveries(subs[..k], message, broken)
      {
        assert subs[..k + 1][..k] == subs[..k];
        writes := writes + [Write(subs[k].conn, message, subs[k].conn !in broken)];
      }
      assert subs[..|subs|] == subs;
    }
  }

  // ---------------------------------------------------------------------
  // Lemmas

  /** Removing at the first equal index is RemoveFirst. */
  lemma {:induction false} RemoveFirstAt(subs: seq<Subscriber>, s: Subscriber, i: int)
    requires 0 <= i < |subs| && subs[i] == s
    requires forall k :: 0 <= k < i ==> subs[k] != s
    ensures RemoveFirst(subs, s) == subs[..i] + subs[i + 1..]
    decreases i
  {
    if i > 0 {
      var tail := subs[1..];
      RemoveFirstAt(tail, s, i - 1);
      assert subs[..i] == [subs[0]] + tail[..i - 1];
      assert subs[i + 1..] == tail[i..];
    }
  }

  /**
   * RemoveFirst takes out exactly the first entry equal to `s`: what comes
   * before it and what comes after it are kept, in order.
   */
  lemma {:induction false} RemoveFirstExactly(subs: seq<Subscriber>, s: Subscriber)
    requires s in subs
    ensures exists i :: 0 <= i < |subs| && subs[i] == s
              && (forall k :: 0 <= k < i ==> subs[k] != s)
              && RemoveFirst(subs, s) == subs[..i] + subs[i + 1..]
    ensures |RemoveFirst(subs, s)| == |subs| - 1
  {
    var i := IndexOf(subs, s);
    RemoveFirstAt(subs, s, i);
  }

  /** Without an equal entry, RemoveFirst removes nothing. */
  lemma {:induction false} RemoveAbsent(subs: seq<Subscriber>, s: Subscriber)
    requires s !in subs
    ensures RemoveFirst(subs, s) == subs
    decreases |subs|
  {
    if subs != [] {
      assert subs[0] != s;
      RemoveAbsent(subs[1..], s);
    }
  }

  /** Removing the entry just appended gives the list back, when it was not there before. */
  lemma {:induction false} RemoveAppended(subs: seq<Subscriber>, s: Subscriber)
    requires s !in subs
    ensures RemoveFirst(subs + [s], s) == subs
    decreases |subs|
  {
    if subs == [] {
      assert ([] + [s])[1..] == [];
    } else {
      assert (subs + [s])[1..] == subs[1..] + [s];
      RemoveAppended(subs[1..], s);
    }
  }

  /** Subscribe appends at the end of its topic and changes no other topic. */
  lemma SubscribeAppends(m: map<string, seq<Subscriber>>, topic: string, s: Subscriber, other: string)
    requires other != topic
    ensures Subscribers(AfterSubscribe(m, topic, s), topic) == Subscribers(m, topic) + [s]
    ensures Subscribers(AfterSubscribe(m, topic, s), other) == Subscribers(m, other)
    ensures AfterSubscribe(m, topic, s).Keys == m.Keys + {topic}
  {
  }

  /** Subscribing the same subscriber twice registers it twice. */
  lemma SubscribeTwice(m: map<string, seq<Subscriber>>, topic: string, s: Subscriber)
    ensures Subscribers(AfterSubscribe(AfterSubscribe(m, topic, s), topic, s), topic)
            == Subscribers(m, topic) + [s, s]
  {
    assert Subscribers(m, topic) + [s] + [s] == Subscribers(m, topic) + [s, s];
  }

  /**
   * Unsubscribe removes the first entry equal to `s` from its topic, keeping
   * the other entries in order, and changes no other topic.
   */
  lemma UnsubscribeRemovesFirst(m: map<string, seq<Subscriber>>, topic: string, s: Subscriber, other: string)
    requires other != topic
    ensures Subscribers(AfterUnsubscribe(m, topic, s), topic) == RemoveFirst(Subscribers(m, topic), s)
    ensures Subscribers(AfterUnsubscribe(m, topic, s), other) == Subscribers(m, other)
  {
    if !(topic in m && s in m[topic]) {
      RemoveAbsent(Subscribers(m, topic), s);
    }
  }

  /** Unsubscribing a subscriber that is not registered leaves the map as it is. */
  lemma UnsubscribeAbsent(m: map<string, seq<Subscriber>>, topic: string, s: Subscriber)
    requires s !in Subscribers(m, topic)
    ensures AfterUnsubscribe(m, topic, s) == m
  {
  }

  /**
   * Subscribe followed by Unsubscribe of a subscriber that was not registered
   * restores the topic's list exactly; the map itself is restored when the
   * topic had an entry before.
   */
  lemma SubscribeThenUnsubscribe(m: map<string, seq<Subscriber>>, topic: string, s: Subscriber)
    requires s !in Subscribers(m, topic)
    ensures Subscribers(AfterUnsubscribe(AfterSubscribe(m, topic, s), topic, s), topic) == Subscribers(m, topic)
    ensures topic in m ==> AfterUnsubscribe(AfterSubscribe(m, topic, s), topic, s) == m
  {
    RemoveAppended(Subscribers(m, topic), s);
  }

  /** A connection is written to exactly when it belongs to some subscriber of the topic, whatever fails. */
  lemma DeliveriesReachExactly(subs: seq<Subscriber>, message: Message, broken: set<nat>, conn: nat)
    ensures (exists k :: 0 <= k < |subs| && Deliveries(subs, message, broken)[k].conn == conn)
            <==> (exists k :: 0 <= k < |subs| && subs[k].conn == conn)
  {
    var ws := Deliveries(subs, message, broken);
    if exists k :: 0 <= k < |subs| && ws[k].conn == conn {
      var k :| 0 <= k < |subs| && ws[k].conn == conn;
      assert subs[k].conn == conn;
    }
    if exists k :: 0 <= k < |subs| && subs[k].conn == conn {
      var k :| 0 <= k < |subs| && subs[k].conn == conn;
      assert Deliveries(subs, message, broken)[k].conn == conn;
    }
  }
}
