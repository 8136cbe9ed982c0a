/**
 * The HTTP side of the api: the ingestion endpoint that the database
 * triggers post to (`callbackHandler`), and `authHandler`'s check of the
 * required id before a token is issued.
 *
 * The ingestion body is decoded by a small parser: split on ",", split each
 * piece on ": ", keep only pieces that give exactly two parts, trim spaces
 * off key and value. The decoded map is published once, on the topic
 * lower(event) + ":" + table.
 */
module Router {
  import opened Wrappers
  import opened Text
  import opened RowFormat
  import opened PubSub
  import opened Responses

  /** One piece of the body: a trimmed key and value when it splits on ": " into exactly two parts. */
  function DecodeEntry(entry: string): Option<(string, string)>
  {
    var kv := Split(entry, ": ");
    if |kv| == 2 then Some((Trim(kv[0]), Trim(kv[1]))) else None
  }

  /** The map the decode loop builds from the pieces, in order: a later key overwrites an earlier one. */
  function DecodeEntries(entries: seq<string>): map<string, string>
  {
    if entries == [] then map[]
    else
      var m := DecodeEntries(entries[..|entries| - 1]);
      match DecodeEntry(entries[|entries| - 1])
      case None => m
      case Some(kv) => m[kv.0 := kv.1]
  }

  function DecodeBody(body: string): map<string, string>
  {
    DecodeEntries(Split(body, ","))
  }

  /** The topic an ingested event is published on. */
  function IngestTopic(event: string, table: string): string
  {
    Lower(event) + ":" + table
  }

  /** One call of Publish: its topic, its message and the writes it attempted. */
  datatype Publication = Publication(topic: string, message: Message, writes: seq<Write>)

  /**
   * callbackHandler: 400 when `event` or `table` is missing, with nothing
   * published; otherwise the decoded body is published once on the ingest
   * topic and the handler returns without writing a body.
   */
  method CallbackHandler(event: string, table: string, body: string, broker: SubscriptionManager, broken: set<nat>)
    returns (resp: Response, published: seq<Publication>)
    ensures event == "" ==> resp == Response(BadRequest, JsonError("event param does not exist")) && published == []
    ensures event != "" && table == "" ==>
              resp == Response(BadRequest, JsonError("table param does not exist")) && published == []
    ensures event != "" && table != "" ==>
              var topic := IngestTopic(event, table);
              resp == Response(OK, NoBody)
              && published == [Publication(topic, DecodeBody(body),
                                           Deliveries(Subscribers(broker.subscribers, topic), DecodeBody(body), broken))]
  {
    if event == "" {
      return Response(BadRequest, JsonError("event param does not exist")), [];
    }
    if table == "" {
      return Response(BadRequest, JsonError("table param does not exist")), [];
    }
    var entries := Split(body, ",");
    var keyValueEntries: map<string, string> := map[];
    for i := 0 to |entries|
      invariant keyValueEntries == DecodeEntries(entries[..i])
    {
      assert entries[..i + 1][..i] == entries[..i];
      var keyValue := Split(entries[i], ": ");
      if |keyValue| == 2 {
        keyValueEntries := keyValueEntries[Trim(keyValue[0]) := Trim(keyValue[1])];
      }
    }
    assert entries[..|entries|] == entries;
    var topic := Lower(event) + ":" + table;
    var writes := broker.Publish(topic, keyValueEntries, broken);
    resp := Response(OK, NoBody);
    published := [Publication(topic, keyValueEntries, writes)];
  }

  /**
   * authHandler: an empty id is refused with 400 and no token; otherwise the
   * token `sign` produces is returned, and a signing error is a 400 too.
   * (Both refusals carry the text the source gives them.)
   */
  function AuthHandler(id: string, sign: string -> Option<string>): (r: Response)
    ensures id == "" ==> r == Response(BadRequest, JsonError("event param does not exist"))
    ensures r.status == OK <==> id != "" && sign(id).Some?
    ensures r.status == OK ==> r.body == JsonToken(sign(id).value)
    ensures r.status != OK ==> r.status == BadRequest && !r.body.JsonToken?
  {
    if id == "" then Response(BadRequest, JsonError("event param does not exist"))
    else
      match sign(id)
      case None => Response(BadRequest, JsonError("event param does not exist"))
      case Some(token) => Response(OK, JsonToken(token))
  }

  // ---------------------------------------------------------------------
  // What the decoder keeps

  /** A key is decoded exactly when some piece decodes to it. */
  lemma {:induction false} DecodedKeys(entries: seq<string>, k: string)
    ensures k in DecodeEntries(entries)
            <==> exists j :: 0 <= j < |entries| && DecodeEntry(entries[j]).Some? && DecodeEntry(entries[j]).value.0 == k
    decreases |entries|
  {
    if entries != [] {
      var n := |entries| - 1;
      var front := entries[..n];
      DecodedKeys(front, k);
      var e := DecodeEntry(entries[n]);
      if k in DecodeEntries(entries) {
        if !(e.Some? && e.value.0 == k) {
          assert k in DecodeEntries(front);
          var j :| 0 <= j < n && DecodeEntry(front[j]).Some? && DecodeEntry(front[j]).value.0 == k;
          assert front[j] == entries[j];
        }
      } else {
        forall j | 0 <= j < |entries|
          ensures !(DecodeEntry(entries[j]).Some? && DecodeEntry(entries[j]).value.0 == k)
        {
          if j < n {
            assert front[j] == entries[j];
          }
        }
      }
    }
  }

  /** The value of a key is the one of the last piece that decodes to it. */
  lemma {:induction false} LaterWins(entries: seq<string>, j: int, k: string, v: string)
    requires 0 <= j < |entries| && DecodeEntry(entries[j]) == Some((k, v))
    requires forall l :: j < l < |entries| ==> DecodeEntry(entries[l]).None? || DecodeEntry(entries[l]).value.0 != k
    ensures k in DecodeEntries(entries) && DecodeEntries(entries)[k] == v
    decreases |entries|
  {
    var n := |entries| - 1;
    if j < n {
      assert forall l :: 0 <= l < n ==> entries[..n][l] == entries[l];
      LaterWins(entries[..n], j, k, v);
    }
  }

  /** A body without any ": " decodes to the empty map (it is still published, see CallbackHandler). */
  lemma GarbageDecodesEmpty(body: string)
    requires !Contains(body, ": ")
    ensures DecodeBody(body) == map[]
  {
    var pieces := Split(body, ",");
    SplitPartsAvoid(body, ",", ": ");
    forall i | 0 <= i < |pieces|
      ensures DecodeEntry(pieces[i]).None?
    {
      SplitWithout(pieces[i], ": ");
    }
    NoEntries(pieces);
  }

  /** Pieces none of which decodes give the empty map. */
  lemma {:induction false} NoEntries(entries: seq<string>)
    requires forall i :: 0 <= i < |entries| ==> DecodeEntry(entries[i]).None?
    ensures DecodeEntries(entries) == map[]
    decreases |entries|
  {
    if entries != [] {
      var n := |entries| - 1;
      assert forall i :: 0 <= i < n ==> entries[..n][i] == entries[i];
      NoEntries(entries[..n]);
    }
  }

  // ---------------------------------------------------------------------
  // Round trip with the trigger body

  /** A key or value the wire format carries unambiguously. */
  predicate Plain(x: string)
  {
    ',' !in x && !Contains(x, ": ") && NoEdgeSpaces(x)
  }

  predicate PlainPairs(pairs: seq<(string, string)>)
  {
    forall i :: 0 <= i < |pairs| ==> Plain(pairs[i].0) && Plain(pairs[i].1)
  }

  /** The map of a list of pairs, a later pair overwriting an earlier one with the same key. */
  function PairsMap(pairs: seq<(string, string)>): map<string, string>
  {
    if pairs == [] then map[]
    else
      var p := pairs[|pairs| - 1];
      PairsMap(pairs[..|pairs| - 1])[p.0 := p.1]
  }

  /** Each piece of a rendered body decodes to its pair. */
  lemma PiecesDecode(pairs: seq<(string, string)>)
    requires |pairs| >= 1 && PlainPairs(pairs)
    ensures forall i :: 0 <= i < |pairs| ==> DecodeEntry(Pieces("", pairs)[i]) == Some(pairs[i])
  {
    var pieces := Pieces("", pairs);
    forall i | 0 <= i < |pieces|
      ensures DecodeEntry(pieces[i]) == Some(pairs[i])
    {
      DecodePair(pairs[i]);
      if i == 0 {
        assert pieces[0] == Pair(pairs[0]);
      }
    }
  }

  /** The pieces the body splits into on ",": every piece after the first starts with the space of ", ". */
  function Pieces(pre: string, pairs: seq<(string, string)>): seq<string>
    requires |pairs| >= 1
  {
    [pre + Pair(pairs[0])] + seq(|pairs| - 1, i requires 0 <= i < |pairs| - 1 => " " + Pair(pairs[i + 1]))
  }

  lemma NoSeparatorAfterSpace(k: string)
    requires !Contains(k, ": ")
    ensures !Contains(" " + k, ": ")
  {
    var s := " " + k;
    forall j: nat | j <= |s|
      ensures !OccursAt(s, ": ", j)
    {
      if j == 0 {
        assert s[0] == ' ';
      } else if j + 2 <= |s| {
        assert s[j..j + 2] == k[j - 1..j + 1];
        assert !OccursAt(k, ": ", j - 1);
      }
    }
  }

  /** A pair, with or without the leading space of ", ", decodes back to itself. */
  lemma DecodePair(p: (string, string))
    requires Plain(p.0) && Plain(p.1)
    ensures DecodeEntry(Pair(p)) == Some(p)
    ensures DecodeEntry(" " + Pair(p)) == Some(p)
  {
    var (k, v) := p;
    SplitPair(k, ": ", v);
    TrimUnchanged(k);
    TrimUnchanged(v);
    NoSeparatorAfterSpace(k);
    assert " " + Pair(p) == (" " + k) + ": " + v;
    SplitPair(" " + k, ": ", v);
    TrimLeadingSpace(k);
  }

  lemma {:induction false} SplitRender(pre: string, pairs: seq<(string, string)>)
    requires ',' !in pre && |pairs| >= 1 && PlainPairs(pairs)
    ensures Split(pre + Render(pairs), ",") == Pieces(pre, pairs)
    decreases |pairs|
  {
    var a := pre + Pair(pairs[0]);
    FirstPiece(pre, pairs[0]);
    if |pairs| > 1 {
      var rest := pairs[1..];
      assert PlainPairs(rest) by {
        assert forall i :: 0 <= i < |rest| ==> rest[i] == pairs[i + 1];
      }
      SplitRender(" ", rest);
      RenderCons(pre, pairs);
      SplitAround(a, ",", " " + Render(rest));
      PiecesCons(pre, pairs);
    } else {
      assert Pieces(pre, pairs) == [a];
    }
  }

  /** A prefix and a plain pair hold no ',', so they are a single piece. */
  lemma FirstPiece(pre: string, p: (string, string))
    requires ',' !in pre && Plain(p.0) && Plain(p.1)
    ensures Split(pre + Pair(p), ",") == [pre + Pair(p)]
  {
    var a := pre + Pair(p);
    assert a == pre + p.0 + ": " + p.1;
    assert ',' !in a;
    NotContainsFirst(a, ",");
    SplitWithout(a, ",");
  }

  lemma RenderCons(pre: string, pairs: seq<(string, string)>)
    requires |pairs| > 1
    ensures pre + Render(pairs) == (pre + Pair(pairs[0])) + "," + (" " + Render(pairs[1..]))
  {
    assert Render(pairs) == Pair(pairs[0]) + ", " + Render(pairs[1..]);
    assert ", " == "," + " ";
  }

  lemma PiecesCons(pre: string, pairs: seq<(string, string)>)
    requires |pairs| > 1
    ensures Pieces(pre, pairs) == [pre + Pair(pairs[0])] + Pieces(" ", pairs[1..])
  {
  }

  lemma {:induction false} DecodeAll(entries: seq<string>, pairs: seq<(string, string)>)
    requires |entries| == |pairs|
    requires forall i :: 0 <= i < |entries| ==> DecodeEntry(entries[i]) == Some(pairs[i])
    ensures DecodeEntries(entries) == PairsMap(pairs)
    decreases |entries|
  {
    if entries != [] {
      var n := |entries| - 1;
      DecodeAll(entries[..n], pairs[..n]);
    }
  }

  /** Decoding the wire body of a list of plain pairs gives back their map. */
  lemma RoundTrip(pairs: seq<(string, string)>)
    requires PlainPairs(pairs)
    ensures DecodeBody(Render(pairs)) == PairsMap(pairs)
  {
    if pairs == [] {
      assert Split("", ",") == [""];
      assert Split("", ": ") == [""];
      assert [""][..0] == [];
    } else {
      SplitRender("", pairs);
      assert "" + Render(pairs) == Render(pairs);
      PiecesDecode(pairs);
      DecodeAll(Pieces("", pairs), pairs);
    }
  }

  /** With distinct keys, the map of the pairs holds exactly those pairs. */
  lemma {:induction false} PairsMapDistinct(pairs: seq<(string, string)>)
    requires forall i, j :: 0 <= i < j < |pairs| ==> pairs[i].0 != pairs[j].0
    ensures forall i :: 0 <= i < |pairs| ==> pairs[i].0 in PairsMap(pairs) && PairsMap(pairs)[pairs[i].0] == pairs[i].1
    ensures forall k :: k in PairsMap(pairs) ==> exists i :: 0 <= i < |pairs| && pairs[i].0 == k
    decreases |pairs|
  {
    if pairs != [] {
      var n := |pairs| - 1;
      PairsMapDistinct(pairs[..n]);
      assert forall i :: 0 <= i < n ==> pairs[..n][i] == pairs[i];
    }
  }

  /**
   * The body a MySQL trigger sends for a row (its CONCAT list evaluated on
   * the row image) decodes to that row: every column is
   * a key, with its value or the text NULL, when column names and values are
   * plain and the column names are distinct.
   */
  lemma TriggerBodyDecodes(nullFn: string, rowVar: string, columns: seq<string>, row: Row)
    requires forall i :: 0 <= i < |columns| ==> Plain(columns[i])
    requires forall c :: c in row && row[c].Some? ==> Plain(row[c].value)
    requires forall i, j :: 0 <= i < j < |columns| ==> columns[i] != columns[j]
    ensures var decoded := DecodeBody(Eval(ConcatArgs(nullFn, rowVar, columns), row));
            decoded.Keys == (set i | 0 <= i < |columns| :: columns[i])
            && forall i :: 0 <= i < |columns| ==> decoded[columns[i]] == ValueOrNull(row, columns[i])
  {
    EvalRendersRow(nullFn, rowVar, columns, row);
    RowPairsPlain(columns, row);
    RoundTrip(RowPairs(columns, row));
    RowPairsMap(columns, row);
  }

  lemma RowPairsPlain(columns: seq<string>, row: Row)
    requires forall i :: 0 <= i < |columns| ==> Plain(columns[i])
    requires forall c :: c in row && row[c].Some? ==> Plain(row[c].value)
    ensures PlainPairs(RowPairs(columns, row))
  {
    NotContainsFirst("NULL", ": ");
  }

  /** With distinct columns, the map of a row's pairs has the columns as keys and their values. */
  lemma RowPairsMap(columns: seq<string>, row: Row)
    requires forall i, j :: 0 <= i < j < |columns| ==> columns[i] != columns[j]
    ensures var m := PairsMap(RowPairs(columns, row));
            m.Keys == (set i | 0 <= i < |columns| :: columns[i])
            && forall i :: 0 <= i < |columns| ==> m[columns[i]] == ValueOrNull(row, columns[i])
  {
    var pairs := RowPairs(columns, row);
    PairsMapDistinct(pairs);
    var m := PairsMap(pairs);
    var names := set i | 0 <= i < |columns| :: columns[i];
    forall k | k in m
      ensures k in names
    {
      var i :| 0 <= i < |pairs| && pairs[i].0 == k;
      assert columns[i] == k;
    }
    forall k | k in names
      ensures k in m
    {
      var i :| 0 <= i < |columns| && columns[i] == k;
      assert pairs[i].0 == k;
    }
  }

  // ---------------------------------------------------------------------
  // The ingest topic

  /** For events without ':', the topic determines the lower-cased event and the table. */
  lemma TopicInjective(e1: string, t1: string, e2: string, t2: string)
    requires ':' !in e1 && ':' !in e2
    requires IngestTopic(e1, t1) == IngestTopic(e2, t2)
    ensures Lower(e1) == Lower(e2) && t1 == t2
  {
    LowerKeeps(e1, ':');
    LowerKeeps(e2, ':');
    SplitAtChar(Lower(e1), Lower(e2), ':', t1, t2);
  }

  /** The event's letter case does not matter; the table's does. */
  lemma TopicIgnoresEventCase(event: string, table: string)
    ensures IngestTopic(event, table) == IngestTopic(Lower(event), table)
  {
    assert Lower(Lower(event)) == Lower(event);
  }
}
