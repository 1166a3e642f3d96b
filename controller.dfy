/** The request handlers of backend/controllers/messages.js: sending a local message,
    which writes one record and then publishes it twice, and the two read queries.
    HTTP framing is reduced to a reply datatype; the socket server is an outbox of
    emissions; the clock and the database's `_id` generator are parameters. */
module Controller {
  import opened Wrappers
  import opened MessageModel
  import opened Sorting
  import Numerals

  /** The body of a send request; any field may be missing. */
  datatype SendRequest = SendRequest(waId: Option<string>, name: Option<string>, phone: Option<string>, text: Option<string>)

  /** One row of the conversation list; `id` is the conversation's `wa_id`. */
  datatype Summary = Summary(id: string, name: Option<string>, phone: Option<string>, lastMessage: string, lastTime: int)

  datatype Event = NewMessage(msg: Message) | ConversationUpdate(row: Summary)

  /** A socket room named after a `wa_id`, or every connected client. */
  datatype Target = Room(waId: string) | AllClients

  datatype Emission = Emission(target: Target, event: Event)

  /** 201 with the stored record, 400, or 500. */
  datatype Reply = Created(msg: Message) | BadRequest | ServerError

  /** The socket server, reduced to the emissions it has been asked to make, in order. */
  class Broadcaster {
    var emitted: seq<Emission>

    constructor ()
      ensures emitted == []
    {
      emitted := [];
    }

    method Emit(target: Target, event: Event)
      modifies this
      ensures emitted == old(emitted) + [Emission(target, event)]
    {
      emitted := emitted + [Emission(target, event)];
    }
  }

  // ---- Sending ----

  /** The `message_id` of a message sent at millisecond `now`. */
  function LocalId(now: nat): string
  {
    "local_" + Numerals.Decimal(now)
  }

  /** Messages sent in different milliseconds get different ids. */
  lemma LocalIdsDiffer(now1: nat, now2: nat)
    requires now1 != now2
    ensures LocalId(now1) != LocalId(now2)
  {
    Numerals.DecimalInjective(now1, now2);
    var p := "local_";
    assert LocalId(now1)[|p|..] == Numerals.Decimal(now1);
    assert LocalId(now2)[|p|..] == Numerals.Decimal(now2);
  }

  predicate Accepted(req: SendRequest)
  {
    Truthy(req.waId) && Truthy(req.text)
  }

  /** The record `sendMessage` creates. */
  function LocalRecord(req: SendRequest, now: nat, oid: string): Message
    requires Accepted(req)
  {
    Message(oid, req.waId.value, req.name, req.phone, LocalId(now), None, true, req.text.value, now, "sent")
  }

  datatype SendResult = SendResult(reply: Reply, records: seq<Message>, emissions: seq<Emission>)

  /** What `sendMessage` does to the collection and the sockets, and what it answers. */
  function Send(rs: seq<Message>, req: SendRequest, now: nat, oid: string): SendResult
  {
    if !Accepted(req) then SendResult(BadRequest, rs, [])
    else
      var m := LocalRecord(req, now, oid);
      match Create(rs, m)
      case Err(_) => SendResult(ServerError, rs, [])
      case Ok(s) =>
        SendResult(Created(m), s,
          [Emission(Room(m.waId), NewMessage(m)),
           Emission(AllClients, ConversationUpdate(Summary(m.waId, req.name, req.phone, m.text, m.timestamp)))])
  }

  /** A request without a `wa_id` or without text is refused with 400: nothing is
      written and nothing emitted. */
  lemma SendRejectsIncomplete(rs: seq<Message>, req: SendRequest, now: nat, oid: string)
    requires !Truthy(req.waId) || !Truthy(req.text)
    ensures Send(rs, req, now, oid) == SendResult(BadRequest, rs, [])
  {
  }

  /** An accepted request whose record clashes with none stored is answered 201 with the
      one record it appends: the request's wa_id, name, phone and text, `from_me`, status
      "sent", id "local_" followed by the time. The record is then emitted to the
      conversation's room only, and after it the conversation row to every client. */
  lemma SendStoresOne(rs: seq<Message>, req: SendRequest, now: nat, oid: string)
    requires Accepted(req)
    requires forall i :: 0 <= i < |rs| ==> !Clashes(rs[i], LocalRecord(req, now, oid))
    ensures
      var r := Send(rs, req, now, oid);
      r.reply.Created? &&
      var m := r.reply.msg;
      r.records == rs + [m] &&
      m.waId == req.waId.value && m.name == req.name && m.phone == req.phone &&
      m.text == req.text.value && m.fromMe && m.status == "sent" && m.timestamp == now &&
      m.messageId == "local_" + Numerals.Decimal(now) && m.oid == oid &&
      r.emissions == [Emission(Room(req.waId.value), NewMessage(m)),
                      Emission(AllClients, ConversationUpdate(Summary(req.waId.value, req.name, req.phone, req.text.value, now)))]
  {
    assert Validates(LocalRecord(req, now, oid));
  }

  /** An accepted request whose record would break a unique index is answered 500, with
      nothing written and nothing emitted. */
  lemma SendClashFails(rs: seq<Message>, req: SendRequest, now: nat, oid: string, i: int)
    requires Accepted(req)
    requires 0 <= i < |rs| && Clashes(rs[i], LocalRecord(req, now, oid))
    ensures Send(rs, req, now, oid) == SendResult(ServerError, rs, [])
  {
    assert Validates(LocalRecord(req, now, oid));
  }

  /** A second send to the same conversation in the same millisecond fails with 500. */
  lemma SameMillisecondRejected(rs: seq<Message>, req1: SendRequest, req2: SendRequest, now: nat, oid1: string, oid2: string)
    requires Send(rs, req1, now, oid1).reply.Created?
    requires Accepted(req2) && req2.waId == req1.waId
    ensures Send(Send(rs, req1, now, oid1).records, req2, now, oid2).reply == ServerError
  {
    var s := Send(rs, req1, now, oid1).records;
    assert s[|rs|] == LocalRecord(req1, now, oid1);
    SendClashFails(s, req2, now, oid2, |rs|);
  }

  /** Sending keeps both unique indexes. */
  lemma SendKeepsIndexes(rs: seq<Message>, req: SendRequest, now: nat, oid: string)
    requires IndexesHold(rs)
    ensures IndexesHold(Send(rs, req, now, oid).records)
  {
  }

  /** Publish after commit and topic isolation: every emitted message is stored by the
      time it is emitted, and goes only to the room of its own conversation. */
  lemma SendPublishesCommitted(rs: seq<Message>, req: SendRequest, now: nat, oid: string)
    ensures
      var r := Send(rs, req, now, oid);
      forall k :: 0 <= k < |r.emissions| && r.emissions[k].event.NewMessage? ==>
        r.emissions[k].event.msg in r.records &&
        r.emissions[k].target == Room(r.emissions[k].event.msg.waId)
  {
  }

  /** `sendMessage`. */
  method SendMessage(db: Collection, io: Broadcaster, req: SendRequest, now: nat, oid: string) returns (reply: Reply)
    requires db.Valid()
    modifies db, io
    ensures db.Valid()
    ensures reply == Send(old(db.records), req, now, oid).reply
    ensures db.records == Send(old(db.records), req, now, oid).records
    ensures io.emitted == old(io.emitted) + Send(old(db.records), req, now, oid).emissions
  {
    if !Truthy(req.waId) || !Truthy(req.text) {
      return BadRequest;
    }
    var msg := LocalRecord(req, now, oid);
    var created := Create(db.records, msg);
    if created.Err? {
      return ServerError;
    }
    db.records := created.value;
    io.Emit(Room(msg.waId), NewMessage(msg));
    io.Emit(AllClients, ConversationUpdate(Summary(msg.waId, req.name, req.phone, msg.text, msg.timestamp)));
    return Created(msg);
  }

  // ---- Messages of one conversation ----

  /** `find({ wa_id })`: the records of conversation `w`, each as often as it is stored. */
  function MessagesOf(rs: seq<Message>, w: string): (r: seq<Message>)
    ensures forall m :: multiset(r)[m] == if m.waId == w then multiset(rs)[m] else 0
  {
    if rs == [] then []
    else
      assert rs == [rs[0]] + rs[1..];
      (if rs[0].waId == w then [rs[0]] else []) + MessagesOf(rs[1..], w)
  }

  function TimeKey(m: Message): int
  {
    m.timestamp
  }

  /** `getMessages`: exactly the records of conversation `w`, oldest first. */
  function GetMessages(rs: seq<Message>, w: string): (r: seq<Message>)
    ensures forall m :: multiset(r)[m] == if m.waId == w then multiset(rs)[m] else 0
    ensures forall i, j :: 0 <= i < j < |r| ==> r[i].timestamp <= r[j].timestamp
  {
    var r := SortBy(MessagesOf(rs, w), TimeKey);
    assert forall i, j :: 0 <= i < j < |r| ==> TimeKey(r[i]) <= TimeKey(r[j]);
    r
  }

  /** A successful send is in the conversation's history from then on. */
  lemma SentMessageListed(rs: seq<Message>, req: SendRequest, now: nat, oid: string)
    requires Send(rs, req, now, oid).reply.Created?
    ensures Send(rs, req, now, oid).reply.msg in GetMessages(Send(rs, req, now, oid).records, req.waId.value)
  {
    var r := Send(rs, req, now, oid);
    var m := r.reply.msg;
    assert r.records == rs + [m];
    assert m in multiset(r.records);
    assert m in multiset(GetMessages(r.records, req.waId.value));
  }

  // ---- Conversation list ----

  predicate HasWaId(rs: seq<Message>, w: string)
  {
    exists i :: 0 <= i < |rs| && rs[i].waId == w
  }

  /** The distinct `wa_id`s of the collection, each once. */
  function WaIds(rs: seq<Message>): (ids: seq<string>)
    ensures forall w :: w in ids <==> HasWaId(rs, w)
    ensures forall i, j :: 0 <= i < j < |ids| ==> ids[i] != ids[j]
  {
    if rs == [] then []
    else
      var front := rs[..|rs| - 1];
      var t := WaIds(front);
      var w := rs[|rs| - 1].waId;
      assert forall x :: HasWaId(rs, x) <==> HasWaId(front, x) || x == w by {
        forall x ensures HasWaId(rs, x) <==> HasWaId(front, x) || x == w {
          if HasWaId(front, x) {
            var i :| 0 <= i < |front| && front[i].waId == x;
            assert rs[i].waId == x;
          }
        }
      }
      if w in t then t else t + [w]
  }

  /** A record of conversation `w` with the latest timestamp: `$first` after sorting on
      timestamp, newest first. */
  function Latest(rs: seq<Message>, w: string): (m: Message)
    requires HasWaId(rs, w)
    ensures m in rs && m.waId == w
    ensures forall i :: 0 <= i < |rs| && rs[i].waId == w ==> rs[i].timestamp <= m.timestamp
  {
    if !HasWaId(rs[1..], w) then
      assert forall i :: 1 <= i < |rs| ==> rs[i].waId != w by {
        forall i | 1 <= i < |rs| ensures rs[i].waId != w {
          assert rs[1..][i - 1] == rs[i];
        }
      }
      rs[0]
    else
      var n := Latest(rs[1..], w);
      assert forall i :: 1 <= i < |rs| ==> rs[i] == rs[1..][i - 1];
      if rs[0].waId == w && rs[0].timestamp >= n.timestamp then rs[0] else n
  }

  /** The row of one conversation. */
  function Row(rs: seq<Message>, w: string): Summary
    requires HasWaId(rs, w)
  {
    var m := Latest(rs, w);
    Summary(w, m.name, m.phone, m.text, m.timestamp)
  }

  /** `row` summarises its conversation: its `lastTime` is the largest timestamp there,
      and its name, phone and last message come from a record with that timestamp. */
  ghost predicate Summarises(rs: seq<Message>, row: Summary)
  {
    && HasWaId(rs, row.id)
    && (forall i :: 0 <= i < |rs| && rs[i].waId == row.id ==> rs[i].timestamp <= row.lastTime)
    && (exists i :: 0 <= i < |rs| && rs[i].waId == row.id && rs[i].timestamp == row.lastTime &&
                    rs[i].name == row.name && rs[i].phone == row.phone && rs[i].text == row.lastMessage)
  }

  lemma RowSummarises(rs: seq<Message>, w: string)
    requires HasWaId(rs, w)
    ensures Row(rs, w).id == w && Summarises(rs, Row(rs, w))
  {
    var m := Latest(rs, w);
    var i :| 0 <= i < |rs| && rs[i] == m;
  }

  function RecencyKey(s: Summary): int
  {
    -s.lastTime
  }

  function RowId(s: Summary): string
  {
    s.id
  }

  /** `getConversations`: one row per distinct `wa_id`, each summarising its
      conversation, the most recently active first. */
  function GetConversations(rs: seq<Message>): (rows: seq<Summary>)
    ensures forall w :: (exists i :: 0 <= i < |rows| && rows[i].id == w) <==> HasWaId(rs, w)
    ensures forall i, j :: 0 <= i < j < |rows| ==> rows[i].id != rows[j].id
    ensures forall i :: 0 <= i < |rows| ==> Summarises(rs, rows[i])
    ensures forall i, j :: 0 <= i < j < |rows| ==> rows[i].lastTime >= rows[j].lastTime
  {
    var ids := WaIds(rs);
    var grouped := seq(|ids|, k requires 0 <= k < |ids| => Row(rs, ids[k]));
    var rows := SortBy(grouped, RecencyKey);
    ConversationRows(rs, ids, grouped, rows);
    rows
  }

  lemma ConversationRows(rs: seq<Message>, ids: seq<string>, grouped: seq<Summary>, rows: seq<Summary>)
    requires forall w :: w in ids <==> HasWaId(rs, w)
    requires forall i, j :: 0 <= i < j < |ids| ==> ids[i] != ids[j]
    requires |grouped| == |ids| && forall k :: 0 <= k < |ids| ==> grouped[k] == Row(rs, ids[k])
    requires multiset(rows) == multiset(grouped) && SortedBy(rows, RecencyKey)
    ensures forall w :: (exists i :: 0 <= i < |rows| && rows[i].id == w) <==> HasWaId(rs, w)
    ensures forall i, j :: 0 <= i < j < |rows| ==> rows[i].id != rows[j].id
    ensures forall i :: 0 <= i < |rows| ==> Summarises(rs, rows[i])
    ensures forall i, j :: 0 <= i < j < |rows| ==> rows[i].lastTime >= rows[j].lastTime
  {
    forall k | 0 <= k < |ids| ensures grouped[k].id == ids[k] && Summarises(rs, grouped[k]) {
      RowSummarises(rs, ids[k]);
    }
    assert DistinctBy(grouped, RowId);
    PermutationKeepsDistinct(grouped, rows, RowId);
    forall i | 0 <= i < |rows| ensures Summarises(rs, rows[i]) {
      assert rows[i] in multiset(grouped);
    }
    forall w ensures (exists i :: 0 <= i < |rows| && rows[i].id == w) <==> HasWaId(rs, w) {
      if HasWaId(rs, w) {
        var k :| 0 <= k < |ids| && ids[k] == w;
        assert grouped[k] in multiset(rows);
        var i :| 0 <= i < |rows| && rows[i] == grouped[k];
        assert rows[i].id == w;
      }
    }
    forall i, j | 0 <= i < j < |rows| ensures rows[i].lastTime >= rows[j].lastTime {
      assert RecencyKey(rows[i]) <= RecencyKey(rows[j]);
    }
  }

  /** A collection of one record lists one conversation, summarised by that record. */
  lemma SingleRecordConversation(m: Message)
    ensures GetConversations([m]) == [Summary(m.waId, m.name, m.phone, m.text, m.timestamp)]
  {
    var rows := GetConversations([m]);
    assert HasWaId([m], m.waId);
    assert forall i :: 0 <= i < |rows| ==> rows[i].id == m.waId;
    assert exists i :: 0 <= i < |rows| && rows[i].id == m.waId;
    assert Summarises([m], rows[0]);
  }
}
