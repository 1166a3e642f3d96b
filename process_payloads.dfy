/** Ingestion of webhook payload files (backend/scripts/processPayloads.js). Each file holds
    one notification in the shape of the WhatsApp Cloud API webhook; the value found at
    `metaData.entry[0].changes[0].value` either carries a message, which is inserted once,
    or a status, which overwrites the status of the matching records. Ingestion publishes
    nothing. Reading files and connecting to the database are not modelled: a file is given
    as its parsed content, and the `_id` the database would generate for an upsert is a
    parameter. */
module Ingestion {
  import opened Wrappers
  import opened MessageModel

  datatype Profile = Profile(name: Option<string>)
  datatype Contact = Contact(waId: string, profile: Option<Profile>)
  datatype TextPart = TextPart(body: Option<string>)
  /** One entry of `messages`; `timestamp` is in seconds since the epoch. */
  datatype InboundMessage = InboundMessage(from: string, id: string, text: Option<TextPart>, timestamp: int)
  /** One entry of `statuses`. */
  datatype StatusEntry = StatusEntry(id: Option<string>, metaMsgId: Option<string>, status: string)
  datatype Value = Value(
    contacts: Option<seq<Contact>>,
    messages: Option<seq<InboundMessage>>,
    statuses: Option<seq<StatusEntry>>)
  datatype Change = Change(value: Option<Value>)
  datatype Entry = Entry(changes: Option<seq<Change>>)
  datatype MetaData = MetaData(entry: Option<seq<Entry>>)
  /** A payload file: unreadable or not JSON, or the parsed document. */
  datatype PayloadFile = Unreadable | Parsed(metaData: Option<MetaData>)

  /** `xs?.[0]`. */
  function First<T>(xs: Option<seq<T>>): (r: Option<T>)
    ensures r.Some? <==> xs.Some? && |xs.value| > 0
    ensures r.Some? ==> r.value == xs.value[0]
  {
    if xs.Some? && |xs.value| > 0 then Some(xs.value[0]) else None
  }

  /** `data?.metaData?.entry?.[0]?.changes?.[0]?.value`. */
  function ChangeValue(f: PayloadFile): Option<Value>
  {
    if f.Unreadable? || f.metaData.None? then None
    else
      match First(f.metaData.value.entry)
      case None => None
      case Some(e) =>
        match First(e.changes)
        case None => None
        case Some(c) => c.value
  }

  /** The instant, in milliseconds, of a timestamp given in whole seconds. */
  function ParseTimeStamp(seconds: int): (ms: int)
    ensures ms % 1000 == 0 && ms / 1000 == seconds
  {
    seconds * 1000
  }

  /** The document `insertMessage` writes for a contact and a message. */
  function NewDocument(c: Contact, m: InboundMessage, oid: string): Message
  {
    var name := if c.profile.Some? && Truthy(c.profile.value.name) then c.profile.value.name else None;
    var text := if m.text.Some? && Truthy(m.text.value.body) then m.text.value.body.value else "";
    Message(oid, c.waId, name, Some(c.waId), m.id, Some(m.id), m.from != c.waId, text,
            ParseTimeStamp(m.timestamp), "sent")
  }

  predicate HasMessageId(rs: seq<Message>, id: string)
  {
    exists i :: 0 <= i < |rs| && rs[i].messageId == id
  }

  /** Exactly one stored record carries `id`. */
  ghost predicate HoldsOnce(rs: seq<Message>, id: string)
  {
    HasMessageId(rs, id) &&
    forall i, j :: 0 <= i < |rs| && 0 <= j < |rs| && rs[i].messageId == id && rs[j].messageId == id ==> i == j
  }

  /** The effect of `insertMessage`: skipped without a first contact and a first message;
      an upsert filtered on `message_id` alone whose `$setOnInsert` leaves an existing
      match untouched; otherwise the insertion of the new document, which fails with a
      duplicate key when the generated `_id` is taken. */
  function AfterInsert(rs: seq<Message>, v: Value, oid: string): Result<seq<Message>, WriteError>
  {
    match (First(v.contacts), First(v.messages))
    case (Some(c), Some(m)) =>
      if HasMessageId(rs, m.id) then Ok(rs) else InsertDocument(rs, NewDocument(c, m, oid))
    case _ => Ok(rs)
  }

  /** Whether the `updateMany` filter of a status entry selects a record: on `message_id`
      when the entry has an `id`, else on `meta_msg_id` (an absent one selecting the
      records that have none). */
  predicate Selects(s: StatusEntry, m: Message)
  {
    if Truthy(s.id) then m.messageId == s.id.value else m.metaMsgId == s.metaMsgId
  }

  /** `updateMany(query, { $set: { status } })`. */
  function SetStatusWhere(rs: seq<Message>, s: StatusEntry): seq<Message>
  {
    seq(|rs|, i requires 0 <= i < |rs| => if Selects(s, rs[i]) then rs[i].(status := s.status) else rs[i])
  }

  /** The effect of `updateStatus`: nothing without a first status entry. */
  function AfterStatus(rs: seq<Message>, v: Value): seq<Message>
  {
    match First(v.statuses)
    case None => rs
    case Some(s) => SetStatusWhere(rs, s)
  }

  /** The effect of `processFile`: a file without a value is skipped; a value with
      `messages` goes to insertion even when it also has `statuses`; otherwise one with
      `statuses` goes to the status update; anything else is skipped. A thrown error is
      caught, leaving the collection as it was. */
  function AfterFile(rs: seq<Message>, f: PayloadFile, oid: string): seq<Message>
  {
    match ChangeValue(f)
    case None => rs
    case Some(v) =>
      if v.messages.Some? then
        match AfterInsert(rs, v, oid)
        case Ok(s) => s
        case Err(_) => rs
      else if v.statuses.Some? then AfterStatus(rs, v)
      else rs
  }

  /** The files processed one after the other, in order. */
  function AfterFiles(rs: seq<Message>, fs: seq<PayloadFile>, oids: seq<string>): seq<Message>
    requires |fs| == |oids|
  {
    if fs == [] then rs
    else AfterFile(AfterFiles(rs, fs[..|fs| - 1], oids[..|oids| - 1]), fs[|fs| - 1], oids[|oids| - 1])
  }

  // ---- Properties of insertion ----

  /** A value lacking a first contact or a first message, empty lists included, changes nothing. */
  lemma InsertSkipsIncomplete(rs: seq<Message>, v: Value, oid: string)
    requires First(v.contacts).None? || First(v.messages).None?
    ensures AfterInsert(rs, v, oid) == Ok(rs)
  {
  }

  /** A message whose id is already stored changes nothing, whatever its conversation. */
  lemma InsertExistingUnchanged(rs: seq<Message>, v: Value, oid: string, i: int)
    requires First(v.messages).Some?
    requires 0 <= i < |rs| && rs[i].messageId == First(v.messages).value.id
    ensures AfterInsert(rs, v, oid) == Ok(rs)
  {
  }

  /** A message whose id is not stored, given a free `_id`, is appended as one record with
      the contact's number as `wa_id` and `phone`, the message id as `message_id` and
      `meta_msg_id`, the body or "" as text, the profile name or none, status "sent",
      the timestamp in milliseconds, and `from_me` exactly when the sender is not the contact. */
  lemma InsertNewRecord(rs: seq<Message>, v: Value, oid: string)
    requires First(v.contacts).Some? && First(v.messages).Some?
    requires !HasMessageId(rs, First(v.messages).value.id)
    requires forall i :: 0 <= i < |rs| ==> rs[i].oid != oid
    ensures
      var c, m := First(v.contacts).value, First(v.messages).value;
      AfterInsert(rs, v, oid).Ok? &&
      exists d :: AfterInsert(rs, v, oid).value == rs + [d] &&
        d.oid == oid && d.waId == c.waId && d.phone == Some(c.waId) &&
        d.messageId == m.id && d.metaMsgId == Some(m.id) &&
        d.text == (if m.text.Some? && Truthy(m.text.value.body) then m.text.value.body.value else "") &&
        d.name == (if c.profile.Some? && Truthy(c.profile.value.name) then c.profile.value.name else None) &&
        d.status == "sent" && InEnum(d.status) &&
        d.timestamp == m.timestamp * 1000 &&
        (d.fromMe <==> m.from != c.waId)
  {
    var c, m := First(v.contacts).value, First(v.messages).value;
    var d := NewDocument(c, m, oid);
    assert !exists i :: 0 <= i < |rs| && Clashes(rs[i], d);
    assert AfterInsert(rs, v, oid).value == rs + [d];
  }

  /** Insertion keeps both unique indexes. */
  lemma InsertKeepsIndexes(rs: seq<Message>, v: Value, oid: string)
    requires IndexesHold(rs)
    ensures AfterInsert(rs, v, oid).Ok? ==> IndexesHold(AfterInsert(rs, v, oid).value)
  {
  }

  // ---- Properties of the status update ----

  /** The update rewrites `status`, to the incoming value, on exactly the selected
      records; every other record, and every other field, is left as it was. */
  lemma StatusUpdateEffect(rs: seq<Message>, s: StatusEntry, v: Value)
    requires First(v.statuses) == Some(s)
    ensures |AfterStatus(rs, v)| == |rs|
    ensures forall i :: 0 <= i < |rs| ==>
      AfterStatus(rs, v)[i].(status := rs[i].status) == rs[i] &&
      AfterStatus(rs, v)[i].status == (if Selects(s, rs[i]) then s.status else rs[i].status)
  {
  }

  /** A value without a first status entry changes nothing, and so does one that selects
      no record: an orphan status is not an error. */
  lemma StatusWithoutMatchUnchanged(rs: seq<Message>, v: Value)
    requires First(v.statuses).None? || forall i :: 0 <= i < |rs| ==> !Selects(First(v.statuses).value, rs[i])
    ensures AfterStatus(rs, v) == rs
  {
  }

  /** The status update keeps both unique indexes: it changes no key. */
  lemma StatusKeepsIndexes(rs: seq<Message>, v: Value)
    requires IndexesHold(rs)
    ensures IndexesHold(AfterStatus(rs, v))
  {
    var r := AfterStatus(rs, v);
    assert forall i :: 0 <= i < |rs| ==> r[i].waId == rs[i].waId && r[i].messageId == rs[i].messageId && r[i].oid == rs[i].oid;
  }

  /** Replaying a status value changes nothing more. */
  lemma StatusIdempotent(rs: seq<Message>, v: Value)
    ensures AfterStatus(AfterStatus(rs, v), v) == AfterStatus(rs, v)
  {
  }

  /** The last status applied wins: a later value overwrites an earlier one on every record
      both select, so a stale "sent" after "read" brings the record back to "sent". */
  lemma StatusLastWriterWins(rs: seq<Message>, v1: Value, v2: Value, i: int)
    requires First(v2.statuses).Some?
    requires 0 <= i < |rs| && Selects(First(v2.statuses).value, rs[i])
    ensures AfterStatus(AfterStatus(rs, v1), v2)[i].status == First(v2.statuses).value.status
  {
    if First(v1.statuses).Some? {
      StatusUpdateEffect(rs, First(v1.statuses).value, v1);
    }
  }

  // ---- Properties of routing ----

  /** A file without a value, unreadable ones included, changes nothing. */
  lemma FileWithoutValueIgnored(rs: seq<Message>, f: PayloadFile, oid: string)
    requires ChangeValue(f).None?
    ensures AfterFile(rs, f, oid) == rs
  {
  }

  /** A value with `messages` is inserted, and its `statuses` are ignored. */
  lemma MessagesTakePriority(rs: seq<Message>, f: PayloadFile, v: Value, oid: string)
    requires ChangeValue(f) == Some(v) && v.messages.Some?
    ensures AfterFile(rs, f, oid) == (if AfterInsert(rs, v, oid).Ok? then AfterInsert(rs, v, oid).value else rs)
    ensures AfterInsert(rs, v, oid) == AfterInsert(rs, v.(statuses := None), oid)
  {
  }

  /** A value with `statuses` and no `messages` goes to the status update; one with
      neither changes nothing. */
  lemma StatusesRouted(rs: seq<Message>, f: PayloadFile, v: Value, oid: string)
    requires ChangeValue(f) == Some(v) && v.messages.None?
    ensures v.statuses.Some? ==> AfterFile(rs, f, oid) == AfterStatus(rs, v)
    ensures v.statuses.None? ==> AfterFile(rs, f, oid) == rs
  {
  }

  /** Processing a file keeps both unique indexes. */
  lemma FileKeepsIndexes(rs: seq<Message>, f: PayloadFile, oid: string)
    requires IndexesHold(rs)
    ensures IndexesHold(AfterFile(rs, f, oid))
  {
    match ChangeValue(f)
    case None =>
    case Some(v) =>
      if v.messages.Some? {
        InsertKeepsIndexes(rs, v, oid);
      } else if v.statuses.Some? {
        StatusKeepsIndexes(rs, v);
      }
  }

  /** Processing files in sequence keeps both unique indexes. */
  lemma {:induction false} FilesKeepIndexes(rs: seq<Message>, fs: seq<PayloadFile>, oids: seq<string>)
    requires |fs| == |oids|
    requires IndexesHold(rs)
    ensures IndexesHold(AfterFiles(rs, fs, oids))
  {
    if fs != [] {
      FilesKeepIndexes(rs, fs[..|fs| - 1], oids[..|oids| - 1]);
      FileKeepsIndexes(AfterFiles(rs, fs[..|fs| - 1], oids[..|oids| - 1]), fs[|fs| - 1], oids[|oids| - 1]);
    }
  }

  /** Replaying one message file any positive number of times stores its message once:
      the first pass appends the record and every later pass finds its `message_id`. */
  lemma {:induction false} ReplayStoresOnce(rs: seq<Message>, f: PayloadFile, fs: seq<PayloadFile>, oids: seq<string>)
    requires |fs| == |oids| && |fs| >= 1
    requires forall k :: 0 <= k < |fs| ==> fs[k] == f
    requires ChangeValue(f).Some? && ChangeValue(f).value.messages.Some?
    requires First(ChangeValue(f).value.contacts).Some? && First(ChangeValue(f).value.messages).Some?
    requires !HasMessageId(rs, First(ChangeValue(f).value.messages).value.id)
    requires forall i :: 0 <= i < |rs| ==> rs[i].oid != oids[0]
    ensures
      var c, m := First(ChangeValue(f).value.contacts).value, First(ChangeValue(f).value.messages).value;
      AfterFiles(rs, fs, oids) == rs + [NewDocument(c, m, oids[0])] &&
      HoldsOnce(AfterFiles(rs, fs, oids), m.id)
  {
    var v := ChangeValue(f).value;
    var c, m := First(v.contacts).value, First(v.messages).value;
    var d := NewDocument(c, m, oids[0]);
    var n := |fs|;
    if n == 1 {
      assert AfterFiles(rs, fs[..0], oids[..0]) == rs;
      assert !exists i :: 0 <= i < |rs| && Clashes(rs[i], d);
    } else {
      ReplayStoresOnce(rs, f, fs[..n - 1], oids[..n - 1]);
      var before := AfterFiles(rs, fs[..n - 1], oids[..n - 1]);
      assert before[|rs|].messageId == m.id;
      assert AfterInsert(before, v, oids[n - 1]) == Ok(before);
    }
    var r := rs + [d];
    assert r[|rs|].messageId == m.id;
    assert forall k :: 0 <= k < |rs| ==> r[k].messageId != m.id;
  }

  // ---- The script's operations on the collection ----

  /** `insertMessage`: returns the error it throws, if any. */
  method InsertMessage(db: Collection, v: Value, oid: string) returns (thrown: Option<WriteError>)
    requires db.Valid()
    modifies db
    ensures db.Valid()
    ensures AfterInsert(old(db.records), v, oid).Ok? ==>
      thrown.None? && db.records == AfterInsert(old(db.records), v, oid).value
    ensures AfterInsert(old(db.records), v, oid).Err? ==>
      thrown == Some(AfterInsert(old(db.records), v, oid).error) && db.records == old(db.records)
  {
    var contact, message := First(v.contacts), First(v.messages);
    if contact.None? || message.None? {
      return None;
    }
    var doc := NewDocument(contact.value, message.value, oid);
    if HasMessageId(db.records, doc.messageId) {
      return None;
    }
    InsertKeepsIndexes(db.records, v, oid);
    var written := InsertDocument(db.records, doc);
    match written
    case Ok(s) =>
      db.records := s;
      thrown := None;
    case Err(e) =>
      thrown := Some(e);
  }

  /** `updateStatus`. */
  method UpdateStatus(db: Collection, v: Value)
    requires db.Valid()
    modifies db
    ensures db.Valid()
    ensures db.records == AfterStatus(old(db.records), v)
  {
    var status := First(v.statuses);
    if status.None? {
      return;
    }
    StatusKeepsIndexes(db.records, v);
    db.records := SetStatusWhere(db.records, status.value);
  }

  /** `processFile`: routes the file's value and swallows any error. */
  method ProcessFile(db: Collection, f: PayloadFile, oid: string)
    requires db.Valid()
    modifies db
    ensures db.Valid()
    ensures db.records == AfterFile(old(db.records), f, oid)
  {
    var value := ChangeValue(f);
    if value.None? {
      return;
    }
    if value.value.messages.Some? {
      var _ := InsertMessage(db, value.value, oid);
    } else if value.value.statuses.Some? {
      UpdateStatus(db, value.value);
    }
  }

  /** The script's loop: each file in turn, the next one only after the previous is done. */
  method ProcessAll(db: Collection, files: seq<PayloadFile>, oids: seq<string>)
    requires db.Valid()
    requires |oids| == |files|
    modifies db
    ensures db.Valid()
    ensures db.records == AfterFiles(old(db.records), files, oids)
  {
    var i := 0;
    while i < |files|
      invariant 0 <= i <= |files|
      invariant db.Valid()
      invariant db.records == AfterFiles(old(db.records), files[..i], oids[..i])
    {
      ProcessFile(db, files[i], oids[i]);
      assert files[..i + 1][..i] == files[..i] && oids[..i + 1][..i] == oids[..i];
      i := i + 1;
    }
    assert files[..i] == files && oids[..i] == oids;
  }
}
