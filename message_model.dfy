/** The stored message record of backend/models/message.js: its fields, the status
    enumeration, the schema defaults, and the two unique indexes the collection keeps
    (the automatic one on `_id` and the declared one on `(wa_id, message_id)`). */
module MessageModel {
  import opened Wrappers

  /** JavaScript truthiness of an optional string: present and not empty. */
  predicate Truthy(o: Option<string>)
  {
    o.Some? && o.value != ""
  }

  /** The values the schema's `status` enumeration admits. */
  datatype Status = Sent | Delivered | Read | Unknown
  {
    function Name(): string
    {
      match this
      case Sent => "sent"
      case Delivered => "delivered"
      case Read => "read"
      case Unknown => "unknown"
    }
  }

  /** The enumeration member spelled `s`, if any. */
  function StatusNamed(s: string): (r: Option<Status>)
    ensures r.Some? ==> r.value.Name() == s
    ensures r.None? ==> forall st: Status :: st.Name() != s
  {
    if s == "sent" then Some(Sent)
    else if s == "delivered" then Some(Delivered)
    else if s == "read" then Some(Read)
    else if s == "unknown" then Some(Unknown)
    else None
  }

  /** Every member of the enumeration is found again by its name. */
  lemma StatusNameRoundTrip(st: Status)
    ensures StatusNamed(st.Name()) == Some(st)
  {
  }

  predicate InEnum(s: string)
  {
    StatusNamed(s).Some?
  }

  /** The schema's default status. */
  const DefaultStatus: Status := Sent

  /** A stored record. `oid` is the document's `_id`; `status` holds the string last
      written, which need not belong to the enumeration. The `raw` snapshot is dropped. */
  datatype Message = Message(
    oid: string,
    waId: string,
    name: Option<string>,
    phone: Option<string>,
    messageId: string,
    metaMsgId: Option<string>,
    fromMe: bool,
    text: string,
    timestamp: int,
    status: string)

  /** The fields a writer supplies; those the schema gives a default may be omitted. */
  datatype Draft = Draft(
    waId: string,
    name: Option<string>,
    phone: Option<string>,
    messageId: string,
    metaMsgId: Option<string>,
    fromMe: Option<bool>,
    text: string,
    timestamp: Option<int>,
    status: Option<string>)

  /** The document the schema builds from a draft, given the `_id` it receives and the
      time of creation. */
  function WithDefaults(d: Draft, oid: string, now: int): (m: Message)
    ensures m.oid == oid && m.waId == d.waId && m.messageId == d.messageId
    ensures m.name == d.name && m.phone == d.phone && m.metaMsgId == d.metaMsgId && m.text == d.text
    ensures d.fromMe.None? ==> !m.fromMe
    ensures d.timestamp.None? ==> m.timestamp == now
    ensures d.status.None? ==> m.status == "sent" && InEnum(m.status)
    ensures d.fromMe.Some? ==> m.fromMe == d.fromMe.value
    ensures d.timestamp.Some? ==> m.timestamp == d.timestamp.value
    ensures d.status.Some? ==> m.status == d.status.value
  {
    Message(
      oid, d.waId, d.name, d.phone, d.messageId, d.metaMsgId,
      match d.fromMe case Some(b) => b case None => false,
      d.text,
      match d.timestamp case Some(t) => t case None => now,
      match d.status case Some(s) => s case None => DefaultStatus.Name())
  }

  /** The schema's required fields: a validating write rejects an empty one. */
  predicate HasRequired(m: Message)
  {
    m.waId != "" && m.messageId != ""
  }

  /** Two records that one of the unique indexes forbids side by side. */
  predicate Clashes(a: Message, b: Message)
  {
    (a.waId == b.waId && a.messageId == b.messageId) || a.oid == b.oid
  }

  /** The collection invariant: no two records share `_id` or `(wa_id, message_id)`. */
  ghost predicate IndexesHold(rs: seq<Message>)
  {
    forall i, j :: 0 <= i < j < |rs| ==> !Clashes(rs[i], rs[j])
  }

  datatype WriteError = ValidationFailed | DuplicateKey

  /** Adds a document as the unique indexes allow: a duplicate-key error if some stored
      record clashes with it, otherwise the collection with the document at its end. */
  function InsertDocument(rs: seq<Message>, m: Message): (r: Result<seq<Message>, WriteError>)
    ensures r.Err? <==> exists i :: 0 <= i < |rs| && Clashes(rs[i], m)
    ensures r.Err? ==> r.error == DuplicateKey
    ensures r.Ok? ==> r.value == rs + [m]
    ensures r.Ok? && IndexesHold(rs) ==> IndexesHold(r.value)
  {
    if exists i :: 0 <= i < |rs| && Clashes(rs[i], m) then Err(DuplicateKey)
    else
      var s := rs + [m];
      assert forall i, j :: 0 <= i < j < |rs| ==> s[i] == rs[i] && s[j] == rs[j];
      Ok(s)
  }

  /** What the schema's validators accept: both required fields present and a status
      from the enumeration. */
  predicate Validates(m: Message)
  {
    HasRequired(m) && InEnum(m.status)
  }

  /** `Model.create`: runs the validators, then inserts. */
  function Create(rs: seq<Message>, m: Message): (r: Result<seq<Message>, WriteError>)
    ensures !HasRequired(m) ==> r == Err(ValidationFailed)
    ensures !InEnum(m.status) ==> r == Err(ValidationFailed)
    ensures Validates(m) ==> r == InsertDocument(rs, m)
  {
    if !Validates(m) then Err(ValidationFailed) else InsertDocument(rs, m)
  }

  /** The `processed_messages` collection, updated in place by every writer. */
  class Collection {
    var records: seq<Message>

    ghost predicate Valid()
      reads this
    {
      IndexesHold(records)
    }

    constructor ()
      ensures Valid() && records == []
    {
      records := [];
    }
  }
}
