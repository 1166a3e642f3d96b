/** A worked run across ingestion and the read queries: one message is ingested, then a
    "delivered" status, then a stale "sent" status for it. The status ends at "sent",
    since updates overwrite, and the conversation list has one row for the message. */
module Scenarios {
  import opened Wrappers
  import opened MessageModel
  import opened Ingestion
  import Controller

  function ValueFile(v: Value): PayloadFile
  {
    Parsed(Some(MetaData(Some([Entry(Some([Change(Some(v))]))]))))
  }

  const HiValue: Value :=
    Value(Some([Contact("C1", None)]), Some([InboundMessage("C1", "m1", Some(TextPart(Some("hi"))), 1700000000)]), None)

  function StatusFile(status: string): PayloadFile
  {
    ValueFile(Value(None, None, Some([StatusEntry(Some("m1"), None, status)])))
  }

  /** The record the message file stores. */
  const HiRecord: Message :=
    Message("o1", "C1", None, Some("C1"), "m1", Some("m1"), false, "hi", 1700000000000, "sent")

  lemma HiStored()
    ensures AfterFile([], ValueFile(HiValue), "o1") == [HiRecord]
  {
    var none: seq<Message> := [];
    assert ChangeValue(ValueFile(HiValue)) == Some(HiValue);
    assert NewDocument(HiValue.contacts.value[0], HiValue.messages.value[0], "o1") == HiRecord;
    assert !HasMessageId(none, "m1");
    assert none + [HiRecord] == [HiRecord];
    assert InsertDocument(none, HiRecord).Ok?;
    assert AfterInsert(none, HiValue, "o1") == Ok([HiRecord]);
  }

  lemma StatusOverwrites(status: string)
    ensures AfterFile([HiRecord], StatusFile(status), "o") == [HiRecord.(status := status)]
  {
    assert ChangeValue(StatusFile(status)).Some?;
    assert AfterFile([HiRecord], StatusFile(status), "o") ==
           SetStatusWhere([HiRecord], StatusEntry(Some("m1"), None, status));
  }

  /** The stale "sent" wins over "delivered", and the list shows the message's text. */
  lemma StaleStatusOverwrites()
    ensures
      var rs := AfterFiles([], [ValueFile(HiValue), StatusFile("delivered"), StatusFile("sent")], ["o1", "o2", "o3"]);
      rs == [HiRecord] &&
      Controller.GetConversations(rs) == [Controller.Summary("C1", None, Some("C1"), "hi", 1700000000000)]
  {
    var fs := [ValueFile(HiValue), StatusFile("delivered"), StatusFile("sent")];
    var oids := ["o1", "o2", "o3"];
    var none: seq<Message> := [];
    assert fs[..2][..1][..0] == [] && oids[..2][..1][..0] == [];
    assert AfterFiles(none, fs[..2][..1][..0], oids[..2][..1][..0]) == none;
    HiStored();
    assert fs[..2][..1] == [ValueFile(HiValue)] && oids[..2][..1] == ["o1"];
    assert AfterFiles(none, fs[..2][..1], oids[..2][..1]) == [HiRecord];
    StatusOverwrites("delivered");
    assert AfterFiles(none, fs[..2], oids[..2]) == [HiRecord.(status := "delivered")];
    StatusOverwrites("sent");
    assert SetStatusWhere([HiRecord.(status := "delivered")], StatusEntry(Some("m1"), None, "sent")) == [HiRecord];
    assert AfterFiles(none, fs, oids) == [HiRecord];
    Controller.SingleRecordConversation(HiRecord);
  }
}
