/** The open conversation view of frontend/src/components/Chatwindow.jsx: its message
    list and its input text, changed by the history load, by live `new_message` events
    and by sending. The network is reduced to the replies the view receives; socket
    wiring, scrolling and rendering are not modelled, except for the delivery tick. */
module ChatView {
  import opened Wrappers
  import opened MessageModel
  import Controller
  import Sorting

  /** The conversation shown, as the conversation list hands it over. */
  datatype Chat = Chat(waId: Option<string>, name: Option<string>, phone: Option<string>)

  /** A message as the client holds it: the JSON of a stored record, in which any field
      may be missing. Only the fields the view decides on are kept. */
  datatype ClientMessage = ClientMessage(
    oid: Option<string>,
    messageId: Option<string>,
    waId: Option<string>,
    fromMe: bool,
    status: Option<string>)

  /** The JSON the server sends for a stored record. */
  function FromStored(m: Message): ClientMessage
  {
    ClientMessage(Some(m.oid), Some(m.messageId), Some(m.waId), m.fromMe, Some(m.status))
  }

  /** Two messages share an identity: an equal, present `message_id` or an equal,
      present `_id`. */
  predicate SameIdentity(a: ClientMessage, b: ClientMessage)
  {
    (Truthy(a.messageId) && Truthy(b.messageId) && a.messageId == b.messageId) ||
    (Truthy(a.oid) && Truthy(b.oid) && a.oid == b.oid)
  }

  /** `existsInList`: false for a missing message, else whether some entry shares its
      identity. */
  function ExistsInList(list: seq<ClientMessage>, msg: Option<ClientMessage>): (b: bool)
    ensures b <==> msg.Some? && exists i :: 0 <= i < |list| && SameIdentity(list[i], msg.value)
  {
    if msg.None? || list == [] then false
    else
      assert forall i :: 1 <= i < |list| ==> list[i] == list[1..][i - 1];
      SameIdentity(list[0], msg.value) || ExistsInList(list[1..], msg)
  }

  /** The state updater `prev => existsInList(prev, msg) ? prev : [...prev, msg]`. */
  function Appended(list: seq<ClientMessage>, msg: ClientMessage): seq<ClientMessage>
  {
    if ExistsInList(list, Some(msg)) then list else list + [msg]
  }

  /** The live handler: ignores a missing message and one of another conversation; the
      handler is not attached at all while the chat has no `wa_id`. */
  function LiveUpdate(list: seq<ClientMessage>, chat: Chat, msg: Option<ClientMessage>): seq<ClientMessage>
  {
    if !Truthy(chat.waId) || msg.None? || msg.value.waId != chat.waId then list
    else Appended(list, msg.value)
  }

  /** What the history request brings back: a failure, or a body that may be empty. */
  datatype FetchReply = FetchFailed | Fetched(data: Option<seq<ClientMessage>>)

  /** The history load: `setMessages(res.data || [])` on success, nothing on failure, and
      no request while the chat has no `wa_id`. */
  function HistoryUpdate(list: seq<ClientMessage>, chat: Chat, reply: FetchReply): seq<ClientMessage>
  {
    if !Truthy(chat.waId) then list
    else
      match reply
      case FetchFailed => list
      case Fetched(data) => if data.Some? then data.value else []
  }

  /** What the send request brings back: a failure, or the saved record. */
  datatype SendReply = SendFailed | Saved(record: ClientMessage)

  // ---- Dedupe ----

  /** A merge adds at most one entry, at the tail: existing entries are neither removed
      nor reordered, and the message is appended exactly when no entry shares its identity. */
  lemma AppendedAtTail(list: seq<ClientMessage>, msg: ClientMessage)
    ensures ExistsInList(list, Some(msg)) ==> Appended(list, msg) == list
    ensures !ExistsInList(list, Some(msg)) ==> Appended(list, msg) == list + [msg]
    ensures |Appended(list, msg)| <= |list| + 1 && Appended(list, msg)[..|list|] == list
  {
  }

  /** A message without a present `message_id` or `_id` matches nothing and is always appended. */
  lemma AbsentIdsNeverMatch(list: seq<ClientMessage>, msg: ClientMessage)
    requires !Truthy(msg.messageId) && !Truthy(msg.oid)
    ensures Appended(list, msg) == list + [msg]
  {
  }

  /** The send response and the live echo of one record, arriving in either order, leave
      exactly one entry for it. */
  lemma ResponseAndEchoOnce(list: seq<ClientMessage>, saved: ClientMessage, echo: ClientMessage)
    requires SameIdentity(saved, echo)
    requires !ExistsInList(list, Some(saved)) && !ExistsInList(list, Some(echo))
    ensures Appended(Appended(list, saved), echo) == list + [saved]
    ensures Appended(Appended(list, echo), saved) == list + [echo]
  {
    assert (list + [saved])[|list|] == saved;
    assert (list + [echo])[|list|] == echo;
  }

  /** A stored record carries a present `message_id`, so its two arrivals are one identity. */
  lemma StoredRecordHasIdentity(m: Message)
    requires HasRequired(m)
    ensures SameIdentity(FromStored(m), FromStored(m))
  {
  }

  /** No two entries share an identity. */
  ghost predicate NoDuplicates(list: seq<ClientMessage>)
  {
    forall i, j :: 0 <= i < j < |list| ==> !SameIdentity(list[i], list[j])
  }

  /** Merging keeps the list free of duplicates. */
  lemma AppendedKeepsNoDuplicates(list: seq<ClientMessage>, msg: ClientMessage)
    requires NoDuplicates(list)
    ensures NoDuplicates(Appended(list, msg))
  {
    if !ExistsInList(list, Some(msg)) {
      var r := list + [msg];
      forall i, j | 0 <= i < j < |r| ensures !SameIdentity(r[i], r[j]) {
        if j == |list| {
          assert !SameIdentity(list[i], msg);
        }
      }
    }
  }

  /** The history of a conversation, as the server sends it from a collection whose
      unique indexes hold, is free of duplicates. */
  lemma HistoryHasNoDuplicates(rs: seq<Message>, w: string)
    requires IndexesHold(rs)
    ensures
      var h := Controller.GetMessages(rs, w);
      NoDuplicates(seq(|h|, k requires 0 <= k < |h| => FromStored(h[k])))
  {
    var h := Controller.GetMessages(rs, w);
    var l := seq(|h|, k requires 0 <= k < |h| => FromStored(h[k]));
    forall i, j | 0 <= i < j < |l| ensures !SameIdentity(l[i], l[j]) {
      HistoryPairDistinct(rs, w, h, i, j);
    }
  }

  /** Two places of one conversation's history hold records that share neither `_id`
      nor `message_id`. */
  lemma HistoryPairDistinct(rs: seq<Message>, w: string, h: seq<Message>, i: int, j: int)
    requires IndexesHold(rs)
    requires forall m :: multiset(h)[m] == if m.waId == w then multiset(rs)[m] else 0
    requires 0 <= i < j < |h|
    ensures !SameIdentity(FromStored(h[i]), FromStored(h[j]))
  {
    var a, b := h[i], h[j];
    if SameIdentity(FromStored(a), FromStored(b)) {
      assert a in multiset(h) && b in multiset(h);
      assert a.waId == w && b.waId == w;
      assert Clashes(a, b);
      var p :| 0 <= p < |rs| && rs[p] == a;
      var q :| 0 <= q < |rs| && rs[q] == b;
      assert p == q;
      Sorting.TwiceCounted(h, i, j);
      StoredAtMostOnce(rs, a);
    }
  }

  lemma StoredAtMostOnce(rs: seq<Message>, m: Message)
    requires IndexesHold(rs)
    ensures multiset(rs)[m] <= 1
  {
    Sorting.DistinctByCount(rs, (x: Message) => x.oid, m);
  }

  // ---- Sending ----

  /** The whitespace `String.prototype.trim` removes. */
  predicate IsSpace(c: char)
  {
    c in {'\t', '\n', '\U{000B}', '\U{000C}', '\r', ' ', '\U{00A0}', '\U{1680}', '\U{2028}', '\U{2029}',
          '\U{202F}', '\U{205F}', '\U{3000}', '\U{FEFF}'} ||
    ('\U{2000}' <= c <= '\U{200A}')
  }

  /** Drops leading whitespace: what is left is a suffix that is empty or starts with a
      non-space. */
  function TrimStart(s: string): (r: string)
    ensures |r| <= |s| && r == s[|s| - |r|..]
    ensures r == [] || !IsSpace(r[0])
    ensures Blank(s[..|s| - |r|])
  {
    if s != [] && IsSpace(s[0]) then TrimStart(s[1..]) else s
  }

  /** Drops trailing whitespace: what is left is a prefix that is empty or ends with a
      non-space. */
  function TrimEnd(s: string): (r: string)
    ensures |r| <= |s| && r == s[..|r|]
    ensures r == [] || !IsSpace(r[|r| - 1])
    ensures Blank(s[|r|..])
  {
    if s != [] && IsSpace(s[|s| - 1]) then TrimEnd(s[..|s| - 1]) else s
  }

  function Trim(s: string): string
  {
    TrimEnd(TrimStart(s))
  }

  /** Nothing but whitespace, the empty string included. */
  predicate Blank(s: string)
  {
    forall i :: 0 <= i < |s| ==> IsSpace(s[i])
  }

  lemma {:induction false} TrimStartBlank(s: string)
    ensures TrimStart(s) == [] <==> Blank(s)
  {
    if s != [] && IsSpace(s[0]) {
      TrimStartBlank(s[1..]);
      assert forall i :: 1 <= i < |s| ==> s[i] == s[1..][i - 1];
    }
  }

  lemma {:induction false} TrimEndBlank(s: string)
    ensures TrimEnd(s) == [] <==> Blank(s)
  {
    if s != [] && IsSpace(s[|s| - 1]) {
      TrimEndBlank(s[..|s| - 1]);
      assert forall i :: 0 <= i < |s| - 1 ==> s[i] == s[..|s| - 1][i];
    }
  }

  /** `text.trim()` is empty exactly when the text is blank. */
  lemma TrimEmptyIffBlank(s: string)
    ensures Trim(s) == "" <==> Blank(s)
  {
    TrimStartBlank(s);
    TrimEndBlank(TrimStart(s));
  }

  /** The request body the view posts for a text. */
  function Outgoing(chat: Chat, text: string): Controller.SendRequest
  {
    Controller.SendRequest(chat.waId, chat.name, chat.phone, Some(text))
  }

  /** A non-blank text posted from a chat with a `wa_id` is never refused with 400. */
  lemma OutgoingAccepted(chat: Chat, text: string)
    requires Truthy(chat.waId) && !Blank(text)
    ensures Controller.Accepted(Outgoing(chat, text))
  {
    assert text != "";
  }

  // ---- Delivery tick ----

  datatype Tick = NoTick | SingleTick | DoubleTick | BlueDoubleTick

  /** Lower-cases the ASCII capitals, the only characters whose lower case can meet
      "sent", "delivered" or "read". */
  function LowerAscii(s: string): (r: string)
  {
    seq(|s|, i requires 0 <= i < |s| => if 'A' <= s[i] <= 'Z' then (s[i] as int + 32) as char else s[i])
  }

  /** `String(status)`. */
  function StatusString(status: Option<string>): string
  {
    match status
    case Some(s) => s
    case None => "undefined"
  }

  /** The tick shown beside a message: only on one's own messages, by lower-cased status. */
  function TickFor(m: ClientMessage): Tick
  {
    if !m.fromMe then NoTick
    else
      var s := LowerAscii(StatusString(m.status));
      if s == "sent" then SingleTick
      else if s == "delivered" then DoubleTick
      else if s == "read" then BlueDoubleTick
      else NoTick
  }

  /** Only one's own messages get a tick, and the tick does not depend on letter case. */
  lemma TickIgnoresCase(m: ClientMessage, s: string)
    ensures TickFor(m) != NoTick ==> m.fromMe
    ensures TickFor(m.(status := Some(LowerAscii(s)))) == TickFor(m.(status := Some(s)))
  {
    assert LowerAscii(LowerAscii(s)) == LowerAscii(s);
  }

  /** The tick of a stored record from one's own side follows its status in the enumeration. */
  lemma TickOfEnumStatus(m: Message)
    requires m.fromMe
    ensures m.status == Sent.Name() ==> TickFor(FromStored(m)) == SingleTick
    ensures m.status == Delivered.Name() ==> TickFor(FromStored(m)) == DoubleTick
    ensures m.status == Read.Name() ==> TickFor(FromStored(m)) == BlueDoubleTick
    ensures m.status == Unknown.Name() ==> TickFor(FromStored(m)) == NoTick
  {
    assert LowerAscii("sent") == "sent";
    assert LowerAscii("delivered") == "delivered";
    assert LowerAscii("read") == "read";
    assert LowerAscii("unknown") == "unknown";
  }

  // ---- The component's state ----

  class ChatWindow {
    var chat: Chat
    var messages: seq<ClientMessage>
    var text: string

    constructor (chat: Chat)
      ensures this.chat == chat && messages == [] && text == ""
    {
      this.chat := chat;
      messages := [];
      text := "";
    }

    /** A new `chat` prop: the component stays mounted, so the list and the text are kept
        until the history of the new chat arrives. */
    method SelectChat(c: Chat)
      modifies this`chat
      ensures chat == c
    {
      chat := c;
    }

    /** The input's `onChange`. */
    method Type(t: string)
      modifies this`text
      ensures text == t
    {
      text := t;
    }

    /** The `new_message` handler. */
    method HandleNewMessage(msg: Option<ClientMessage>)
      modifies this`messages
      ensures messages == LiveUpdate(old(messages), chat, msg)
      ensures NoDuplicates(old(messages)) ==> NoDuplicates(messages)
    {
      if !Truthy(chat.waId) || msg.None? {
        return;
      }
      if msg.value.waId != chat.waId {
        return;
      }
      if NoDuplicates(messages) {
        AppendedKeepsNoDuplicates(messages, msg.value);
      }
      if !ExistsInList(messages, msg) {
        messages := messages + [msg.value];
      }
    }

    /** `fetchMessages`, once the request has settled. The guard is read on the chat open
        when the reply arrives, and a reply is not tied to the chat that asked for it: a late
        reply for a chat left meanwhile replaces the list of the chat now open. */
    method FetchMessages(reply: FetchReply)
      modifies this`messages
      ensures messages == HistoryUpdate(old(messages), chat, reply)
    {
      if !Truthy(chat.waId) {
        return;
      }
      match reply
      case FetchFailed =>
      case Fetched(data) =>
        messages := if data.Some? then data.value else [];
    }

    /** `sendMessage` up to the request: nothing for a blank text, else the body posted. */
    method SendMessage() returns (request: Option<Controller.SendRequest>)
      ensures request.None? <==> Blank(text)
      ensures request.Some? ==> request.value == Outgoing(chat, text)
      ensures request.Some? && Truthy(chat.waId) ==> Controller.Accepted(request.value)
    {
      TrimEmptyIffBlank(text);
      if Trim(text) == "" {
        return None;
      }
      if Truthy(chat.waId) {
        OutgoingAccepted(chat, text);
      }
      return Some(Outgoing(chat, text));
    }

    /** `sendMessage` after the request has settled: on success the saved record is merged
        and the input cleared; on failure nothing changes. */
    method OnSendSettled(reply: SendReply)
      modifies this`messages, this`text
      ensures reply.SendFailed? ==> messages == old(messages) && text == old(text)
      ensures reply.Saved? ==> messages == Appended(old(messages), reply.record) && text == ""
      ensures NoDuplicates(old(messages)) ==> NoDuplicates(messages)
    {
      match reply
      case SendFailed =>
      case Saved(saved) =>
        if NoDuplicates(messages) {
          AppendedKeepsNoDuplicates(messages, saved);
        }
        if !ExistsInList(messages, Some(saved)) {
          messages := messages + [saved];
        }
        text := "";
    }
  }
}
