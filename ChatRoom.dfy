/** The chat screen (app/chat_room.tsx): the message list it shows, the
    high-water mark `offset` that suppresses duplicate deliveries, the typing
    label, the input box and what it emits on the socket. */
module ChatRoom {
  import opened Wrappers
  import opened Messages
  import Auth
  import JsStrings
  import JsNumber

  /** The room id that switches the screen to AI chat. */
  const AIRoomId: string := "AI"

  /** The sender name of AI replies. */
  const AISender: string := "AI"

  /** Events the screen emits on its socket. */
  datatype Outbound =
    | MessageEvent(msg: Message)                         // 'message'
    | TypingEvent(userId: string, groupId: string)       // 'typing'
    | SeenEvent(messageId: Option<string>, group: string) // 'messageSeen'
    | DeleteRequest(targetId: string, userId: string)    // 'admin_control', type "delete"

  // ---------------------------------------------------------------------------
  // Inbound 'message': duplicate suppression by offset
  // ---------------------------------------------------------------------------

  /** `parseInt(data.id)`; `None` is NaN. */
  function OffsetOf(m: Message): Option<int> {
    JsNumber.ParseId(m.id)
  }

  /** `newOffset > offset`, which is false for NaN. */
  predicate Accepts(offset: int, m: Message) {
    OffsetOf(m).Some? && OffsetOf(m).value > offset
  }

  /** The high-water mark together with one room's message list. */
  datatype Timeline = Timeline(offset: int, messages: seq<Message>)

  /** The 'message' handler: append the message and raise the mark to its
      offset when that offset is above the mark; drop it otherwise. */
  function Receive(t: Timeline, m: Message): (r: Timeline)
    ensures r.offset == (if Accepts(t.offset, m) then OffsetOf(m).value else t.offset)
    ensures r.offset >= t.offset
    ensures OffsetOf(m).Some? ==> r.offset >= OffsetOf(m).value
    ensures r.messages == t.messages + (if Accepts(t.offset, m) then [m] else [])
  {
    if Accepts(t.offset, m) then Timeline(OffsetOf(m).value, t.messages + [m]) else t
  }

  /** A sequence of 'message' events, handled in order. */
  function ReceiveAll(t: Timeline, ms: seq<Message>): Timeline
    decreases ms
  {
    if ms == [] then t else ReceiveAll(Receive(t, ms[0]), ms[1..])
  }

  /** The list is in strictly increasing offset order and no offset in it is
      above the mark: what the 'message' handler alone builds. Read from the
      back: the last message's offset is at most the mark, and everything
      before it is below that offset. */
  ghost predicate InOffsetOrder(t: Timeline)
    decreases |t.messages|
  {
    t.messages == [] ||
      var last := t.messages[|t.messages| - 1];
      && OffsetOf(last).Some?
      && OffsetOf(last).value <= t.offset
      && InOffsetOrder(Timeline(OffsetOf(last).value - 1, t.messages[..|t.messages| - 1]))
  }

  /** A higher mark keeps the order. */
  lemma {:induction false} RaiseMark(t: Timeline, offset: int)
    requires InOffsetOrder(t) && t.offset <= offset
    ensures InOffsetOrder(Timeline(offset, t.messages))
  {
  }

  /** In offset order every offset is at most the mark, and offsets strictly
      increase along the list. */
  lemma {:induction false} OffsetOrderIsStrict(t: Timeline)
    requires InOffsetOrder(t)
    ensures forall i :: 0 <= i < |t.messages| ==> OffsetOf(t.messages[i]).Some? && OffsetOf(t.messages[i]).value <= t.offset
    ensures forall i, j :: 0 <= i < j < |t.messages| ==> OffsetOf(t.messages[i]).value < OffsetOf(t.messages[j]).value
    decreases |t.messages|
  {
    if t.messages != [] {
      var n := |t.messages|;
      var init := Timeline(OffsetOf(t.messages[n - 1]).value - 1, t.messages[..n - 1]);
      OffsetOrderIsStrict(init);
      forall i, j | 0 <= i < j < n
        ensures OffsetOf(t.messages[i]).value < OffsetOf(t.messages[j]).value
      {
        assert t.messages[i] == init.messages[i];
        if j < n - 1 {
          assert t.messages[j] == init.messages[j];
        }
      }
      forall i | 0 <= i < n
        ensures OffsetOf(t.messages[i]).Some? && OffsetOf(t.messages[i]).value <= t.offset
      {
        if i < n - 1 {
          assert t.messages[i] == init.messages[i];
        }
      }
    }
  }

  lemma ReceiveKeepsOrder(t: Timeline, m: Message)
    requires InOffsetOrder(t)
    ensures InOffsetOrder(Receive(t, m))
  {
    var r := Receive(t, m);
    if Accepts(t.offset, m) {
      assert r.messages[..|r.messages| - 1] == t.messages;
      RaiseMark(t, OffsetOf(m).value - 1);
    }
  }

  /** A message whose offset is already in the list is dropped, so a
      redelivery (a reconnect, a second copy of the handler) changes nothing. */
  lemma RedeliveryIsDropped(t: Timeline, m: Message, i: int)
    requires InOffsetOrder(t)
    requires 0 <= i < |t.messages| && OffsetOf(t.messages[i]) == OffsetOf(m)
    ensures Receive(t, m) == t
  {
    OffsetOrderIsStrict(t);
  }

  /** Handling the same event twice is handling it once. */
  lemma ReceiveIdempotent(t: Timeline, m: Message)
    ensures Receive(Receive(t, m), m) == Receive(t, m)
  {
  }

  /** Over any run of 'message' events the mark never decreases, the list only
      grows at its end, everything appended came from the run with an offset
      above the starting mark, and offset order is kept. */
  lemma ReceiveAllAppendsInOrder(t: Timeline, ms: seq<Message>)
    requires InOffsetOrder(t)
    ensures var r := ReceiveAll(t, ms);
      && r.offset >= t.offset
      && InOffsetOrder(r)
      && |r.messages| >= |t.messages| && r.messages[..|t.messages|] == t.messages
      && forall i :: |t.messages| <= i < |r.messages| ==> r.messages[i] in ms && Accepts(t.offset, r.messages[i])
  {
    ReceiveAllGrows(t, ms);
    ReceiveAllAppendsFromRun(t, ms);
    ReceiveAllKeepsOrder(t, ms);
  }

  /** The mark never decreases and the old list stays a prefix. */
  lemma {:induction false} ReceiveAllGrows(t: Timeline, ms: seq<Message>)
    decreases ms
    ensures var r := ReceiveAll(t, ms);
      && r.offset >= t.offset
      && |r.messages| >= |t.messages| && r.messages[..|t.messages|] == t.messages
  {
    if ms != [] {
      var t' := Receive(t, ms[0]);
      ReceiveAllGrows(t', ms[1..]);
      var r := ReceiveAll(t', ms[1..]);
      assert r.messages[..|t.messages|] == r.messages[..|t'.messages|][..|t.messages|];
    }
  }

  /** Every message past the old list came from the run, with an offset
      above the starting mark. */
  lemma {:induction false} ReceiveAllAppendsFromRun(t: Timeline, ms: seq<Message>)
    decreases ms
    ensures var r := ReceiveAll(t, ms);
      forall i :: |t.messages| <= i < |r.messages| ==> r.messages[i] in ms && Accepts(t.offset, r.messages[i])
  {
    if ms != [] {
      var t' := Receive(t, ms[0]);
      ReceiveAllAppendsFromRun(t', ms[1..]);
      ReceiveAllGrows(t', ms[1..]);
      var r := ReceiveAll(t', ms[1..]);
      forall i | |t.messages| <= i < |r.messages|
        ensures r.messages[i] in ms && Accepts(t.offset, r.messages[i])
      {
        if i < |t'.messages| {
          assert r.messages[i] == r.messages[..|t'.messages|][i] == t'.messages[i] == ms[0];
        } else {
          assert r.messages[i] in ms[1..];
        }
      }
    }
  }

  /** Offset order survives any run of 'message' events. */
  lemma {:induction false} ReceiveAllKeepsOrder(t: Timeline, ms: seq<Message>)
    requires InOffsetOrder(t)
    decreases ms
    ensures InOffsetOrder(ReceiveAll(t, ms))
  {
    if ms != [] {
      ReceiveKeepsOrder(t, ms[0]);
      ReceiveAllKeepsOrder(Receive(t, ms[0]), ms[1..]);
    }
  }

  // ---------------------------------------------------------------------------
  // Inbound 'admin_control' (delete) and 'messageStatusUpdate'
  // ---------------------------------------------------------------------------

  /** `messages.filter(m => m.id !== id)`. */
  function RemoveById(msgs: seq<Message>, id: Option<string>): (r: seq<Message>)
    ensures |r| <= |msgs|
  {
    if msgs == [] then []
    else
      var last := msgs[|msgs| - 1];
      RemoveById(msgs[..|msgs| - 1], id) + if last.id == id then [] else [last]
  }

  /** Deleting removes exactly the messages with that id and keeps every
      other one. */
  lemma {:induction false} RemoveByIdMembers(msgs: seq<Message>, id: Option<string>, m: Message)
    ensures m in RemoveById(msgs, id) <==> m in msgs && m.id != id
  {
    if msgs != [] {
      var init, last := msgs[..|msgs| - 1], msgs[|msgs| - 1];
      assert msgs == init + [last];
      RemoveByIdMembers(init, id, m);
    }
  }

  /** The survivors keep their order: filtering a concatenation filters each
      part in place. */
  lemma {:induction false} RemoveByIdDistributes(a: seq<Message>, b: seq<Message>, id: Option<string>)
    ensures RemoveById(a + b, id) == RemoveById(a, id) + RemoveById(b, id)
    decreases |b|
  {
    if b == [] {
      assert a + b == a;
    } else {
      var init, last := b[..|b| - 1], b[|b| - 1];
      assert b == init + [last];
      RemoveByIdDistributes(a, init, id);
      RemoveByIdDistributesStep(a, init, last, id);
    }
  }

  /** The inductive step of `RemoveByIdDistributes`: one more message at the
      back of the second part. */
  lemma RemoveByIdDistributesStep(a: seq<Message>, init: seq<Message>, last: Message, id: Option<string>)
    requires RemoveById(a + init, id) == RemoveById(a, id) + RemoveById(init, id)
    ensures RemoveById(a + (init + [last]), id) == RemoveById(a, id) + RemoveById(init + [last], id)
  {
    var ra, ri, tail := RemoveById(a, id), RemoveById(init, id), if last.id == id then [] else [last];
    assert a + (init + [last]) == (a + init) + [last];
    RemoveByIdSnoc(a + init, last, id);
    RemoveByIdSnoc(init, last, id);
    assert (ra + ri) + tail == ra + (ri + tail);
  }

  /** One message appended: it survives unless it carries the id. */
  lemma RemoveByIdSnoc(s: seq<Message>, last: Message, id: Option<string>)
    ensures RemoveById(s + [last], id) == RemoveById(s, id) + if last.id == id then [] else [last]
  {
    assert (s + [last])[..|s|] == s;
  }

  /** A list without the id is left as it is. */
  lemma {:induction false} RemoveAbsentId(msgs: seq<Message>, id: Option<string>)
    requires forall m :: m in msgs ==> m.id != id
    ensures RemoveById(msgs, id) == msgs
  {
    if msgs != [] {
      var init, last := msgs[..|msgs| - 1], msgs[|msgs| - 1];
      assert msgs == init + [last];
      assert last in msgs;
      forall m | m in init
        ensures m.id != id
      {
        assert m in msgs;
      }
      RemoveAbsentId(init, id);
    }
  }

  /** Appending a message whose offset is just above an ordered list's mark
      gives an ordered list under any mark at or above that offset. */
  lemma AppendKeepsOrder(t: Timeline, m: Message, offset: int)
    requires InOffsetOrder(t)
    requires OffsetOf(m).Some? && OffsetOf(m).value == t.offset + 1 && OffsetOf(m).value <= offset
    ensures InOffsetOrder(Timeline(offset, t.messages + [m]))
  {
    assert (t.messages + [m])[..|t.messages|] == t.messages;
  }

  lemma {:induction false} RemoveKeepsOrder(t: Timeline, id: Option<string>)
    requires InOffsetOrder(t)
    ensures InOffsetOrder(Timeline(t.offset, RemoveById(t.messages, id)))
    decreases |t.messages|
  {
    if t.messages != [] {
      var n := |t.messages|;
      var last := t.messages[n - 1];
      var k := OffsetOf(last).value;
      assert k <= t.offset;
      var init := Timeline(k - 1, t.messages[..n - 1]);
      assert InOffsetOrder(init);
      RemoveKeepsOrder(init, id);
      var kept := RemoveById(init.messages, id);
      var r := RemoveById(t.messages, id);
      if last.id == id {
        assert r == kept;
        RaiseMark(Timeline(k - 1, kept), t.offset);
      } else {
        assert r == kept + [last];
        AppendKeepsOrder(Timeline(k - 1, kept), last, t.offset);
      }
    }
  }

  /** `messages.map(m => m.id === id ? {...m, msgStatus: status} : m)`: the
      messages with that id get the new status; length, order and every other
      field are kept. */
  function SetStatus(msgs: seq<Message>, id: Option<string>, status: MessageStatus): (r: seq<Message>)
    ensures |r| == |msgs|
    ensures forall i :: 0 <= i < |msgs| ==>
      r[i] == if msgs[i].id == id then msgs[i].(msgStatus := status) else msgs[i]
  {
    if msgs == [] then []
    else
      [if msgs[0].id == id then msgs[0].(msgStatus := status) else msgs[0]]
        + SetStatus(msgs[1..], id, status)
  }

  /** Changing anything but the ids keeps offset order. */
  lemma {:induction false} SameIdsKeepOrder(t: Timeline, msgs: seq<Message>)
    requires InOffsetOrder(t)
    requires |msgs| == |t.messages|
    requires forall i :: 0 <= i < |msgs| ==> msgs[i].id == t.messages[i].id
    ensures InOffsetOrder(Timeline(t.offset, msgs))
    decreases |msgs|
  {
    if msgs != [] {
      var n := |msgs|;
      assert OffsetOf(msgs[n - 1]) == OffsetOf(t.messages[n - 1]);
      SameIdsKeepOrder(Timeline(OffsetOf(t.messages[n - 1]).value - 1, t.messages[..n - 1]), msgs[..n - 1]);
    }
  }

  // ---------------------------------------------------------------------------
  // markMessagesAsRead
  // ---------------------------------------------------------------------------

  /** A message the local user has not yet acknowledged. */
  predicate AwaitsReceipt(m: Message, me: string) {
    m.msgStatus != Read && m.from != me
  }

  /** The 'messageSeen' events for the acknowledgeable messages, in order. */
  function SeenEvents(msgs: seq<Message>, me: string, room: string): (r: seq<Outbound>)
    ensures |r| <= |msgs|
    ensures forall e :: e in r ==> e.SeenEvent? && e.group == room
  {
    if msgs == [] then []
    else
      var last := msgs[|msgs| - 1];
      SeenEvents(msgs[..|msgs| - 1], me, room)
        + if AwaitsReceipt(last, me) then [SeenEvent(last.id, room)] else []
  }

  /** The events are made message by message, in list order: one event for
      a message awaiting a receipt, none for any other. */
  lemma {:induction false} SeenEventsPerMessage(a: seq<Message>, b: seq<Message>, me: string, room: string)
    ensures SeenEvents(a + b, me, room) == SeenEvents(a, me, room) + SeenEvents(b, me, room)
    ensures |a| == 1 ==> SeenEvents(a, me, room) == if AwaitsReceipt(a[0], me) then [SeenEvent(a[0].id, room)] else []
  {
    if b != [] {
      var init, last := b[..|b| - 1], b[|b| - 1];
      assert (a + b)[..|a + b| - 1] == a + init;
      SeenEventsPerMessage(a, init, me, room);
    } else {
      assert a + b == a;
    }
    if |a| == 1 {
      assert a[..0] == [];
    }
  }

  /** One more message of the snapshot: its receipt, if any, comes last. */
  lemma SeenStep(snapshot: seq<Message>, me: string, room: string, k: int)
    requires 0 <= k < |snapshot|
    ensures SeenEvents(snapshot[..k + 1], me, room) ==
      SeenEvents(snapshot[..k], me, room) + if AwaitsReceipt(snapshot[k], me) then [SeenEvent(snapshot[k].id, room)] else []
  {
    assert snapshot[..k + 1][..k] == snapshot[..k];
  }

  /** The list after the first `k` messages of `snapshot` were acknowledged:
      a message turns READ when an acknowledged one among those `k` shares
      its id. */
  function MarkedUpTo(snapshot: seq<Message>, me: string, k: int): (r: seq<Message>)
    ensures |r| == |snapshot|
  {
    seq(|snapshot|, i requires 0 <= i < |snapshot| =>
      if exists j :: 0 <= j < k && j < |snapshot| && AwaitsReceipt(snapshot[j], me) && snapshot[j].id == snapshot[i].id
      then snapshot[i].(msgStatus := Read)
      else snapshot[i])
  }

  /** The list after `markMessagesAsRead`. */
  function MarkAllRead(msgs: seq<Message>, me: string): (r: seq<Message>)
    ensures |r| == |msgs|
    ensures forall i :: 0 <= i < |msgs| ==> r[i].id == msgs[i].id
    ensures forall i :: 0 <= i < |msgs| && AwaitsReceipt(msgs[i], me) ==> r[i] == msgs[i].(msgStatus := Read)
    ensures forall i :: 0 <= i < |msgs| ==> r[i] == msgs[i] || r[i] == msgs[i].(msgStatus := Read)
  {
    MarkedUpTo(msgs, me, |msgs|)
  }

  /** Marking keeps offset order. */
  lemma MarkKeepsOrder(t: Timeline, me: string)
    requires InOffsetOrder(t)
    ensures InOffsetOrder(Timeline(t.offset, MarkAllRead(t.messages, me)))
  {
    SameIdsKeepOrder(t, MarkAllRead(t.messages, me));
  }

  /** One acknowledgement: patching the id of `snapshot[k]` to READ. */
  lemma MarkStep(snapshot: seq<Message>, me: string, k: int)
    requires 0 <= k < |snapshot|
    ensures AwaitsReceipt(snapshot[k], me) ==>
      SetStatus(MarkedUpTo(snapshot, me, k), snapshot[k].id, Read) == MarkedUpTo(snapshot, me, k + 1)
    ensures !AwaitsReceipt(snapshot[k], me) ==>
      MarkedUpTo(snapshot, me, k) == MarkedUpTo(snapshot, me, k + 1)
  {
  }

  /** The `forEach` of `markMessagesAsRead` over a snapshot of the list:
      the receipts it emits, in order, and the list its queued patches
      leave. */
  method Acknowledge(snapshot: seq<Message>, me: string, room: string) returns (patched: seq<Message>, seen: seq<Outbound>)
    ensures patched == MarkAllRead(snapshot, me)
    ensures seen == SeenEvents(snapshot, me, room)
  {
    patched := snapshot;
    seen := [];
    var k := 0;
    while k < |snapshot|
      invariant 0 <= k <= |snapshot|
      invariant patched == MarkedUpTo(snapshot, me, k)
      invariant seen == SeenEvents(snapshot[..k], me, room)
    {
      var msg := snapshot[k];
      MarkStep(snapshot, me, k);
      SeenStep(snapshot, me, room, k);
      if AwaitsReceipt(msg, me) {
        seen := seen + [SeenEvent(msg.id, room)];
        patched := SetStatus(patched, msg.id, Read);
      }
      k := k + 1;
    }
    assert snapshot[..k] == snapshot;
  }

  /** With distinct ids (as offset order guarantees) exactly the messages
      awaiting a receipt turn READ; the user's own messages are untouched. */
  lemma MarkAllReadWithDistinctIds(msgs: seq<Message>, me: string)
    requires forall i, j :: 0 <= i < j < |msgs| ==> msgs[i].id != msgs[j].id
    ensures forall i :: 0 <= i < |msgs| ==>
      MarkAllRead(msgs, me)[i] == if AwaitsReceipt(msgs[i], me) then msgs[i].(msgStatus := Read) else msgs[i]
  {
  }

  lemma OffsetOrderMeansDistinctIds(t: Timeline)
    requires InOffsetOrder(t)
    ensures forall i, j :: 0 <= i < j < |t.messages| ==> t.messages[i].id != t.messages[j].id
  {
    OffsetOrderIsStrict(t);
  }

  /** After marking, nothing awaits a receipt, so marking again emits nothing. */
  lemma {:induction false} MarkingTwiceEmitsNothing(msgs: seq<Message>, me: string, room: string)
    ensures SeenEvents(MarkAllRead(msgs, me), me, room) == []
  {
    NothingAwaits(MarkAllRead(msgs, me), me, room);
  }

  lemma {:induction false} NothingAwaits(msgs: seq<Message>, me: string, room: string)
    requires forall i :: 0 <= i < |msgs| ==> !AwaitsReceipt(msgs[i], me)
    ensures SeenEvents(msgs, me, room) == []
  {
    if msgs != [] {
      NothingAwaits(msgs[..|msgs| - 1], me, room);
    }
  }

  // ---------------------------------------------------------------------------
  // Typing, sending, AI streaming
  // ---------------------------------------------------------------------------

  /** The typing indicator's text for another user. */
  function TypingLabel(sender: string): (shown: string)
    ensures |shown| == |sender| + 14
    ensures shown[..|sender|] == sender && shown[|sender|..] == " is typing ..."
  {
    sender + " is typing ..."
  }

  /** The message `handleSendMessage` (and the user half of an AI exchange)
      builds: no id, from the local user, not a file, status SENT. */
  function Outgoing(from: string, text: string, room: string): (m: Message)
    ensures m.id.None? && !m.isFile && m.msgStatus == Sent
    ensures m.from == from && m.text == text && m.group == room
  {
    Message(None, from, text, false, room, Sent)
  }

  /** The AI reply slot: from "AI", status READ. */
  function AIReply(text: string, room: string): (m: Message)
    ensures m.id.None? && m.from == AISender && m.msgStatus == Read
    ensures m.text == text && m.group == room && !m.isFile
  {
    Message(None, AISender, text, false, room, Read)
  }

  /** The accumulated `aiResponse` after the chunks `cs`. */
  function Concat(cs: seq<string>): string {
    if cs == [] then [] else Concat(cs[..|cs| - 1]) + cs[|cs| - 1]
  }

  /** How the stream is cut into chunks does not matter. */
  lemma {:induction false} ConcatAppend(a: seq<string>, b: seq<string>)
    ensures Concat(a + b) == Concat(a) + Concat(b)
  {
    if b == [] {
      assert a + b == a;
    } else {
      var init, last := b[..|b| - 1], b[|b| - 1];
      assert b == init + [last];
      ConcatAppend(a, init);
      ConcatAppendStep(a, init, last);
    }
  }

  /** The inductive step of `ConcatAppend`: one more chunk at the back. */
  lemma ConcatAppendStep(a: seq<string>, init: seq<string>, last: string)
    requires Concat(a + init) == Concat(a) + Concat(init)
    ensures Concat(a + (init + [last])) == Concat(a) + Concat(init + [last])
  {
    assert a + (init + [last]) == (a + init) + [last];
    assert ((a + init) + [last])[..|a + init|] == a + init;
    assert (init + [last])[..|init|] == init;
    var ca, ci := Concat(a), Concat(init);
    assert (ca + ci) + last == ca + (ci + last);
  }

  // ---------------------------------------------------------------------------
  // The screen
  // ---------------------------------------------------------------------------

  /** The module-level state of app/chat_room.tsx: the high-water mark, one
      for the whole app, shared by every chat screen that is ever opened. */
  class ChatModule {
    var offset: int

    constructor ()
      ensures offset == 0
    {
      offset := 0;
    }
  }

  /** One mounted chat screen: its React state, the socket's existence and a
      log of what it emitted on the socket. */
  class ChatScreen {
    const roomId: string
    const scope: ChatModule
    var userId: string
    var socketOpen: bool
    var input: string
    var messages: seq<Message>
    var typingLabel: string
    var outbox: seq<Outbound>

    /** The AI room never gets a socket (so its user id is never loaded), and
        the list of a socket room is in offset order under the shared mark. */
    ghost predicate Valid()
      reads this`userId, this`socketOpen, this`messages, scope`offset
    {
      && userId != []
      && (roomId == AIRoomId ==> !socketOpen && userId == Auth.UnknownUser)
      && (roomId != AIRoomId ==> InOffsetOrder(Timeline(scope.offset, messages)))
    }

    /** Mounting the screen: fresh React state; the shared mark is kept. */
    constructor (roomId: string, scope: ChatModule)
      ensures this.roomId == roomId && this.scope == scope
      ensures userId == Auth.UnknownUser && !socketOpen && input == []
      ensures messages == [] && typingLabel == [] && outbox == []
      ensures Valid()
    {
      this.roomId := roomId;
      this.scope := scope;
      userId := Auth.UnknownUser;
      socketOpen := false;
      input := [];
      messages := [];
      typingLabel := [];
      outbox := [];
    }

    /** The mount effect: nothing in room "AI"; otherwise load the user id
        and open the socket. */
    method SetupSocket(stored: Option<string>)
      requires Valid()
      modifies this`userId, this`socketOpen
      ensures Valid()
      ensures roomId == AIRoomId ==> userId == old(userId) && !socketOpen
      ensures roomId != AIRoomId ==> userId == Auth.StoredUserId(stored) && socketOpen
    {
      if roomId == AIRoomId {
        return;
      }
      userId := Auth.StoredUserId(stored);
      socketOpen := true;
    }

    /** Inbound 'message'. */
    method OnMessage(data: Message)
      requires Valid() && socketOpen
      modifies this`messages, scope`offset
      ensures Valid()
      ensures Timeline(scope.offset, messages) == Receive(Timeline(old(scope.offset), old(messages)), data)
    {
      var newOffset := OffsetOf(data);
      ReceiveKeepsOrder(Timeline(scope.offset, messages), data);
      if newOffset.Some? && newOffset.value > scope.offset {
        messages := messages + [data];
      }
      if newOffset.Some? && newOffset.value > scope.offset {
        scope.offset := newOffset.value;
      }
    }

    /** Inbound 'typing': another user's event shows the indicator; the
        user's own is ignored. */
    method OnTyping(sender: string)
      requires Valid() && socketOpen
      modifies this`typingLabel
      ensures Valid()
      ensures sender == userId ==> typingLabel == old(typingLabel)
      ensures sender != userId ==> typingLabel == TypingLabel(sender)
    {
      if sender != userId {
        typingLabel := TypingLabel(sender);
      }
    }

    /** Inbound 'admin_control': only the "delete" type does anything. */
    method OnAdminControl(kind: string, messageId: Option<string>)
      requires Valid() && socketOpen
      modifies this`messages
      ensures Valid()
      ensures messages == if kind == "delete" then RemoveById(old(messages), messageId) else old(messages)
    {
      if kind == "delete" {
        RemoveKeepsOrder(Timeline(scope.offset, messages), messageId);
        messages := RemoveById(messages, messageId);
      }
    }

    /** Inbound 'messageStatusUpdate'. */
    method OnStatusUpdate(id: Option<string>, status: MessageStatus)
      requires Valid() && socketOpen
      modifies this`messages
      ensures Valid()
      ensures messages == SetStatus(old(messages), id, status)
    {
      var updated := SetStatus(messages, id, status);
      SameIdsKeepOrder(Timeline(scope.offset, messages), updated);
      messages := updated;
    }

    /** `markMessagesAsRead`: for every message of the current list that is
        not the user's own and not yet READ, emit 'messageSeen' (when there is
        a socket) and queue a patch of its id to READ. The queued state
        updaters take effect, in order, once the loop is done. */
    method MarkMessagesAsRead()
      requires Valid()
      modifies this`messages, this`outbox
      ensures Valid()
      ensures messages == MarkAllRead(old(messages), userId)
      ensures outbox == old(outbox) + (if socketOpen then SeenEvents(old(messages), userId, roomId) else [])
    {
      var snapshot := messages;
      var patched, seen := Acknowledge(snapshot, userId, roomId);
      if roomId != AIRoomId {
        MarkKeepsOrder(Timeline(scope.offset, snapshot), userId);
      }
      outbox := outbox + if socketOpen then seen else [];
      messages := patched;
    }

    /** `onTyping`: the input box changed. */
    method OnInputChanged(text: string)
      requires Valid()
      modifies this`input, this`outbox
      ensures Valid()
      ensures input == text
      ensures outbox == old(outbox) + if socketOpen then [TypingEvent(userId, roomId)] else []
    {
      input := text;
      if socketOpen {
        outbox := outbox + [TypingEvent(userId, roomId)];
      }
    }

    /** `handleSendMessage`: with a socket, a non-blank input and a user id,
        emit the message and clear the input; otherwise do nothing. */
    method HandleSendMessage()
      requires Valid()
      modifies this`input, this`outbox
      ensures Valid()
      ensures socketOpen && JsStrings.Trim(old(input)) != [] && userId != [] ==>
        outbox == old(outbox) + [MessageEvent(Outgoing(userId, old(input), roomId))] && input == []
      ensures !(socketOpen && JsStrings.Trim(old(input)) != [] && userId != []) ==>
        outbox == old(outbox) && input == old(input)
    {
      if socketOpen && JsStrings.Trim(input) != [] && userId != [] {
        outbox := outbox + [MessageEvent(Outgoing(userId, input, roomId))];
        input := [];
      }
    }

    /** `handleDeleteMessage`: ask the server to delete a message. */
    method HandleDeleteMessage(messageId: string)
      requires Valid()
      modifies this`outbox
      ensures Valid()
      ensures outbox == old(outbox) + if socketOpen then [DeleteRequest(messageId, userId)] else []
    {
      if socketOpen {
        outbox := outbox + [DeleteRequest(messageId, userId)];
      }
    }

    /** `handleAIResponse`, with the streamed chunks as input: append the
        user's message and an empty AI placeholder, clear the input, then
        rewrite the placeholder with the text accumulated so far after each
        chunk. Nothing is emitted on a socket. */
    method HandleAIResponse(chunks: seq<string>)
      requires Valid() && roomId == AIRoomId
      modifies this`messages, this`input
      ensures Valid()
      ensures messages == old(messages) + [Outgoing(userId, old(input), roomId), AIReply(Concat(chunks), roomId)]
      ensures input == []
    {
      var userMessage := Outgoing(userId, input, roomId);
      var aiMessageIndex := |messages|;
      messages := messages + [userMessage];
      var aiResponse := "";
      messages := messages + [AIReply("", roomId)];
      input := [];
      var i := 0;
      while i < |chunks|
        invariant 0 <= i <= |chunks|
        invariant aiResponse == Concat(chunks[..i])
        invariant input == []
        invariant messages == old(messages) + [userMessage, AIReply(aiResponse, roomId)]
      {
        aiResponse := aiResponse + chunks[i];
        assert chunks[..i + 1][..i] == chunks[..i];
        messages := messages[aiMessageIndex + 1 := AIReply(aiResponse, roomId)];
        i := i + 1;
      }
      assert chunks[..i] == chunks;
    }

    /** The send button: the AI path in room "AI", the socket path elsewhere. */
    method PressSend(chunks: seq<string>)
      requires Valid()
      modifies this`messages, this`input, this`outbox
      ensures Valid()
      ensures roomId == AIRoomId ==>
        outbox == old(outbox) &&
        messages == old(messages) + [Outgoing(userId, old(input), roomId), AIReply(Concat(chunks), roomId)]
      ensures roomId == AIRoomId ==> input == []
      ensures roomId != AIRoomId ==>
        messages == old(messages) &&
        (JsStrings.Trim(old(input)) != [] && socketOpen <==> |outbox| == |old(outbox)| + 1)
      ensures roomId != AIRoomId && socketOpen && JsStrings.Trim(old(input)) != [] ==>
        outbox == old(outbox) + [MessageEvent(Outgoing(userId, old(input), roomId))] && input == []
      ensures roomId != AIRoomId && !(socketOpen && JsStrings.Trim(old(input)) != []) ==>
        outbox == old(outbox) && input == old(input)
    {
      if roomId == AIRoomId {
        HandleAIResponse(chunks);
      } else {
        HandleSendMessage();
      }
    }
  }

  /** Leaving a room and opening it again: the new screen starts with an empty
      list but the mark stays where the first visit left it, so a message the
      first visit showed is not shown again when the server resends it. */
  method ReopenRoom(scope: ChatModule, room: string, stored: Option<string>, m: Message)
      returns (firstVisit: seq<Message>, secondVisit: seq<Message>)
    requires room != AIRoomId
    modifies scope
    ensures m in firstVisit ==> secondVisit == []
  {
    var first := new ChatScreen(room, scope);
    first.SetupSocket(stored);
    first.OnMessage(m);
    firstVisit := first.messages;
    var second := new ChatScreen(room, scope);
    second.SetupSocket(stored);
    second.OnMessage(m);
    secondVisit := second.messages;
  }

  /** The mark is shared by every room: once a message has been shown in one
      room, a message for another room whose offset is not above it is
      dropped there. */
  method OtherRoomBelowMark(scope: ChatModule, room: string, other: string, stored: Option<string>, m: Message, n: Message)
      returns (shown: seq<Message>, elsewhere: seq<Message>)
    requires room != AIRoomId && other != AIRoomId
    modifies scope
    ensures m in shown && OffsetOf(m).Some? && OffsetOf(n).Some? && OffsetOf(n).value <= OffsetOf(m).value ==> elsewhere == []
  {
    var first := new ChatScreen(room, scope);
    first.SetupSocket(stored);
    first.OnMessage(m);
    shown := first.messages;
    var second := new ChatScreen(other, scope);
    second.SetupSocket(stored);
    second.OnMessage(n);
    elsewhere := second.messages;
  }
}
