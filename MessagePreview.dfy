/** The message bubble (components/MessagePreview.tsx): how one message of
    the list is shown — whose side it sits on, its header, its body and its
    status icon. */
module MessagePreview {
  import opened Wrappers
  import opened Messages
  import FilePreview

  /** `isSentByMe`. */
  predicate IsSentByMe(m: Message, userId: string) {
    m.from == userId
  }

  /** The header: "You:" for the user's own messages, "~" and the sender's
      id for everyone else's. */
  function HeaderLabel(m: Message, userId: string): (header: string)
    ensures |header| >= 1
    ensures header == "You:" <==> IsSentByMe(m, userId)
    ensures !IsSentByMe(m, userId) ==> header[0] == '~' && header[1..] == m.from
  {
    if IsSentByMe(m, userId) then "You:"
    else
      assert (['~'] + m.from)[0] != "You:"[0];
      ['~'] + m.from
  }

  /** Messages from two different other users never share a header, and
      no other user's header can be taken for the user's own. */
  lemma HeaderTellsSendersApart(m1: Message, m2: Message, userId: string)
    requires !IsSentByMe(m1, userId) && !IsSentByMe(m2, userId)
    ensures HeaderLabel(m1, userId) == HeaderLabel(m2, userId) <==> m1.from == m2.from
  {
    var h1, h2 := HeaderLabel(m1, userId), HeaderLabel(m2, userId);
    if h1 == h2 {
      assert h1[1..] == h2[1..];
    }
  }

  /** The icon names of the status indicator. */
  const IconRead := "done-all"
  const IconDelivered := "done"
  const IconPending := "schedule"

  /** The status icon: READ, then DELIVERED, and "schedule" otherwise. */
  function StatusIcon(status: MessageStatus): (name: string)
    ensures name == IconRead <==> status == Read
    ensures name == IconDelivered <==> status == Delivered
    ensures name == IconPending <==> status.Sent?
  {
    assert |IconRead| != |IconDelivered|;
    assert IconPending[0] != IconRead[0] && IconPending[0] != IconDelivered[0];
    if status == Read then IconRead
    else if status == Delivered then IconDelivered
    else IconPending
  }

  /** Distinct statuses are drawn with distinct icons. */
  lemma StatusIconInjective(a: MessageStatus, b: MessageStatus)
    ensures StatusIcon(a) == StatusIcon(b) <==> a == b
  {
  }

  /** What sits between the header and the status icon. */
  datatype Body = FileBody(preview: FilePreview.Preview) | TextBody(text: string)

  /** A file message hands its text to the file preview as the URI; any other
      message shows its text. */
  function MessageBody(m: Message): (b: Body)
    ensures b.FileBody? <==> m.isFile
    ensures m.isFile ==> b == FileBody(FilePreview.ChoosePreview(Some(m.text)))
    ensures !m.isFile ==> b == TextBody(m.text)
  {
    if m.isFile then FileBody(FilePreview.ChoosePreview(Some(m.text))) else TextBody(m.text)
  }

  /** The whole bubble. */
  datatype Bubble = Bubble(mine: bool, header: string, body: Body, icon: string)

  function Render(m: Message, userId: string): (b: Bubble)
    ensures b.mine <==> b.header == "You:"
  {
    Bubble(IsSentByMe(m, userId), HeaderLabel(m, userId), MessageBody(m), StatusIcon(m.msgStatus))
  }

  /** A text message shows exactly its text; a file message shows its URL as
      an image exactly when the URL's extension is an image extension. */
  lemma RenderedBody(m: Message, userId: string)
    ensures !m.isFile ==> Render(m, userId).body == TextBody(m.text)
    ensures m.isFile ==>
      (Render(m, userId).body == FileBody(FilePreview.Image(m.text)) <==>
        FilePreview.IsValidImageUrl(Some(m.text)))
  {
    if m.isFile {
      FilePreview.PreviewChoice(Some(m.text));
    }
  }

  /** Marking a message read changes only its icon. */
  lemma ReadChangesOnlyTheIcon(m: Message, userId: string)
    ensures
      var before, after := Render(m, userId), Render(m.(msgStatus := Read), userId);
      && after.icon == IconRead
      && after.(icon := before.icon) == before
  {
  }
}
