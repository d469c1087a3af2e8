# Chat client core, modelled in Dafny

A model of the sequential logic of a React Native chat client: the chat
screen's message-list state machine, the file-preview helpers, the message
bubble's display mapping, the create-group selection map and validation, and
the derivation of room ids. Socket, storage and HTTP calls are abstracted to
inputs (the stored user id, the fetched users, the AI reply's chunks, whether a
POST succeeded) and outputs (a log of emitted socket events).

Modules:

- `ChatRoom` holds the chat screen (app/chat_room.tsx). The pure updaters
  `Receive`, `RemoveById`, `SetStatus`, `MarkAllRead` and `SeenEvents` sit
  beside two classes:
  - `ChatModule` holds the module-global high-water mark `offset`, which
    every screen shares.
  - `ChatScreen` holds one mounted screen's state, with one method per event
    handler.
  - `markMessagesAsRead` and `handleDeleteMessage` are modelled, but nothing
    on the screen invokes them. The first is only defined
    (app/chat_room.tsx:139). The second is passed to the bubble as
    `onMessageDelete` (app/chat_room.tsx:353), and the bubble never reads
    that prop. So the screen as written sends no read receipts and no
    delete requests.
- `FilePreview` holds `isValidImageUrl`, `getExtension` and the choice
  between the image and the extension label.
- `MessagePreview` covers the sender test, the header label, the status icon
  and the file-or-text body.
- `CreateGroup` holds the selection map, its flag and count, the validation,
  and a `CreateGroupScreen` class for the screen's state.
- `UserList` derives the room ids: 1:1 rooms, group rooms and the AI room.
  `GrpSelected` sorts the caller's array in place.
- `JsStrings`, `JsNumber` and `JsSort` model the JavaScript built-ins the code
  relies on:
  - `trim` with the ECMAScript whitespace set.
  - `toLowerCase` and `toUpperCase`.
  - `endsWith`, and `split`/`join` on one character.
  - `parseInt`, with NaN as `None`.
  - The default `Array.prototype.sort` order.
- `Messages`, `Auth` and `Wrappers` hold the message record, the stored user
  id (`getUserID`) and `Option`.

Three behaviours of the code that the model keeps as written:

- The high-water mark is one module-level variable shared by every room
  (app/chat_room.tsx:38), not a per-room value.
- A group's room id is built on the client by sorting and joining its
  members (app/user_list.tsx:57-59), not issued by the server.
- A delete event removes every message carrying the id (a `filter`), not one
  message.

## Model

| member | source | states |
|---|---|---|
| `ChatRoom.Accepts` | app/chat_room.tsx:95-99 | Defines `newOffset > offset`: the id must parse to a number, and that number must be above the mark, so NaN is never accepted. |
| `ChatRoom.Receive` | app/chat_room.tsx:92-101 | A message is appended iff its parsed id is strictly above the mark. NaN is never above. The new mark is the larger of the old mark and the id, so it never decreases. |
| `ChatRoom.ReceiveKeepsOrder` | app/chat_room.tsx:92-101 | The 'message' handler keeps the list in strictly increasing offset order, with no offset above the mark. |
| `ChatRoom.OffsetOrderIsStrict` | app/chat_room.tsx:92-101 | In such a list every id parses, no offset exceeds the mark, and offsets strictly increase. |
| `ChatRoom.RedeliveryIsDropped` | app/chat_room.tsx:92-101 | Redelivering a message whose offset is already in the list changes neither the list nor the mark. |
| `ChatRoom.ReceiveIdempotent` | app/chat_room.tsx:92-101 | Handling the same message event twice has the effect of handling it once. |
| `ChatRoom.ReceiveAllAppendsInOrder` | app/chat_room.tsx:92-101 | Over any run of message events the mark never decreases, the old list stays a prefix, and order is kept. Every appended message came from the run, with an offset above the starting mark. |
| `ChatRoom.ReceiveAllGrows` | app/chat_room.tsx:92-101 | Over any run of message events the mark never decreases and the old list stays a prefix of the new one. |
| `ChatRoom.ReceiveAllAppendsFromRun` | app/chat_room.tsx:92-101 | Every message past the old list came from the run, with an offset above the starting mark. |
| `ChatRoom.ReceiveAllKeepsOrder` | app/chat_room.tsx:92-101 | Offset order survives any run of message events. |
| `ChatRoom.RemoveById` | app/chat_room.tsx:112-116 | A delete never makes the list longer. |
| `ChatRoom.RemoveByIdMembers` | app/chat_room.tsx:114 | After a delete, a message is in the list iff it was there before and its id differs from the deleted one. |
| `ChatRoom.RemoveByIdDistributes` | app/chat_room.tsx:114 | Deleting distributes over concatenation, so the survivors keep their relative order. |
| `ChatRoom.RemoveAbsentId` | app/chat_room.tsx:114 | Deleting an id no message carries leaves the list unchanged. |
| `ChatRoom.RemoveKeepsOrder` | app/chat_room.tsx:112-116 | Deleting keeps the offset order of the list. |
| `ChatRoom.SetStatus` | app/chat_room.tsx:119-125 | A status update keeps length and order. A message with a matching id gets the new status and keeps every other field; any other message is unchanged. |
| `ChatRoom.SameIdsKeepOrder` | app/chat_room.tsx:119-125 | A rewrite that keeps every id in place (status patches) keeps offset order. |
| `ChatRoom.SeenEvents` | app/chat_room.tsx:139-150 | Read receipts are 'messageSeen' events for the current room, at most one per message. |
| `ChatRoom.AwaitsReceipt` | app/chat_room.tsx:141 | Defines the test in the loop: a message awaits a receipt when its status is not READ and its sender is not the local user. |
| `ChatRoom.SeenEventsPerMessage` | app/chat_room.tsx:140-142 | Receipts go out message by message, in list order: one for each message awaiting a receipt (not from the user, not READ), none for any other. |
| `ChatRoom.MarkAllRead` | app/chat_room.tsx:139-150 | Marking keeps length and ids, and every message awaiting a receipt becomes READ with its other fields kept. Any message either stays as it was or only its status becomes READ, with or without distinct ids. |
| `ChatRoom.MarkAllReadWithDistinctIds` | app/chat_room.tsx:139-150 | With distinct ids, exactly the awaiting messages turn READ. The user's own messages and those already READ are untouched. |
| `ChatRoom.Acknowledge` | app/chat_room.tsx:140-148 | The `forEach` over a snapshot emits exactly `SeenEvents` of it, in order, and its queued patches leave `MarkAllRead` of it. |
| `ChatRoom.OffsetOrderMeansDistinctIds` | app/chat_room.tsx:92-101 | A list the 'message' handler built has distinct ids. |
| `ChatRoom.MarkingTwiceEmitsNothing` | app/chat_room.tsx:139-150 | After marking, nothing awaits a receipt, so marking again emits no event. |
| `ChatRoom.NothingAwaits` | app/chat_room.tsx:141-142 | A list in which nothing awaits a receipt yields no 'messageSeen' event. |
| `ChatRoom.TypingLabel` | app/chat_room.tsx:107 | The indicator reads the sender's id followed by " is typing ...". |
| `ChatRoom.Outgoing` | app/chat_room.tsx:220-226 | An outgoing message has no id, is not a file, has status SENT, and carries the sender, text and room given. |
| `ChatRoom.AIReply` | app/chat_room.tsx:187-204 | The AI slot is from "AI" with status READ and no id. It carries the given text and room and is not a file. |
| `ChatRoom.Concat` | app/chat_room.tsx:193 | Defines the accumulated `aiResponse`: the chunks concatenated in arrival order. |
| `ChatRoom.ConcatAppend` | app/chat_room.tsx:192-193 | The accumulated reply depends only on the streamed text, not on where the chunk boundaries fall. |
| `ChatRoom.ChatModule.constructor` | app/chat_room.tsx:38 | The shared mark starts at 0. |
| `ChatRoom.ChatScreen.constructor` | app/chat_room.tsx:41-47 | A mounted screen starts with an empty list, input and label, no socket, and user id "Unknown". |
| `ChatRoom.ChatScreen.SetupSocket` | app/chat_room.tsx:71-76 | Room "AI" opens no socket and loads no id. Any other room loads the stored user id and opens the socket. |
| `ChatRoom.ChatScreen.OnMessage` | app/chat_room.tsx:92-101 | The list and the shared mark change as `Receive` says. The screen invariant, including offset order, is kept. |
| `ChatRoom.ChatScreen.OnTyping` | app/chat_room.tsx:105-110 | The user's own typing event leaves the label. Anyone else's sets it to "<id> is typing ...". |
| `ChatRoom.ChatScreen.OnAdminControl` | app/chat_room.tsx:112-116 | Type "delete" removes the matching messages; any other type changes nothing. |
| `ChatRoom.ChatScreen.OnStatusUpdate` | app/chat_room.tsx:119-125 | The list becomes `SetStatus` of the old list, and order is kept. |
| `ChatRoom.ChatScreen.MarkMessagesAsRead` | app/chat_room.tsx:139-150 | The loop over the list snapshot leaves `MarkAllRead` of it. When a socket exists it emits `SeenEvents` of it, in order. |
| `ChatRoom.ChatScreen.OnInputChanged` | app/chat_room.tsx:232-235 | The input becomes the text. One 'typing' event is emitted when a socket exists. |
| `ChatRoom.ChatScreen.HandleSendMessage` | app/chat_room.tsx:217-230 | With a socket, a non-blank input and a user id, one 'message' event from the user is emitted and the input cleared. Otherwise nothing changes. |
| `ChatRoom.ChatScreen.HandleDeleteMessage` | app/chat_room.tsx:343-345 | A delete request naming the message and the user is emitted when a socket exists. |
| `ChatRoom.ChatScreen.HandleAIResponse` | app/chat_room.tsx:173-210 | After chunks c1..ck, the list is the old list plus the user's message plus an AI slot. The slot (index `aiMessageIndex + 1`) holds c1++...++ck. The input is cleared and nothing is emitted. |
| `ChatRoom.ChatScreen.PressSend` | app/chat_room.tsx:374 | Room "AI" takes the AI path: it emits nothing and clears the input. Any other room takes the socket path and leaves the list unchanged. With a socket and an input that is not blank, it emits exactly the outgoing message built from the old input and clears the input. Otherwise it emits nothing and keeps the input. |
| `ChatRoom.ReopenRoom` | app/chat_room.tsx:38 | The mark outlives the screen. For any mark and any message, a message shown on a first visit to a room is dropped when it is delivered again to a later screen of that room. |
| `ChatRoom.OtherRoomBelowMark` | app/chat_room.tsx:92-101 | The mark is shared by every room. After a message is shown in one room, a message for another room whose offset is not above it is dropped. |
| `JsNumber.ParseInt` | app/chat_room.tsx:93 | Defines `parseInt` with no radix: skip leading whitespace, take an optional sign, then read hexadecimal digits after "0x"/"0X" and decimal digits otherwise. No digit gives NaN (`None`). |
| `JsNumber.ParseId` | app/chat_room.tsx:93 | An absent id parses as `parseInt("undefined")`, which is NaN. |
| `JsNumber.ParseSkipsLeadingWhitespace` | app/chat_room.tsx:93 | `parseInt` ignores leading whitespace. |
| `JsNumber.ParseStartingWithDigit` | app/chat_room.tsx:93 | A string starting with a decimal digit and without a "0x" prefix parses as its longest decimal-digit prefix. |
| `JsNumber.ParseDecimal` | app/chat_room.tsx:93 | The decimal numeral of n parses back to n, even with trailing text that does not start with a digit (nor with an "x" after "0"). |
| `JsNumber.ParseNegativeDecimal` | app/chat_room.tsx:93 | "-" followed by the numeral of n parses to -n. |
| `JsNumber.ParseSamples` | app/chat_room.tsx:93 | "undefined", "abc" and "" parse to NaN. |
| `JsStrings.Trim` | app/chat_room.tsx:219 | Trimming never lengthens a string. |
| `JsStrings.TrimShape` | app/chat_room.tsx:219 | The trimmed string occurs in the input, has no whitespace at either end, and is empty iff the input is all whitespace. |
| `JsStrings.TrimStartShape` | app/chat_room.tsx:219 | Removing leading whitespace keeps a suffix, cuts only whitespace, leaves a non-whitespace first character, and keeps nothing iff the string is blank. |
| `JsStrings.TrimEndShape` | app/chat_room.tsx:219 | Removing trailing whitespace keeps a prefix, cuts only whitespace, leaves a non-whitespace last character, and keeps nothing iff the string is blank. |
| `JsStrings.ToLower` | components/file_preview.tsx:14 | Lower-casing maps each character: ASCII capitals to small letters, every other character to itself. |
| `JsStrings.ToUpper` | components/file_preview.tsx:40 | Upper-casing maps each character: ASCII small letters to capitals, every other character to itself. |
| `JsStrings.LowerOfUpper` | components/file_preview.tsx:14 | Lower-casing forgets the case: it is idempotent and absorbs upper-casing. |
| `JsStrings.EndsWith` | components/file_preview.tsx:14 | Defines `endsWith`: the suffix is no longer than the string and equals its last characters. |
| `JsStrings.Split` | components/file_preview.tsx:19 | A split has at least one part, and there is more than one part iff the separator occurs. |
| `JsStrings.SplitPartsLackSep` | components/file_preview.tsx:19 | No part of a split holds the separator. |
| `JsStrings.Join` | app/user_list.tsx:44 | Joining one part gives that part. |
| `JsStrings.JoinSplit` | components/file_preview.tsx:19 | Joining the parts of a split gives the string back. |
| `JsStrings.SplitJoin` | app/user_list.tsx:59 | Splitting a join of separator-free parts gives the parts back. |
| `JsStrings.SplitLastPart` | components/file_preview.tsx:19-20 | The last part of `x + sep + y`, with y free of sep, is y. |
| `JsSort.LexLe` | app/user_list.tsx:44 | Defines the order the default `sort` uses: character codes compared one by one from the front, with a proper prefix first. |
| `JsSort.LexLeTotal` | app/user_list.tsx:44 | The default sort order relates any two strings. |
| `JsSort.LexLeAntisymmetric` | app/user_list.tsx:44 | Two strings each ordered before the other are equal. |
| `JsSort.LexLeTransitive` | app/user_list.tsx:44 | The default sort order is transitive. |
| `JsSort.SortedUnique` | app/user_list.tsx:58 | Two sorted arrangements of the same multiset are equal. |
| `JsSort.Sort` | app/user_list.tsx:44 | `sort()` yields a sorted permutation of its input. |
| `JsSort.SortDependsOnlyOnContents` | app/user_list.tsx:44 | Inputs with the same elements sort to the same sequence. |
| `JsSort.SortPair` | app/user_list.tsx:44 | Two strings sort to themselves in order. |
| `JsSort.SortArray` | app/user_list.tsx:58 | The in-place sort leaves the array equal to `Sort` of its old contents. |
| `Auth.StoredUserId` | api/auth.ts:29-31 | `getUserID` yields the stored id when one is stored and non-empty, otherwise "Unknown"; never empty. |
| `FilePreview.IsValidImageUrl` | components/file_preview.tsx:11-15 | Defines `isValidImageUrl`: an absent or empty URL is not an image. Otherwise the lower-cased URL must end with one of ".jpg", ".jpeg", ".png", ".gif", ".bmp", ".webp". |
| `FilePreview.GetExtension` | components/file_preview.tsx:17-21 | An absent or empty URL, or one without a '.', has extension "". No extension holds a '.'. |
| `FilePreview.ExtensionFollowsLastDot` | components/file_preview.tsx:19-20 | The extension is exactly the text after the URL's last '.'. |
| `FilePreview.TrailingDotHasNoExtension` | components/file_preview.tsx:19-20 | A URL ending in '.' has extension "". |
| `FilePreview.EndsWithDotSuffix` | components/file_preview.tsx:14 | The lower-cased URL ends with "." plus a non-empty dot-free name iff its lower-cased extension is that name. |
| `FilePreview.ImageIffExtension` | components/file_preview.tsx:11-21 | `isValidImageUrl` holds iff "." plus the lower-cased extension is one of .jpg .jpeg .png .gif .bmp .webp. The two helpers agree. |
| `FilePreview.ImageCheckIgnoresCase` | components/file_preview.tsx:14 | The image test gives the same answer for a URL and its lower- or upper-cased form. |
| `FilePreview.ChoosePreview` | components/file_preview.tsx:31-40 | An image preview shows the given URL. |
| `FilePreview.PreviewChoice` | components/file_preview.tsx:31-40 | An image is shown iff a URL is given and its lower-cased extension is an image extension. Otherwise the label is one '.' followed by the extension in upper case. |
| `FilePreview.AbsentUrlSamples` | components/file_preview.tsx:11-18 | An absent or empty URL is not an image and has extension "". An absent one is labelled ".". |
| `MessagePreview.IsSentByMe` | components/MessagePreview.tsx:27 | Defines `isSentByMe`: the message's sender equals the local user's id. |
| `MessagePreview.HeaderLabel` | components/MessagePreview.tsx:27-32 | The header is "You:" iff the message is the user's own. Otherwise it is "~" followed by the sender's id. |
| `MessagePreview.HeaderTellsSendersApart` | components/MessagePreview.tsx:32 | Two other users' messages share a header iff they share a sender. |
| `MessagePreview.StatusIcon` | components/MessagePreview.tsx:43-49 | READ shows "done-all", DELIVERED shows "done", SENT shows "schedule". |
| `MessagePreview.StatusIconInjective` | components/MessagePreview.tsx:43-49 | Distinct statuses show distinct icons. |
| `MessagePreview.MessageBody` | components/MessagePreview.tsx:35-39 | The body is a file preview iff the message is a file. A file's preview is built from the message text as its URL; any other message shows its text. |
| `MessagePreview.Render` | components/MessagePreview.tsx:26-55 | A bubble sits on the user's side iff its header is "You:". |
| `MessagePreview.RenderedBody` | components/MessagePreview.tsx:35-39 | A text message shows exactly its text. A file message shows its text as an image iff that URL is a valid image URL. |
| `MessagePreview.ReadChangesOnlyTheIcon` | components/MessagePreview.tsx:41-53 | Marking a message READ changes only its bubble's icon, to "done-all". |
| `CreateGroup.Uniform` | app/create_group.tsx:33-36 | The map has exactly the fetched users' ids as keys, each with the given value. |
| `CreateGroup.BuildSelection` | app/create_group.tsx:63-66 | The accumulator loop builds exactly that map. |
| `CreateGroup.Toggle` | app/create_group.tsx:49-53 | Only the toggled entry is negated; an absent one becomes checked. Every other entry is kept, and no other key is added. |
| `CreateGroup.SelectedIds` | app/create_group.tsx:79 | The selected ids are exactly the keys mapped to true. |
| `CreateGroup.SelectedCount` | app/create_group.tsx:71 | The count is the number of checked entries, at most the map's size. |
| `CreateGroup.AllSelected` | app/create_group.tsx:55 | Defines the `every` over the map's values: every entry is checked, which holds vacuously of the empty map. |
| `CreateGroup.AllSelectedIffCountIsSize` | app/create_group.tsx:55-71 | Every entry is checked iff the count equals the number of entries. |
| `CreateGroup.ToggleTwice` | app/create_group.tsx:49-53 | Toggling an existing entry twice restores the map. |
| `CreateGroup.ToggleMovesCountByOne` | app/create_group.tsx:49-71 | Each toggle moves the count by exactly one, down for a checked entry and up otherwise. |
| `CreateGroup.SelectAllAgrees` | app/create_group.tsx:62-71 | After "Select All" over a non-empty list, "all checked" equals the new flag. The count is every user or none. |
| `CreateGroup.Validate` | app/create_group.tsx:73-96 | A name that trims to empty is refused first. An empty selection is refused next. Otherwise the payload is the typed name with exactly the checked ids. |
| `CreateGroup.ReadyMeansNamedAndPopulated` | app/create_group.tsx:73-96 | A posted group has a non-blank name and at least one member, every member checked. |
| `CreateGroup.CreateGroupScreen.constructor` | app/create_group.tsx:17-21 | The screen starts loading, with no users, an empty map, an empty name and the flag off. |
| `CreateGroup.CreateGroupScreen.FinishFetch` | app/create_group.tsx:23-46 | A successful fetch stores the users and an all-unchecked map over their ids. Loading ends either way. |
| `CreateGroup.CreateGroupScreen.EditGroupName` | app/create_group.tsx:124 | The name becomes the typed text. |
| `CreateGroup.CreateGroupScreen.ToggleCheckbox` | app/create_group.tsx:48-60 | The map becomes `Toggle` of the old one. The flag is set iff every value is true. |
| `CreateGroup.CreateGroupScreen.ToggleSelectAll` | app/create_group.tsx:62-69 | The keys become exactly the user ids, each set to the negated old flag, and the flag flips. |
| `CreateGroup.CreateGroupScreen.SelectedUserCount` | app/create_group.tsx:71 | The count shown is at most the number of entries. |
| `CreateGroup.CreateGroupScreen.CreateGroup` | app/create_group.tsx:73-111 | Refused input changes nothing. A successful post yields the payload and resets the name, the map and the flag. A failed post keeps the state. |
| `CreateGroup.SelectAllBeforeFetch` | app/create_group.tsx:23-69 | "Select All" pressed before the fetch returns a non-empty list leaves a stale flag. The toggle runs over the still-empty users and sets the flag. The fetch then writes every fetched id unchecked without touching the flag. The flag ends up true while no entry is checked. |
| `UserList.DirectRoomId` | app/user_list.tsx:42-47 | The 1:1 room id is the two ids, sorted and joined by '_'. Its length is the sum of theirs plus one. |
| `UserList.DirectRoomIdSpelledOut` | app/user_list.tsx:44 | The 1:1 id is the smaller id, '_', then the larger, in the default sort order. |
| `UserList.DirectRoomIdSymmetric` | app/user_list.tsx:44 | Either participant derives the same id. |
| `UserList.GroupRoomId` | app/user_list.tsx:57-59 | A one-member group's room id is that member. |
| `UserList.GroupRoomIdIgnoresOrder` | app/user_list.tsx:57-59 | The group room id does not depend on the order of the members. |
| `UserList.DirectRoomIsTwoMemberGroup` | app/user_list.tsx:44-59 | A 1:1 chat between A and B gets the same room as the group whose members are exactly A and B. |
| `UserList.GroupRoomIdNamesMembers` | app/user_list.tsx:57-59 | With ids free of '_', splitting the room id gives back the sorted members. |
| `UserList.GrpSelected` | app/user_list.tsx:57-60 | The caller's array is sorted in place, and the room id is the group room id of its old contents. |
| `UserList.GrpSelectedLeavesSortedPermutation` | app/user_list.tsx:58 | Afterwards the array is a permutation of what it held, with every pair in order. |
| `UserList.ChatWithAIRoomId` | app/user_list.tsx:49-51 | The AI chat's room is the fixed id "AI". It is not empty and holds no '_'. |
| `UserList.DirectRoomIsNeverAI` | app/user_list.tsx:44-51 | Every 1:1 room id contains '_', so none is the AI room "AI". |

## Left out

- Socket.io plumbing is not modelled: connection setup, the token handshake, `join_group`, connect logging and 'unauthorized_access' navigation (app/chat_room.tsx:74-90, 126-136). A socket is a flag, and emits are entries appended to `outbox`.
- Sockets are never closed: the cleanup at app/chat_room.tsx:131-133 is returned from `setupSocket`'s promise, not from the effect (app/chat_room.tsx:136-137). A screen's socket stays open after the screen is left, and its 'message' handler keeps raising the module-global `offset`. The model allows this, because `OnMessage` can still be called on a screen that is no longer shown.
- React lifecycle behaviour is not modelled: the effect re-running on every list change (app/chat_room.tsx:137), and the state batching of `setMessages`. Each handler is one atomic step on the current state.
- `testDataConnect` and `testDataDisconnect` (app/chat_room.tsx:237-304) are not modelled. They are unreachable test hooks, and near-copies of the handlers above.
- The typing indicator's 2-second decay timer, the opacity animations, the dropdown and the scroll timeouts are not modelled, because they involve clocks and animation values. The indicator text is never cleared in the model.
- File upload (app/chat_room.tsx:306-342) is not modelled, because it is picker and HTTP I/O.
- `openAIResponse` is not part of this model. Its streamed chunks are an input sequence delivered without interleaving, so `HandleAIResponse` is one step.
- Token and user-id storage is not modelled. `getUserID` is reduced to the stored value, an input.
- Fetching users and posting a group are not modelled; their results are inputs.
- Login, signup, the unauthorized screen, the tab screen, the styles and all `router.navigate` calls are not modelled. Only the room id handed to the chat route is.
- `JsStrings.ToLower`, `JsStrings.ToUpper`: case mapping covers only the ASCII letters. Unicode case mapping is not modelled, for example `"ß".toUpperCase()` giving "SS".
- `JsSort.LexLe`: strings compare by code point, which is UTF-16 order only for characters of the Basic Multilingual Plane. Surrogate pairs are not modelled.
- `JsNumber.ParseId`: JavaScript numbers are unbounded integers here. Ids beyond 2^53, where precision is lost, are not modelled.
- `CreateGroup.Validate`: the payload's `userIds` is a set. The order of the JSON array, which follows the object's key order, is not modelled.
- The typing indicator's `userIdTyping` timer reset and interleavings of asynchronous callbacks inside one handler are not modelled. Every operation is one atomic step. Orders of whole handlers are modelled: `CreateGroup.SelectAllBeforeFetch` shows the stale "Select All" flag that results when the fetch finishes after the button was pressed.
