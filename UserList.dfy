/** The user list (app/user_list.tsx): the room ids it navigates to — a 1:1
    room, a group's room and the AI room. */
module UserList {
  import JsStrings
  import JsSort
  import ChatRoom

  /** `handleUserPress`: the recipient's id and the user's own id (as
      `getUserID` returns it), sorted and joined with '_'. */
  function DirectRoomId(recipientId: string, uid: string): (room: string)
    ensures |room| == |recipientId| + |uid| + 1
  {
    var pair := JsSort.Sort([recipientId, uid]);
    JsSort.SortPair(recipientId, uid);
    JsStrings.Join(pair, '_')
  }

  /** The two ids in order, joined. */
  lemma DirectRoomIdSpelledOut(recipientId: string, uid: string)
    ensures DirectRoomId(recipientId, uid) ==
      if JsSort.LexLe(recipientId, uid) then recipientId + "_" + uid else uid + "_" + recipientId
  {
    JsSort.SortPair(recipientId, uid);
  }

  /** Both participants derive the same room id. */
  lemma DirectRoomIdSymmetric(a: string, b: string)
    ensures DirectRoomId(a, b) == DirectRoomId(b, a)
  {
    DirectRoomIdSpelledOut(a, b);
    DirectRoomIdSpelledOut(b, a);
    JsSort.LexLeTotal(a, b);
    if JsSort.LexLe(a, b) && JsSort.LexLe(b, a) {
      JsSort.LexLeAntisymmetric(a, b);
    }
  }

  /** `grpSelected`'s room id: the members sorted and joined with '_'. */
  function GroupRoomId(members: seq<string>): (room: string)
    ensures |members| == 1 ==> room == members[0]
  {
    var sorted := JsSort.Sort(members);
    assert |members| == 1 ==> sorted == members by {
      if |members| == 1 {
        assert multiset(sorted) == multiset{members[0]};
        assert |sorted| == 1 && sorted[0] in multiset(sorted);
      }
    }
    JsStrings.Join(sorted, '_')
  }

  /** The room of a group does not depend on the order its members are
      listed in. */
  lemma GroupRoomIdIgnoresOrder(a: seq<string>, b: seq<string>)
    requires multiset(a) == multiset(b)
    ensures GroupRoomId(a) == GroupRoomId(b)
  {
    JsSort.SortDependsOnlyOnContents(a, b);
  }

  /** A 1:1 chat and a group of exactly its two users share a room. */
  lemma DirectRoomIsTwoMemberGroup(a: string, b: string, members: seq<string>)
    requires multiset(members) == multiset{a, b}
    ensures DirectRoomId(a, b) == GroupRoomId(members)
  {
    assert multiset([a, b]) == multiset{a, b};
    JsSort.SortDependsOnlyOnContents([a, b], members);
  }

  /** When no id holds a '_', the room id gives the sorted members back. */
  lemma GroupRoomIdNamesMembers(members: seq<string>)
    requires members != []
    requires forall i :: 0 <= i < |members| ==> '_' !in members[i]
    ensures JsStrings.Split(GroupRoomId(members), '_') == JsSort.Sort(members)
  {
    var sorted := JsSort.Sort(members);
    assert |sorted| == |members| by {
      assert |multiset(sorted)| == |multiset(members)|;
    }
    forall p | p in sorted
      ensures '_' !in p
    {
      assert p in multiset(members);
      var i :| 0 <= i < |members| && members[i] == p;
    }
    JsStrings.SplitJoin(sorted, '_');
  }

  /** `grpSelected`: sorts the caller's `members` array in place, then
      derives the room id from it. */
  method GrpSelected(members: array<string>) returns (roomId: string)
    modifies members
    ensures members[..] == JsSort.Sort(old(members[..]))
    ensures roomId == GroupRoomId(old(members[..]))
  {
    JsSort.SortArray(members);
    roomId := JsStrings.Join(members[..], '_');
  }

  /** After `grpSelected` the caller's array is a sorted rearrangement of
      what it held. */
  lemma GrpSelectedLeavesSortedPermutation(before: seq<string>, after: seq<string>)
    requires after == JsSort.Sort(before)
    ensures JsSort.Sorted(after) && multiset(after) == multiset(before)
    ensures forall i, j :: 0 <= i < j < |after| ==> JsSort.LexLe(after[i], after[j])
  {
    JsSort.SortedIsPairwise(after);
  }

  /** `handleChatWithAIPress`: the AI chat's fixed room, whose name holds no
      '_' and so cannot be spelled by joining ids. */
  function ChatWithAIRoomId(): (room: string)
    ensures room != [] && '_' !in room
  {
    ChatRoom.AIRoomId
  }

  /** No 1:1 room is the AI room: every 1:1 id holds a '_'. */
  lemma DirectRoomIsNeverAI(a: string, b: string)
    ensures DirectRoomId(a, b) != ChatWithAIRoomId()
    ensures '_' in DirectRoomId(a, b)
  {
    DirectRoomIdSpelledOut(a, b);
    var room := DirectRoomId(a, b);
    if JsSort.LexLe(a, b) {
      assert room[|a|] == '_';
    } else {
      assert room[|b|] == '_';
    }
  }
}
