/** The "Create New Group" screen (app/create_group.tsx): its member-selection
    map, its derived "all selected" flag and count, and the validation that
    runs before the group is posted. */
module CreateGroup {
  import opened Wrappers
  import JsStrings

  datatype User = User(id: string, username: string)

  /** The ids of the fetched users. */
  function Ids(users: seq<User>): set<string> {
    set i | 0 <= i < |users| :: users[i].id
  }

  /** The selection object: user id to checked. */
  type Selection = map<string, bool>

  // ---------------------------------------------------------------------------
  // The selection map
  // ---------------------------------------------------------------------------

  /** Every fetched user's entry set to `value` (the shape built after the
      fetch, with `false`, and by "Select All"). */
  function Uniform(users: seq<User>, value: bool): (m: Selection)
    ensures m.Keys == Ids(users)
    ensures forall id :: id in m ==> m[id] == value
  {
    if users == [] then map[]
    else
      var init := users[..|users| - 1];
      assert Ids(users) == Ids(init) + {users[|users| - 1].id} by {
        assert forall i :: 0 <= i < |init| ==> init[i] == users[i];
      }
      Uniform(init, value)[users[|users| - 1].id := value]
  }

  /** `toggleSelectAll`'s `reduce`, which writes into one accumulator object
      user by user. */
  method BuildSelection(users: seq<User>, value: bool) returns (acc: Selection)
    ensures acc == Uniform(users, value)
  {
    acc := map[];
    var i := 0;
    while i < |users|
      invariant 0 <= i <= |users|
      invariant acc == Uniform(users[..i], value)
    {
      assert users[..i + 1][..i] == users[..i];
      acc := acc[users[i].id := value];
      i := i + 1;
    }
    assert users[..i] == users;
  }

  /** `toggleCheckbox`'s new state: the one entry negated (an absent entry
      reads as unchecked, so it becomes checked), every other entry kept. */
  function Toggle(m: Selection, id: string): (r: Selection)
    ensures r.Keys == m.Keys + {id}
    ensures r[id] == !(id in m && m[id])
    ensures forall k :: k in m && k != id ==> r[k] == m[k]
  {
    m[id := !(id in m && m[id])]
  }

  /** `Object.values(m).every(v => v)`; vacuously true of the empty map. */
  predicate AllSelected(m: Selection) {
    forall id :: id in m ==> m[id]
  }

  /** The keys whose entry is checked. */
  function SelectedIds(m: Selection): (ids: set<string>)
    ensures ids <= m.Keys
    ensures forall id :: id in ids <==> id in m && m[id]
  {
    set id | id in m && m[id]
  }

  /** A subset is no larger, and a proper subset is smaller. */
  lemma {:induction false} SubsetSize(a: set<string>, b: set<string>)
    requires a <= b
    ensures |a| <= |b|
    ensures a < b ==> |a| < |b|
  {
    if b != {} {
      var x :| x in b;
      SubsetSize(a - {x}, b - {x});
      if a < b && x in a {
        assert a - {x} < b - {x};
      }
    }
  }

  /** `selectedUserCount`: how many entries are checked. */
  function SelectedCount(m: Selection): (n: nat)
    ensures n <= |m|
  {
    SubsetSize(SelectedIds(m), m.Keys);
    |SelectedIds(m)|
  }

  /** "All selected" is "every entry is counted". */
  lemma AllSelectedIffCountIsSize(m: Selection)
    ensures AllSelected(m) <==> SelectedCount(m) == |m|
  {
    var ids := SelectedIds(m);
    if AllSelected(m) {
      assert ids == m.Keys;
    } else {
      var id :| id in m && !m[id];
      assert ids < m.Keys;
      SubsetSize(ids, m.Keys);
    }
  }

  /** Toggling an entry twice puts it back. */
  lemma ToggleTwice(m: Selection, id: string)
    requires id in m
    ensures Toggle(Toggle(m, id), id) == m
  {
  }

  /** Each toggle moves the count by exactly one. */
  lemma ToggleMovesCountByOne(m: Selection, id: string)
    ensures id in m && m[id] ==> SelectedCount(Toggle(m, id)) + 1 == SelectedCount(m)
    ensures !(id in m && m[id]) ==> SelectedCount(Toggle(m, id)) == SelectedCount(m) + 1
  {
    var before, after := SelectedIds(m), SelectedIds(Toggle(m, id));
    if id in m && m[id] {
      assert after == before - {id};
    } else {
      assert after == before + {id};
    }
  }

  /** After "Select All" over a non-empty user list, the flag and the map
      agree, and the count is every user or nobody. */
  lemma SelectAllAgrees(users: seq<User>, value: bool)
    ensures users != [] ==> (AllSelected(Uniform(users, value)) <==> value)
    ensures SelectedCount(Uniform(users, value)) == if value then |Ids(users)| else 0
  {
    var m := Uniform(users, value);
    if users != [] {
      assert users[0].id in m;
    }
    if value {
      assert SelectedIds(m) == Ids(users);
    } else {
      assert SelectedIds(m) == {};
    }
  }

  // ---------------------------------------------------------------------------
  // Validation
  // ---------------------------------------------------------------------------

  /** What `createGroup` posts: the name as typed and the checked ids (their
      order in the JSON array is not modelled). */
  datatype Payload = Payload(groupName: string, userIds: set<string>)

  datatype Validation = EmptyName | NoSelection | Ready(payload: Payload)

  /** The checks of `createGroup`, in their order: a name that trims to
      nothing first, then an empty selection. */
  function Validate(groupName: string, selected: Selection): (v: Validation)
    ensures v == EmptyName <==> JsStrings.Trim(groupName) == []
    ensures v == NoSelection <==> JsStrings.Trim(groupName) != [] && SelectedCount(selected) == 0
    ensures v.Ready? ==> v.payload.groupName == groupName && v.payload.userIds == SelectedIds(selected)
  {
    if JsStrings.Trim(groupName) == [] then EmptyName
    else if SelectedIds(selected) == {} then NoSelection
    else Ready(Payload(groupName, SelectedIds(selected)))
  }

  /** A group is posted only with a name that is not blank and with at least
      one member, every one of them checked. */
  lemma ReadyMeansNamedAndPopulated(groupName: string, selected: Selection)
    requires Validate(groupName, selected).Ready?
    ensures !JsStrings.IsBlank(groupName)
    ensures Validate(groupName, selected).payload.userIds != {}
    ensures forall id :: id in Validate(groupName, selected).payload.userIds ==> id in selected && selected[id]
  {
    JsStrings.TrimShape(groupName);
  }

  // ---------------------------------------------------------------------------
  // The screen
  // ---------------------------------------------------------------------------

  /** What the "New Group" button leads to. */
  datatype Outcome = Rejected(reason: Validation) | PostFailed | Created(payload: Payload)

  class CreateGroupScreen {
    var users: seq<User>
    var loading: bool
    var selected: Selection
    var groupName: string
    var selectAll: bool

    constructor ()
      ensures users == [] && loading && selected == map[] && groupName == [] && !selectAll
    {
      users := [];
      loading := true;
      selected := map[];
      groupName := [];
      selectAll := false;
    }

    /** The end of `fetchUsers`: on success the users and an all-unchecked
        map over their ids; loading ends either way. */
    method FinishFetch(fetched: Option<seq<User>>)
      modifies this`users, this`selected, this`loading
      ensures !loading
      ensures fetched.Some? ==> users == fetched.value && selected == Uniform(fetched.value, false)
      ensures fetched.None? ==> users == old(users) && selected == old(selected)
    {
      if fetched.Some? {
        users := fetched.value;
        selected := Uniform(fetched.value, false);
      }
      loading := false;
    }

    method EditGroupName(text: string)
      modifies this`groupName
      ensures groupName == text
    {
      groupName := text;
    }

    /** `toggleCheckbox`. */
    method ToggleCheckbox(id: string)
      modifies this`selected, this`selectAll
      ensures selected == Toggle(old(selected), id)
      ensures selectAll <==> AllSelected(selected)
    {
      selected := Toggle(selected, id);
      selectAll := AllSelected(selected);
    }

    /** `toggleSelectAll`. */
    method ToggleSelectAll()
      modifies this`selected, this`selectAll
      ensures selected.Keys == Ids(users)
      ensures forall id :: id in selected ==> selected[id] == !old(selectAll)
      ensures selectAll == !old(selectAll)
    {
      selected := BuildSelection(users, !selectAll);
      selectAll := !selectAll;
    }

    /** `selectedUserCount`. */
    function SelectedUserCount(): (n: nat)
      reads this
      ensures n <= |selected|
    {
      SelectedCount(selected)
    }

    /** `createGroup`, with the POST's success as an input: rejected input
        changes nothing; a successful post resets the name, the map and the
        flag; a failed one keeps them. */
    method CreateGroup(postOk: bool) returns (outcome: Outcome)
      modifies this`groupName, this`selected, this`selectAll
      ensures !Validate(old(groupName), old(selected)).Ready? ==>
        outcome == Rejected(Validate(old(groupName), old(selected))) &&
        groupName == old(groupName) && selected == old(selected) && selectAll == old(selectAll)
      ensures Validate(old(groupName), old(selected)).Ready? && postOk ==>
        outcome == Created(Validate(old(groupName), old(selected)).payload) &&
        groupName == [] && selected == map[] && !selectAll
      ensures Validate(old(groupName), old(selected)).Ready? && !postOk ==>
        outcome == PostFailed &&
        groupName == old(groupName) && selected == old(selected) && selectAll == old(selectAll)
    {
      var v := Validate(groupName, selected);
      if !v.Ready? {
        return Rejected(v);
      }
      if !postOk {
        return PostFailed;
      }
      groupName := [];
      selected := map[];
      selectAll := false;
      outcome := Created(v.payload);
    }
  }

  /** "Select All" pressed while the users are still loading, then a fetch
      that returns at least one user: the toggle ran over the empty list, and
      the fetch writes every entry unchecked without touching the flag, so the
      flag claims everyone is selected while nobody is. */
  method SelectAllBeforeFetch(fetched: seq<User>) returns (screen: CreateGroupScreen)
    requires fetched != []
    ensures screen.selectAll
    ensures screen.selected.Keys == Ids(fetched) && SelectedCount(screen.selected) == 0
    ensures !AllSelected(screen.selected)
  {
    screen := new CreateGroupScreen();
    screen.ToggleSelectAll();
    screen.FinishFetch(Some(fetched));
    SelectAllAgrees(fetched, false);
  }
}
