/** The "Create New Group" dialog (components/CreateGroupDialog.tsx): the
    user search, the input check, and the three writes of
    `handleCreateGroup` (group, memberships, seed message) with their
    answers as inputs. */
module GroupCreation {
  import opened Wrappers
  import opened Text
  import opened Messages

  /** The dialog's state. */
  datatype Form = Form(name: string, selected: seq<Profile>, available: seq<Profile>, error: string, loading: bool)

  /** The `groups` row inserted first. */
  datatype GroupInsert = GroupInsert(name: string, createdBy: string)

  /** The `group_messages` row that seeds the new group. */
  datatype SeedMessage = SeedMessage(groupId: string, senderId: string, content: string)

  /** What creation does outside the form, in order: the writes issued and
      the callbacks called. */
  datatype Effect =
    | InsertGroup(group: GroupInsert)
    | InsertMembers(rows: seq<MemberRow>)
    | InsertSeed(seed: SeedMessage)
    | NotifyCreated
    | CloseDialog

  datatype Outcome = Outcome(form: Form, effects: seq<Effect>)

  const MissingInput := "Please enter a group name and select at least one user"
  const CreateFailed := "Failed to create group. Please try again."
  const NoGroupData := "No group data returned"
  const SeedContent := "Group created"
  const SearchFailed := "Failed to search users"

  /** `err.message || fallback`. */
  function ErrorText(message: string): (text: string)
    ensures text != ""
    ensures message != "" ==> text == message
    ensures message == "" ==> text == CreateFailed
  {
    if message != "" then message else CreateFailed
  }

  /** `selectedUsers.map(user => ({ group_id, user_id: user.id }))`. */
  function SelectedRows(groupId: string, users: seq<Profile>): (rows: seq<MemberRow>)
    ensures |rows| == |users|
    ensures forall k :: 0 <= k < |users| ==> rows[k] == MemberRow(groupId, users[k].id)
    decreases |users|
  {
    if users == [] then []
    else
      var rest := SelectedRows(groupId, users[1..]);
      assert forall k :: 1 <= k < |users| ==> users[k] == users[1..][k - 1];
      [MemberRow(groupId, users[0].id)] + rest
  }

  /** The membership rows: the creator first, then every selected user in
      selection order, all for the new group. */
  function MemberRows(groupId: string, creator: string, selected: seq<Profile>): (rows: seq<MemberRow>)
    ensures |rows| == 1 + |selected|
    ensures rows[0] == MemberRow(groupId, creator)
    ensures forall k :: 0 <= k < |selected| ==> rows[k + 1] == MemberRow(groupId, selected[k].id)
    ensures forall k :: 0 <= k < |rows| ==> rows[k].groupId == groupId
  {
    [MemberRow(groupId, creator)] + SelectedRows(groupId, selected)
  }

  /** Everything a fully successful creation does, in order. */
  function FullPlan(name: string, me: string, groupId: string, selected: seq<Profile>): seq<Effect> {
    [ InsertGroup(GroupInsert(Trim(name), me)),
      InsertMembers(MemberRows(groupId, me, selected)),
      InsertSeed(SeedMessage(groupId, me, SeedContent)),
      NotifyCreated,
      CloseDialog ]
  }

  /** `handleCreateGroup`. `group` is the answer to the group insert (`None`
      when it returned no row), `members` and `seed` those of the two later
      writes; an answer is only read when its write is reached. Missing
      input sets the fixed message and writes nothing; otherwise the group
      row with the trimmed name and the creator is written first and
      `loading` is clear again at the end. */
  function CreateGroup(form: Form, me: string, group: Response<Option<string>>,
                       members: WriteResult, seed: WriteResult): (r: Outcome)
    ensures Blank(form.name) || form.selected == [] ==>
      r.form == form.(error := MissingInput) && r.effects == []
    ensures !Blank(form.name) && form.selected != [] ==>
      && r.effects != []
      && r.effects[0] == InsertGroup(GroupInsert(Trim(form.name), me))
      && !r.form.loading
      && r.form.available == form.available
  {
    TrimEmptyIffBlank(form.name);
    if Trim(form.name) == "" || form.selected == [] then
      Outcome(form.(error := MissingInput), [])
    else
      var started := form.(loading := true, error := "");
      var insertGroup := InsertGroup(GroupInsert(Trim(form.name), me));
      match group
      case Err(message) => Outcome(started.(error := ErrorText(message), loading := false), [insertGroup])
      case Ok(None) => Outcome(started.(error := ErrorText(NoGroupData), loading := false), [insertGroup])
      case Ok(Some(groupId)) =>
        var insertMembers := InsertMembers(MemberRows(groupId, me, form.selected));
        var insertSeed := InsertSeed(SeedMessage(groupId, me, SeedContent));
        match members
        case Failed(message) =>
          Outcome(started.(error := ErrorText(message), loading := false), [insertGroup, insertMembers])
        case Done =>
          match seed
          case Failed(message) =>
            Outcome(started.(error := ErrorText(message), loading := false), [insertGroup, insertMembers, insertSeed])
          case Done =>
            Outcome(started.(name := "", selected := [], loading := false),
                    [insertGroup, insertMembers, insertSeed, NotifyCreated, CloseDialog])
  }

  /** When all three writes succeed, creation issues the full plan in order
      (group, members, seed message "Group created"), then notifies the
      page and closes the dialog, and the form is reset with no error. */
  lemma CreateGroupSuccess(form: Form, me: string, groupId: string)
    requires !Blank(form.name) && form.selected != []
    ensures var r := CreateGroup(form, me, Ok(Some(groupId)), Done, Done);
      && r.effects == FullPlan(form.name, me, groupId, form.selected)
      && r.form == form.(name := "", selected := [], error := "", loading := false)
  {
    TrimEmptyIffBlank(form.name);
  }

  /** What every failed creation has in common: no callback runs, the
      name and selection are kept for another try, `loading` is clear and an
      error is shown. */
  predicate FailedAttempt(form: Form, r: Outcome) {
    && NotifyCreated !in r.effects && CloseDialog !in r.effects
    && r.form == form.(error := r.form.error, loading := false)
    && r.form.error != ""
  }

  /** A failed group insert stops before the membership and seed writes; the
      error is the failure's message or the fallback text. */
  lemma CreateGroupInsertFails(form: Form, me: string, message: string,
                               members: WriteResult, seed: WriteResult)
    requires !Blank(form.name) && form.selected != []
    ensures var r := CreateGroup(form, me, Err(message), members, seed);
      && FailedAttempt(form, r)
      && r.effects == [InsertGroup(GroupInsert(Trim(form.name), me))]
      && r.form.error == ErrorText(message)
  {
    TrimEmptyIffBlank(form.name);
    var r := CreateGroup(form, me, Err(message), members, seed);
    var effects := [InsertGroup(GroupInsert(Trim(form.name), me))];
    assert r == Outcome(form.(error := ErrorText(message), loading := false), effects);
    assert NotifyCreated !in effects && CloseDialog !in effects;
  }

  /** A group insert that returns no row is reported as "No group data
      returned" and stops there too. */
  lemma CreateGroupNoRow(form: Form, me: string, members: WriteResult, seed: WriteResult)
    requires !Blank(form.name) && form.selected != []
    ensures var r := CreateGroup(form, me, Ok(None), members, seed);
      && FailedAttempt(form, r)
      && r.effects == [InsertGroup(GroupInsert(Trim(form.name), me))]
      && r.form.error == NoGroupData
  {
    TrimEmptyIffBlank(form.name);
    var r := CreateGroup(form, me, Ok(None), members, seed);
    var effects := [InsertGroup(GroupInsert(Trim(form.name), me))];
    assert r == Outcome(form.(error := NoGroupData, loading := false), effects);
    assert NotifyCreated !in effects && CloseDialog !in effects;
  }

  /** A failed membership insert stops before the seed message; the group
      row already written stays. */
  lemma CreateMembersFail(form: Form, me: string, groupId: string, message: string, seed: WriteResult)
    requires !Blank(form.name) && form.selected != []
    ensures var r := CreateGroup(form, me, Ok(Some(groupId)), Failed(message), seed);
      && FailedAttempt(form, r)
      && r.effects == [InsertGroup(GroupInsert(Trim(form.name), me)),
                       InsertMembers(MemberRows(groupId, me, form.selected))]
      && r.form.error == ErrorText(message)
  {
    TrimEmptyIffBlank(form.name);
    var r := CreateGroup(form, me, Ok(Some(groupId)), Failed(message), seed);
    var effects := [InsertGroup(GroupInsert(Trim(form.name), me)), InsertMembers(MemberRows(groupId, me, form.selected))];
    assert r == Outcome(form.(error := ErrorText(message), loading := false), effects);
    assert NotifyCreated !in effects && CloseDialog !in effects;
  }

  /** A failed seed message comes after both earlier writes and still
      skips both callbacks. */
  lemma CreateSeedFails(form: Form, me: string, groupId: string, message: string)
    requires !Blank(form.name) && form.selected != []
    ensures var r := CreateGroup(form, me, Ok(Some(groupId)), Done, Failed(message));
      && FailedAttempt(form, r)
      && r.effects == [InsertGroup(GroupInsert(Trim(form.name), me)),
                       InsertMembers(MemberRows(groupId, me, form.selected)),
                       InsertSeed(SeedMessage(groupId, me, SeedContent))]
      && r.form.error == ErrorText(message)
  {
    TrimEmptyIffBlank(form.name);
    var r := CreateGroup(form, me, Ok(Some(groupId)), Done, Failed(message));
    var effects := [InsertGroup(GroupInsert(Trim(form.name), me)), InsertMembers(MemberRows(groupId, me, form.selected)), InsertSeed(SeedMessage(groupId, me, SeedContent))];
    assert r == Outcome(form.(error := ErrorText(message), loading := false), effects);
    assert NotifyCreated !in effects && CloseDialog !in effects;
  }

  /** The outcome of `searchUsers`: the form afterwards and whether the
      store was asked at all. */
  datatype Search = Search(form: Form, queried: bool)

  /** `searchUsers`: a term shorter than two characters is ignored; otherwise
      the answer replaces the offered users, an empty answer leaves them,
      and a failure shows an error. */
  function SearchUsers(form: Form, term: string, answer: Response<Option<seq<Profile>>>): (r: Search)
    ensures |term| < 2 <==> !r.queried
    ensures !r.queried ==> r.form == form
    ensures r.form.selected == form.selected && r.form.name == form.name
    ensures r.queried && answer.Err? ==> r.form == form.(error := SearchFailed)
    ensures r.queried && answer.Ok? && answer.value.Some? ==> r.form == form.(available := answer.value.value)
    ensures r.queried && answer == Ok(None) ==> r.form == form
  {
    if |term| < 2 then Search(form, false)
    else
      match answer
      case Err(_) => Search(form.(error := SearchFailed), true)
      case Ok(Some(users)) => Search(form.(available := users), true)
      case Ok(None) => Search(form, true)
  }
}
