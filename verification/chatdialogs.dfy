/** The two small dialogs of app/chat/page.tsx that validate a user before
    acting: starting a direct chat (`startNewChat`) and adding a member to
    the open group (`handleAddMember`). Profile lookups and inserts are
    inputs. */
module ChatDialogs {
  import opened Wrappers
  import opened Text
  import opened Messages

  /** The outcome of `startNewChat`: an error shown in the dialog, or the
      chat with that user opened (selected, dialog closed, search cleared,
      messages loaded). */
  datatype NewChat = SearchFailed(error: string) | OpenChat(chat: string)

  const UserNotFound := "User not found"
  const NoSelfChat := "You can't chat with yourself!"

  /** `startNewChat`, given the answer to the profile lookup by email. A
      failed or empty lookup reports the user as not found; the user's own
      profile is refused; any other profile opens a chat with it. */
  function StartNewChat(me: Option<string>, lookup: Response<Option<Profile>>): (r: NewChat)
    ensures r.OpenChat? <==> lookup.Ok? && lookup.value.Some? && me != Some(lookup.value.value.id)
    ensures r.OpenChat? ==> r.chat == lookup.value.value.id
    ensures r.SearchFailed? ==>
      (r.error == NoSelfChat <==> lookup.Ok? && lookup.value.Some? && me == Some(lookup.value.value.id))
    ensures r.SearchFailed? ==> r.error == UserNotFound || r.error == NoSelfChat
  {
    match lookup
    case Err(_) => SearchFailed(UserNotFound)
    case Ok(None) => SearchFailed(UserNotFound)
    case Ok(Some(profile)) =>
      if me == Some(profile.id) then SearchFailed(NoSelfChat) else OpenChat(profile.id)
  }

  /** What one press of "Add Member" does: whether anything happened at
      all, the insert it issued, the message it shows, the email field
      afterwards, and whether the member list is fetched again. */
  datatype AddMember = AddMember(acted: bool, insert: Option<MemberRow>, message: string, email: string, refetch: bool)

  const AlreadyMember := "User is already a member"
  const MemberAdded := "Member added successfully!"

  /** `handleAddMember`. With no open chat or a blank email nothing happens.
      A failed or empty lookup reports the user as not found; a user already
      in `members` is refused without a write; otherwise one membership row
      for the open group is inserted, and on success the list is fetched
      again and the field cleared, while a failure shows the error's own
      message. */
  function AddMemberPress(chat: Option<string>, email: string, members: seq<string>,
                          lookup: Response<Option<Profile>>, write: WriteResult): (r: AddMember)
    ensures chat.None? || Blank(email) ==> !r.acted && r.insert.None? && r.email == email
    ensures chat.Some? && !Blank(email) ==> r.acted
    ensures chat.Some? && !Blank(email) && !(lookup.Ok? && lookup.value.Some?) ==>
      r.insert.None? && r.message == UserNotFound && r.email == email
    ensures chat.Some? && !Blank(email) && lookup.Ok? && lookup.value.Some? && lookup.value.value.id in members ==>
      r.insert.None? && r.message == AlreadyMember && r.email == email
    ensures r.insert.Some? ==>
      && chat.Some? && lookup.Ok? && lookup.value.Some?
      && r.insert.value == MemberRow(chat.value, lookup.value.value.id)
      && r.insert.value.userId !in members
    ensures chat.Some? && !Blank(email) && lookup.Ok? && lookup.value.Some? ==>
      (r.insert.Some? <==> lookup.value.value.id !in members)
    ensures r.acted && r.insert.None? ==> r.message == UserNotFound || r.message == AlreadyMember
    ensures r.refetch <==> r.insert.Some? && write == Done
    ensures r.refetch ==> r.email == "" && r.message == MemberAdded
    ensures r.insert.Some? && write.Failed? ==> r.message == write.message && r.email == email
  {
    TrimEmptyIffBlank(email);
    if chat.None? || Trim(email) == "" then AddMember(false, None, "", email, false)
    else
      match lookup
      case Err(_) => AddMember(true, None, UserNotFound, email, false)
      case Ok(None) => AddMember(true, None, UserNotFound, email, false)
      case Ok(Some(user)) =>
        if user.id in members then AddMember(true, None, AlreadyMember, email, false)
        else
          var row := MemberRow(chat.value, user.id);
          match write
          case Done => AddMember(true, Some(row), MemberAdded, "", true)
          case Failed(message) => AddMember(true, Some(row), message, email, false)
  }
}
