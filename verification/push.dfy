/** The live-feed handlers registered in `setupRealtimeSubscription`
    (app/chat/page.tsx): each INSERT event on `messages` or `group_messages`
    is kept only if it belongs to the open chat, then merged into the list. */
module Push {
  import opened Wrappers
  import opened Messages

  /** Whether an inserted row belongs to the chat `chat` that user `me` has
      open. A direct row belongs when it travels between the two of them in
      either direction; a group row when it was posted to that group. The
      test depends on the row's table, not on the open chat's kind: both
      handlers are registered for every chat. */
  function Relevant(me: string, chat: string, m: Message): (b: bool)
    ensures b && m.target.ToUser? ==> m.senderId == me || m.target.receiverId == me
    ensures b && m.target.ToUser? ==> m.senderId == chat || m.target.receiverId == chat
    ensures b && m.target.ToGroup? ==> m.target.groupId == chat
  {
    match m.target
    case ToUser(receiver) =>
      (m.senderId == me && receiver == chat) || (m.senderId == chat && receiver == me)
    case ToGroup(group) =>
      group == chat
  }

  /** One push delivery: `event` is the inserted row and `fetched` the
      sender profile the handler looked up before merging (missing when
      that lookup returned nothing). A row for another chat leaves the list
      as it is; a row for this chat is merged by the duplicate guard, with
      the fetched profile attached. */
  function OnPush(list: seq<Message>, me: string, chat: string, event: Message, fetched: Option<Profile>): (r: seq<Message>)
    ensures !Relevant(me, chat, event) ==> r == list
    ensures Relevant(me, chat, event) && HasId(list, event.id) ==> r == list
    ensures Relevant(me, chat, event) && !HasId(list, event.id) ==>
      r == list + [event.(sender := fetched)]
    ensures UniqueIds(list) ==> UniqueIds(r)
  {
    if Relevant(me, chat, event) then Absorb(list, event.(sender := fetched)) else list
  }

  /** A direct message between two people is relevant to each of them,
      each viewing the chat with the other. */
  lemma DirectRelevantToBothSides(me: string, other: string, m: Message)
    requires m.target.ToUser?
    ensures Relevant(me, other, m) <==> Relevant(other, me, m)
  {
  }

  /** A direct row is relevant exactly when it travels between `me` and
      `chat`, in either direction; a group row exactly when it names the
      open group. */
  lemma RelevantIff(me: string, chat: string, m: Message)
    ensures m.target.ToUser? ==>
      (Relevant(me, chat, m) <==> {m.senderId, m.target.receiverId} == {me, chat})
    ensures m.target.ToGroup? ==> (Relevant(me, chat, m) <==> m.target.groupId == chat)
  {
    if m.target.ToUser? && {m.senderId, m.target.receiverId} == {me, chat} {
      assert m.senderId in {me, chat} && me in {m.senderId, m.target.receiverId};
    }
  }

  /** The same event delivered twice is merged once. */
  lemma OnPushIdempotent(list: seq<Message>, me: string, chat: string, event: Message, fetched: Option<Profile>)
    ensures OnPush(OnPush(list, me, chat, event, fetched), me, chat, event, fetched)
      == OnPush(list, me, chat, event, fetched)
  {
    AbsorbIdempotent(list, event.(sender := fetched));
  }
}
