/** `handleSend` (app/chat/page.tsx): the draft is trimmed and cleared, a
    per-send token is recorded while the insert is in flight, and the
    confirmed row joins the list through the duplicate guard. The token is
    `temp-${Date.now()}` in the client, a new value on every call, so the
    in-flight test can only catch two sends in the same millisecond; what
    stops a second click is mostly the cleared draft, which makes the next
    call return at the blank-text test. Here the token is a parameter. The
    5000 ms delayed delete is the explicit step `Expire`. */
module SendGuard {
  import opened Wrappers
  import opened Text
  import opened Messages
  import opened Directory

  /** The row the client asks the store to insert. */
  datatype Insert = Insert(content: string, senderId: string, target: Target)

  /** What `handleSend` reads and writes: the draft text, the in-flight
      token set `sentMessageIds`, the tokens whose delayed delete is
      scheduled, and the message list. */
  datatype Sender = Sender(draft: string, inFlight: set<string>, expiring: set<string>, messages: seq<Message>)

  /** The state once the insert has been issued (or not), and the insert. */
  datatype Begun = Begun(state: Sender, request: Option<Insert>)

  /** The table the send goes to: `messages` when the open chat is listed as
      direct, `group_messages` otherwise, including when it is not listed. */
  function TargetFor(chats: seq<ChatSummary>, chat: string): (t: Target)
    ensures t == ToUser(chat) <==> (Find(chats, chat).Some? && Find(chats, chat).value.kind == Direct)
    ensures t.ToUser? || t == ToGroup(chat)
  {
    match Find(chats, chat)
    case Some(c) => if c.kind == Direct then ToUser(chat) else ToGroup(chat)
    case None => ToGroup(chat)
  }

  /** The synchronous part of `handleSend`, up to issuing the insert. Blank
      text or a missing chat or user changes nothing. Otherwise the draft is
      cleared; a token already in flight stops there, and a fresh one is
      recorded and an insert of the trimmed text is issued. */
  function BeginSend(s: Sender, chat: Option<string>, me: Option<string>, chats: seq<ChatSummary>, token: string): (r: Begun)
    ensures Blank(s.draft) || chat.None? || me.None? ==> r == Begun(s, None)
    ensures !Blank(s.draft) && chat.Some? && me.Some? ==>
      && r.state.draft == ""
      && r.state.messages == s.messages
      && r.state.expiring == s.expiring
      && (token in s.inFlight ==> r.request.None? && r.state.inFlight == s.inFlight)
      && (token !in s.inFlight ==> r.state.inFlight == s.inFlight + {token} && r.request.Some?)
    ensures r.request.Some? ==>
      && r.request.value.content == Trim(s.draft)
      && r.request.value.content != ""
      && !IsSpace(r.request.value.content[0])
      && r.request.value.senderId == me.value
      && r.request.value.target == TargetFor(chats, chat.value)
      && token in r.state.inFlight
  {
    TrimEmptyIffBlank(s.draft);
    if Trim(s.draft) == "" || chat.None? || me.None? then
      Begun(s, None)
    else
      var content := Trim(s.draft);
      var cleared := s.(draft := "");
      if token in s.inFlight then
        Begun(cleared, None)
      else
        Begun(cleared.(inFlight := s.inFlight + {token}),
              Some(Insert(content, me.value, TargetFor(chats, chat.value))))
  }

  /** The insert's answer. An error drops the token at once and adds
      nothing; the confirmed row is merged through the duplicate guard and
      its token is left in place until the delayed delete fires. */
  function FinishSend(s: Sender, token: string, response: Response<Message>): (r: Sender)
    ensures r.draft == s.draft
    ensures response.Err? ==>
      r.inFlight == s.inFlight - {token} && r.messages == s.messages && r.expiring == s.expiring
    ensures response.Ok? ==>
      r.inFlight == s.inFlight && r.expiring == s.expiring + {token} && r.messages == Absorb(s.messages, response.value)
    ensures response.Ok? ==> HasId(r.messages, response.value.id)
    ensures UniqueIds(s.messages) ==> UniqueIds(r.messages)
  {
    match response
    case Err(_) => s.(inFlight := s.inFlight - {token})
    case Ok(m) => s.(messages := Absorb(s.messages, m), expiring := s.expiring + {token})
  }

  /** The delayed delete: five seconds after a confirmed send its token
      leaves the in-flight set. */
  function Expire(s: Sender, token: string): (r: Sender)
    ensures token !in r.inFlight && token !in r.expiring
    ensures r.expiring == s.expiring - {token}
    ensures r.inFlight - {token} == s.inFlight - {token}
    ensures r.draft == s.draft && r.messages == s.messages
  {
    s.(inFlight := s.inFlight - {token}, expiring := s.expiring - {token})
  }

  /** The token's whole life: it is in the set while the insert is
      outstanding; a failed insert removes it and leaves the list alone; a
      confirmed insert adds the row once and the delayed delete removes the
      token. Other tokens are untouched throughout. */
  lemma TokenLifecycle(s: Sender, chat: string, me: string, chats: seq<ChatSummary>, token: string,
                       failure: string, confirmed: Message)
    requires !Blank(s.draft) && token !in s.inFlight
    ensures var b := BeginSend(s, Some(chat), Some(me), chats, token);
      b.request.Some? && token in b.state.inFlight
    ensures var failed := FinishSend(BeginSend(s, Some(chat), Some(me), chats, token).state, token, Err(failure));
      token !in failed.inFlight && failed.inFlight == s.inFlight && failed.messages == s.messages
    ensures var confirmedState := FinishSend(BeginSend(s, Some(chat), Some(me), chats, token).state, token, Ok(confirmed));
      token in confirmedState.inFlight && confirmedState.messages == Absorb(s.messages, confirmed)
    ensures var done := Expire(FinishSend(BeginSend(s, Some(chat), Some(me), chats, token).state, token, Ok(confirmed)), token);
      token !in done.inFlight && done.inFlight == s.inFlight && done.messages == Absorb(s.messages, confirmed)
  {
  }

  /** A second submit with the same token while the first is outstanding
      issues no insert and leaves the set as it was. Two clicks do not
      produce this premise unless they fall in the same millisecond: each
      call makes a new token, and the second click usually finds the draft
      already cleared (see `SecondClickFindsBlankDraft`). */
  lemma DoubleSubmitIgnored(s: Sender, chat: string, me: string, chats: seq<ChatSummary>, token: string, again: string)
    requires !Blank(s.draft) && token !in s.inFlight && !Blank(again)
    ensures var first := BeginSend(s, Some(chat), Some(me), chats, token);
      var second := BeginSend(first.state.(draft := again), Some(chat), Some(me), chats, token);
      second.request.None? && second.state.inFlight == first.state.inFlight
  {
  }

  /** After a send begins the draft is empty, so pressing send again before
      typing anything is a no-op whatever token it would use. */
  lemma SecondClickFindsBlankDraft(s: Sender, chat: Option<string>, me: Option<string>,
                                   chats: seq<ChatSummary>, token: string, token': string)
    requires !Blank(s.draft) && chat.Some? && me.Some?
    ensures var first := BeginSend(s, chat, me, chats, token);
      var second := BeginSend(first.state, chat, me, chats, token');
      second.state == first.state && second.request.None?
  {
  }
}
