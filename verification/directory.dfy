/** The conversation list built by `fetchChats` (app/chat/page.tsx): one
    summary per direct-chat counterpart, taken from the user's messages
    newest first, one per group membership, and the whole list sorted by
    the last message's timestamp, newest first. */
module Directory {
  import opened Wrappers
  import opened Text
  import opened Messages

  datatype ChatKind = Direct | Group

  /** The part of a chat's last message the list uses. */
  datatype Preview = Preview(id: string, content: string, createdAt: string)

  /** One entry of the conversation list (`ChatType`). */
  datatype ChatSummary = ChatSummary(id: string, kind: ChatKind, name: string, lastMessage: Option<Preview>)

  /** A `messages` row with both participants' profiles joined; a join that
      found no profile is missing. */
  datatype DirectRow = DirectRow(
    id: string,
    content: string,
    senderId: string,
    receiverId: string,
    createdAt: string,
    sender: Option<Profile>,
    receiver: Option<Profile>)

  /** A group with its embedded messages, in the order the store returned
      them. */
  datatype GroupRow = GroupRow(id: string, name: string, messages: seq<Preview>)

  /** A `group_members` row with its joined group, missing when the join
      found none. */
  datatype Membership = Membership(group: Option<GroupRow>)

  /** The other participant of a direct row: the receiver when `me` sent
      it, the sender otherwise. */
  function Counterpart(me: string, row: DirectRow): (other: string)
    ensures me == row.senderId || me == row.receiverId ==>
      multiset{me, other} == multiset{row.senderId, row.receiverId}
    ensures me != row.senderId ==> other == row.senderId
  {
    if row.senderId == me then row.receiverId else row.senderId
  }

  function CounterpartProfile(me: string, row: DirectRow): Option<Profile> {
    if row.senderId == me then row.receiver else row.sender
  }

  /** A row opens a chat only when its counterpart's profile was joined. */
  predicate Eligible(me: string, row: DirectRow) {
    CounterpartProfile(me, row).Some?
  }

  /** `username || email`: the username unless it is missing or empty. */
  function DisplayName(p: Profile): (name: string)
    ensures p.username.Some? && p.username.value != "" ==> name == p.username.value
    ensures p.username.None? || p.username.value == "" ==> name == p.email
  {
    match p.username
    case Some(u) => if u != "" then u else p.email
    case None => p.email
  }

  /** The summary a row opens: a direct chat named after the counterpart,
      with the row as its last message. */
  function Summarize(me: string, row: DirectRow): (c: ChatSummary)
    requires Eligible(me, row)
    ensures c.kind == Direct && c.id == Counterpart(me, row)
    ensures c.name == DisplayName(CounterpartProfile(me, row).value)
    ensures c.lastMessage == Some(Preview(row.id, row.content, row.createdAt))
  {
    ChatSummary(
      Counterpart(me, row), Direct, DisplayName(CounterpartProfile(me, row).value),
      Some(Preview(row.id, row.content, row.createdAt)))
  }

  predicate HasChat(chats: seq<ChatSummary>, id: string) {
    exists k :: 0 <= k < |chats| && chats[k].id == id
  }

  /** `chats.find(chat => chat.id === id)`: the first entry with that
      identifier, if any. */
  function Find(chats: seq<ChatSummary>, id: string): (r: Option<ChatSummary>)
    ensures r.None? <==> !HasChat(chats, id)
    ensures r.Some? ==> r.value.id == id
    ensures r.Some? ==>
      exists k :: 0 <= k < |chats| && chats[k] == r.value && forall j :: 0 <= j < k ==> chats[j].id != id
    decreases |chats|
  {
    if chats == [] then None
    else if chats[0].id == id then
      Some(chats[0])
    else
      var r := Find(chats[1..], id);
      assert forall k :: 1 <= k < |chats| ==> chats[k] == chats[1..][k - 1];
      assert HasChat(chats, id) ==> HasChat(chats[1..], id) by {
        if HasChat(chats, id) {
          var k :| 0 <= k < |chats| && chats[k].id == id;
          assert chats[1..][k - 1].id == id;
        }
      }
      if r.Some? then
        var k :| 0 <= k < |chats[1..]| && chats[1..][k] == r.value && forall j :: 0 <= j < k ==> chats[1..][j].id != id;
        assert chats[k + 1] == r.value;
        r
      else
        r
  }

  /** Row `i` is eligible and no earlier eligible row has its counterpart:
      it is the row whose summary the map keeps. */
  predicate FirstOfItsChat(me: string, rows: seq<DirectRow>, i: int) {
    && 0 <= i < |rows|
    && Eligible(me, rows[i])
    && forall j :: 0 <= j < i && Eligible(me, rows[j]) ==> Counterpart(me, rows[j]) != Counterpart(me, rows[i])
  }

  lemma FirstOfItsChatExtends(me: string, rows: seq<DirectRow>, i: int)
    requires |rows| > 0 && FirstOfItsChat(me, rows[..|rows| - 1], i)
    ensures FirstOfItsChat(me, rows, i)
  {
    forall j | 0 <= j <= i
      ensures rows[j] == rows[..|rows| - 1][j]
    {
    }
  }

  /** The `directChatsMap` pass, as a fold over the rows in order: a row
      adds the summary for its counterpart when no earlier row did and the
      counterpart's profile is present. The result names each counterpart
      once and names the counterpart of every eligible row. */
  function DirectChats(me: string, rows: seq<DirectRow>): (r: seq<ChatSummary>)
    ensures forall i, j :: 0 <= i < j < |r| ==> r[i].id != r[j].id
    ensures forall i :: 0 <= i < |rows| && Eligible(me, rows[i]) ==> HasChat(r, Counterpart(me, rows[i]))
    ensures forall k :: 0 <= k < |r| ==> r[k].kind == Direct && r[k].lastMessage.Some?
    decreases |rows|
  {
    if rows == [] then []
    else
      var init := rows[..|rows| - 1];
      var row := rows[|rows| - 1];
      var acc := DirectChats(me, init);
      assert forall i :: 0 <= i < |init| ==> rows[i] == init[i];
      if !HasChat(acc, Counterpart(me, row)) && Eligible(me, row) then
        var r := acc + [Summarize(me, row)];
        assert HasChat(r, Counterpart(me, row)) by {
          assert r[|acc|].id == Counterpart(me, row);
        }
        assert forall id :: HasChat(acc, id) ==> HasChat(r, id) by {
          forall id | HasChat(acc, id)
            ensures HasChat(r, id)
          {
            var k :| 0 <= k < |acc| && acc[k].id == id;
            assert r[k].id == id;
          }
        }
        r
      else
        acc
  }

  /** Each summary `DirectChats` keeps is the one of the first eligible row
      for its counterpart: later rows for the same counterpart never
      replace it. */
  lemma {:induction false} DirectChatsKeepFirst(me: string, rows: seq<DirectRow>, k: int) returns (i: int)
    requires 0 <= k < |DirectChats(me, rows)|
    ensures FirstOfItsChat(me, rows, i) && DirectChats(me, rows)[k] == Summarize(me, rows[i])
    decreases |rows|
  {
    var init := rows[..|rows| - 1];
    var row := rows[|rows| - 1];
    var acc := DirectChats(me, init);
    if k < |acc| {
      assert DirectChats(me, rows)[k] == acc[k];
      i := DirectChatsKeepFirst(me, init, k);
      FirstOfItsChatExtends(me, rows, i);
    } else {
      i := |rows| - 1;
      forall j | 0 <= j < i && Eligible(me, rows[j])
        ensures Counterpart(me, rows[j]) != Counterpart(me, rows[i])
      {
        assert rows[j] == init[j];
      }
    }
  }

  /** Given rows ordered by timestamp, newest first (how the query orders
      them), the last message each direct summary keeps is at least as new
      as every eligible row with that counterpart. */
  lemma DirectChatsKeepNewest(me: string, rows: seq<DirectRow>, k: int, i: int)
    requires forall a, b :: 0 <= a < b < |rows| ==> LexLe(rows[b].createdAt, rows[a].createdAt)
    requires 0 <= k < |DirectChats(me, rows)|
    requires 0 <= i < |rows| && Eligible(me, rows[i])
    requires Counterpart(me, rows[i]) == DirectChats(me, rows)[k].id
    ensures LexLe(rows[i].createdAt, DirectChats(me, rows)[k].lastMessage.value.createdAt)
  {
    var i0 := DirectChatsKeepFirst(me, rows, k);
    if i == i0 {
      LexLeRefl(rows[i].createdAt);
    } else {
      assert i0 < i;
    }
  }

  /** A group's summary: `group_messages?.[0] || null` as its last message. */
  function GroupSummary(g: GroupRow): (c: ChatSummary)
    ensures c.kind == Group && c.id == g.id && c.name == g.name
    ensures c.lastMessage.None? <==> g.messages == []
    ensures c.lastMessage.Some? ==> c.lastMessage.value == g.messages[0]
  {
    ChatSummary(g.id, Group, g.name, if g.messages == [] then None else Some(g.messages[0]))
  }

  /** The `groupMemberships.map` pass; a membership whose group join is
      missing makes the map throw, which fails the whole refresh. */
  function GroupChats(ms: seq<Membership>): (r: Option<seq<ChatSummary>>)
    ensures r.None? <==> exists k :: 0 <= k < |ms| && ms[k].group.None?
    ensures r.Some? ==> |r.value| == |ms|
    ensures r.Some? ==> forall k :: 0 <= k < |ms| ==> r.value[k] == GroupSummary(ms[k].group.value)
    decreases |ms|
  {
    if ms == [] then Some([])
    else
      match ms[0].group
      case None => None
      case Some(g) =>
        match GroupChats(ms[1..])
        case None => None
        case Some(rest) =>
          assert forall k :: 1 <= k < |ms| ==> ms[k] == ms[1..][k - 1];
          Some([GroupSummary(g)] + rest)
  }

  /** The sort key: `lastMessage?.created_at || '0'`. */
  function Key(c: ChatSummary): (k: string)
    ensures k != ""
    ensures c.lastMessage.None? ==> k == "0"
    ensures c.lastMessage.Some? && c.lastMessage.value.createdAt != "" ==> k == c.lastMessage.value.createdAt
    ensures k == "0" || (c.lastMessage.Some? && k == c.lastMessage.value.createdAt)
  {
    if c.lastMessage.Some? && c.lastMessage.value.createdAt != "" then c.lastMessage.value.createdAt else "0"
  }

  /** Keys never increase along the list. */
  predicate NewestFirst(chats: seq<ChatSummary>) {
    forall i, j :: 0 <= i < j < |chats| ==> LexLe(Key(chats[j]), Key(chats[i]))
  }

  /** Place `c` after every entry whose key is at least its own. */
  function InsertByRecency(c: ChatSummary, sorted: seq<ChatSummary>): (r: seq<ChatSummary>)
    requires NewestFirst(sorted)
    ensures NewestFirst(r)
    ensures multiset(r) == multiset(sorted) + multiset{c}
    decreases |sorted|
  {
    if sorted == [] then [c]
    else if LexLt(Key(sorted[0]), Key(c)) then
      NewerGoesFirst(c, sorted);
      [c] + sorted
    else
      var rest := InsertByRecency(c, sorted[1..]);
      var r := [sorted[0]] + rest;
      assert sorted == [sorted[0]] + sorted[1..];
      NotLtIsGe(Key(sorted[0]), Key(c));
      HeadStaysFirst(sorted, c, rest);
      assert multiset(r) == multiset{sorted[0]} + multiset(rest);
      r
  }

  /** A chat newer than the head of a sorted list may go in front of it. */
  lemma NewerGoesFirst(c: ChatSummary, sorted: seq<ChatSummary>)
    requires sorted != [] && NewestFirst(sorted)
    requires LexLt(Key(sorted[0]), Key(c))
    ensures NewestFirst([c] + sorted)
  {
    var r := [c] + sorted;
    forall i, j | 0 <= i < j < |r|
      ensures LexLe(Key(r[j]), Key(r[i]))
    {
      assert r[j] == sorted[j - 1];
      if i == 0 {
        if j > 1 {
          LexLeTrans(Key(sorted[j - 1]), Key(sorted[0]), Key(c));
        }
      } else {
        assert r[i] == sorted[i - 1];
      }
    }
  }

  /** What the recursive step of `InsertByRecency` needs: every entry of the
      tail, and `c` itself when it is no newer, sorts at or below the head. */
  lemma HeadStaysFirst(sorted: seq<ChatSummary>, c: ChatSummary, rest: seq<ChatSummary>)
    requires sorted != [] && NewestFirst(sorted)
    requires LexLe(Key(c), Key(sorted[0]))
    requires multiset(rest) == multiset(sorted[1..]) + multiset{c}
    ensures forall j :: 0 <= j < |rest| ==> LexLe(Key(rest[j]), Key(sorted[0]))
  {
    forall j | 0 <= j < |rest|
      ensures LexLe(Key(rest[j]), Key(sorted[0]))
    {
      assert rest[j] in multiset(rest);
      if rest[j] != c {
        assert rest[j] in multiset(sorted[1..]);
        var m :| 0 <= m < |sorted[1..]| && sorted[1..][m] == rest[j];
        assert sorted[m + 1] == rest[j];
      }
    }
  }

  /** Stable insertion sort with code-point order standing in for the
      client's `(a, b) => Key(b).localeCompare(Key(a))`: newest first, ties
      kept in input order. */
  function SortByRecency(chats: seq<ChatSummary>): (r: seq<ChatSummary>)
    ensures NewestFirst(r)
    ensures multiset(r) == multiset(chats)
    decreases |chats|
  {
    if chats == [] then []
    else
      var init := chats[..|chats| - 1];
      assert chats == init + [chats[|chats| - 1]];
      InsertByRecency(chats[|chats| - 1], SortByRecency(init))
  }

  /** One run of `fetchChats`: either fetch failing, or a membership with no
      group, leaves the list as it was; otherwise the list is replaced by
      the direct summaries followed by the group summaries, sorted newest
      first. */
  function FetchChats(me: string, current: seq<ChatSummary>,
                      direct: Response<seq<DirectRow>>, memberships: Response<seq<Membership>>): (r: seq<ChatSummary>)
    ensures direct.Err? || memberships.Err? ==> r == current
    ensures direct.Ok? && memberships.Ok? && GroupChats(memberships.value).None? ==> r == current
    ensures direct.Ok? && memberships.Ok? && GroupChats(memberships.value).Some? ==>
      NewestFirst(r) &&
      multiset(r) == multiset(DirectChats(me, direct.value) + GroupChats(memberships.value).value)
  {
    match (direct, memberships)
    case (Ok(rows), Ok(ms)) =>
      (match GroupChats(ms)
       case Some(groups) => SortByRecency(DirectChats(me, rows) + groups)
       case None => current)
    case _ => current
  }

  /** A chat with no last message (key '0') comes after every chat whose
      last message carries an ISO-8601 timestamp (first character a digit
      from 1 to 9) in any list ordered newest first. */
  lemma EmptyChatsSortLast(chats: seq<ChatSummary>, i: int, j: int)
    requires NewestFirst(chats)
    requires 0 <= i < |chats| && 0 <= j < |chats|
    requires chats[i].lastMessage.None?
    requires chats[j].lastMessage.Some?
    requires var t := chats[j].lastMessage.value.createdAt; |t| > 0 && '1' <= t[0] <= '9'
    ensures j < i
  {
    assert Key(chats[i]) == "0";
    assert !LexLe(Key(chats[j]), "0");
  }

  /** Sorting two chats listed older, newer swaps them. */
  lemma SortTwo(a: ChatSummary, b: ChatSummary)
    requires LexLt(Key(a), Key(b))
    ensures SortByRecency([a, b]) == [b, a]
  {
    assert [a, b][..1] == [a];
    assert SortByRecency([a]) == [a] by {
      assert [a][..0] == [];
    }
    assert InsertByRecency(b, [a]) == [b, a];
  }

  /** Sorting three chats listed oldest, newest, without messages. */
  lemma SortThree(a: ChatSummary, b: ChatSummary, c: ChatSummary)
    requires LexLt(Key(a), Key(b))
    requires !LexLt(Key(b), Key(c)) && !LexLt(Key(a), Key(c))
    ensures SortByRecency([a, b, c]) == [b, a, c]
  {
    SortThreeSortsFirstTwo(a, b, c);
    InsertAfterBoth(a, b, c);
  }

  /** Sorting three chats first sorts the first two, then inserts the third. */
  lemma SortThreeSortsFirstTwo(a: ChatSummary, b: ChatSummary, c: ChatSummary)
    requires LexLt(Key(a), Key(b))
    ensures SortByRecency([a, b, c]) == InsertByRecency(c, [b, a])
  {
    SortTwo(a, b);
    SortAddsLast([a, b, c]);
    assert [a, b, c][..2] == [a, b];
  }

  /** A chat no newer than either entry of a sorted pair goes last. */
  lemma InsertAfterBoth(a: ChatSummary, b: ChatSummary, c: ChatSummary)
    requires LexLt(Key(a), Key(b))
    requires !LexLt(Key(b), Key(c)) && !LexLt(Key(a), Key(c))
    ensures InsertByRecency(c, [b, a]) == [b, a, c]
  {
    var sorted := [b, a];
    assert sorted[0] == b && sorted[1..] == [a];
    InsertBelowHead(c, sorted);
    InsertAfterOne(a, c);
    assert [b] + [a, c] == [b, a, c];
  }

  /** A chat no newer than the only entry goes after it. */
  lemma InsertAfterOne(a: ChatSummary, c: ChatSummary)
    requires !LexLt(Key(a), Key(c))
    ensures InsertByRecency(c, [a]) == [a, c]
  {
    InsertBelowHead(c, [a]);
    assert [a][1..] == [];
  }

  /** Sorting a list inserts its last entry into the sorted rest. */
  lemma SortAddsLast(chats: seq<ChatSummary>)
    requires chats != []
    ensures SortByRecency(chats)
      == InsertByRecency(chats[|chats| - 1], SortByRecency(chats[..|chats| - 1]))
  {
  }

  /** A chat no newer than the head is inserted somewhere after it. */
  lemma InsertBelowHead(c: ChatSummary, sorted: seq<ChatSummary>)
    requires sorted != [] && NewestFirst(sorted)
    requires !LexLt(Key(sorted[0]), Key(c))
    ensures InsertByRecency(c, sorted) == [sorted[0]] + InsertByRecency(c, sorted[1..])
  {
  }

  /** The conversation list for chats A (last message at 00:00:05), B (at
      00:00:10) and C (no messages), listed A, B, C: B comes first, then A,
      then C. */
  lemma RecencyExample()
    ensures
      var a := ChatSummary("A", Direct, "A", Some(Preview("1", "x", "2024-05-01T00:00:05Z")));
      var b := ChatSummary("B", Group, "B", Some(Preview("2", "y", "2024-05-01T00:00:10Z")));
      var c := ChatSummary("C", Group, "C", None);
      SortByRecency([a, b, c]) == [b, a, c]
  {
    var a := ChatSummary("A", Direct, "A", Some(Preview("1", "x", "2024-05-01T00:00:05Z")));
    var b := ChatSummary("B", Group, "B", Some(Preview("2", "y", "2024-05-01T00:00:10Z")));
    var c := ChatSummary("C", Group, "C", None);
    var ka, kb := "2024-05-01T00:00:05Z", "2024-05-01T00:00:10Z";
    assert Key(a) == ka && Key(b) == kb && Key(c) == "0";
    assert ka[..17] == kb[..17] && ka[17] < kb[17];
    LexLtAtFirstDifference(ka, kb, 17);
    LexLtAtFirstDifference("0", ka, 0);
    LexLtAtFirstDifference("0", kb, 0);
    NotLtWhenGreater("0", ka);
    NotLtWhenGreater("0", kb);
    SortThree(a, b, c);
  }
}
