/** The two polling loops of app/chat/page.tsx. `query(w)` stands for the
    store's answer to "this chat's messages created strictly after `w`,
    oldest first" (the `.gt('created_at', w).order('created_at')` query);
    which rows it returns is an input. */
module Polling {
  import opened Wrappers
  import opened Text
  import opened Messages

  /** The last entry's timestamp: the reconciliation poll's watermark. */
  function LastTimestamp(list: seq<Message>): string
    requires list != []
  {
    list[|list| - 1].createdAt
  }

  /** Every row of `batch` is strictly newer than `watermark`. */
  predicate AllNewer(batch: seq<Message>, watermark: string) {
    forall k :: 0 <= k < |batch| ==> LexLt(watermark, batch[k].createdAt)
  }

  /** One tick of the 3-second reconciliation poll (`checkNewMessages`) run
      by the always-on interval, with `active` standing for "a chat and a
      user are selected". The filter reads the list snapshot the closure
      captured; that interval is re-created whenever the list changes, and
      this model takes the snapshot to be the list the updater receives.
      With no chat, no user or an empty list nothing is fetched. Otherwise the list keeps
      every entry in place and gains, in batch order, exactly the rows of
      the answer for its last timestamp whose identifiers it lacks (every
      copy of such a row, see `CheckNewCounts`). */
  function CheckNew(list: seq<Message>, active: bool, query: string -> seq<Message>): (r: seq<Message>)
    ensures !active || list == [] ==> r == list
    ensures |r| >= |list| && r[..|list|] == list
    ensures active && list != [] ==>
      var batch := query(LastTimestamp(list));
      && Subsequence(r[|list|..], batch)
      && (forall k :: |list| <= k < |r| ==> !HasId(list, r[k].id))
      && (forall k :: 0 <= k < |batch| ==> HasId(r, batch[k].id))
      && (UniqueIds(list) && UniqueIds(batch) ==> UniqueIds(r))
  {
    if !active || list == [] then list
    else
      var batch := query(LastTimestamp(list));
      var added := Unseen(list, batch);
      var r := list + added;
      assert r[|list|..] == added;
      assert forall k :: 0 <= k < |batch| ==> HasId(r, batch[k].id) by {
        forall k | 0 <= k < |batch|
          ensures HasId(r, batch[k].id)
        {
          if HasId(list, batch[k].id) {
            var i :| 0 <= i < |list| && list[i].id == batch[k].id;
            assert r[i] == list[i];
          } else {
            var m :| 0 <= m < |added| && added[m] == batch[k];
            assert r[|list| + m] == batch[k];
          }
        }
      }
      assert UniqueIds(list) && UniqueIds(batch) ==> UniqueIds(r) by {
        if UniqueIds(list) && UniqueIds(batch) {
          UnseenUnique(list, batch);
          AppendFreshUnique(list, added);
        }
      }
      r
  }

  /** Exactly what a tick adds: each row of the answer whose identifier the
      list lacks, as many times as the answer holds it, and nothing else. */
  lemma CheckNewCounts(list: seq<Message>, query: string -> seq<Message>, x: Message)
    requires list != []
    ensures multiset(CheckNew(list, true, query))[x]
      == multiset(list)[x]
         + (if HasId(list, x.id) then 0 else multiset(query(LastTimestamp(list)))[x])
  {
    UnseenCounts(list, query(LastTimestamp(list)), x);
  }

  /** The ordering promise: when the answer is oldest first and strictly
      newer than the watermark, an ascending list stays ascending. */
  lemma CheckNewKeepsAscending(list: seq<Message>, query: string -> seq<Message>)
    requires list != [] && Ascending(list)
    requires Ascending(query(LastTimestamp(list)))
    requires AllNewer(query(LastTimestamp(list)), LastTimestamp(list))
    ensures Ascending(CheckNew(list, true, query))
  {
    var batch := query(LastTimestamp(list));
    var added := Unseen(list, batch);
    var r := CheckNew(list, true, query);
    assert r == list + added;
    SubsequenceAscending(added, batch);
    SubsequenceMembers(added, batch);
    forall i, j | 0 <= i < j < |r|
      ensures LexLe(r[i].createdAt, r[j].createdAt)
    {
      if j >= |list| {
        if i >= |list| {
          assert r[i] == added[i - |list|] && r[j] == added[j - |list|];
        } else {
          var m :| 0 <= m < |batch| && batch[m] == added[j - |list|];
          assert r[j] == batch[m];
          if i < |list| - 1 {
            LexLeTrans(list[i].createdAt, LastTimestamp(list), r[j].createdAt);
          }
        }
      }
    }
  }

  /** Reconciliation: any message the store returns for the watermark, for
      instance one the live feed missed, is in the list after the next tick
      of the always-on interval, exactly once when the answer has no
      repeated identifiers and the list kept the invariant. */
  lemma PollDeliversMissed(list: seq<Message>, query: string -> seq<Message>, missed: Message)
    requires list != [] && UniqueIds(list)
    requires missed in query(LastTimestamp(list))
    requires UniqueIds(query(LastTimestamp(list)))
    ensures HasId(CheckNew(list, true, query), missed.id)
    ensures CountId(CheckNew(list, true, query), missed.id) == 1
  {
    CountIdUnique(CheckNew(list, true, query), missed.id);
  }

  /** The 1-second poller's watermark (`fetchNewMessages`): the snapshot's
      last timestamp, or the current time `now` when the snapshot is empty
      or that timestamp is empty. */
  function Watermark(snapshot: seq<Message>, now: string): (w: string)
    ensures snapshot == [] ==> w == now
    ensures snapshot != [] && LastTimestamp(snapshot) != "" ==> w == LastTimestamp(snapshot)
    ensures snapshot != [] && LastTimestamp(snapshot) == "" ==> w == now
  {
    if snapshot != [] && LastTimestamp(snapshot) != "" then LastTimestamp(snapshot) else now
  }

  /** `.limit(1)`: at most the first row of an answer. */
  function FirstRow(rows: seq<Message>): (r: seq<Message>)
    ensures |r| <= 1 && |r| <= |rows| && r == rows[..|r|]
    ensures rows != [] ==> r == [rows[0]]
  {
    if rows == [] then [] else [rows[0]]
  }

  /** One tick of the 1-second poller as written: the watermark comes from
      `snapshot`, the list the interval's closure captured, while the rows
      are appended to `prev`, the current list, with no identifier check.
      An error or an empty answer changes nothing. */
  function FetchNew(snapshot: seq<Message>, prev: seq<Message>, active: bool, now: string,
                    query: string -> Response<seq<Message>>): (r: seq<Message>)
    ensures !active ==> r == prev
    ensures |prev| <= |r| <= |prev| + 1 && r[..|prev|] == prev
    ensures |r| == |prev| + 1 ==>
      active && query(Watermark(snapshot, now)).Ok? && query(Watermark(snapshot, now)).value != []
      && r[|prev|] == query(Watermark(snapshot, now)).value[0]
    ensures active && query(Watermark(snapshot, now)).Ok? && query(Watermark(snapshot, now)).value != [] ==>
      r == prev + [query(Watermark(snapshot, now)).value[0]]
  {
    if !active then prev
    else
      match query(Watermark(snapshot, now))
      case Err(_) => prev
      case Ok(rows) => prev + FirstRow(rows)
  }

  /** What keeps the plain append safe: with the snapshot equal to the
      current list, a list that is ascending and duplicate-free, rows
      strictly newer than the watermark, and the store never giving one
      identifier two timestamps, the appended row is new, so both
      invariants hold afterwards. */
  lemma FetchNewSafeWhenNewer(prev: seq<Message>, now: string, query: string -> Response<seq<Message>>)
    requires UniqueIds(prev) && Ascending(prev)
    requires prev != [] ==> LastTimestamp(prev) != ""
    requires query(Watermark(prev, now)).Ok? ==> AllNewer(query(Watermark(prev, now)).value, Watermark(prev, now))
    requires query(Watermark(prev, now)).Ok? ==>
      var rows := query(Watermark(prev, now)).value;
      forall i, k :: 0 <= i < |prev| && 0 <= k < |rows| && prev[i].id == rows[k].id ==> prev[i].createdAt == rows[k].createdAt
    ensures UniqueIds(FetchNew(prev, prev, true, now, query))
    ensures Ascending(FetchNew(prev, prev, true, now, query))
  {
    var r := FetchNew(prev, prev, true, now, query);
    if |r| == |prev| + 1 {
      var rows := query(Watermark(prev, now)).value;
      var row := rows[0];
      assert r == prev + [row];
      forall i | 0 <= i < |prev|
        ensures prev[i].id != row.id && LexLe(prev[i].createdAt, row.createdAt)
      {
        var last := LastTimestamp(prev);
        assert LexLt(last, row.createdAt);
        if i < |prev| - 1 {
          assert LexLe(prev[i].createdAt, last);
        } else {
          LexLeRefl(last);
        }
        LexLeLtTrans(prev[i].createdAt, last, row.createdAt);
      }
      AppendFreshUnique(prev, [row]);
    }
  }

  /** As written, the interval reads the snapshot captured when the effect
      ran (its dependencies are the chat and the user, not the list). With
      the snapshot stuck at `[a]` while the current list grows, the
      watermark never advances, the store keeps answering with `b`, and the
      second tick appends `b` a second time. */
  lemma StaleSnapshotDuplicates()
    ensures
      var a := Message("a", "hi", "u1", ToUser("u2"), "1", None);
      var b := Message("b", "yo", "u2", ToUser("u1"), "2", None);
      var query := (w: string) => if LexLt(w, "2") then Ok([b]) else Ok([]);
      var first := FetchNew([a], [a], true, "9", query);
      var second := FetchNew([a], first, true, "9", query);
      first == [a, b] && second == [a, b, b] && !UniqueIds(second)
  {
    var b := Message("b", "yo", "u2", ToUser("u1"), "2", None);
    assert LexLt("1", "2");
    assert [Message("a", "hi", "u1", ToUser("u2"), "1", None), b, b][1].id
        == [Message("a", "hi", "u1", ToUser("u2"), "1", None), b, b][2].id;
  }

  /** The intended tick: the watermark is read from the current list and the
      row goes through the same duplicate guard as every other path. */
  function FetchNewChecked(prev: seq<Message>, active: bool, now: string,
                           query: string -> Response<seq<Message>>): (r: seq<Message>)
    ensures !active ==> r == prev
    ensures |prev| <= |r| <= |prev| + 1 && r[..|prev|] == prev
    ensures UniqueIds(prev) ==> UniqueIds(r)
    ensures active && query(Watermark(prev, now)).Ok? && query(Watermark(prev, now)).value != [] ==>
      HasId(r, query(Watermark(prev, now)).value[0].id)
    ensures active && (query(Watermark(prev, now)).Err? || query(Watermark(prev, now)).value == []) ==> r == prev
    ensures active && query(Watermark(prev, now)).Ok? && query(Watermark(prev, now)).value != [] ==>
      r == Absorb(prev, query(Watermark(prev, now)).value[0])
  {
    if !active then prev
    else
      match query(Watermark(prev, now))
      case Err(_) => prev
      case Ok(rows) => if rows == [] then prev else Absorb(prev, rows[0])
  }

  /** With the guard, ticks never duplicate an entry, whatever the store
      answers and however often the same row comes back. */
  lemma {:induction false} CheckedTicksKeepUnique(prev: seq<Message>, now: seq<string>,
                                                 query: string -> Response<seq<Message>>)
    requires UniqueIds(prev)
    ensures UniqueIds(Ticks(prev, now, query))
    decreases |now|
  {
    if now != [] {
      CheckedTicksKeepUnique(FetchNewChecked(prev, true, now[0], query), now[1..], query);
    }
  }

  /** Successive guarded ticks at the clock readings `now`. */
  function Ticks(prev: seq<Message>, now: seq<string>, query: string -> Response<seq<Message>>): seq<Message>
    decreases |now|
  {
    if now == [] then prev else Ticks(FetchNewChecked(prev, true, now[0], query), now[1..], query)
  }
}
