/** The open conversation's message list and the duplicate-guarded ways the
    chat page adds to it (app/chat/page.tsx). */
module Messages {
  import opened Wrappers
  import opened Text

  /** A row of `profiles`. */
  datatype Profile = Profile(id: string, username: Option<string>, email: string)

  /** A `group_members` row. */
  datatype MemberRow = MemberRow(groupId: string, userId: string)

  /** Where a message goes: a direct message names its receiver, a group
      message its group. */
  datatype Target = ToUser(receiverId: string) | ToGroup(groupId: string)

  /** A `messages` or `group_messages` row as the list holds it; `sender` is
      the joined or separately fetched profile, missing when that fetch
      returned nothing. */
  datatype Message = Message(
    id: string,
    content: string,
    senderId: string,
    target: Target,
    createdAt: string,
    sender: Option<Profile>)

  /** Some entry of `list` carries identifier `id`. */
  predicate HasId(list: seq<Message>, id: string) {
    exists i :: 0 <= i < |list| && list[i].id == id
  }

  /** No two entries of `list` share an identifier: the invariant every
      merge path is meant to keep. */
  predicate UniqueIds(list: seq<Message>) {
    forall i, j :: 0 <= i < j < |list| ==> list[i].id != list[j].id
  }

  /** The entries' timestamps never decrease along the list. */
  predicate Ascending(list: seq<Message>) {
    forall i, j :: 0 <= i < j < |list| ==> LexLe(list[i].createdAt, list[j].createdAt)
  }

  /** The identifiers of `list`, in list order. */
  function Ids(list: seq<Message>): (r: seq<string>)
    ensures |r| == |list|
    ensures forall i :: 0 <= i < |list| ==> r[i] == list[i].id
  {
    if list == [] then [] else Ids(list[..|list| - 1]) + [list[|list| - 1].id]
  }

  /** How many entries carry identifier `id`. */
  function CountId(list: seq<Message>, id: string): nat {
    if list == [] then 0
    else CountId(list[..|list| - 1], id) + (if list[|list| - 1].id == id then 1 else 0)
  }

  /** `prev.some(msg => msg.id === id)`, scanning from the front. */
  function AnyWithId(list: seq<Message>, id: string): (b: bool)
    ensures b <==> HasId(list, id)
  {
    if list == [] then false
    else if list[0].id == id then true
    else
      var b := AnyWithId(list[1..], id);
      assert HasId(list[1..], id) ==> HasId(list, id) by {
        if HasId(list[1..], id) {
          var i :| 0 <= i < |list[1..]| && list[1..][i].id == id;
          assert list[i + 1].id == id;
        }
      }
      assert HasId(list, id) && list[0].id != id ==> HasId(list[1..], id) by {
        if HasId(list, id) && list[0].id != id {
          var i :| 0 <= i < |list| && list[i].id == id;
          assert list[1..][i - 1].id == id;
        }
      }
      b
  }

  /** The updater `prev => prev.some(m => m.id === x.id) ? prev : [...prev, x]`
      shared by both push handlers and both send confirmations: the list is
      returned unchanged when the identifier is already present, and
      otherwise grows by `m` at the end with every old entry left in place. */
  function Absorb(list: seq<Message>, m: Message): (r: seq<Message>)
    ensures HasId(list, m.id) ==> r == list
    ensures !HasId(list, m.id) ==> |r| == |list| + 1 && r[..|list|] == list && r[|list|] == m
    ensures HasId(r, m.id)
    ensures UniqueIds(list) ==> UniqueIds(r)
  {
    if AnyWithId(list, m.id) then list
    else
      var r := list + [m];
      assert r[|list|].id == m.id;
      r
  }

  /** Appending `m` adds exactly `m`'s identifier to those present. */
  lemma HasIdAppend(list: seq<Message>, m: Message, id: string)
    ensures HasId(list + [m], id) <==> HasId(list, id) || m.id == id
  {
    var l := list + [m];
    if HasId(list, id) {
      var i :| 0 <= i < |list| && list[i].id == id;
      assert l[i].id == id;
    }
    if m.id == id {
      assert l[|list|].id == id;
    }
    if HasId(l, id) {
      var i :| 0 <= i < |l| && l[i].id == id;
      if i < |list| {
        assert list[i].id == id;
      }
    }
  }

  /** Under the invariant an identifier occurs once if present and not at all
      otherwise. */
  lemma {:induction false} CountIdUnique(list: seq<Message>, id: string)
    requires UniqueIds(list)
    ensures CountId(list, id) == (if HasId(list, id) then 1 else 0)
  {
    if list != [] {
      var init := list[..|list| - 1];
      var last := list[|list| - 1];
      assert list == init + [last];
      CountIdUnique(init, id);
      HasIdAppend(init, last, id);
      if last.id == id {
        forall i | 0 <= i < |init|
          ensures init[i].id != id
        {
          assert list[i].id != list[|list| - 1].id;
        }
      }
    }
  }

  /** Delivering the same message again changes nothing. */
  lemma AbsorbIdempotent(list: seq<Message>, m: Message)
    ensures Absorb(Absorb(list, m), m) == Absorb(list, m)
  {
  }

  /** The push echo of a sent message and the insert response that confirms
      it carry the same server identifier; whichever arrives first, the list
      ends with the same identifiers in the same order and holds that
      identifier exactly once. */
  lemma EchoRaceSameIds(list: seq<Message>, echo: Message, confirmed: Message)
    requires echo.id == confirmed.id
    requires UniqueIds(list)
    ensures Ids(Absorb(Absorb(list, echo), confirmed)) == Ids(Absorb(Absorb(list, confirmed), echo))
    ensures CountId(Absorb(Absorb(list, echo), confirmed), echo.id) == 1
    ensures CountId(Absorb(Absorb(list, confirmed), echo), echo.id) == 1
  {
    var a := Absorb(Absorb(list, echo), confirmed);
    var b := Absorb(Absorb(list, confirmed), echo);
    if !HasId(list, echo.id) {
      assert a == list + [echo] && b == list + [confirmed];
    }
    CountIdUnique(a, echo.id);
    CountIdUnique(b, echo.id);
  }

  /** Two deliveries with distinct identifiers (or the very same message)
      give the same multiset of entries in either order; only their position
      at the tail reflects arrival order. */
  lemma AbsorbCommutes(list: seq<Message>, a: Message, b: Message)
    requires a.id != b.id || a == b
    ensures multiset(Absorb(Absorb(list, a), b)) == multiset(Absorb(Absorb(list, b), a))
  {
    HasIdAppend(list, a, b.id);
    HasIdAppend(list, b, a.id);
  }

  /** `s` appears in `t` in the same relative order (not necessarily
      contiguously). */
  predicate Subsequence<T(==)>(s: seq<T>, t: seq<T>) {
    if s == [] then true
    else if t == [] then false
    else (s[0] == t[0] && Subsequence(s[1..], t[1..])) || Subsequence(s, t[1..])
  }

  /** `batch.filter(m => !snapshot.some(x => x.id === m.id))`: the batch
      entries whose identifier the snapshot lacks, kept in batch order. */
  function Unseen(snapshot: seq<Message>, batch: seq<Message>): (r: seq<Message>)
    ensures Subsequence(r, batch)
    ensures forall k :: 0 <= k < |r| ==> !HasId(snapshot, r[k].id)
    ensures forall k :: 0 <= k < |batch| && !HasId(snapshot, batch[k].id) ==> batch[k] in r
    ensures forall k :: 0 <= k < |r| ==> r[k] in batch
  {
    if batch == [] then []
    else
      var rest := Unseen(snapshot, batch[1..]);
      assert forall k :: 1 <= k < |batch| ==> batch[k] == batch[1..][k - 1];
      if AnyWithId(snapshot, batch[0].id) then
        assert Subsequence(rest, batch) by {
          if rest != [] {
            assert batch != [] && Subsequence(rest, batch[1..]);
          }
        }
        rest
      else
        [batch[0]] + rest
  }

  /** The filter keeps every copy of an entry whose identifier is new and
      drops every copy of one the snapshot already holds, so a batch that
      repeats a row passes on each repetition. */
  lemma {:induction false} UnseenCounts(snapshot: seq<Message>, batch: seq<Message>, x: Message)
    ensures multiset(Unseen(snapshot, batch))[x]
      == if HasId(snapshot, x.id) then 0 else multiset(batch)[x]
  {
    if batch != [] {
      UnseenCounts(snapshot, batch[1..], x);
      assert batch == [batch[0]] + batch[1..];
    }
  }

  /** A batch with distinct identifiers gives a filtered batch with distinct
      identifiers. */
  lemma {:induction false} UnseenUnique(snapshot: seq<Message>, batch: seq<Message>)
    requires UniqueIds(batch)
    ensures UniqueIds(Unseen(snapshot, batch))
  {
    if batch != [] {
      var rest := Unseen(snapshot, batch[1..]);
      assert UniqueIds(batch[1..]) by {
        forall i, j | 0 <= i < j < |batch[1..]|
          ensures batch[1..][i].id != batch[1..][j].id
        {
          assert batch[1..][i] == batch[i + 1] && batch[1..][j] == batch[j + 1];
        }
      }
      UnseenUnique(snapshot, batch[1..]);
      if !AnyWithId(snapshot, batch[0].id) {
        var r := [batch[0]] + rest;
        forall k | 0 <= k < |rest|
          ensures rest[k].id != batch[0].id
        {
          var m :| 0 <= m < |batch[1..]| && batch[1..][m] == rest[k];
          assert batch[m + 1] == rest[k];
        }
        forall i, j | 0 <= i < j < |r|
          ensures r[i].id != r[j].id
        {
          if i > 0 {
            assert r[i] == rest[i - 1] && r[j] == rest[j - 1];
          } else {
            assert r[j] == rest[j - 1];
          }
        }
      }
    }
  }

  /** Appending entries whose identifiers are new, and distinct among
      themselves, keeps the invariant. */
  lemma AppendFreshUnique(list: seq<Message>, added: seq<Message>)
    requires UniqueIds(list) && UniqueIds(added)
    requires forall k :: 0 <= k < |added| ==> !HasId(list, added[k].id)
    ensures UniqueIds(list + added)
  {
    var r := list + added;
    forall i, j | 0 <= i < j < |r|
      ensures r[i].id != r[j].id
    {
      if j >= |list| && i < |list| {
        assert r[j] == added[j - |list|];
        assert list[i].id == r[i].id;
      }
    }
  }

  /** An order-preserving selection of a list whose timestamps never
      decrease keeps that property. */
  lemma {:induction false} SubsequenceAscending(s: seq<Message>, t: seq<Message>)
    requires Subsequence(s, t) && Ascending(t)
    ensures Ascending(s)
  {
    if s != [] && t != [] {
      assert Ascending(t[1..]) by {
        forall i, j | 0 <= i < j < |t[1..]|
          ensures LexLe(t[1..][i].createdAt, t[1..][j].createdAt)
        {
          assert t[1..][i] == t[i + 1] && t[1..][j] == t[j + 1];
        }
      }
      if s[0] == t[0] && Subsequence(s[1..], t[1..]) {
        SubsequenceAscending(s[1..], t[1..]);
        SubsequenceMembers(s[1..], t[1..]);
        forall i, j | 0 <= i < j < |s|
          ensures LexLe(s[i].createdAt, s[j].createdAt)
        {
          if i == 0 {
            assert s[j] == s[1..][j - 1];
            var k :| 0 <= k < |t[1..]| && t[1..][k] == s[j];
            assert t[k + 1] == s[j];
          } else {
            assert s[i] == s[1..][i - 1] && s[j] == s[1..][j - 1];
          }
        }
      } else {
        SubsequenceAscending(s, t[1..]);
      }
    }
  }

  /** Every entry of a subsequence is an entry of the whole. */
  lemma {:induction false} SubsequenceMembers<T>(s: seq<T>, t: seq<T>)
    requires Subsequence(s, t)
    ensures forall i :: 0 <= i < |s| ==> exists k :: 0 <= k < |t| && t[k] == s[i]
  {
    if s != [] && t != [] {
      if s[0] == t[0] && Subsequence(s[1..], t[1..]) {
        SubsequenceMembers(s[1..], t[1..]);
        forall i | 0 <= i < |s|
          ensures exists k :: 0 <= k < |t| && t[k] == s[i]
        {
          if i == 0 {
            assert t[0] == s[0];
          } else {
            assert s[i] == s[1..][i - 1];
            var k :| 0 <= k < |t[1..]| && t[1..][k] == s[1..][i - 1];
            assert t[k + 1] == s[i];
          }
        }
      } else {
        SubsequenceMembers(s, t[1..]);
        forall i | 0 <= i < |s|
          ensures exists k :: 0 <= k < |t| && t[k] == s[i]
        {
          var k :| 0 <= k < |t[1..]| && t[1..][k] == s[i];
          assert t[k + 1] == s[i];
        }
      }
    }
  }
}
