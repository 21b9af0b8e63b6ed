/** The polling fallback armed by the channel-status callback in
    `setupRealtimeSubscription` (app/chat/page.tsx): while the live channel
    is not `SUBSCRIBED`, a 3-second interval runs. This module models when
    that interval is armed and cleared, not what its ticks fetch: it runs
    the `checkNewMessages` captured when the subscription was set up, whose
    list snapshot is the list at that moment, not the current one. Timers
    are explicit: `setInterval` hands out the next identifier and
    `clearInterval` removes one from the set of running intervals. */
module Fallback {
  import opened Wrappers

  /** The statuses the channel library reports to the subscribe callback. */
  datatype Status = Subscribed | TimedOut | Closed | ChannelError

  /** `handle` is the closure variable `pollingInterval`; `live` the
      intervals currently running; `next` the identifier the next
      `setInterval` returns. */
  datatype Timers = Timers(handle: Option<nat>, live: set<nat>, next: nat)

  /** A fresh subscription: `pollingInterval` starts out `null`. */
  function Start(): (t: Timers)
    ensures Consistent(t) && t.live == {}
  {
    Timers(None, {}, 0)
  }

  /** The variable names exactly the running intervals: none when it is
      `null`, otherwise that one interval, issued earlier. */
  predicate Consistent(t: Timers) {
    && (t.handle.None? ==> t.live == {})
    && (t.handle.Some? ==> t.live == {t.handle.value} && t.handle.value < t.next)
  }

  /** The status callback. `SUBSCRIBED` clears the interval the variable
      holds, if any, and nulls it; any other status arms a new interval
      only when the variable is `null`. */
  function OnStatus(t: Timers, status: Status): (r: Timers)
    ensures Consistent(t) ==> Consistent(r)
    ensures Consistent(t) && status == Subscribed ==> r.handle.None? && r.live == {}
    ensures Consistent(t) && status != Subscribed ==> r.handle.Some? && |r.live| == 1
    ensures Consistent(t) && status != Subscribed ==> (r.live - t.live != {} <==> t.handle.None?)
    ensures status != Subscribed && t.handle.Some? ==> r == t
    ensures r.next >= t.next
  {
    if status == Subscribed then
      match t.handle
      case Some(h) => Timers(None, t.live - {h}, t.next)
      case None => t
    else if t.handle.None? then
      Timers(Some(t.next), t.live + {t.next}, t.next + 1)
    else
      t
  }

  /** The effect's cleanup: clears the interval the variable holds but does
      not reset the variable. */
  function Cleanup(t: Timers): (r: Timers)
    ensures Consistent(t) ==> r.live == {}
    ensures r.handle == t.handle && r.next == t.next
  {
    match t.handle
    case Some(h) => Timers(t.handle, t.live - {h}, t.next)
    case None => t
  }

  /** The timers after the channel reported `statuses`, in order. */
  function Replay(t: Timers, statuses: seq<Status>): Timers
    decreases |statuses|
  {
    if statuses == [] then t else Replay(OnStatus(t, statuses[0]), statuses[1..])
  }

  /** While the subscription is open, whatever the channel reports, at most
      one fallback interval runs, it is the one the variable names, and the
      last status decides it: none after `SUBSCRIBED`, one after anything
      else. */
  lemma {:induction false} AtMostOneInterval(t: Timers, statuses: seq<Status>)
    requires Consistent(t)
    decreases |statuses|
    ensures Consistent(Replay(t, statuses))
    ensures |Replay(t, statuses).live| <= 1
    ensures statuses != [] ==>
      (Replay(t, statuses).live == {} <==> statuses[|statuses| - 1] == Subscribed)
  {
    if statuses != [] {
      var t' := OnStatus(t, statuses[0]);
      AtMostOneInterval(t', statuses[1..]);
      if |statuses| > 1 {
        assert statuses[1..][|statuses[1..]| - 1] == statuses[|statuses| - 1];
      }
    }
  }

  /** The cleanup leaves no interval running while the variable still
      names the one it cleared. */
  lemma CleanupStopsAll(t: Timers, statuses: seq<Status>)
    requires Consistent(t)
    ensures Cleanup(Replay(t, statuses)).live == {}
  {
    AtMostOneInterval(t, statuses);
  }

  /** As written, the subscribe callback stays attached after cleanup, and
      `unsubscribe` makes the channel library report `CLOSED`. When push
      was connected at cleanup time the variable is `null`, so that late
      status arms an interval, and since the channel will never report
      `SUBSCRIBED` again nothing clears it. */
  lemma LateCloseArmsInterval()
    ensures
      var t := Cleanup(OnStatus(Start(), Subscribed));
      t.live == {} && OnStatus(t, Closed).live == {0}
  {
  }

  /** The intended lifecycle: cleanup also marks the subscription closed,
      and a closed subscription ignores later statuses. */
  datatype Subscription = Subscription(timers: Timers, closed: bool)

  function Open(): (s: Subscription)
    ensures !s.closed && Consistent(s.timers) && s.timers.live == {}
  {
    Subscription(Start(), false)
  }

  function OnStatusClosable(s: Subscription, status: Status): (r: Subscription)
    ensures s.closed ==> r == s
    ensures !s.closed ==> r.timers == OnStatus(s.timers, status) && !r.closed
  {
    if s.closed then s else Subscription(OnStatus(s.timers, status), false)
  }

  function Close(s: Subscription): (r: Subscription)
    ensures r.closed
    ensures Consistent(s.timers) ==> r.timers.live == {}
  {
    Subscription(Cleanup(s.timers), true)
  }

  function ReplayClosable(s: Subscription, statuses: seq<Status>): Subscription
    decreases |statuses|
  {
    if statuses == [] then s else ReplayClosable(OnStatusClosable(s, statuses[0]), statuses[1..])
  }

  /** With the closed flag, no interval runs after cleanup, whatever the
      channel reports before or after it. */
  lemma {:induction false} NoIntervalAfterClose(before: seq<Status>, after: seq<Status>)
    ensures ReplayClosable(Close(ReplayClosable(Open(), before)), after).timers.live == {}
  {
    OpenReplayConsistent(Open(), before);
    ClosedStaysQuiet(Close(ReplayClosable(Open(), before)), after);
  }

  lemma {:induction false} OpenReplayConsistent(s: Subscription, statuses: seq<Status>)
    requires !s.closed && Consistent(s.timers)
    decreases |statuses|
    ensures Consistent(ReplayClosable(s, statuses).timers)
  {
    if statuses != [] {
      OpenReplayConsistent(OnStatusClosable(s, statuses[0]), statuses[1..]);
    }
  }

  lemma {:induction false} ClosedStaysQuiet(s: Subscription, statuses: seq<Status>)
    requires s.closed
    decreases |statuses|
    ensures ReplayClosable(s, statuses) == s
  {
    if statuses != [] {
      ClosedStaysQuiet(OnStatusClosable(s, statuses[0]), statuses[1..]);
    }
  }
}
