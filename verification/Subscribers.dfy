/** Forwarding the event stream to one subscribed client (core/src/ipc/server.rs,
    handle_subscribe): a loop on a broadcast cursor that skips what the channel has dropped. */
module Subscribers {
  import opened Requests
  import opened EventBus

  /** `log` is everything dispatched; the client subscribed when it held `start` events. */
  datatype Stream = Stream(log: seq<Event>, start: nat, cursor: nat, written: seq<Event>, lost: nat)

  /** One turn of the loop, after `arrived` more events have been dispatched. */
  function Poll(s: Stream, arrived: seq<Event>): Stream {
    var log := s.log + arrived;
    if Lags(s.cursor, log) then
      s.(log := log, cursor := Oldest(log), lost := s.lost + (Oldest(log) - s.cursor))
    else if s.cursor < |log| then
      s.(log := log, cursor := s.cursor + 1, written := s.written + [log[s.cursor]])
    else
      s.(log := log)
  }

  function Follow(history: seq<Event>, arrivals: seq<seq<Event>>): Stream {
    if arrivals == [] then Stream(history, |history|, |history|, [], 0)
    else Poll(Follow(history, arrivals[..|arrivals| - 1]), arrivals[|arrivals| - 1])
  }

  method HandleSubscribe(history: seq<Event>, arrivals: seq<seq<Event>>) returns (written: seq<Event>, cursor: nat)
    ensures written == Follow(history, arrivals).written && cursor == Follow(history, arrivals).cursor
    ensures |history| <= |Follow(history, arrivals).log|
    ensures IsSubsequence(written, Follow(history, arrivals).log[|history|..])
    ensures NeverFarBehind(history, arrivals) ==>
            written <= Follow(history, arrivals).log[|history|..]
  {
    var log := history;
    cursor := |history|;
    written := [];
    ghost var lost: nat := 0;
    assert arrivals[..0] == [];
    for i := 0 to |arrivals|
      invariant Follow(history, arrivals[..i]) == Stream(log, |history|, cursor, written, lost)
    {
      assert arrivals[..i + 1][..i] == arrivals[..i];
      log := log + arrivals[i];
      if Lags(cursor, log) {
        lost := lost + (Oldest(log) - cursor);
        cursor := Oldest(log);
      } else if cursor < |log| {
        written := written + [log[cursor]];
        cursor := cursor + 1;
      }
    }
    assert arrivals[..|arrivals|] == arrivals;
    StreamIsFaithful(history, arrivals);
    if NeverFarBehind(history, arrivals) { GapFreeIffKeptUp(history, arrivals); }
  }

  // ---------------------------------------------------------------------- properties

  /** `a` is what is left of `b` when some elements are dropped; `at` says where each was. */
  predicate EmbedsAt(a: seq<Event>, b: seq<Event>, at: seq<nat>) {
    && |at| == |a|
    && (forall i :: 0 <= i < |at| ==> at[i] < |b| && a[i] == b[at[i]])
    && (forall i, j :: 0 <= i < j < |at| ==> at[i] < at[j])
  }

  ghost predicate IsSubsequence(a: seq<Event>, b: seq<Event>) {
    exists at :: EmbedsAt(a, b, at)
  }

  /** The positions in the log of the events written so far. */
  predicate WrittenAt(s: Stream, at: seq<nat>) {
    && s.start <= s.cursor <= |s.log|
    && EmbedsAt(s.written, s.log, at)
    && (forall i :: 0 <= i < |at| ==> s.start <= at[i] < s.cursor)
    && |s.written| + s.lost == s.cursor - s.start
  }

  lemma {:induction false} PollKeepsPositions(s: Stream, arrived: seq<Event>, at: seq<nat>) returns (more: seq<nat>)
    requires WrittenAt(s, at)
    ensures WrittenAt(Poll(s, arrived), more)
  {
    var log := s.log + arrived;
    assert forall i :: 0 <= i < |s.log| ==> log[i] == s.log[i];
    more := if !Lags(s.cursor, log) && s.cursor < |log| then at + [s.cursor] else at;
  }

  lemma {:induction false} FollowKeepsPositions(history: seq<Event>, arrivals: seq<seq<Event>>) returns (at: seq<nat>)
    ensures WrittenAt(Follow(history, arrivals), at) && Follow(history, arrivals).start == |history|
    ensures history <= Follow(history, arrivals).log
  {
    if arrivals == [] {
      at := [];
    } else {
      var front, last := arrivals[..|arrivals| - 1], arrivals[|arrivals| - 1];
      at := FollowKeepsPositions(history, front);
      at := PollKeepsPositions(Follow(history, front), last, at);
    }
  }

  /** What a client receives is an order-preserving selection of the events dispatched after it
      subscribed, and every event up to its cursor was either written or lost to lag. */
  lemma {:induction false} StreamIsFaithful(history: seq<Event>, arrivals: seq<seq<Event>>)
    ensures var s := Follow(history, arrivals);
            && |history| <= s.cursor <= |s.log| && history <= s.log
            && IsSubsequence(s.written, s.log[|history|..])
            && |s.written| + s.lost == s.cursor - |history|
  {
    var s := Follow(history, arrivals);
    var at := FollowKeepsPositions(history, arrivals);
    var shifted := seq(|at|, i requires 0 <= i < |at| => at[i] - |history|);
    assert EmbedsAt(s.written, s.log[|history|..], shifted);
  }

  /** At no turn were more events waiting than the channel holds. */
  ghost predicate NeverFarBehind(history: seq<Event>, arrivals: seq<seq<Event>>) {
    forall k :: 0 <= k < |arrivals| ==> Backlog(history, arrivals, k) <= CAPACITY
  }

  function Backlog(history: seq<Event>, arrivals: seq<seq<Event>>, k: nat): int
    requires k < |arrivals|
  {
    var s := Follow(history, arrivals[..k]);
    |s.log| + |arrivals[k]| - s.cursor
  }

  lemma {:induction false} LostNothingIffKeptUp(history: seq<Event>, arrivals: seq<seq<Event>>)
    ensures Follow(history, arrivals).lost == 0 <==> NeverFarBehind(history, arrivals)
  {
    if arrivals != [] {
      var n := |arrivals| - 1;
      var front := arrivals[..n];
      LostNothingIffKeptUp(history, front);
      forall k | 0 <= k < n ensures Backlog(history, front, k) == Backlog(history, arrivals, k) {
        assert front[..k] == arrivals[..k];
      }
      var s := Follow(history, front);
      assert Lags(s.cursor, s.log + arrivals[n]) <==> Backlog(history, arrivals, n) > CAPACITY;
      StreamIsFaithful(history, front);
    }
  }

  /** A client that never falls more than a channel's length behind receives a gap-free prefix, and
      only such a client receives everything up to its cursor. */
  lemma {:induction false} GapFreeIffKeptUp(history: seq<Event>, arrivals: seq<seq<Event>>)
    ensures var s := Follow(history, arrivals);
            && |history| <= s.cursor <= |s.log|
            && (NeverFarBehind(history, arrivals) <==> |s.written| == s.cursor - |history|)
            && (NeverFarBehind(history, arrivals) ==> s.written == s.log[|history|..s.cursor])
  {
    StreamIsFaithful(history, arrivals);
    LostNothingIffKeptUp(history, arrivals);
    var s := Follow(history, arrivals);
    if s.lost == 0 {
      var at := FollowKeepsPositions(history, arrivals);
      DenseSelection(at, |history|, s.cursor);
      assert forall i :: 0 <= i < |s.written| ==> s.written[i] == s.log[|history| + i];
    }
  }

  /** Increasing positions that fill an interval are all of it, in order. */
  lemma {:induction false} DenseSelection(at: seq<nat>, lo: nat, hi: nat)
    requires lo <= hi && |at| == hi - lo
    requires forall i :: 0 <= i < |at| ==> lo <= at[i] < hi
    requires forall i, j :: 0 <= i < j < |at| ==> at[i] < at[j]
    ensures forall i :: 0 <= i < |at| ==> at[i] == lo + i
  {
    if |at| > 0 {
      var n := |at| - 1;
      assert at[n] == hi - 1 by {
        Spread(at, lo, n);
      }
      DenseSelection(at[..n], lo, hi - 1);
      assert forall i :: 0 <= i < n ==> at[..n][i] == at[i];
    }
  }

  lemma {:induction false} Spread(at: seq<nat>, lo: nat, k: nat)
    requires k < |at| && lo <= at[0]
    requires forall i, j :: 0 <= i < j < |at| ==> at[i] < at[j]
    ensures lo + k <= at[k]
  {
    if k > 0 { Spread(at, lo, k - 1); }
  }
}
