/** The sliding-window algorithm shared by the bot's command limiter and the
    dashboard's login limiter: each key keeps the timestamps of its admitted
    calls; a call first drops the timestamps at or before `now - window`, then
    is admitted, and `now` recorded, only while fewer than `maxCalls` remain. */
module SlidingWindow {

  /** `[t for t in ts if t > cutoff]`: the timestamps newer than the cutoff, in order. */
  function Recent(ts: seq<int>, cutoff: int): (r: seq<int>)
    ensures |r| <= |ts|
    ensures forall i :: 0 <= i < |r| ==> r[i] > cutoff
    ensures forall t :: t in r <==> t in ts && t > cutoff
    ensures forall t :: multiset(r)[t] == if t > cutoff then multiset(ts)[t] else 0
  {
    if ts == [] then []
    else
      var last := ts[|ts| - 1];
      var rest := Recent(ts[..|ts| - 1], cutoff);
      assert ts == ts[..|ts| - 1] + [last];
      if last > cutoff then rest + [last] else rest
  }

  /** Pruning works piece by piece: the pruned concatenation is the
      concatenation of the pruned pieces. With the single-entry case this
      fixes the order in which `Recent` keeps the timestamps. */
  lemma {:induction false} RecentAppend(a: seq<int>, b: seq<int>, cutoff: int)
    ensures Recent(a + b, cutoff) == Recent(a, cutoff) + Recent(b, cutoff)
    decreases |b|
  {
    if b == [] {
      assert a + b == a;
    } else {
      var init := b[..|b| - 1];
      RecentAppend(a, init, cutoff);
      assert (a + b)[..|a + b| - 1] == a + init;
    }
  }

  /** A single timestamp is kept exactly when it is newer than the cutoff. */
  lemma RecentSingle(t: int, cutoff: int)
    ensures Recent([t], cutoff) == if t > cutoff then [t] else []
  {
    assert [t][..0] == [];
  }

  /** The pruning loop of `is_allowed`. */
  method KeepRecent(ts: seq<int>, cutoff: int) returns (kept: seq<int>)
    ensures kept == Recent(ts, cutoff)
  {
    kept := [];
    var i := 0;
    while i < |ts|
      invariant 0 <= i <= |ts|
      invariant kept == Recent(ts[..i], cutoff)
    {
      assert ts[..i + 1][..i] == ts[..i];
      if ts[i] > cutoff {
        kept := kept + [ts[i]];
      }
      i := i + 1;
    }
    assert ts[..|ts|] == ts;
  }

  /** The most entries a key's history can hold: `maxCalls`, or none when it is not positive. */
  function Cap(maxCalls: int): nat
  {
    if maxCalls < 0 then 0 else maxCalls
  }

  /** What one call decides, and the key's history after it. */
  datatype Decision = Decision(admitted: bool, history: seq<int>)

  /** One `is_allowed` call at time `now` on a key whose history is `ts`. */
  function Step(ts: seq<int>, now: int, window: int, maxCalls: int): Decision
  {
    var kept := Recent(ts, now - window);
    if |kept| < maxCalls then Decision(true, kept + [now]) else Decision(false, kept)
  }

  /** Pruning keeps a history whose entries are all inside the window. */
  lemma {:induction false} RecentOfFresh(ts: seq<int>, cutoff: int)
    requires forall i :: 0 <= i < |ts| ==> ts[i] > cutoff
    ensures Recent(ts, cutoff) == ts
  {
    if ts != [] {
      RecentOfFresh(ts[..|ts| - 1], cutoff);
      assert ts == ts[..|ts| - 1] + [ts[|ts| - 1]];
    }
  }

  /** Pruning a history with a stale entry shortens it. */
  lemma {:induction false} RecentDropsStale(ts: seq<int>, cutoff: int, i: int)
    requires 0 <= i < |ts| && ts[i] <= cutoff
    ensures |Recent(ts, cutoff)| < |ts|
  {
    var init := ts[..|ts| - 1];
    if i < |ts| - 1 {
      assert init[i] == ts[i];
      RecentDropsStale(init, cutoff, i);
    }
  }

  /** A history within the cap stays within it; after a call every entry
      is inside the window ending at `now`, and the only timestamp a call
      adds is one copy of `now`. */
  lemma StepKeepsInvariant(ts: seq<int>, now: int, window: int, maxCalls: int)
    requires |ts| <= Cap(maxCalls)
    requires window > 0
    ensures |Step(ts, now, window, maxCalls).history| <= Cap(maxCalls)
    ensures forall t :: t in Step(ts, now, window, maxCalls).history ==> now - window < t && (t == now || t in ts)
    ensures multiset(Step(ts, now, window, maxCalls).history) <= multiset(ts) + multiset{now}
  {
    var kept := Recent(ts, now - window);
    assert multiset(kept) <= multiset(ts);
  }

  /** A rejected call records nothing: the history is only pruned. */
  lemma StepRejectedRecordsNothing(ts: seq<int>, now: int, window: int, maxCalls: int)
    requires !Step(ts, now, window, maxCalls).admitted
    ensures Step(ts, now, window, maxCalls).history == Recent(ts, now - window)
    ensures |Step(ts, now, window, maxCalls).history| >= maxCalls
  {
  }

  /** When `maxCalls` calls are still inside the window, the next is rejected
      and the history is kept as it is. */
  lemma FullWindowRejects(ts: seq<int>, now: int, window: int, maxCalls: int)
    requires |ts| >= maxCalls
    requires forall i :: 0 <= i < |ts| ==> ts[i] > now - window
    ensures Step(ts, now, window, maxCalls) == Decision(false, ts)
  {
    RecentOfFresh(ts, now - window);
  }

  /** Once the oldest recorded call has left the window, a key within its
      cap is admitted again. */
  lemma AdmittedAfterOldestExpires(ts: seq<int>, now: int, window: int, maxCalls: int)
    requires |ts| <= Cap(maxCalls)
    requires ts != [] && ts[0] <= now - window
    ensures Step(ts, now, window, maxCalls).admitted
  {
    RecentDropsStale(ts, now - window, 0);
  }

  /** After a reset (an empty history) the next call is admitted exactly when
      `maxCalls` is positive. */
  lemma ResetThenAdmitted(now: int, window: int, maxCalls: int)
    ensures Step([], now, window, maxCalls).admitted <==> maxCalls > 0
  {
  }

  /** The history after one call at each time of `nows`, in order, starting from `ts`. */
  function Replay(ts: seq<int>, nows: seq<int>, window: int, maxCalls: int): seq<int>
  {
    if nows == [] then ts
    else Step(Replay(ts, nows[..|nows| - 1], window, maxCalls), nows[|nows| - 1], window, maxCalls).history
  }

  /** A call on a history inside the window and under the cap is admitted and appended. */
  lemma FreshStepAppends(ts: seq<int>, now: int, window: int, maxCalls: int)
    requires |ts| < maxCalls
    requires forall i :: 0 <= i < |ts| ==> ts[i] > now - window
    ensures Step(ts, now, window, maxCalls) == Decision(true, ts + [now])
  {
    RecentOfFresh(ts, now - window);
  }

  /** Up to `maxCalls` calls that all fall inside one window leave exactly
      their timestamps as the history. */
  lemma {:induction false} BurstHistory(nows: seq<int>, lo: int, window: int, maxCalls: int)
    requires |nows| <= maxCalls
    requires forall i :: 0 <= i < |nows| ==> lo <= nows[i] < lo + window
    ensures Replay([], nows, window, maxCalls) == nows
  {
    if nows != [] {
      var n := |nows| - 1;
      var init, now := nows[..n], nows[n];
      assert forall i :: 0 <= i < |init| ==> init[i] == nows[i];
      BurstHistory(init, lo, window, maxCalls);
      FreshStepAppends(init, now, window, maxCalls);
      assert init + [now] == nows;
    }
  }

  /** Each of up to `maxCalls` calls that all fall inside one window is admitted. */
  lemma BurstAdmitted(nows: seq<int>, lo: int, window: int, maxCalls: int, k: int)
    requires |nows| <= maxCalls
    requires forall i :: 0 <= i < |nows| ==> lo <= nows[i] < lo + window
    requires 0 <= k < |nows|
    ensures Step(Replay([], nows[..k], window, maxCalls), nows[k], window, maxCalls).admitted
  {
    var init := nows[..k];
    assert forall i :: 0 <= i < |init| ==> init[i] == nows[i];
    BurstHistory(init, lo, window, maxCalls);
    FreshStepAppends(init, nows[k], window, maxCalls);
  }

  /** After `maxCalls` admitted calls inside one window, a further call in
      the same window is rejected. */
  lemma BurstThenRejected(nows: seq<int>, lo: int, window: int, maxCalls: int, next: int)
    requires |nows| == maxCalls
    requires forall i :: 0 <= i < |nows| ==> lo <= nows[i] < lo + window
    requires lo <= next < lo + window
    ensures !Step(Replay([], nows, window, maxCalls), next, window, maxCalls).admitted
  {
    BurstHistory(nows, lo, window, maxCalls);
    FullWindowRejects(nows, next, window, maxCalls);
  }
}
