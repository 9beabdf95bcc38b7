/** The LRU-K evictor: truncated access histories against the full access trace. */
module LruK {
  import opened Wrappers

  type Frame = nat

  const USIZE_MAX: nat := 0xFFFF_FFFF_FFFF_FFFF

  datatype FrameInfo = FrameInfo(history: seq<nat>, evictable: bool)

  datatype EvictorError = NoVictimFound

  /** Accesses since a frame was last removed, oldest first. */
  type Trace = map<Frame, seq<nat>>

  /** The accesses to a frame since it was last removed. */
  function Past(trace: Trace, f: Frame): seq<nat> {
    if f in trace then trace[f] else []
  }

  /** No frame but this one gains or loses an access. */
  ghost predicate PastBut(was: Trace, now: Trace, f: Frame) {
    forall g {:trigger Past(now, g)} :: g != f ==> Past(now, g) == Past(was, g)
  }

  ghost predicate SamePast(was: Trace, now: Trace) {
    forall g {:trigger Past(now, g)} :: Past(now, g) == Past(was, g)
  }

  function LastOf(s: seq<nat>, k: nat): (r: seq<nat>)
    ensures |r| == if |s| < k then |s| else k
    ensures forall i :: 0 <= i < |r| ==> r[i] == s[|s| - |r| + i]
  {
    if |s| <= k then s else s[|s| - k..]
  }

  // ---------------------------------------------------------------- the rule on full traces

  /** Timestamps grow within a frame, lie below the clock and belong to one frame each. */
  ghost predicate Clocked(trace: Trace, clock: nat) {
    && (forall f, i, j :: f in trace && 0 <= i < j < |trace[f]| ==> trace[f][i] < trace[f][j])
    && (forall f, i :: f in trace && 0 <= i < |trace[f]| ==> trace[f][i] < clock)
    && (forall f, g, i, j :: f in trace && g in trace && f != g && 0 <= i < |trace[f]| && 0 <= j < |trace[g]| ==>
      trace[f][i] != trace[g][j])
  }

  /** Frame `f` goes before `g`: fewer than `k` accesses first, the earliest of those by first access;
      otherwise by the k-th most recent access. */
  ghost predicate Before(trace: Trace, k: nat, f: Frame, g: Frame)
    requires f in trace && g in trace && trace[f] != [] && trace[g] != [] && k > 0
  {
    if |trace[f]| < k then |trace[g]| < k ==> trace[f][0] < trace[g][0]
    else |trace[g]| >= k && trace[f][|trace[f]| - k] < trace[g][|trace[g]| - k]
  }

  ghost predicate Accessed(trace: Trace, fs: set<Frame>) {
    forall f {:trigger f in fs} :: f in fs ==> f in trace && trace[f] != []
  }

  /** The LRU-K choice among the candidates. */
  ghost predicate Victim(trace: Trace, k: nat, candidates: set<Frame>, v: Frame)
    requires k > 0 && Accessed(trace, candidates)
  {
    v in candidates && forall f :: f in candidates && f != v ==> Before(trace, k, v, f)
  }

  lemma BeforeOrAfter(trace: Trace, clock: nat, k: nat, f: Frame, g: Frame)
    requires Clocked(trace, clock) && k > 0 && Accessed(trace, {f, g}) && f != g
    ensures Before(trace, k, f, g) != Before(trace, k, g, f)
  {
    assert f in {f, g} && g in {f, g};
    assert trace[f][0] != trace[g][0];
    if |trace[f]| >= k && |trace[g]| >= k {
      assert trace[f][|trace[f]| - k] != trace[g][|trace[g]| - k];
    }
  }

  /** There is at most one choice, so no iteration order can matter. */
  lemma VictimUnique(trace: Trace, clock: nat, k: nat, candidates: set<Frame>, v: Frame, w: Frame)
    requires Clocked(trace, clock) && k > 0 && Accessed(trace, candidates)
    requires Victim(trace, k, candidates, v) && Victim(trace, k, candidates, w)
    ensures v == w
  {
    if v != w { BeforeOrAfter(trace, clock, k, v, w); }
  }

  lemma VictimIn(trace: Trace, k: nat, candidates: set<Frame>, v: Frame)
    requires k > 0 && Accessed(trace, candidates) && Victim(trace, k, candidates, v)
    ensures v in candidates
  {
  }

  /** One more candidate: the old choice stays unless the new frame goes before it. */
  lemma VictimStep(trace: Trace, clock: nat, k: nat, seen: set<Frame>, v: Frame, f: Frame)
    requires Clocked(trace, clock) && k > 0 && Accessed(trace, seen + {f}) && f !in seen && Victim(trace, k, seen, v)
    ensures Victim(trace, k, seen + {f}, if Before(trace, k, f, v) then f else v)
  {
    assert f in seen + {f};
    forall g | g in seen
      ensures g in seen + {f}
    {
    }
    BeforeOrAfter(trace, clock, k, f, v);
  }

  lemma LastOfPush(s: seq<nat>, k: nat, ts: nat)
    ensures var h := LastOf(s, k) + [ts];
      LastOf(s + [ts], k) == if |h| > k then h[1..] else h
  {
  }

  lemma LastOfNone(k: nat)
    ensures LastOf([], k) == []
  {
  }

  /** Each frame's history is the last `k` of its trace. */
  ghost predicate Histories(state: map<Frame, FrameInfo>, trace: Trace, k: nat) {
    trace.Keys == state.Keys && forall f {:trigger state[f]} :: f in state ==> state[f].history == LastOf(trace[f], k)
  }

  lemma HistoriesPush(state: map<Frame, FrameInfo>, trace: Trace, k: nat, f: Frame, ts: nat, evictable: bool)
    requires Histories(state, trace, k)
    ensures var h := (if f in state then state[f].history else []) + [ts];
      Histories(state[f := FrameInfo(if |h| > k then h[1..] else h, evictable)],
                trace[f := (if f in trace then trace[f] else []) + [ts]], k)
  {
    hide LastOf;
    LastOfPush(if f in trace then trace[f] else [], k, ts);
    LastOfNone(k);
  }

  lemma SetFlag(state: map<Frame, FrameInfo>, trace: Trace, clock: nat, k: nat, f: Frame, evictable: bool)
    requires Histories(state, trace, k) && Clocked(trace, clock)
    ensures var info := if f in state then state[f] else FrameInfo([], evictable);
      var trace' := if f in trace then trace else trace[f := []];
      Histories(state[f := info.(evictable := evictable)], trace', k) && Clocked(trace', clock)
  {
    hide LastOf;
    LastOfNone(k);
  }

  lemma ClockedPush(trace: Trace, clock: nat, f: Frame)
    requires Clocked(trace, clock)
    ensures Clocked(trace[f := (if f in trace then trace[f] else []) + [clock]], clock + 1)
  {
  }

  /** What the running best says about the frames seen so far. */
  ghost predicate Leads(trace: Trace, clock: nat, k: nat, seen: set<Frame>, victim: Option<Frame>, maxDistance: nat,
                        earliest: nat) {
    if victim.None? then seen == {} && maxDistance == 0 && earliest == USIZE_MAX
    else
      && k > 0 && Accessed(trace, seen) && victim.value in seen && Victim(trace, k, seen, victim.value)
      && var t := trace[victim.value];
      if |t| < k then maxDistance == USIZE_MAX && earliest == t[0]
      else earliest == USIZE_MAX && maxDistance as int == clock - t[|t| - k]
  }

  /** The comparisons of a history's front with the running bests are the rule on full traces. */
  lemma Decides(trace: Trace, clock: nat, k: nat, seen: set<Frame>, victim: Option<Frame>, maxDistance: nat,
                earliest: nat, f: Frame, h: seq<nat>)
    requires Clocked(trace, clock) && clock < USIZE_MAX && k > 0 && f in trace && f !in seen && trace[f] != []
    requires Leads(trace, clock, k, seen, victim, maxDistance, earliest)
    requires |h| == (if |trace[f]| < k then |trace[f]| else k) && h[0] == trace[f][|trace[f]| - |h|] && h[0] < clock
    ensures var more := seen + {f};
      && (|h| < k && h[0] < earliest ==> Leads(trace, clock, k, more, Some(f), USIZE_MAX, h[0]))
      && (|h| < k && h[0] >= earliest ==> Leads(trace, clock, k, more, victim, maxDistance, earliest))
      && (|h| >= k && maxDistance < USIZE_MAX && clock - h[0] > maxDistance ==>
        Leads(trace, clock, k, more, Some(f), clock - h[0], earliest))
      && (|h| >= k && (maxDistance >= USIZE_MAX || clock - h[0] <= maxDistance) ==>
        Leads(trace, clock, k, more, victim, maxDistance, earliest))
  {
    hide Clocked, Victim;
    if victim.Some? {
      InTrace(trace, clock, victim.value, 0);
      assert Accessed(trace, seen + {f});
      VictimStep(trace, clock, k, seen, victim.value, f);
    } else {
      FirstVictim(trace, k, f);
      assert seen + {f} == {f};
    }
  }

  lemma InTrace(trace: Trace, clock: nat, f: Frame, i: nat)
    requires Clocked(trace, clock) && f in trace && i < |trace[f]|
    ensures trace[f][i] < clock
  {
  }

  lemma FirstVictim(trace: Trace, k: nat, f: Frame)
    requires f in trace && trace[f] != [] && k > 0
    ensures Accessed(trace, {f}) && Victim(trace, k, {f}, f)
  {
  }

  class Evictor {
    const k: nat
    var clock: nat
    var state: map<Frame, FrameInfo>
    ghost var trace: Trace

    ghost predicate Valid()
      reads this
    {
      clock < USIZE_MAX && Clocked(trace, clock) && Histories(state, trace, k)
    }

    /** The frames a victim may be picked from. */
    ghost function Candidates(): set<Frame>
      reads this
    {
      set f | f in state && state[f].evictable && state[f].history != []
    }

    /** A frame may be picked if it is marked evictable and has an access, when any are remembered. */
    lemma CandidateIff(f: Frame)
      requires Valid()
      ensures f in Candidates() <==> f in state && state[f].evictable && k > 0 && Past(trace, f) != []
    {
      if f in state { assert state[f].history == LastOf(trace[f], k); }
    }

    constructor (k: nat)
      ensures Valid() && this.k == k && state == map[] && clock == 0
    {
      this.k := k;
      clock, state, trace := 0, map[], map[];
    }

    /** A victim is found exactly when there is a candidate, and it is the one the full trace dictates. */
    method FindVictim() returns (r: Result<Frame, EvictorError>)
      requires Valid()
      ensures r.Err? <==> Candidates() == {}
      ensures r.Ok? ==> k > 0 && Accessed(trace, Candidates()) && Victim(trace, k, Candidates(), r.value)
    {
      hide Clocked, Histories, Victim, Leads, Accessed, Candidates;
      var victim: Option<Frame> := None;
      var maxDistance: nat := 0;
      var earliest: nat := USIZE_MAX;
      var todo := state.Keys;
      NothingSeen();
      while todo != {}
        invariant todo <= state.Keys
        invariant Leads(trace, clock, k, Candidates() - todo, victim, maxDistance, earliest)
        decreases |todo|
      {
        var frame :| frame in todo;
        var info := state[frame];
        SeenStep(todo, frame);
        if info.evictable && info.history != [] {
          OldestKept(frame);
          Decides(trace, clock, k, Candidates() - todo, victim, maxDistance, earliest, frame, info.history);
          if |info.history| < k {
            var firstAccess := info.history[0];
            if firstAccess < earliest {
              earliest, victim, maxDistance := firstAccess, Some(frame), USIZE_MAX;
            }
          } else if maxDistance < USIZE_MAX {
            var kthAccess := info.history[0];
            var distance := if clock < kthAccess then 0 else clock - kthAccess;
            if distance > maxDistance {
              maxDistance, victim := distance, Some(frame);
            }
          }
        }
        todo := todo - {frame};
      }
      assert Candidates() - {} == Candidates();
      Concludes(victim, maxDistance, earliest);
      return if victim.Some? then Ok(victim.value) else Err(NoVictimFound);
    }

    /** The frames looked at grow by the next one if it is a candidate. */
    lemma SeenStep(todo: set<Frame>, f: Frame)
      requires f in todo && todo <= state.Keys
      ensures var isCandidate := state[f].evictable && state[f].history != [];
        && Candidates() - (todo - {f}) == (if isCandidate then Candidates() - todo + {f} else Candidates() - todo)
        && (f in Candidates() <==> isCandidate) && f !in Candidates() - todo
    {
    }

    lemma NothingSeen()
      requires Valid()
      ensures Candidates() - state.Keys == {} && Leads(trace, clock, k, {}, None, 0, USIZE_MAX)
    {
      assert Candidates() - state.Keys == {};
    }

    lemma Concludes(victim: Option<Frame>, maxDistance: nat, earliest: nat)
      requires Valid() && Leads(trace, clock, k, Candidates(), victim, maxDistance, earliest)
      ensures victim.None? <==> Candidates() == {}
      ensures victim.Some? ==> k > 0 && Accessed(trace, Candidates()) && Victim(trace, k, Candidates(), victim.value)
    {
    }

    /** A history holds every access while there are fewer than `k`; after that its front is the k-th most recent. */
    lemma OldestKept(f: Frame)
      requires Valid() && f in state && state[f].history != []
      ensures k > 0 && f in trace && trace[f] != [] && |state[f].history| == (if |trace[f]| < k then |trace[f]| else k)
      ensures state[f].history[0] == trace[f][|trace[f]| - |state[f].history|]
      ensures state[f].history[0] < clock
    {
      var t, h := trace[f], state[f].history;
      assert h[0] == t[|t| - |h|] by {
        hide Clocked;
      }
      assert f in trace && t[|t| - |h|] < clock;
    }

    /** Note one access; the history stays the last `k` of the trace. */
    method RecordAccess(frame: Frame)
      requires Valid() && clock + 1 < USIZE_MAX
      modifies this
      ensures Valid() && clock == old(clock) + 1
      ensures trace == old(trace)[frame := Past(old(trace), frame) + [old(clock)]]
      ensures state.Keys == old(state).Keys + {frame}
      ensures forall f :: f in old(state) ==> state[f].evictable == old(state)[f].evictable
      ensures frame !in old(state) ==> !state[frame].evictable
    {
      hide Clocked, Histories;
      var ts := clock;
      HistoriesPush(state, trace, k, frame, ts, frame in state && state[frame].evictable);
      ClockedPush(trace, clock, frame);
      clock := clock + 1;
      var info := if frame in state then state[frame] else FrameInfo([], false);
      var history := info.history + [ts];
      if |history| > k { history := history[1..]; }
      trace := trace[frame := (if frame in trace then trace[frame] else []) + [ts]];
      state := state[frame := FrameInfo(history, info.evictable)];
    }

    method SetEvictable(frame: Frame, evictable: bool)
      requires Valid()
      modifies this
      ensures Valid() && clock == old(clock)
      ensures trace == if frame in old(trace) then old(trace) else old(trace)[frame := []]
      ensures state.Keys == old(state).Keys + {frame} && state[frame].evictable == evictable
      ensures forall f :: f in old(state) && f != frame ==> state[f] == old(state)[f]
    {
      hide Clocked, Histories;
      SetFlag(state, trace, clock, k, frame, evictable);
      var info := if frame in state then state[frame] else FrameInfo([], evictable);
      trace := if frame in trace then trace else trace[frame := []];
      state := state[frame := info.(evictable := evictable)];
    }

    method RemoveFrame(frame: Frame)
      requires Valid()
      modifies this
      ensures Valid() && clock == old(clock)
      ensures state == old(state) - {frame} && trace == old(trace) - {frame}
    {
      state, trace := state - {frame}, trace - {frame};
    }
  }
}
