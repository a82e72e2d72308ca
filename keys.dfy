/** Delayed auto shift and auto repeat for held keys (script.js `DAS_DELAY`,
    `ARR_DELAY`, the `keyState` and `keyTimers` tables and `handleInput`). A
    timer of 0, or none at all, means "fire on the next frame". */
module Keys {

  const KeyEnter: int := 13
  const KeyShift: int := 16
  const KeyEscape: int := 27
  const KeySpace: int := 32
  const KeyLeft: int := 37
  const KeyUp: int := 38
  const KeyRight: int := 39
  const KeyDown: int := 40
  const KeyC: int := 67
  const KeyP: int := 80
  const KeyQ: int := 81
  const KeyW: int := 87

  /** Milliseconds before a held Left or Right key starts repeating. */
  const DasDelay: int := 150
  /** Milliseconds between repeats. */
  const ArrDelay: int := 50

  /** Whether `keyState[k]` is truthy. */
  predicate Held(state: map<int, bool>, k: int) {
    k in state && state[k]
  }

  /** `keyTimers[k]`, with a missing entry read as 0 (both are falsy). */
  function TimerOf(timers: map<int, int>, k: int): int {
    if k in timers then timers[k] else 0
  }

  /** The delay scheduled after the first firing: Down repeats at the
      repeat rate from the start, Left and Right wait for the longer delay. */
  function FirstDelay(k: int): (d: int)
    ensures d == ArrDelay || d == DasDelay
    ensures k == KeyDown <==> d == ArrDelay
  {
    if k == KeyDown then ArrDelay else DasDelay
  }

  /** A held key fires when its timer is unset or the frame time is
      strictly past it. */
  predicate Due(timer: int, time: int) {
    timer == 0 || time > timer
  }

  /** The timer after a frame at `time` for a held key whose first firing
      schedules `first` milliseconds ahead. */
  function NextTimer(timer: int, time: int, first: int): int {
    if timer == 0 then time + first
    else if time > timer then time + ArrDelay
    else timer
  }

  /** One key's part of `handleInput`: if the key is held and its timer is
      due, it fires and the timer is set `first` milliseconds ahead on a
      first firing, `ArrDelay` ahead on a repeat; otherwise the table is
      left as it is. */
  function Rearm(timers: map<int, int>, state: map<int, bool>, k: int, time: int): (r: map<int, int>)
    ensures Held(state, k) && Due(TimerOf(timers, k), time) ==> k in r
    ensures forall k' :: k' != k ==> (k' in r <==> k' in timers)
  {
    if Held(state, k) && Due(TimerOf(timers, k), time) then
      timers[k := NextTimer(TimerOf(timers, k), time, FirstDelay(k))]
    else timers
  }

  /** Rearming a key moves its timer exactly as `NextTimer` does while the
      key is held, and touches no other key's timer. */
  lemma RearmFollowsNextTimer(timers: map<int, int>, state: map<int, bool>, k: int, time: int)
    ensures TimerOf(Rearm(timers, state, k, time), k) ==
      if Held(state, k) then NextTimer(TimerOf(timers, k), time, FirstDelay(k)) else TimerOf(timers, k)
    ensures forall k' :: k' != k ==> TimerOf(Rearm(timers, state, k, time), k') == TimerOf(timers, k')
  {
  }

  /** A first firing schedules Left and Right 150 ms ahead and Down 50 ms
      ahead; a repeat schedules every key 50 ms ahead; a key that is not
      due keeps its timer. */
  lemma RearmDelays(timers: map<int, int>, state: map<int, bool>, k: int, time: int)
    requires Held(state, k)
    ensures TimerOf(timers, k) == 0 ==>
      TimerOf(Rearm(timers, state, k, time), k) == time + (if k == KeyDown then 50 else 150)
    ensures TimerOf(timers, k) != 0 && time > TimerOf(timers, k) ==>
      TimerOf(Rearm(timers, state, k, time), k) == time + 50
    ensures TimerOf(timers, k) != 0 && time <= TimerOf(timers, k) ==>
      Rearm(timers, state, k, time) == timers
  {
  }

  ghost predicate Increasing(frames: seq<int>) {
    forall i, j :: 0 <= i < j < |frames| ==> frames[i] < frames[j]
  }

  /** The frame times at which a key held through all of `frames` fires,
      starting from timer `timer`. */
  ghost function FireTimes(frames: seq<int>, timer: int, first: int): seq<int> {
    if frames == [] then []
    else
      (if Due(timer, frames[0]) then [frames[0]] else [])
      + FireTimes(frames[1..], NextTimer(timer, frames[0], first), first)
  }

  /** Once a timer is set, the key next fires strictly after it, and every
      later firing comes strictly more than the repeat delay after the one
      before. */
  lemma {:induction false} RepeatsNoFasterThanArr(frames: seq<int>, timer: int, first: int)
    requires timer > 0 && Increasing(frames)
    ensures forall k :: 0 <= k < |FireTimes(frames, timer, first)| ==> FireTimes(frames, timer, first)[k] > timer
    ensures forall k :: 0 <= k < |FireTimes(frames, timer, first)| - 1 ==>
      FireTimes(frames, timer, first)[k + 1] > FireTimes(frames, timer, first)[k] + ArrDelay
  {
    if frames != [] {
      var rest := frames[1..];
      assert Increasing(rest);
      if Due(timer, frames[0]) {
        var t' := frames[0] + ArrDelay;
        RepeatsNoFasterThanArr(rest, t', first);
        assert FireTimes(frames, timer, first) == [frames[0]] + FireTimes(rest, t', first);
        forall k | 0 <= k < |FireTimes(rest, t', first)| ensures FireTimes(rest, t', first)[k] > frames[0] {
        }
      } else {
        RepeatsNoFasterThanArr(rest, timer, first);
      }
    }
  }

  /** A fresh press fires on the first frame; the second firing comes
      strictly more than `first` milliseconds later and the following ones
      strictly more than the repeat delay apart. */
  lemma PressThenRepeat(frames: seq<int>, first: int)
    requires frames != [] && frames[0] >= 0 && first > 0 && Increasing(frames)
    ensures |FireTimes(frames, 0, first)| >= 1 && FireTimes(frames, 0, first)[0] == frames[0]
    ensures |FireTimes(frames, 0, first)| >= 2 ==>
      FireTimes(frames, 0, first)[1] > frames[0] + first
    ensures forall k :: 1 <= k < |FireTimes(frames, 0, first)| - 1 ==>
      FireTimes(frames, 0, first)[k + 1] > FireTimes(frames, 0, first)[k] + ArrDelay
  {
    var rest := frames[1..];
    assert Increasing(rest);
    RepeatsNoFasterThanArr(rest, frames[0] + first, first);
  }

  /** A key whose timer is set fires on the very first frame strictly after
      the timer, however far apart the frames are. */
  lemma {:induction false} FiresOnFirstFrameAfterDeadline(frames: seq<int>, timer: int, first: int, i: nat)
    requires timer != 0
    requires i < |frames| && frames[i] > timer
    requires forall k :: 0 <= k < i ==> frames[k] <= timer
    ensures |FireTimes(frames, timer, first)| > 0 && FireTimes(frames, timer, first)[0] == frames[i]
  {
    if i > 0 {
      FiresOnFirstFrameAfterDeadline(frames[1..], timer, first, i - 1);
    }
  }

  /** With a frame every 50 ms, a held Left key fires at 0, 200 and 300 ms
      and not at 150 or 250: each firing waits for the first frame strictly
      after its deadline, so the repeat period becomes 100 ms. */
  lemma FiftyMillisecondFrames()
    ensures FireTimes([0, 50, 100, 150, 200, 250, 300], 0, FirstDelay(KeyLeft)) == [0, 200, 300]
  {
  }
}
