/**
 * The quintuple-tap recogniser: a counter of press-downs that a one-second
 * decay timer resets to zero, and that fires its action when it reaches five.
 * Time is the order of inputs: the timer's expiry is an input of its own.
 */
module QuintupleTap {

  /** MotionEvent's action code for a press-down. */
  const ACTION_DOWN := 0

  /** The count at which the action fires. */
  const QUINTUPLE := 5

  /** tapCounter, and whether a decay timer has been started and has not yet expired. */
  datatype Taps = Taps(counter: int, decayPending: bool)

  /** What reaches the recogniser: a touch with its action code, or the expiry of the decay timer. */
  datatype Input = Touch(action: int) | DecayExpired

  const Idle := Taps(0, false)

  /** A decay timer is pending exactly while the count is positive. */
  predicate Consistent(t: Taps) {
    t.counter >= 0 && (t.counter > 0 <==> t.decayPending)
  }

  /** Only a started timer can expire. */
  predicate Enabled(t: Taps, i: Input) {
    i.DecayExpired? ==> t.decayPending
  }

  predicate IsDown(i: Input) {
    i.Touch? && i.action == ACTION_DOWN
  }

  /** The recogniser starts a decay timer on this input. */
  predicate StartsDecay(t: Taps, i: Input) {
    IsDown(i) && t.counter == 0
  }

  /** The action fires on this input. */
  predicate Fires(t: Taps, i: Input) {
    IsDown(i) && t.counter + 1 == QUINTUPLE
  }

  /** The state after one input. */
  function Next(t: Taps, i: Input): (r: Taps)
    ensures Consistent(t) && Enabled(t, i) ==> Consistent(r)
    ensures !IsDown(i) && !i.DecayExpired? ==> r == t
    ensures IsDown(i) ==> r.counter == t.counter + 1 && r.decayPending
    ensures i.DecayExpired? ==> r == Idle
    ensures Fires(t, i) <==> IsDown(i) && r.counter == QUINTUPLE
  {
    match i
    case Touch(action) =>
      if action == ACTION_DOWN then Taps(t.counter + 1, true) else t
    case DecayExpired => Idle
  }

  /** Every input of the run can happen when it arrives. */
  predicate Feasible(t: Taps, inputs: seq<Input>)
    decreases |inputs|
  {
    inputs == [] || (Enabled(t, inputs[0]) && Feasible(Next(t, inputs[0]), inputs[1..]))
  }

  /** The state after a run of inputs. */
  function Final(t: Taps, inputs: seq<Input>): Taps
    decreases |inputs|
  {
    if inputs == [] then t else Final(Next(t, inputs[0]), inputs[1..])
  }

  /** How often the action fires during a run. */
  function FireCount(t: Taps, inputs: seq<Input>): nat
    decreases |inputs|
  {
    if inputs == [] then 0
    else (if Fires(t, inputs[0]) then 1 else 0) + FireCount(Next(t, inputs[0]), inputs[1..])
  }

  /** How many decay timers a run starts. */
  function DecayStarts(t: Taps, inputs: seq<Input>): nat
    decreases |inputs|
  {
    if inputs == [] then 0
    else (if StartsDecay(t, inputs[0]) then 1 else 0) + DecayStarts(Next(t, inputs[0]), inputs[1..])
  }

  /** n press-downs. */
  function Downs(n: nat): (r: seq<Input>)
    ensures |r| == n && forall k :: 0 <= k < n ==> IsDown(r[k])
  {
    seq(n, _ => Touch(ACTION_DOWN))
  }

  predicate NoDecay(inputs: seq<Input>) {
    forall k :: 0 <= k < |inputs| ==> !inputs[k].DecayExpired?
  }

  /**
   * Within one decay window (no expiry in between) the action fires at most
   * once, and not at all once the count has passed five; the decay timer is
   * started at most once, and only if the window began at zero.
   */
  lemma {:induction false} AtMostOncePerWindow(t: Taps, inputs: seq<Input>)
    requires Consistent(t) && NoDecay(inputs)
    ensures FireCount(t, inputs) <= (if t.counter < QUINTUPLE then 1 else 0)
    ensures DecayStarts(t, inputs) <= (if t.counter == 0 then 1 else 0)
    ensures Final(t, inputs).counter >= t.counter
    decreases |inputs|
  {
    if inputs != [] {
      assert NoDecay(inputs[1..]) by {
        forall k | 0 <= k < |inputs[1..]| ensures !inputs[1..][k].DecayExpired? {
          assert inputs[1..][k] == inputs[k + 1];
        }
      }
      var t' := Next(t, inputs[0]);
      AtMostOncePerWindow(t', inputs[1..]);
    }
  }

  /** n press-downs raise the count by n and fire once exactly when they carry it from below five to five or more. */
  lemma {:induction false} DownsRun(t: Taps, n: nat)
    requires Consistent(t)
    ensures Final(t, Downs(n)) == if n == 0 then t else Taps(t.counter + n, true)
    ensures FireCount(t, Downs(n)) == if t.counter < QUINTUPLE <= t.counter + n then 1 else 0
    ensures Feasible(t, Downs(n))
    decreases n
  {
    if n > 0 {
      assert Downs(n)[1..] == Downs(n - 1);
      DownsRun(Next(t, Downs(n)[0]), n - 1);
    }
  }

  lemma {:induction false} RunAppend(t: Taps, a: seq<Input>, b: seq<Input>)
    ensures Final(t, a + b) == Final(Final(t, a), b)
    ensures FireCount(t, a + b) == FireCount(t, a) + FireCount(Final(t, a), b)
    ensures Feasible(t, a + b) <==> Feasible(t, a) && Feasible(Final(t, a), b)
    decreases |a|
  {
    if a == [] {
      assert a + b == b;
    } else {
      assert (a + b)[0] == a[0];
      assert (a + b)[1..] == a[1..] + b;
      RunAppend(Next(t, a[0]), a[1..], b);
    }
  }

  /** Five press-downs within one second fire the action once. */
  lemma FiveDownsFireOnce()
    ensures Feasible(Idle, Downs(5)) && FireCount(Idle, Downs(5)) == 1
  {
    DownsRun(Idle, 5);
  }

  /** Four press-downs, the window running out, and one more press-down do not fire. */
  lemma FourDownsPauseOneDownDoNotFire()
    ensures Feasible(Idle, Downs(4) + [DecayExpired] + Downs(1))
    ensures FireCount(Idle, Downs(4) + [DecayExpired] + Downs(1)) == 0
  {
    DownsRun(Idle, 4);
    var t4 := Final(Idle, Downs(4));
    assert FireCount(t4, [DecayExpired]) == 0 && Final(t4, [DecayExpired]) == Idle;
    assert Feasible(t4, [DecayExpired]);
    RunAppend(Idle, Downs(4), [DecayExpired]);
    DownsRun(Idle, 1);
    RunAppend(Idle, Downs(4) + [DecayExpired], Downs(1));
  }
}
