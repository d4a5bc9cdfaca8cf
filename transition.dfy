/** The per-device reconciliation of PiHoleAlerts: the stored
    `{status, notified}` record is brought in line with the fresh
    observation, and a notification is due only on a change when the
    previous run sent no notification for the device. */
module Transition {

  /** The record kept for one device in the configuration file. */
  datatype DeviceState = DeviceState(status: bool, notified: bool)

  /** The new record of one device, and whether a notification is sent. */
  datatype StepResult = StepResult(state: DeviceState, emit: bool)

  /** One cycle for one device, given whether it is active now. The status
      always follows the observation and `notified` records whether this
      cycle sent a notification; one is sent for a change of status, unless
      the previous run already sent one. */
  function Step(s: DeviceState, active: bool): (r: StepResult)
    ensures r.state.status == active
    ensures r.state.notified == r.emit
    ensures r.emit ==> active != s.status
    ensures s.notified ==> !r.emit
    ensures active != s.status && !s.notified ==> r.emit
  {
    var changeFlag := active != s.status && !s.notified;
    StepResult(DeviceState(active, changeFlag), changeFlag)
  }

  /** The four rows of the transition table: whatever the prior record, the
      status follows the observation; a notification goes out exactly when
      the observation differs from the stored status and the previous run
      sent no notification, and `notified` is
      left true exactly then. */
  lemma StepTable(x: bool)
    ensures Step(DeviceState(x, true), x) == StepResult(DeviceState(x, false), false)
    ensures Step(DeviceState(x, true), !x) == StepResult(DeviceState(!x, false), false)
    ensures Step(DeviceState(x, false), x) == StepResult(DeviceState(x, false), false)
    ensures Step(DeviceState(x, false), !x) == StepResult(DeviceState(!x, true), true)
  {
  }

  /** Feeding the same observation twice: the second cycle is silent and
      leaves the status as it is. */
  lemma RepeatedObservationIsSilent(s: DeviceState, active: bool)
    ensures !Step(Step(s, active).state, active).emit
    ensures Step(Step(s, active).state, active).state.status == active
  {
  }

  /** A reversal in the cycle right after a notification is not reported:
      the status flips back and the flag is cleared. */
  lemma ReversalAfterNotificationIsSilent(s: DeviceState, active: bool)
    requires Step(s, active).emit
    ensures Step(Step(s, active).state, !active) == StepResult(DeviceState(!active, false), false)
  {
  }

  /* ---------- Several cycles of one device ---------- */

  /** Whether a notification is sent in each cycle, for a run of observations. */
  function Emits(s: DeviceState, observations: seq<bool>): (r: seq<bool>)
    ensures |r| == |observations|
    decreases |observations|
  {
    if observations == [] then []
    else
      var step := Step(s, observations[0]);
      [step.emit] + Emits(step.state, observations[1..])
  }

  /** The record of the device after a run of observations. */
  function After(s: DeviceState, observations: seq<bool>): (r: DeviceState)
    ensures observations != [] ==> r.status == observations[|observations| - 1]
    ensures observations == [] ==> r == s
    decreases |observations|
  {
    if observations == [] then s
    else After(Step(s, observations[0]).state, observations[1..])
  }

  /** The number of true flags. */
  function Count(flags: seq<bool>): nat
  {
    if flags == [] then 0 else (if flags[0] then 1 else 0) + Count(flags[1..])
  }

  /** The number of cycles whose observation differs from the status stored
      before it, starting from `status`. */
  function Flips(status: bool, observations: seq<bool>): nat
    decreases |observations|
  {
    if observations == [] then 0
    else (if observations[0] != status then 1 else 0) + Flips(observations[0], observations[1..])
  }

  /** The same observation `n` times over. */
  function Repeat(active: bool, n: nat): (r: seq<bool>)
    ensures |r| == n
  {
    if n == 0 then [] else [active] + Repeat(active, n - 1)
  }

  /** No device is reported in two consecutive cycles. */
  lemma {:induction false} NoConsecutiveEvents(s: DeviceState, observations: seq<bool>)
    ensures forall i :: 0 <= i < |observations| - 1 ==>
              !(Emits(s, observations)[i] && Emits(s, observations)[i + 1])
    decreases |observations|
  {
    if observations != [] {
      var step := Step(s, observations[0]);
      var rest := observations[1..];
      NoConsecutiveEvents(step.state, rest);
      var e := Emits(s, observations);
      assert e == [step.emit] + Emits(step.state, rest);
      forall i | 0 <= i < |observations| - 1
        ensures !(e[i] && e[i + 1])
      {
        if i == 0 {
          assert e[1] == Step(step.state, rest[0]).emit;
        } else {
          assert e[i] == Emits(step.state, rest)[i - 1];
        }
      }
    }
  }

  /** The flag kept after a run says whether the last cycle sent a
      notification (the status it would have announced is the last
      observation, by the contract of `After`). */
  lemma {:induction false} NotifiedMeansLastCycleReported(s: DeviceState, observations: seq<bool>)
    requires observations != []
    ensures After(s, observations).notified == Emits(s, observations)[|observations| - 1]
    decreases |observations|
  {
    var step := Step(s, observations[0]);
    var rest := observations[1..];
    if rest != [] {
      NotifiedMeansLastCycleReported(step.state, rest);
      assert Emits(s, observations)[|observations| - 1] == Emits(step.state, rest)[|rest| - 1];
    }
  }

  /** A device whose status already matches a steady observation is never reported. */
  lemma {:induction false} SteadyAgreementIsSilent(s: DeviceState, n: nat)
    ensures Emits(s, Repeat(s.status, n)) == Repeat(false, n)
    decreases n
  {
    if n > 0 {
      var step := Step(s, s.status);
      assert step.state.status == s.status;
      SteadyAgreementIsSilent(step.state, n - 1);
    }
  }

  /** Exactly-once notification: observed the same way for `n` cycles, a
      device is reported in the first cycle when the observation differs from
      the stored status and the previous run sent no notification, and never
      afterwards. */
  lemma {:induction false} SteadyObservationReportedOnce(s: DeviceState, active: bool, n: nat)
    requires n > 0
    ensures Emits(s, Repeat(active, n))[0] == (active != s.status && !s.notified)
    ensures forall i :: 1 <= i < n ==> !Emits(s, Repeat(active, n))[i]
    ensures Count(Emits(s, Repeat(active, n))) == if active != s.status && !s.notified then 1 else 0
  {
    var step := Step(s, active);
    SteadyAgreementIsSilent(step.state, n - 1);
    CountNone(n - 1);
    assert Emits(s, Repeat(active, n)) == [step.emit] + Repeat(false, n - 1);
  }

  lemma {:induction false} CountNone(n: nat)
    ensures Count(Repeat(false, n)) == 0
    ensures forall i :: 0 <= i < n ==> !Repeat(false, n)[i]
  {
    if n > 0 {
      CountNone(n - 1);
    }
  }

  /** Notifications are bounded by changes: every notification marks a flip
      of the stored status, and a flip goes unreported only right after a
      notification (or at the start, when the record arrived already
      notified), so at least half of the flips are reported. */
  lemma {:induction false} EventsBetweenHalfAndAllFlips(s: DeviceState, observations: seq<bool>)
    ensures Count(Emits(s, observations)) <= Flips(s.status, observations)
    ensures Flips(s.status, observations) <= 2 * Count(Emits(s, observations)) + (if s.notified then 1 else 0)
    decreases |observations|
  {
    if observations != [] {
      var step := Step(s, observations[0]);
      var rest := observations[1..];
      EventsBetweenHalfAndAllFlips(step.state, rest);
      assert Emits(s, observations) == [step.emit] + Emits(step.state, rest);
      assert ([step.emit] + Emits(step.state, rest))[1..] == Emits(step.state, rest);
    }
  }
}
