/**
 * The Hall-sensor edge detector of the portal controller: a reading far enough from the
 * baseline taken at start-up makes the sensor active, and an event is reported once per
 * rising edge of that state. The analog reads are method inputs.
 */
module HallSensor {

  const UNSET_PIN := -1
  const DEFAULT_THRESHOLD := 1000

  function Abs(x: int): (r: int)
    ensures r >= 0 && (r == x || r == -x)
  {
    if x < 0 then -x else x
  }

  /** The sensor is active when the reading differs from the baseline by at least the threshold, in either direction. */
  predicate Triggered(value: int, baseline: int, threshold: int)
  {
    Abs(value - baseline) >= threshold
  }

  lemma TriggeredEitherWay(value: int, baseline: int, threshold: int)
    ensures Triggered(value, baseline, threshold) <==>
            (value >= baseline + threshold || value <= baseline - threshold)
  {
  }

  /** A rising edge: active now, inactive at the last report. */
  predicate RisingEdge(current: bool, previous: bool) {
    current && !previous
  }

  /**
   * The events reported when every reading of `readings` is followed by `hallEvent`, starting
   * from the reported state `previous`.
   */
  function EventsOver(readings: seq<int>, baseline: int, threshold: int, previous: bool): (es: seq<bool>)
    ensures |es| == |readings|
    decreases |readings|
  {
    if readings == [] then []
    else
      var cur := Triggered(readings[0], baseline, threshold);
      [RisingEdge(cur, previous)] + EventsOver(readings[1..], baseline, threshold, cur)
  }

  /** Reading `k` raises an event exactly when it is active and the one before it (or the start state) was not. */
  lemma {:induction false} EventsAreRisingEdges(readings: seq<int>, baseline: int, threshold: int, previous: bool, k: nat)
    requires k < |readings|
    ensures EventsOver(readings, baseline, threshold, previous)[k] <==>
            Triggered(readings[k], baseline, threshold) &&
            !(if k == 0 then previous else Triggered(readings[k - 1], baseline, threshold))
    decreases k
  {
    if k > 0 {
      EventsAreRisingEdges(readings[1..], baseline, threshold, Triggered(readings[0], baseline, threshold), k - 1);
      assert readings[1..][k - 1] == readings[k];
      if k > 1 {
        assert readings[1..][k - 2] == readings[k - 1];
      }
    }
  }

  /** Two consecutive readings never both raise an event: the sensor must go inactive in between. */
  lemma NoConsecutiveEvents(readings: seq<int>, baseline: int, threshold: int, previous: bool, k: nat)
    requires k + 1 < |readings|
    ensures !(EventsOver(readings, baseline, threshold, previous)[k] &&
              EventsOver(readings, baseline, threshold, previous)[k + 1])
  {
    EventsAreRisingEdges(readings, baseline, threshold, previous, k);
    EventsAreRisingEdges(readings, baseline, threshold, previous, k + 1);
  }

  /** The file's static state: the pin, the threshold, the baseline and the two edge-detector flags. */
  class Sensor {
    var pin: int
    var threshold: int
    var baseline: int
    var currentState: bool
    var prevState: bool

    /** The statics as the program starts: no pin, the default threshold, no reading, both flags clear. */
    constructor ()
      ensures pin == UNSET_PIN && threshold == DEFAULT_THRESHOLD && baseline == 0
      ensures !currentState && !prevState
    {
      pin, threshold, baseline := UNSET_PIN, DEFAULT_THRESHOLD, 0;
      currentState, prevState := false, false;
    }

    /** `initHallSensor`: `reading` is the `analogRead` taken after the settling delay. */
    method Init(pin: int, threshold: int, reading: int)
      modifies this
      ensures this.pin == pin && this.threshold == threshold && baseline == reading
      ensures currentState == old(currentState) && prevState == old(prevState)
    {
      this.pin := pin;
      this.threshold := threshold;
      baseline := reading;
    }

    /** `hallUpdate`: `value` is the `analogRead` of the pin. */
    method Update(value: int)
      modifies this`currentState
      ensures currentState == Triggered(value, baseline, threshold)
    {
      var diff := Abs(value - baseline);
      currentState := diff >= threshold;
    }

    /** `hallEvent`: reports a rising edge since the last report and latches the current state. */
    method Event() returns (event: bool)
      modifies this`prevState
      ensures event == RisingEdge(currentState, old(prevState))
      ensures prevState == currentState
      ensures !RisingEdge(currentState, prevState)
    {
      event := currentState && !prevState;
      prevState := currentState;
    }

    /**
     * One round of the caller's polling: `hallUpdate` with the reading `value`, then `hallEvent`.
     * Its event is the one `EventsOver` gives for that reading, and the latched state is the one
     * `EventsOver` carries into the next round.
     */
    method Round(value: int) returns (event: bool)
      modifies this`currentState, this`prevState
      ensures [event] == EventsOver([value], baseline, threshold, old(prevState))
      ensures prevState == currentState == Triggered(value, baseline, threshold)
    {
      Update(value);
      event := Event();
    }

    /** `hallActive`. */
    method Active() returns (active: bool)
      ensures active == currentState
    {
      active := currentState;
    }
  }
}
