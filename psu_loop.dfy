/**
 * One iteration of `loop` in src/main.cpp: filter the voltage channel, then
 * the current channel, clear the display, and lay the voltage out at digit 0
 * and the current at digit 4.
 *
 * Scaling a filtered value to volts or amps and rendering it with
 * `dtostrf(value, 4, 2, ...)` is floating-point arithmetic and a libc call;
 * each channel's scale-and-render step is a parameter of the iteration.
 */
module PsuLoop {
  import opened MedianFilter
  import opened DigitLayout

  /** First display digit of the voltage field and of the current field. */
  const VoltOffset := 0
  const CurrentOffset := 4

  /** The display commands of one iteration, given the texts of the two values. */
  function IterationTrace(voltText: seq<char>, currentText: seq<char>): (trace: seq<Command>) {
    [ClearDisplay] + Emitted(voltText, VoltOffset) + Emitted(currentText, CurrentOffset)
  }

  /**
   * loop: `renderVolt` and `renderCurrent` stand for scaling a filtered
   * reading of each channel and rendering it as text.
   */
  method Loop(voltReadings: seq<int>, ampReadings: seq<int>,
              renderVolt: real -> seq<char>, renderCurrent: real -> seq<char>)
    returns (voltAvg: real, shuntVoltAvg: real, trace: seq<Command>)
    requires |voltReadings| == SampleCount && |ampReadings| == SampleCount
    ensures voltAvg == Filter(voltReadings)
    ensures shuntVoltAvg == Filter(ampReadings)
    ensures trace == IterationTrace(renderVolt(voltAvg), renderCurrent(shuntVoltAvg))
  {
    voltAvg := MedianFiltered(voltReadings);
    shuntVoltAvg := MedianFiltered(ampReadings);
    trace := [ClearDisplay];
    var cmds := DisplayFloat(renderVolt(voltAvg), VoltOffset);
    trace := trace + cmds;
    cmds := DisplayFloat(renderCurrent(shuntVoltAvg), CurrentOffset);
    trace := trace + cmds;
  }

  /**
   * The display is cleared first and only then written. When both texts
   * carry a decimal point, as `dtostrf` with two decimals renders them, the
   * voltage digits stay in positions 0..3 and the current digits in 4..7,
   * so the two fields never overwrite each other.
   */
  lemma FieldsApart(voltText: seq<char>, currentText: seq<char>)
    requires '.' in voltText && '.' in currentText
    ensures var t := IterationTrace(voltText, currentText);
            var nv := |Emitted(voltText, VoltOffset)|;
            && t[0] == ClearDisplay
            && nv <= 4
            && (forall k :: 1 <= k < |t| ==> t[k].SetDigit?)
            && (forall k :: 1 <= k <= nv ==> 0 <= t[k].position < 4)
            && (forall k :: nv < k < |t| ==> 4 <= t[k].position < 8)
  {
    LayoutShape(voltText, VoltOffset);
    LayoutShape(currentText, CurrentOffset);
    assert multiset(voltText)['.'] >= 1 && multiset(currentText)['.'] >= 1;
    var t := IterationTrace(voltText, currentText);
    var ev := Emitted(voltText, VoltOffset);
    var ec := Emitted(currentText, CurrentOffset);
    forall k | 1 <= k <= |ev| ensures t[k] == ev[k - 1] { }
    forall k | |ev| < k < |t| ensures t[k] == ec[k - 1 - |ev|] { }
  }
}
