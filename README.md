# ATX bench PSU meter: noise filter and digit layout

A Dafny model of the measurement core of a DIY ATX bench power supply meter.
The firmware (`src/main.cpp`) samples an output-voltage channel and a
shunt-current channel and filters each batch of ADC readings. It then shows
both values on an 8-digit 7-segment display: the voltage in digits 0..3 and
the current in digits 4..7.

The model covers three parts of that file:

- **`analogReadMedianFiltered`** (`median_filter.dfy`, module `MedianFilter`).
  Each new reading is inserted at its rank in the local array `sortedValues`.
  Four helpers follow the source step for step:
  - `FindInsertPos` is the search for the position `j`.
  - `ShiftUp` is the loop that moves the larger values up one place.
  - `InsertReading` is one pass of the sampling loop.
  - `SortReadings` is the whole sampling loop over the new array.

  `BandSum` sums the ten values at ranks `n/2 - 5 .. n/2 + 5`, and
  `MedianFiltered` returns that sum divided by ten. Its result is tied to the
  specification function `Filter`: the band mean of a reference insertion
  sort (`Sorting.SortedOf`). The lemmas about `Filter` say:
  - the result lies between the smallest and the largest reading;
  - identical readings give exactly that reading back;
  - the result does not depend on the order of the readings;
  - ADC readings give a value in [0, 1023];
  - up to `n/2 - 5` outliers on either side cannot move the result out of the
    range of the other readings.
- **`displayFloat`** (`digit_layout.dfy`, module `DigitLayout`). The method
  walks the text that `dtostrf` rendered, from its last character to its
  first, and emits the `setDigit` command trace. Its result is tied to
  `Emitted`, a declarative layout. In `Emitted`, the k-th non-'.' character
  counted from the right goes to position `offset + k`. Its decimal point is
  lit exactly when the character to its right is '.'. Lemmas give:
  - the number and positions of the commands;
  - the digit values;
  - at most one lit decimal point;
  - the doc-comment example `12.45`;
  - a round trip: reading the display from its highest position down gives
    the text back.
- **`loop`** (`psu_loop.dfy`, module `PsuLoop`). One iteration filters both
  channels and clears the display. It then lays out the voltage at offset 0
  and the current at offset 4. A lemma shows that the two fields do not
  overlap when both texts carry a decimal point.

`sorting.dfy` (module `Sorting`) holds the reference definitions the filter's
properties are stated with:
- `Sorted`, `Insert` and `SortedOf`;
- the uniqueness of a sorted permutation;
- `Extremes`, which finds a least and a greatest element, and `Sum`;
- counting below or above a threshold.

Modelling choices:
- The ADC is replaced by a sequence of readings, one per `analogRead` call.
- The filtered value is an exact `real`. The band sum is an `int`.
- The display driver is replaced by a trace of `Command` values
  (`SetDigit(position, digit, dp)` and `ClearDisplay`).
- Scaling a filtered value to volts or amps and rendering it with `dtostrf`
  become function parameters of `PsuLoop.Loop`.
- `MedianFiltered` requires at least ten readings. With fewer, the averaging
  loop of the source reads outside `sortedValues`, so its callers must never
  do that; `loop` always passes `SAMPLE_CNT` = 250.
- On the first reading the source compares the reading with the uninitialised
  `sortedValues[0]` before it tests `i == 0`. The model keeps that order. The
  comparison reads an arbitrary value, and `i == 0` alone decides that the
  reading goes to position 0.
- `displayFloat` does not check its characters: a digit is
  `(byte)(c - '0')`, so a '-' from a negative value becomes 253. `DigitValue`
  models that cast, and the 0..9 bound on digit values is proved for text made
  only of digits and points, wherever the points stand (`LayoutShape`).
- Every driver call passes the device address `DISPLAY_ADDRESS`, which is the
  constant 0 (src/main.cpp:37). `Command` drops that argument.

## Model

| member | source | states |
|---|---|---|
| `MedianFilter.MedianFiltered` | src/main.cpp:100-130 | for any window of at least ten readings, the result equals `Filter(readings)`: the mean of the ten sorted values at ranks n/2-5 .. n/2+4 |
| `MedianFilter.SortReadings` | src/main.cpp:101-122 | the sampling loop leaves a new array of `n` values that is sorted and holds exactly the readings (same multiset) |
| `MedianFilter.InsertReading` | src/main.cpp:104-121 | after reading `i` is inserted, `sortedValues[..i+1]` is sorted and holds the old `sortedValues[..i]` plus the new value (same multiset); the positions above `i` are unchanged |
| `MedianFilter.FindInsertPos` | src/main.cpp:105-116 | the insertion index `j` lies in [0, i]; every value before `j` is at most the reading and every value in `j .. i-1` is at least it |
| `MedianFilter.ShiftUp` | src/main.cpp:117-120 | `sortedValues[j..i-1]` moves to `[j+1..i]`; positions up to `j` and above `i` are unchanged |
| `MedianFilter.BandSum` | src/main.cpp:124-127 | the averaging loop returns the sum of exactly the ten values at ranks n/2-5 .. n/2+4, all within the array |
| `MedianFilter.Band` | src/main.cpp:125 | the averaged band has exactly 10 ranks when n >= 10 |
| `MedianFilter.FilterWithinRange` | src/main.cpp:102-129 | some reading is the least of all and at most the filtered value, and some reading is the greatest of all and at least it: the value lies within [min(readings), max(readings)] |
| `MedianFilter.FilterOfConstant` | src/main.cpp:102-129 | if every reading equals `v`, the filtered value is exactly `v` |
| `MedianFilter.FilterOrderIndependent` | src/main.cpp:102-129 | two windows with the same multiset of readings filter to the same value |
| `MedianFilter.FilterInAdcRange` | src/main.cpp:93-98 | readings in [0, 1023] filter to a value in [0, 1023], as the doc comment promises |
| `MedianFilter.FilterRobust` | src/main.cpp:123-129 | if at most n/2-5 readings lie below `lo` and at most n-(n/2+5) above `hi`, the filtered value lies in [lo, hi] |
| `Sorting.SortedOfIsSortedPermutation` | src/main.cpp:101-122 | the reference insertion sort yields a sorted permutation of the readings |
| `Sorting.SortedPermutationUnique` | src/main.cpp:101-122 | a sorted permutation is unique, so any correct insertion order yields the same sorted array |
| `DigitLayout.DisplayFloat` | src/main.cpp:68-91 | the emitted trace equals `Emitted(str, offset)`; text of length 0 or more than 5 emits no command |
| `DigitLayout.DigitValue` | src/main.cpp:84-85 | the digit sent is `(c - '0')` cut to a byte, which is `c - '0'` for '0'..'9' |
| `DigitLayout.DigitIndicesSpec` | src/main.cpp:78-83 | the walk visits every non-'.' position of the text exactly once, from last to first |
| `DigitLayout.LayoutShape` | src/main.cpp:75-88 | one `setDigit` per non-'.' character (length minus the number of points), the k-th at position `offset + k`; digit values below 10 for any text made only of 0-9 and '.' (`DigitsAndPoints`), whatever the arrangement of its points |
| `DigitLayout.LayoutSnocDigit` | src/main.cpp:75-87 | a final digit lands at `offset` without decimal point, and the rest of the text moves up one position |
| `DigitLayout.LayoutSnocDot` | src/main.cpp:81-87 | a final '.' lights the decimal point of the digit left of it, which lands at `offset` |
| `DigitLayout.AtMostOneDecimalPoint` | src/main.cpp:81-87 | the pending flag is cleared after every digit: text with at most one '.' lights at most one decimal point |
| `DigitLayout.LayoutRoundTrip` | src/main.cpp:60-67 | for digit-and-point text with no leading point and no two points in a row, reading the digits from the highest position down gives the text back |
| `DigitLayout.LayoutExample` | src/main.cpp:63 | "12.45" at offset 0 gives (0,5,false), (1,4,false), (2,2,true), (3,1,false) |
| `PsuLoop.Loop` | src/main.cpp:143-166 | one iteration filters voltage, then current; its trace is `clearDisplay`, the voltage commands at offset 0, then the current commands at offset 4 |
| `PsuLoop.FieldsApart` | src/main.cpp:162-165 | the display is cleared before any digit is set; with a '.' in both texts, voltage digits use positions 0..3 and current digits 4..7 |

## Left out

- Scaling to volts and amps (src/main.cpp:147, 158). This is `float` arithmetic with `VOLT_SCALE`, `CURRENT_SCALE`, the amplifier gain 5 and the 0.1 ohm shunt. It becomes the `renderVolt` and `renderCurrent` parameters of `PsuLoop.Loop`.
- `dtostrf` rendering (src/main.cpp:70). It is a libc call. Its output text is the input of `DisplayFloat`.
- `analogRead` (src/main.cpp:104). It is hardware ADC input. It is replaced by the sequence of readings.
- The LedControl display driver (src/main.cpp:58, 85, 134-136, 163). It is a device on SPI. Only the order of its calls and their arguments other than the constant device address `DISPLAY_ADDRESS` (always 0, src/main.cpp:37) are modelled, as a trace. What the device does with them is not modelled.
- `setup`, `main`, `init`, USB attach, `serialEventRun` and the `VERBOSE` logging (src/main.cpp:47-55, 132-141, 172-188). They are hardware set-up and debugging output. The endless repetition of `loop` is not modelled; one iteration is.
- MedianFilter.MedianFiltered: returns the exact quotient of the band sum by ten as a `real`. The binary rounding of the `float` division is not modelled. The `float` accumulation of at most ten readings in [0, 1023] is exact.
- DigitLayout.DigitValue: Dafny characters are Unicode code points, while the AVR's `char` is a signed byte. Characters above 127 would convert differently. `dtostrf` renders only ASCII.
