# Elapsed-time formatting and parser input of the UCCA span-parser prediction script

This project models the two pieces of pure logic in `src/predict.py`, the prediction driver of a
minimal-span constituency parser that emits UCCA passages:

- `format_elapsed` takes the whole seconds elapsed since `start_time` and renders them, for
  example as `2d3h04m05s` or `0h01m09s`. It uses three chained `divmod` calls (60 seconds, 60 minutes, 24 hours) and
  renders `"{h}h{mm}m{ss}s"`. The hours are unpadded, the minutes and seconds are zero-padded to
  two digits, and a `"{d}d"` prefix appears only when the day count is positive.
- `get_input` turns a passage into the token sequence handed to the parser. It sorts the
  passage's terminals by `position` with Python's stable `sorted`, then projects each terminal to
  its `(part-of-speech, text)` pair.

Modules:

- `Numerals` (`numerals.dfy`) renders a natural number as Python's `"{}"` and `"{:02}"` fields do.
  It also has a parser that inverts the rendering.
- `Elapsed` (`elapsed.dfy`) holds the `divmod` decomposition into a `Duration`, the rendering, and
  a reader `ParseElapsed` that serves as the partner of the rendering in a round-trip lemma.
- `Input` (`input.dfy`) holds terminals as immutable records and the stable sort as a functional
  insertion sort. It also has the projection and an independent characterisation of the result:
  the projection of the unique sorted rearrangement that keeps the input order among equal
  positions.

The argument of `FormatElapsed` is the already truncated `int(time.time() - start_time)`. It is
an `int`: a clock that steps backwards makes it negative. Python's `divmod` by a positive divisor
floors, and Dafny's Euclidean `/` and `%` agree with it for a positive divisor, so the model uses
the same arithmetic. A negative count therefore renders with no day prefix, as its place within a
day (`-5` renders as `23h59m55s`); `Elapsed.FormatElapsedNegative` states this.

The parse result is turned into a passage by `predicted.convert()` (src/predict.py:79). That
method is defined outside `src/predict.py` and is not modelled.

## Model

| member | source | states |
|---|---|---|
| Numerals.NatToString | src/predict.py:25 | The `{}` field of a non-negative int is a non-empty run of decimal digits with no leading zero, and it has one digit exactly when the value is below 10 |
| Numerals.NatToStringRoundTrip | src/predict.py:25 | Reading the decimal numeral back gives the original number |
| Numerals.NatToStringInjective | src/predict.py:25 | Two numbers with the same numeral are equal |
| Numerals.Pad2 | src/predict.py:25 | The `{:02}` field is all digits and at least two characters long; it is exactly two characters for values below 100 and is never truncated |
| Numerals.Pad2RoundTrip | src/predict.py:25 | The zero padding does not change the value the field denotes |
| Elapsed.Decompose | src/predict.py:21-24 | The chained divmod is exact (`days*86400 + hours*3600 + minutes*60 + seconds == elapsed`), with seconds and minutes in 0..59 and hours in 0..23; days are positive exactly when elapsed is at least one day |
| Elapsed.DecomposeUnique | src/predict.py:22-24 | A duration whose fields are within range is the decomposition of its total, so the split is unique |
| Elapsed.FormatElapsed | src/predict.py:20-28 | The result contains a `d` if and only if at least one whole day has elapsed |
| Elapsed.FormatElapsedWithinDay | src/predict.py:21-25 | Below one day the result is exactly `NatToString(e/3600) + "h" + Pad2(e/60%60) + "m" + Pad2(e%60) + "s"`: hours unpadded, minutes and seconds padded to two digits |
| Elapsed.FormatElapsedDayPrefix | src/predict.py:24-27 | From one day on, the result is the day count, then `d`, then exactly the rendering of the remainder within the day |
| Elapsed.FormatElapsedNegative | src/predict.py:21-27 | A negative count renders as its non-negative remainder modulo one day, because `divmod` floors |
| Elapsed.FormatElapsedRoundTrip | src/predict.py:20-28 | For every non-negative count, reading the rendered string back recovers the count, so the rendering loses nothing |
| Elapsed.FormatElapsedInjective | src/predict.py:20-28 | Distinct non-negative counts render as distinct strings |
| Input.SortByPosition | src/predict.py:54-56 | The sorted terminal list is ordered by non-decreasing position and is a permutation of the passage's terminals |
| Input.SortByPositionStable | src/predict.py:54-56 | The sort is stable: at every position the terminals keep their input order |
| Input.SortedUnique | src/predict.py:54-56 | Two position-sorted sequences that hold the same terminals in the same order at every position are equal, so the stable sort has exactly one possible result |
| Input.GetInput | src/predict.py:53-57 | One pair per terminal, and the output is the projection of a position-sorted, stable permutation of the terminals |
| Input.GetInputCharacterised | src/predict.py:53-57 | For any position-sorted rearrangement that keeps the input order among equal positions, the output is its projection |
| Input.SortContiguous | src/predict.py:54-56 | When the passage's positions are exactly 1..N, the terminal at index i of the sorted list is the one at position i+1 |

## Left out

- The `time.time()` read and the `int()` truncation of a float difference (src/predict.py:21): the model takes the truncated whole number of seconds as its argument.
- `read_passages` and `read_raw` (src/predict.py:31-50): directory listing, file reads and XML deserialisation through the external `ucca` library.
- `run_predict` (src/predict.py:60-80): loading the neural model, renewing the computation graph and parsing; the `predicted.convert()` call is defined outside this file and is not modelled.
- `predict` and the `__main__` block (src/predict.py:82-112): command-line wiring and printing.
- `passage.layer("0").all` and `extra["pos"]` (src/predict.py:55,57): foreign `ucca` objects, replaced by a plain sequence of `Terminal(position, pos, text)` records. The `pos` field holds what `extra["pos"]` holds; a terminal without that key, which would raise `KeyError`, is not modelled.
- The imports `edge_id_orderkey` and `FoundationalNode` (src/predict.py:16-17): they carry no logic in this file.
- `Elapsed.ParseElapsed` accepts some strings that `FormatElapsed` never produces, such as unpadded or out-of-range fields; only the direction "render, then read back" is proved.
