# linak-ctrl protocol core in Dafny

`linak_ctrl.py` drives a Linak USB2LIN06 desk controller over USB HID
control transfers. This project models its protocol logic and proves
properties of it:

- **Status decoding** (`StatusReport`). Bytes 4 and 5 of a status report are
  the little-endian raw position. Byte 6 says whether the desk moves. The
  height in centimetres is `position / 65 + 67`.
- **Move command** (`LinakDevice._move`). This is a zero-filled 64-byte
  report. Byte 0 is report id 5. The target's low and high bytes are
  repeated in four pairs at offsets 1/2, 3/4, 5/6 and 7/8. The source gets
  the two bytes by formatting the target as `"%04x"` and parsing both halves
  back with `int(…, 16)`. `Reports.EncodeMove` does the same through
  `Hex.Format04x` and `Hex.ParseHex`, and is proved to give `p % 256` and
  `p / 256`.
- **Mode initialisation report**, built in `LinakDevice.__init__`.
- **Move loop** (`LinakDevice.move`). Each round sends the move command and
  reads one status report. It stops on the target. A reading equal to the
  previous one (initially 0) spends one of three retries, and the loop gives
  up when they are spent.
- **Status loop** (`LinakDevice.get_position`). It reads one report, or
  reads repeatedly with `--loop`.
- **Verbosity selection** (`Logger.set_verbose`).

Modules:

- `Hex` (hex.dfy): hexadecimal formatting and parsing.
- `Reports` (reports.dfy): the report codec.
- `Controller` (controller.dfy): the two device loops.
- `Logging` (logging.dfy): the logger's level.

Modelling the device:

- The USB device is a finite sequence of raw status reports, one per status
  request.
- The move loop returns its outcome together with a trace of `Sent` and
  `Received` events. The outcome is `Reached`, `Stalled`,
  `ReadingsExhausted` or `Malformed`.
- Because the readings are finite, the loop always terminates in the model.
  The source's `while True` loop would poll for as long as the position
  keeps changing.
- `Controller.MoveFrom` is the loop as a function over the remaining
  readings, the retries left and the previous reading. `Controller.RoundStep`
  is the decision one round takes after its status read. `Controller.Move`
  is the imperative loop with the source's two counters, proved equal to
  `MoveFrom`. It takes readings from the front of a pending queue.
- `Controller.MoveStopsAtFirstStop` and `Controller.MoveRunsOutWithoutStop`
  describe the loop without reference to its code. It stops at the first
  round whose reading is the target, or at the first round whose reading
  makes the number of repeats equal the retry budget.
  `Controller.MalformedAtFirstShort` adds that a short report read before
  such a round ends the loop as `Malformed`. None of these lemmas constrains
  the readings after the round where the loop stops.

Facts about the code that the model keeps:

- The calibration constants 65 and 67 are hard-coded.
- Any report of at least 7 bytes decodes.
- A desk stuck at a reading `c` stalls after four rounds, or after three
  when `c` is 0, because the first reading is compared with the initial
  previous position 0.

## Model

| member | source | states |
|---|---|---|
| `Hex.ParseHex` | linak_ctrl.py:177-178 | `int(s, 16)` on a non-empty string of hex digits, most significant first, gives a number below `16^|s|` |
| `Hex.Format04x` | linak_ctrl.py:176 | `"%04x"` of a value below 0x10000 is four hex digits |
| `Hex.DigitChar` | linak_ctrl.py:176 | the digit `%x` prints for a nibble is a lower-case hex digit that `int(…, 16)` reads back as that nibble |
| `Hex.SlicesAreBytes` | linak_ctrl.py:176-178 | parsing `pos[2:]` gives `p % 256` and parsing `pos[:2]` gives `p / 256`, for every `p` in 0..65535 |
| `Hex.FormatParseRoundTrip` | linak_ctrl.py:176 | parsing the formatted target as a whole gives the target back |
| `Reports.PositionInCm` | linak_ctrl.py:100 | the height is at least 67 cm; undoing the mapping, `(cm - 67) * 65`, gives the raw position back (exact reals) |
| `Reports.PositionInCmRange` | linak_ctrl.py:87-100 | raw 0 gives 67 cm, raw 6480 gives between 166 and 167 cm, and readings in 0..6480 map into that interval |
| `Reports.DecodeStatus` | linak_ctrl.py:97-99 | decoding succeeds iff the report has at least 7 bytes, and otherwise fails with `MalformedReport`; the position is below 65536, its low byte is byte 4 and its high byte is byte 5; `moving` holds iff byte 6 is nonzero |
| `Reports.DecodeExample` | linak_ctrl.py:99 | bytes 4/5 = 0xff/0x01 decode to position 511 |
| `Reports.DecodePositionUnique` | linak_ctrl.py:99 | the decoded position is the only 16-bit value whose low and high bytes are bytes 4 and 5 |
| `Reports.MoveReport` | linak_ctrl.py:175-185 | the move command has 64 bytes: byte 0 is 5, bytes 1, 3, 5, 7 hold the low byte, bytes 2, 4, 6, 8 the high byte, bytes 9..63 are zero |
| `Reports.MoveReportRoundTrip` | linak_ctrl.py:184-185 | `buf[1] + 256 * buf[2]` is the target, and all four (low, high) pairs are identical |
| `Reports.MoveReportInjective` | linak_ctrl.py:174-185 | distinct targets give distinct move commands |
| `Reports.EncodeMove` | linak_ctrl.py:174-185 | building the buffer in place via the hex round trip yields exactly the move command for the target |
| `Reports.BuildInitBuffer` | linak_ctrl.py:120-124 | the init report has 64 bytes: 0x03, 0x04, 0x00, 0xfb, then zeros |
| `Controller.MoveFrom` | linak_ctrl.py:147-166 | a run makes at most one read per reading; it ends with an unanswered command iff it is `ReadingsExhausted`, having read every reading; every other outcome ends on a read |
| `Controller.Move` | linak_ctrl.py:143-166 | the loop over `retry_count` (3) and `previous_position` (0) produces exactly the outcome and the trace of the move specification; throughout, `retry_count` stays between 1 and 3 and the previous position is a 16-bit reading, so the loop stops exactly when the count reaches 0 |
| `Controller.MoveTraceAt` | linak_ctrl.py:147-151 | event `2j` of a run is the move command for the target and event `2j + 1` is the receipt of reading `j` |
| `Controller.MoveSendsOneCommandPerRead` | linak_ctrl.py:147-151 | over the whole trace, one move command for the target precedes each status read, and the readings are consumed in order |
| `Controller.MoveOutcomeSound` | linak_ctrl.py:151-166 | `Reached` ends on a reading equal to the target, and `Stalled` on one that differs from it; a run ends `Malformed` exactly when the last report it read is shorter than 7 bytes, and every report of any other run decodes; `ReadingsExhausted` has used every reading, none of them the target; no earlier reading decoded to the target |
| `Controller.MoveFromPrefix` | linak_ctrl.py:147-166 | the loop never reads past the reading it stops on: a run that stops within the first `m` readings is the same run whatever the device would report after them |
| `Controller.MoveStopsAtFirstStop` | linak_ctrl.py:144-166 | when the readings up to some round decode, the loop stops at the first round that hits the target or whose repeat count equals the retries: `Reached` if it hit the target, else `Stalled`, after exactly that many reads; later readings, which it never reads, may be anything |
| `Controller.MoveRunsOutWithoutStop` | linak_ctrl.py:144-166 | for well-formed readings where no round stops the loop, it consumes every reading and ends `ReadingsExhausted` |
| `Controller.MalformedAtFirstShort` | linak_ctrl.py:147-155 | a report shorter than 7 bytes, read before any round stops the loop, ends it `Malformed` right after that read (the IndexError of decoding) |
| `Controller.ConstantReadingStalls` | linak_ctrl.py:144-166 | a reading that stays at `c`, other than the target, stalls after 4 reads, or after 3 when `c` is 0; only the readings of those rounds need to decode |
| `Controller.ApproachingReachesTarget` | linak_ctrl.py:154-166 | readings that get strictly closer to the target, up to one that is the target, never exhaust the retries; the loop ends `Reached` in the round that reads the target, whatever would follow |
| `Controller.GetPosition` | linak_ctrl.py:130-138 | without `loop`, exactly one read (none if the device has none), and a well-formed first report ends the loop on its own (`Done`); with `loop`, every reading is read and decoded until the device stops; each returned report is the decoding of the raw report at that index; a short report ends the loop as a failure |
| `Logging.Logger.constructor` | linak_ctrl.py:73 | a new logger is at WARNING |
| `Logging.Logger.SetVerbose` | linak_ctrl.py:44-58 | the series of level overrides ends at the level of the verbosity table: WARNING, ERROR for one `-q`, CRITICAL for more, INFO for one `-v`, DEBUG for more |
| `Logging.VerboseOverridesQuiet` | linak_ctrl.py:55-58 | a nonzero verbose count decides the level whatever the quiet count, and the level is below WARNING |
| `Logging.SelectLevelMonotone` | linak_ctrl.py:48-58 | more `-v` never raises the threshold; with no `-v`, more `-q` never lowers it |
| `Logging.SelectLevelCases` | linak_ctrl.py:48-58 | WARNING iff both counts are 0; DEBUG iff verbose ≥ 2; CRITICAL iff verbose = 0 and quiet ≥ 2; the threshold falls below WARNING iff verbose > 0, and rises above it iff verbose = 0 and quiet > 0 |

## Left out

- USB plumbing is not modelled: device discovery, kernel-driver detachment and `ctrl_transfer` are foreign pyusb calls. Reports the device returns are a parameter. Reports sent during a move are recorded in the trace. The init report is built but its transfer is not modelled.
- Transport failures (exceptions raised by pyusb) are not modelled.
- The `time.sleep` delays are left out because they have no logical content.
- `KeyboardInterrupt` handling is left out as a signal concern. In `Controller.GetPosition`, a device that gives no further reading stands for the interrupt.
- `Controller.Move`: `ReadingsExhausted` is an artifact of the finite reading sequence. The source would issue a further status request instead.
- Logging output (the `LOG.*` calls, handler and formatter setup) is left out because it is a side effect only. `Controller.GetPosition` returns the reports it reads and decodes; they are printed only when the logger's level is WARNING or lower (`Logging.SelectLevel`).
- `main` and the argparse wiring are left out as command-line plumbing. Argparse supplies the `-q`/`-v` counts, so `Logging.Logger.SetVerbose` takes them as natural numbers.
- `Reports.EncodeMove`: requires a target in 0..65535. Above that, `"%04x"` prints more than four digits and the slices no longer denote bytes. Negative targets print a sign.
- `Controller.Move`: requires a target in 0..65535, for the same reason.
- `Hex.ParseHex` models `int(s, 16)` only on non-empty strings of hex digits. It omits signs, whitespace, a `0x` prefix and underscores, because it is only applied to the output of `"%04x"`.
- `Reports.PositionInCm` is stated over exact real numbers, not Python's binary floating point.
