/** The report codec of the USB2LIN06 desk controller: decoding the 64-byte
    status report, and building the move-command and mode-initialisation
    reports that are sent to the device. */
module Reports {
  import Hex

  type byte = x: int | 0 <= x < 256

  /** Length of every report exchanged with the device. */
  const BufLen: nat := 64
  /** Report id of the move command. */
  const ControlCbc: byte := 5
  /** Feature report id of the mode-configuration report. */
  const ModeOfOperation: byte := 0x03
  /** The default mode of operation. */
  const ModeOfOperationDefault: byte := 0x04

  /** The decoded status of the actuator. */
  datatype StatusReport = StatusReport(position: nat, moving: bool, positionInCm: real)

  /** Python raises an IndexError on a report too short to hold byte 6. */
  datatype DecodeError = MalformedReport

  datatype Result<+T, +E> = Ok(value: T) | Err(error: E)

  /** Height in centimetres: the raw reading divided by 65, plus the 67 cm
      floor height. Over the raw range 0..6480 this gives 67 cm up to about
      166.7 cm. */
  function PositionInCm(position: nat): (cm: real)
    ensures cm >= 67.0
    ensures (cm - 67.0) * 65.0 == position as real
  {
    position as real / 65.0 + 67.0
  }

  /** The ends of the raw range 0..6480: 67 cm at the bottom, between 166 cm
      and 167 cm at the top, and every reading in between maps in between. */
  lemma PositionInCmRange(position: nat)
    requires position <= 6480
    ensures PositionInCm(0) == 67.0
    ensures 166.0 < PositionInCm(6480) < 167.0
    ensures 67.0 <= PositionInCm(position) <= PositionInCm(6480)
  {
  }

  /** Decode a raw status report: bytes 4 and 5 are the little-endian
      position, byte 6 says whether the actuator moves. */
  function DecodeStatus(raw: seq<byte>): (r: Result<StatusReport, DecodeError>)
    ensures r.Ok? <==> |raw| >= 7
    ensures r.Ok? ==> r.value.position < 0x1_0000
    ensures r.Ok? ==> r.value.position % 256 == raw[4] && r.value.position / 256 == raw[5]
    ensures r.Ok? ==> (r.value.moving <==> raw[6] != 0)
    ensures r.Ok? ==> r.value.positionInCm == PositionInCm(r.value.position)
    ensures r.Err? ==> r.error == MalformedReport
  {
    if |raw| < 7 then Err(MalformedReport)
    else
      var moving := raw[6] > 0;
      var position := raw[4] as int + raw[5] as int * 256;
      Ok(StatusReport(position, moving, PositionInCm(position)))
  }

  /** For example, low byte 0xff and high byte 0x01 give 511. */
  lemma DecodeExample(raw: seq<byte>)
    requires |raw| == BufLen && raw[4] == 0xff && raw[5] == 0x01
    ensures DecodeStatus(raw).Ok? && DecodeStatus(raw).value.position == 511
  {
  }

  /** The decoded position is the only 16-bit number with those two bytes. */
  lemma {:induction false} DecodePositionUnique(raw: seq<byte>, p: nat)
    requires |raw| >= 7 && p < 0x1_0000 && p % 256 == raw[4] && p / 256 == raw[5]
    ensures DecodeStatus(raw).Ok? && DecodeStatus(raw).value.position == p
  {
    var q := DecodeStatus(raw).value.position;
    assert p == 256 * (p / 256) + p % 256;
    assert q == 256 * (q / 256) + q % 256;
  }

  function Zeros(n: nat): (z: seq<byte>)
    ensures |z| == n && forall i :: 0 <= i < n ==> z[i] == 0
  {
    seq(n, _ => 0)
  }

  /** The move command for target `p`: the report id, then the low and high
      byte of the target repeated in four pairs, then zeros. */
  function MoveReport(p: nat): (r: seq<byte>)
    requires p < 0x1_0000
    ensures |r| == BufLen && r[0] == ControlCbc
    ensures forall i :: 1 <= i <= 8 && i % 2 == 1 ==> r[i] == p % 256
    ensures forall i :: 1 <= i <= 8 && i % 2 == 0 ==> r[i] == p / 256
    ensures forall i :: 9 <= i < BufLen ==> r[i] == 0
  {
    var low, high := p % 256, p / 256;
    Zeros(BufLen)[0 := ControlCbc][1 := low][3 := low][5 := low][7 := low]
                 [2 := high][4 := high][6 := high][8 := high]
  }

  /** The target can be read back from the first pair, and all four pairs agree. */
  lemma MoveReportRoundTrip(p: nat)
    requires p < 0x1_0000
    ensures var r := MoveReport(p);
      && r[1] as int + 256 * r[2] as int == p
      && r[3] == r[5] == r[7] == r[1]
      && r[4] == r[6] == r[8] == r[2]
  {
  }

  /** Distinct targets give distinct move commands. */
  lemma MoveReportInjective(p: nat, q: nat)
    requires p < 0x1_0000 && q < 0x1_0000 && MoveReport(p) == MoveReport(q)
    ensures p == q
  {
    MoveReportRoundTrip(p);
    MoveReportRoundTrip(q);
  }

  /** Build the move command as the source does: format the target as four
      hex digits, parse the two halves back, and fill a zeroed buffer. */
  method EncodeMove(position: nat) returns (buf: seq<byte>)
    requires position < 0x1_0000
    ensures buf == MoveReport(position)
  {
    buf := Zeros(BufLen);
    var pos := Hex.Format04x(position);
    Hex.SlicesAreBytes(position);
    var posL := Hex.ParseHex(pos[2..]);
    var posH := Hex.ParseHex(pos[..2]);
    buf := buf[0 := ControlCbc];
    buf := buf[1 := posL][3 := posL][5 := posL][7 := posL];
    buf := buf[2 := posH][4 := posH][6 := posH][8 := posH];
  }

  /** Build the mode-configuration report sent once when the device is opened. */
  method BuildInitBuffer() returns (buf: seq<byte>)
    ensures |buf| == BufLen
    ensures buf[0] == ModeOfOperation && buf[1] == ModeOfOperationDefault
    ensures buf[2] == 0x00 && buf[3] == 0xfb
    ensures forall i :: 4 <= i < BufLen ==> buf[i] == 0
  {
    buf := Zeros(BufLen);
    buf := buf[0 := ModeOfOperation];
    buf := buf[1 := ModeOfOperationDefault];
    buf := buf[2 := 0x00];
    buf := buf[3 := 0xfb];
  }
}
