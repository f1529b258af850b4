// The wireless side of the lamp (ble_server.cpp): the command-frame decoder
// behind the light characteristic's write callback, and the battery curve.
module BleServer {
  import opened Config

  datatype Option<T> = None | Some(value: T)

  /** The command opcodes. Their values are build-time constants; they are the
      case labels of one switch, so no two are equal. */
  datatype Opcodes = Opcodes(
    setColor: byte,
    setColorSets: byte,
    disableBle: byte,
    setIndividualColors: byte,
    setSleepTimer: byte,
    setAnimation: byte)
  {
    predicate Distinct()
    {
      && setColor != setColorSets && setColor != disableBle && setColor != setIndividualColors
      && setColor != setSleepTimer && setColor != setAnimation
      && setColorSets != disableBle && setColorSets != setIndividualColors
      && setColorSets != setSleepTimer && setColorSets != setAnimation
      && disableBle != setIndividualColors && disableBle != setSleepTimer && disableBle != setAnimation
      && setIndividualColors != setSleepTimer && setIndividualColors != setAnimation
      && setSleepTimer != setAnimation
    }

    predicate Known(op: byte)
    {
      op == setColor || op == setColorSets || op == disableBle
      || op == setIndividualColors || op == setSleepTimer || op == setAnimation
    }
  }

  /** What one written frame asks the lamp to do. The payload fields are the bytes
      handed to the handler of each command. */
  datatype Action =
    | NoAction
    | SetColor(color: seq<byte>)
    | SetColorSets(data: seq<byte>)
    | SetIndividualColors(colors: seq<byte>, numLeds: nat)
    | SetSleepTimer(minutes: nat)
    | SetAnimation(animType: byte, speed: byte, params: Option<seq<byte>>)
    | DeepSleep

  /** A payload of one or more whole RGBW entries, as SET_COLOR_SETS and SET_INDIVIDUAL_COLORS demand:
      a frame length of at least 5 with (length - 1) divisible by 4. */
  predicate ColorListLength(frameLength: nat)
  {
    frameLength >= 5 && (frameLength - 1) % 4 == 0
  }

  /** `onWrite` of the light characteristic: byte 0 selects the command, the
      length is checked for it, and a frame that fails the check does nothing. */
  function Decode(ops: Opcodes, frame: seq<byte>): (a: Action)
    requires ops.Distinct()
    ensures |frame| == 0 ==> a == NoAction
    ensures |frame| > 0 && !ops.Known(frame[0]) ==> a == NoAction
    ensures a.SetColor? <==> |frame| == 5 && frame[0] == ops.setColor
    ensures a.SetColor? ==> a.color == frame[1..5]
    ensures a.SetColorSets? <==> |frame| > 0 && frame[0] == ops.setColorSets && ColorListLength(|frame|)
    ensures a.SetColorSets? ==> a.data == frame[1..] && |a.data| == |frame| - 1
    ensures a.SetIndividualColors? <==> |frame| > 0 && frame[0] == ops.setIndividualColors && ColorListLength(|frame|)
    ensures a.SetIndividualColors? ==> a.colors == frame[1..] && a.numLeds == (|frame| - 1) / 4 >= 1
    ensures a.SetSleepTimer? <==> |frame| == 3 && frame[0] == ops.setSleepTimer
    ensures a.SetSleepTimer? ==> a.minutes == frame[1] as int * 256 + frame[2] as int < 65536
    ensures a.SetAnimation? <==> |frame| >= 3 && frame[0] == ops.setAnimation
    ensures a.SetAnimation? ==> a.animType == frame[1] && a.speed == frame[2]
    ensures a.SetAnimation? ==> (a.params.None? <==> |frame| == 3) && (a.params.Some? ==> a.params.value == frame[3..])
    ensures a.DeepSleep? <==> |frame| > 0 && frame[0] == ops.disableBle
  {
    if |frame| == 0 then NoAction
    else
      var command := frame[0];
      var length := |frame|;
      if command == ops.setColor then
        if length == 5 then SetColor(frame[1..5]) else NoAction
      else if command == ops.setColorSets then
        if length >= 5 && (length - 1) % 4 == 0 then SetColorSets(frame[1..]) else NoAction
      else if command == ops.disableBle then
        DeepSleep
      else if command == ops.setIndividualColors then
        if length >= 5 && (length - 1) % 4 == 0 then SetIndividualColors(frame[1..], (length - 1) / 4) else NoAction
      else if command == ops.setSleepTimer then
        if length == 3 then SetSleepTimer(frame[1] as int * 256 + frame[2] as int) else NoAction
      else if command == ops.setAnimation then
        if length >= 3 then SetAnimation(frame[1], frame[2], if length > 3 then Some(frame[3..]) else None) else NoAction
      else
        NoAction
  }

  /** The actions a frame can carry. */
  predicate WellFormed(a: Action)
  {
    match a
    case NoAction => false
    case SetColor(color) => |color| == 4
    case SetColorSets(data) => |data| >= 4 && |data| % 4 == 0
    case SetIndividualColors(colors, numLeds) => |colors| >= 4 && |colors| % 4 == 0 && numLeds == |colors| / 4
    case SetSleepTimer(minutes) => minutes < 65536
    case SetAnimation(_, _, params) => params.Some? ==> |params.value| > 0
    case DeepSleep => true
  }

  /** The frame a sender writes to ask for `a`: the opcode, then the payload in the
      layout the decoder reads (sleep minutes big-endian). */
  function Encode(ops: Opcodes, a: Action): (frame: seq<byte>)
    requires WellFormed(a)
    ensures |frame| > 0
  {
    match a
    case SetColor(color) => [ops.setColor] + color
    case SetColorSets(data) => [ops.setColorSets] + data
    case SetIndividualColors(colors, _) => [ops.setIndividualColors] + colors
    case SetSleepTimer(minutes) => [ops.setSleepTimer, minutes / 256, minutes % 256]
    case SetAnimation(animType, speed, params) =>
      [ops.setAnimation, animType, speed] + (if params.Some? then params.value else [])
    case DeepSleep => [ops.disableBle]
  }

  /** Every action a frame can carry is decoded back from its frame. */
  lemma DecodeEncode(ops: Opcodes, a: Action)
    requires ops.Distinct() && WellFormed(a)
    ensures Decode(ops, Encode(ops, a)) == a
  {
  }

  /** Every frame that decodes to an action is the encoding of that action, except that
      DISABLE_BLE ignores whatever bytes follow its opcode. */
  lemma EncodeDecode(ops: Opcodes, frame: seq<byte>)
    requires ops.Distinct()
    ensures var a := Decode(ops, frame);
      a != NoAction ==> WellFormed(a) && Encode(ops, a) == (if a == DeepSleep then frame[..1] else frame)
  {
  }

  /** The breakpoints of the battery curve: minimum cell voltage in millivolts and the percentage reported from it on. */
  const BATTERY_CURVE: seq<(int, nat)> := [(4200, 100), (4000, 90), (3850, 75), (3750, 50), (3650, 25), (3450, 10)]

  /** `batteryPercent`, with the cell voltage in millivolts. */
  function BatteryPercent(millivolts: int): (percent: nat)
    ensures percent in {100, 90, 75, 50, 25, 10, 0}
  {
    if millivolts >= 4200 then 100
    else if millivolts >= 4000 then 90
    else if millivolts >= 3850 then 75
    else if millivolts >= 3750 then 50
    else if millivolts >= 3650 then 25
    else if millivolts >= 3450 then 10
    else 0
  }

  /** Reading the curve as a table: the first breakpoint at or below the voltage gives the percentage, 0 below all of them. */
  function CurveLookup(curve: seq<(int, nat)>, millivolts: int): (percent: nat)
  {
    if curve == [] then 0
    else if millivolts >= curve[0].0 then curve[0].1
    else CurveLookup(curve[1..], millivolts)
  }

  /** The threshold chain is exactly the breakpoint table, with inclusive thresholds. */
  lemma BatteryPercentIsCurve(millivolts: int)
    ensures BatteryPercent(millivolts) == CurveLookup(BATTERY_CURVE, millivolts)
  {
    var c: seq<(int, nat)> := BATTERY_CURVE;
    var t5 := [(3450, 10)];
    var t4 := [(3650, 25)] + t5;
    var t3 := [(3750, 50)] + t4;
    var t2 := [(3850, 75)] + t3;
    var t1 := [(4000, 90)] + t2;
    assert c == [(4200, 100)] + t1;
    assert t5[1..] == [];
    assert CurveLookup(t5, millivolts) == if millivolts >= 3450 then 10 else 0;
    assert t4[1..] == t5;
    assert CurveLookup(t4, millivolts) == if millivolts >= 3650 then 25 else CurveLookup(t5, millivolts);
    assert t3[1..] == t4;
    assert CurveLookup(t3, millivolts) == if millivolts >= 3750 then 50 else CurveLookup(t4, millivolts);
    assert t2[1..] == t3;
    assert CurveLookup(t2, millivolts) == if millivolts >= 3850 then 75 else CurveLookup(t3, millivolts);
    assert t1[1..] == t2;
    assert CurveLookup(t1, millivolts) == if millivolts >= 4000 then 90 else CurveLookup(t2, millivolts);
    assert c[1..] == t1;
  }

  /** A higher voltage never reports a lower percentage. */
  lemma BatteryPercentMonotone(lower: int, higher: int)
    requires lower <= higher
    ensures BatteryPercent(lower) <= BatteryPercent(higher)
  {
  }

  /** The thresholds are inclusive. */
  lemma BatteryPercentBoundaries()
    ensures BatteryPercent(4200) == 100 && BatteryPercent(4199) == 90
    ensures BatteryPercent(3450) == 10 && BatteryPercent(3449) == 0
  {
  }

  /** Full-scale count of the 12-bit battery ADC. */
  const ADC_MAX: nat := 4095
  /** Full-scale voltage assumed by the firmware's conversion, in millivolts. */
  const VREF: nat := 1100
  /** Full-scale voltage of the ESP32 ADC at its default 11 dB attenuation, in millivolts. */
  const ADC_FULL_SCALE: nat := 3300

  /** The cell voltage in whole millivolts for an ADC count and a full-scale voltage:
      the count scaled to the pin voltage, doubled for the 1:2 divider on the battery pin. */
  function DividedMillivolts(raw: nat, fullScale: nat): (millivolts: nat)
    requires raw <= ADC_MAX
    ensures millivolts <= 2 * fullScale
    ensures raw == ADC_MAX ==> millivolts == 2 * fullScale
  {
    ScaleBound(raw, 2 * fullScale);
    raw * (2 * fullScale) / ADC_MAX
  }

  lemma ScaleBound(raw: nat, top: nat)
    requires raw <= ADC_MAX
    ensures raw * top / ADC_MAX <= top
    ensures raw == ADC_MAX ==> raw * top / ADC_MAX == top
  {
    assert raw * top <= ADC_MAX * top;
  }

  /** `readBatteryVoltage` as written (in millivolts, rounded down): full scale VREF = 1100 mV. */
  function BatteryMillivoltsAsWritten(raw: nat): (millivolts: nat)
    requires raw <= ADC_MAX
    ensures millivolts <= 2 * VREF
  {
    DividedMillivolts(raw, VREF)
  }

  /** The level `updateBatteryLevelBLE` publishes for an ADC reading, as written. */
  function BatteryLevelAsWritten(raw: nat): (percent: nat)
    requires raw <= ADC_MAX
    ensures percent in {100, 90, 75, 50, 25, 10, 0}
  {
    BatteryPercent(BatteryMillivoltsAsWritten(raw))
  }

  /** As written, no ADC reading can get above 2200 mV, so the published level is always 0 %. */
  lemma BatteryAlwaysEmptyAsWritten(raw: nat)
    requires raw <= ADC_MAX
    ensures BatteryLevelAsWritten(raw) == 0
  {
  }

  /** `readBatteryVoltage` with the full scale of the ADC at its default attenuation. */
  function BatteryMillivolts(raw: nat): (millivolts: nat)
    requires raw <= ADC_MAX
    ensures millivolts <= 2 * ADC_FULL_SCALE
  {
    DividedMillivolts(raw, ADC_FULL_SCALE)
  }

  /** The level `updateBatteryLevelBLE` would publish with the corrected conversion
      (3300 mV full scale, an assumption); not what the firmware as written publishes. */
  function BatteryLevelCorrected(raw: nat): (percent: nat)
    requires raw <= ADC_MAX
    ensures percent in {100, 90, 75, 50, 25, 10, 0}
  {
    BatteryPercent(BatteryMillivolts(raw))
  }

  /** With the corrected scale, a higher reading never reports less, and every level of the
      curve is reported for some reading: full scale reads 100 % and zero reads 0 %. */
  lemma BatteryLevelSpansCurve(lower: nat, higher: nat)
    requires lower <= higher <= ADC_MAX
    ensures BatteryLevelCorrected(lower) <= BatteryLevelCorrected(higher)
    ensures BatteryLevelCorrected(ADC_MAX) == 100 && BatteryLevelCorrected(0) == 0
    ensures forall k :: 0 <= k < |BATTERY_CURVE| ==> exists raw :: 0 <= raw <= ADC_MAX && BatteryLevelCorrected(raw) == BATTERY_CURVE[k].1
  {
    assert lower * (2 * ADC_FULL_SCALE) <= higher * (2 * ADC_FULL_SCALE);
    BatteryPercentMonotone(BatteryMillivolts(lower), BatteryMillivolts(higher));
    assert BatteryLevelCorrected(2606) == 100;
    assert BatteryLevelCorrected(2500) == 90;
    assert BatteryLevelCorrected(2400) == 75;
    assert BatteryLevelCorrected(2330) == 50;
    assert BatteryLevelCorrected(2270) == 25;
    assert BatteryLevelCorrected(2150) == 10;
    assert BatteryLevelCorrected(0) == 0;
  }
}
