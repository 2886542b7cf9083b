/**
 * The SYSTEM_POWER_STATUS record the program polls, the full-field comparison
 * used in verbose mode, and the battery discharge rate as the program reads it.
 */
module PowerStatus {
  import opened Common
  import opened Flags

  /** SYSTEM_POWER_STATUS; `reserved1` is the battery-saver flag (SystemStatusFlag) since Windows 10. */
  datatype SystemPowerStatus = SystemPowerStatus(
    acLineStatus: Byte,
    batteryFlag: Byte,
    batteryLifePercent: Byte,
    reserved1: Byte,
    batteryLifeTime: DWord,
    batteryFullLifeTime: DWord)

  /** The all-zero record the monitor loop starts from. */
  const ZeroStatus := SystemPowerStatus(0, 0, 0, 0, 0, 0)

  /** BatteryFlag bit 8: the battery is charging. */
  predicate Charging(s: SystemPowerStatus) {
    (s.batteryFlag / 8) % 2 == 1
  }

  /** BatteryFlag bit 128: there is no system battery. */
  predicate NoBattery(s: SystemPowerStatus) {
    (s.batteryFlag / 128) % 2 == 1
  }

  /** Battery saver, read from Reserved1 as a bool. */
  predicate BatterySaver(s: SystemPowerStatus) {
    s.reserved1 != 0
  }

  /** The two bits the monitor tests are the ones BatteryFlagStr names "Charging" and "No system battery". */
  lemma FlagBitsAreListed(s: SystemPowerStatus)
    ensures Charging(s) <==> "Charging" in FlagItems(s.batteryFlag)
    ensures NoBattery(s) <==> "No system battery" in FlagItems(s.batteryFlag)
  {
    FlagItemsNamed(s.batteryFlag, 3);
    FlagItemsNamed(s.batteryFlag, 4);
  }

  datatype Comparison = CpsEqual | CpsNotEqual

  /** Compares the six fields in declaration order; the records are equal exactly when every field is. */
  function ComparePowerStatus(a: SystemPowerStatus, b: SystemPowerStatus): (r: Comparison)
    ensures r == CpsEqual <==> a == b
  {
    if a.acLineStatus != b.acLineStatus then CpsNotEqual
    else if a.batteryFlag != b.batteryFlag then CpsNotEqual
    else if a.batteryLifePercent != b.batteryLifePercent then CpsNotEqual
    else if a.reserved1 != b.reserved1 then CpsNotEqual
    else if a.batteryLifeTime != b.batteryLifeTime then CpsNotEqual
    else if a.batteryFullLifeTime != b.batteryFullLifeTime then CpsNotEqual
    else CpsEqual
  }

  /** The comparison is an equivalence: reflexive, symmetric and transitive. */
  lemma ComparePowerStatusIsEquivalence(a: SystemPowerStatus, b: SystemPowerStatus, c: SystemPowerStatus)
    ensures ComparePowerStatus(a, a) == CpsEqual
    ensures ComparePowerStatus(a, b) == ComparePowerStatus(b, a)
    ensures ComparePowerStatus(a, b) == CpsEqual && ComparePowerStatus(b, c) == CpsEqual ==>
      ComparePowerStatus(a, c) == CpsEqual
  {
  }

  /** The outcome of the battery-state query: it failed, or it read the raw 32-bit Rate field. */
  datatype RateQuery = QueryFailed | RateRead(raw: DWord)

  /** The C cast `(LONG)` of a 32-bit unsigned value: two's-complement reinterpretation. */
  function AsLong(raw: DWord): (v: int)
    ensures -0x8000_0000 <= v < 0x8000_0000
    ensures v % 0x1_0000_0000 == raw
  {
    if raw < 0x8000_0000 then raw else raw - 0x1_0000_0000
  }

  /**
   * The battery rate in mW: 0 when the query fails, and 0 for the raw value
   * 0x80000000 that some batteries report while charging; otherwise the raw
   * value read as signed. A non-zero result is never the most negative LONG.
   */
  function GetBatteryMilliwatts(query: RateQuery): (mw: int)
    ensures -0x8000_0000 < mw < 0x8000_0000
    ensures mw == 0 <==> query.QueryFailed? || query.raw == 0 || query.raw == 0x8000_0000
    ensures mw != 0 ==> mw % 0x1_0000_0000 == query.raw
  {
    match query
    case QueryFailed => 0
    case RateRead(raw) => if raw != 0x8000_0000 then AsLong(raw) else 0
  }
}
