/**
 * The labels battstatus shows for the fields of SYSTEM_POWER_STATUS: AC line
 * status, battery percentage, battery-saver flag and the remaining-time
 * display. Each label function is total, and each has a parser beside it
 * whose round-trip lemma shows that distinct values get distinct labels.
 */
module Labels {
  import opened Common
  import opened Text

  /** ACLineStatus: only 0, 1 and 255 are documented. */
  function ACLineStatusStr(acLineStatus: DWord): string {
    match acLineStatus
    case 0 => "Offline"
    case 1 => "Online"
    case 255 => "Unknown status"
    case _ => UndocumentedValueStr(acLineStatus)
  }

  function ParseACLineStatusStr(s: string): Option<nat> {
    if s == "Offline" then Some(0)
    else if s == "Online" then Some(1)
    else if s == "Unknown status" then Some(255)
    else ParseUndocumented(s)
  }

  /** Every AC line status reads back from its label, so no two share one. */
  lemma ACLineStatusStrRoundTrip(acLineStatus: DWord)
    ensures ParseACLineStatusStr(ACLineStatusStr(acLineStatus)) == Some(acLineStatus)
  {
    if acLineStatus !in {0, 1, 255} {
      UndocumentedIsNotAName(acLineStatus, "Offline");
      UndocumentedIsNotAName(acLineStatus, "Online");
      UndocumentedIsNotAName(acLineStatus, "Unknown status");
      ParseUndocumentedValueStr(acLineStatus);
    }
  }

  /** BatteryLifePercent: 0 to 100 is a percentage, 255 is unknown, anything else is undocumented. */
  function BatteryLifePercentStr(percent: DWord): string {
    if percent <= 100 then NatToString(percent) + "%"
    else if percent == 255 then "Unknown status"
    else UndocumentedValueStr(percent)
  }

  function ParseBatteryLifePercentStr(s: string): Option<nat> {
    if s == "Unknown status" then Some(255)
    else if |s| > 0 && s[|s| - 1] == '%' then
      match ParseNat(s[..|s| - 1])
      case Some(p) => if p <= 100 then Some(p) else None
      case None => None
    else ParseUndocumented(s)
  }

  /** The label is a number with a percent sign exactly for the documented range 0..100. */
  lemma BatteryLifePercentStrShape(percent: DWord)
    ensures var s := BatteryLifePercentStr(percent);
      (|s| > 0 && s[|s| - 1] == '%') <==> percent <= 100
  {
    var s := BatteryLifePercentStr(percent);
    if percent > 100 && percent != 255 {
      var digits := NatToString(percent);
      assert s[|s| - 1] == digits[|digits| - 1];
    }
  }

  /** Every percentage value reads back from its label. */
  lemma BatteryLifePercentStrRoundTrip(percent: DWord)
    ensures ParseBatteryLifePercentStr(BatteryLifePercentStr(percent)) == Some(percent)
  {
    var s := BatteryLifePercentStr(percent);
    if percent <= 100 {
      assert s[..|s| - 1] == NatToString(percent);
      ParseNatToString(percent);
    } else if percent != 255 {
      BatteryLifePercentStrShape(percent);
      UndocumentedIsNotAName(percent, "Unknown status");
      ParseUndocumentedValueStr(percent);
    }
  }

  /** SystemStatusFlag (Reserved1 before Windows 10): 0 and 1 are documented. */
  function SystemStatusFlagStr(flag: DWord): string {
    match flag
    case 0 => "Battery saver is off"
    case 1 => "Battery saver is on"
    case _ => UndocumentedValueStr(flag)
  }

  function ParseSystemStatusFlagStr(s: string): Option<nat> {
    if s == "Battery saver is off" then Some(0)
    else if s == "Battery saver is on" then Some(1)
    else ParseUndocumented(s)
  }

  /** Every battery-saver flag reads back from its label. */
  lemma SystemStatusFlagStrRoundTrip(flag: DWord)
    ensures ParseSystemStatusFlagStr(SystemStatusFlagStr(flag)) == Some(flag)
  {
    if flag !in {0, 1} {
      UndocumentedIsNotAName(flag, "Battery saver is off");
      UndocumentedIsNotAName(flag, "Battery saver is on");
      ParseUndocumentedValueStr(flag);
    }
  }

  /** BatteryLifeTime (and BatteryFullLifeTime) is (DWORD)-1 when the time is unknown. */
  const UnknownLifeTime: DWord := 0xFFFF_FFFF

  /** What the systray-style remaining-time display shows. */
  datatype LifeTime = UnknownTime | HoursMinutes(hours: nat, minutes: nat)

  /** The hours and whole minutes shown for a number of seconds; the leftover seconds are dropped. */
  function LifeTimeOf(seconds: DWord): (r: LifeTime)
    ensures r.UnknownTime? <==> seconds == UnknownLifeTime
    ensures r.HoursMinutes? ==> r.minutes < 60
    ensures r.HoursMinutes? ==>
      3600 * r.hours + 60 * r.minutes <= seconds < 3600 * r.hours + 60 * r.minutes + 60
  {
    if seconds == UnknownLifeTime then UnknownTime
    else HoursMinutes(seconds / 3600, (seconds % 3600) / 60)
  }

  /**
   * "[H hr ]MM min", as the battery systray shows it, or "Unknown": the hours
   * part appears only when there is at least one hour, and the minutes always
   * take two digits.
   */
  function BatteryLifeTimeStr(seconds: DWord): (s: string)
    ensures seconds == UnknownLifeTime ==> s == "Unknown"
    ensures seconds != UnknownLifeTime ==>
      |s| >= 6 && s[|s| - 4..] == " min" && AllDigits(s[|s| - 6..|s| - 4])
    ensures seconds != UnknownLifeTime ==> (|s| == 6 <==> seconds < 3600)
  {
    if seconds == UnknownLifeTime then "Unknown"
    else
      var hours := seconds / 3600;
      var minutes := (seconds % 3600) / 60;
      var mm := ZeroPad2(NatToString(minutes));
      ParseZeroPad2(minutes);
      (if hours != 0 then NatToString(hours) + " hr " else "") + mm + " min"
  }

  function ParseBatteryLifeTimeStr(s: string): Option<LifeTime> {
    if s == "Unknown" then Some(UnknownTime)
    else if |s| >= 6 && s[|s| - 4..] == " min" then
      var rest := s[..|s| - 6];
      match ParseNat(s[|s| - 6..|s| - 4])
      case None => None
      case Some(minutes) =>
        if rest == [] then Some(HoursMinutes(0, minutes))
        else if |rest| > 4 && rest[|rest| - 4..] == " hr " then
          match ParseNat(rest[..|rest| - 4])
          case None => None
          case Some(hours) => Some(HoursMinutes(hours, minutes))
        else None
    else None
  }

  /** The remaining-time text reads back as exactly the hours and minutes of LifeTimeOf. */
  lemma BatteryLifeTimeStrRoundTrip(seconds: DWord)
    ensures ParseBatteryLifeTimeStr(BatteryLifeTimeStr(seconds)) == Some(LifeTimeOf(seconds))
  {
    if seconds != UnknownLifeTime {
      var hours := seconds / 3600;
      var minutes := (seconds % 3600) / 60;
      var mm := ZeroPad2(NatToString(minutes));
      ParseZeroPad2(minutes);
      var s := BatteryLifeTimeStr(seconds);
      if hours == 0 {
        assert s == mm + " min";
        assert s[|s| - 6..|s| - 4] == mm;
        assert s[..|s| - 6] == [];
      } else {
        var hh := NatToString(hours);
        assert s == hh + " hr " + mm + " min";
        assert s[|s| - 6..|s| - 4] == mm;
        var rest := s[..|s| - 6];
        assert rest == hh + " hr ";
        assert rest[..|rest| - 4] == hh;
        ParseNatToString(hours);
      }
    }
  }
}
