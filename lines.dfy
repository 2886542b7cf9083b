/**
 * The status lines of the non-verbose monitor, in the battery systray's
 * wording. Each line reads back as its category, the percentage and the
 * displayed remaining time, so status lines that say different things never
 * have the same text.
 */
module StatusLines {
  import opened Common
  import opened Text
  import opened Labels

  /** The status line categories. */
  datatype Message =
    | NoBatteryDetected                             // "No battery is detected"
    | Available(percent: Byte, pluggedIn: bool)    // "N% available ([plugged in, ]charging)"
    | FullyCharged(percent: Byte)                   // "Fully charged (N%)"
    | PercentRemaining(percent: Byte)               // "N% remaining"
    | TimeRemaining(lifeTime: DWord, percent: Byte) // "[H hr ]MM min (N%) remaining"

  const NoBatteryText := "No battery is detected"
  const PluggedInSuffix := " available (plugged in, charging)"
  const ChargingSuffix := " available (charging)"
  const FullyChargedPrefix := "Fully charged ("
  const RemainingSuffix := " remaining"
  const TimeSuffix := ") remaining"

  /** The text of a status line (the time-stamp prefix is not modelled). */
  function MessageText(m: Message): string {
    match m
    case NoBatteryDetected => NoBatteryText
    case Available(p, pluggedIn) =>
      BatteryLifePercentStr(p) + (if pluggedIn then PluggedInSuffix else ChargingSuffix)
    case FullyCharged(p) => FullyChargedPrefix + BatteryLifePercentStr(p) + ")"
    case PercentRemaining(p) => BatteryLifePercentStr(p) + RemainingSuffix
    case TimeRemaining(t, p) => BatteryLifeTimeStr(t) + " (" + BatteryLifePercentStr(p) + TimeSuffix
  }

  /** What a reader of a status line learns from it: the remaining time only as displayed. */
  datatype LineView =
    | NoBatteryView
    | AvailableView(percent: nat, pluggedIn: bool)
    | FullyChargedView(percent: nat)
    | PercentView(percent: nat)
    | TimeView(lifeTime: LifeTime, percent: nat)

  function ViewOf(m: Message): LineView {
    match m
    case NoBatteryDetected => NoBatteryView
    case Available(p, pluggedIn) => AvailableView(p, pluggedIn)
    case FullyCharged(p) => FullyChargedView(p)
    case PercentRemaining(p) => PercentView(p)
    case TimeRemaining(t, p) => TimeView(LifeTimeOf(t), p)
  }

  predicate EndsWith(t: string, suffix: string) {
    |suffix| <= |t| && t[|t| - |suffix|..] == suffix
  }

  /** The first position of `c` in `t`, if any. */
  function IndexOf(t: string, c: char): (r: Option<nat>)
    ensures r.Some? ==> r.value < |t| && t[r.value] == c && forall j | 0 <= j < r.value :: t[j] != c
    ensures r.None? ==> forall j | 0 <= j < |t| :: t[j] != c
  {
    if t == [] then None
    else if t[0] == c then Some(0)
    else match IndexOf(t[1..], c)
      case None => None
      case Some(i) => Some(i + 1)
  }

  /** Reads a status line back; None for text no status line has. */
  function ParseStatusLine(t: string): Option<LineView> {
    if t == NoBatteryText then Some(NoBatteryView)
    else if EndsWith(t, PluggedInSuffix) then
      match ParseBatteryLifePercentStr(t[..|t| - |PluggedInSuffix|])
      case None => None
      case Some(n) => Some(AvailableView(n, true))
    else if EndsWith(t, ChargingSuffix) then
      match ParseBatteryLifePercentStr(t[..|t| - |ChargingSuffix|])
      case None => None
      case Some(n) => Some(AvailableView(n, false))
    else if EndsWith(t, ")") then
      ParseFullyCharged(t)
    else if EndsWith(t, TimeSuffix) then
      ParseTimeRemaining(t)
    else if EndsWith(t, RemainingSuffix) then
      match ParseBatteryLifePercentStr(t[..|t| - |RemainingSuffix|])
      case None => None
      case Some(n) => Some(PercentView(n))
    else None
  }

  /** "Fully charged (N%)". */
  function ParseFullyCharged(t: string): Option<LineView> {
    if |t| > |FullyChargedPrefix| && t[..|FullyChargedPrefix|] == FullyChargedPrefix then
      match ParseBatteryLifePercentStr(t[|FullyChargedPrefix|..|t| - 1])
      case None => None
      case Some(n) => Some(FullyChargedView(n))
    else None
  }

  /** "[H hr ]MM min (N%) remaining": the time ends before the first '('. */
  function ParseTimeRemaining(t: string): Option<LineView>
    requires EndsWith(t, TimeSuffix)
  {
    match IndexOf(t, '(')
    case None => None
    case Some(i) =>
      if 1 <= i && i + 1 <= |t| - |TimeSuffix| && t[i - 1] == ' ' then
        match (ParseBatteryLifeTimeStr(t[..i - 1]), ParseBatteryLifePercentStr(t[i + 1..|t| - |TimeSuffix|]))
        case (Some(lifeTime), Some(n)) => Some(TimeView(lifeTime, n))
        case _ => None
      else None
  }

  /** A percentage label has at least two characters and ends in '%', 's' or a digit. */
  lemma PercentLabelEnd(p: DWord)
    ensures var s := BatteryLifePercentStr(p);
      |s| >= 2 && s[|s| - 1] != 'g' && s[|s| - 1] != ')'
  {
    var s := BatteryLifePercentStr(p);
    if p > 100 && p != 255 {
      var digits := NatToString(p);
      assert s[|s| - 1] == digits[|digits| - 1];
      assert IsDigit(digits[|digits| - 1]);
    }
  }

  predicate NoParen(s: string) {
    forall j | 0 <= j < |s| :: s[j] != '('
  }

  lemma NoParenConcat(a: string, b: string)
    requires NoParen(a) && NoParen(b)
    ensures NoParen(a + b)
  {
    assert forall j | |a| <= j < |a + b| :: (a + b)[j] == b[j - |a|];
  }

  lemma DigitsHaveNoParen(s: string)
    requires AllDigits(s)
    ensures NoParen(s)
  {
  }

  /** A remaining-time label holds no '('. */
  lemma LifeTimeLabelHasNoParen(seconds: DWord)
    ensures NoParen(BatteryLifeTimeStr(seconds))
  {
    if seconds != UnknownLifeTime {
      var hours := seconds / 3600;
      var minutes := (seconds % 3600) / 60;
      var mm := ZeroPad2(NatToString(minutes));
      assert NoParen(mm) by {
        ZeroPad2Digits(NatToString(minutes));
        DigitsHaveNoParen(mm);
      }
      var head := if hours != 0 then NatToString(hours) + " hr " else "";
      assert NoParen(head) by {
        if hours != 0 {
          DigitsHaveNoParen(NatToString(hours));
          NoParenConcat(NatToString(hours), " hr ");
        }
      }
      NoParenConcat(head, mm);
      NoParenConcat(head + mm, " min");
      assert BatteryLifeTimeStr(seconds) == head + mm + " min";
    }
  }

  /** Every status line reads back as what it says. */
  lemma ParseMessageText(m: Message)
    ensures ParseStatusLine(MessageText(m)) == Some(ViewOf(m))
  {
    match m
    case NoBatteryDetected =>
    case Available(p, pluggedIn) => AvailableReadsBack(p, pluggedIn);
    case FullyCharged(p) => FullyChargedReadsBack(p);
    case PercentRemaining(p) => PercentRemainingReadsBack(p);
    case TimeRemaining(t, p) => TimeRemainingReadsBack(t, p);
  }

  /** Two status lines with the same text say the same thing. */
  lemma MessageTextDistinguishes(m1: Message, m2: Message)
    requires MessageText(m1) == MessageText(m2)
    ensures ViewOf(m1) == ViewOf(m2)
  {
    ParseMessageText(m1);
    ParseMessageText(m2);
  }

  lemma AvailableReadsBack(p: Byte, pluggedIn: bool)
    ensures ParseStatusLine(MessageText(Available(p, pluggedIn))) == Some(AvailableView(p, pluggedIn))
  {
    BatteryLifePercentStrRoundTrip(p);
    AvailableLine(BatteryLifePercentStr(p), pluggedIn);
  }

  lemma FullyChargedReadsBack(p: Byte)
    ensures ParseStatusLine(MessageText(FullyCharged(p))) == Some(FullyChargedView(p))
  {
    PercentLabelEnd(p);
    BatteryLifePercentStrRoundTrip(p);
    FullyChargedLine(BatteryLifePercentStr(p));
  }

  lemma PercentRemainingReadsBack(p: Byte)
    ensures ParseStatusLine(MessageText(PercentRemaining(p))) == Some(PercentView(p))
  {
    PercentLabelEnd(p);
    BatteryLifePercentStrRoundTrip(p);
    PercentLine(BatteryLifePercentStr(p));
  }

  lemma TimeRemainingReadsBack(seconds: DWord, p: Byte)
    ensures ParseStatusLine(MessageText(TimeRemaining(seconds, p))) == Some(TimeView(LifeTimeOf(seconds), p))
  {
    var time, pct := BatteryLifeTimeStr(seconds), BatteryLifePercentStr(p);
    var t := time + " (" + pct + TimeSuffix;
    assert MessageText(TimeRemaining(seconds, p)) == t;
    assert ParseStatusLine(t) == Some(TimeView(LifeTimeOf(seconds), p)) by {
      BatteryLifePercentStrRoundTrip(p);
      BatteryLifeTimeStrRoundTrip(seconds);
      LifeTimeLabelHasNoParen(seconds);
      TimeLine(time, pct);
    }
  }

  /** A line ending in 'g' ("… remaining") matches none of the earlier patterns. */
  lemma EndsInG(t: string)
    requires |t| > 0 && t[|t| - 1] == 'g'
    ensures t != NoBatteryText
    ensures !EndsWith(t, PluggedInSuffix) && !EndsWith(t, ChargingSuffix) && !EndsWith(t, ")")
  {
    if |PluggedInSuffix| <= |t| {
      assert t[|t| - |PluggedInSuffix|..][|PluggedInSuffix| - 1] == t[|t| - 1];
    }
    if |ChargingSuffix| <= |t| {
      assert t[|t| - |ChargingSuffix|..][|ChargingSuffix| - 1] == t[|t| - 1];
    }
    assert t[|t| - 1..][0] == t[|t| - 1];
  }

  lemma AvailableLine(pct: string, pluggedIn: bool)
    ensures var t := pct + (if pluggedIn then PluggedInSuffix else ChargingSuffix);
      ParseStatusLine(t) == match ParseBatteryLifePercentStr(pct)
        case None => None
        case Some(n) => Some(AvailableView(n, pluggedIn))
  {
    var suffix := if pluggedIn then PluggedInSuffix else ChargingSuffix;
    var t := pct + suffix;
    assert t[..|t| - |suffix|] == pct;
    assert t[|t| - |suffix|..] == suffix;
    assert t != NoBatteryText by {
      assert t[|t| - 1] == ')';
    }
    if !pluggedIn {
      assert !EndsWith(t, PluggedInSuffix) by {
        if |PluggedInSuffix| <= |t| {
          assert t[|t| - 21] == ' ';
          assert PluggedInSuffix[12] == 'p';
          assert t[|t| - |PluggedInSuffix|..][12] == t[|t| - 21];
        }
      }
    }
  }

  lemma FullyChargedLine(pct: string)
    requires |pct| > 0 && pct[|pct| - 1] != 'g'
    ensures ParseStatusLine(FullyChargedPrefix + pct + ")") == match ParseBatteryLifePercentStr(pct)
        case None => None
        case Some(n) => Some(FullyChargedView(n))
  {
    var t := FullyChargedPrefix + pct + ")";
    assert t[..|FullyChargedPrefix|] == FullyChargedPrefix;
    assert t[|FullyChargedPrefix|..|t| - 1] == pct;
    assert t[|t| - 1..] == ")";
    assert t != NoBatteryText by {
      assert t[0] == 'F';
    }
    assert t[|t| - 2] == pct[|pct| - 1];
    assert !EndsWith(t, PluggedInSuffix) by {
      if |PluggedInSuffix| <= |t| {
        assert t[|t| - |PluggedInSuffix|..][|PluggedInSuffix| - 2] == t[|t| - 2];
      }
    }
    assert !EndsWith(t, ChargingSuffix) by {
      if |ChargingSuffix| <= |t| {
        assert t[|t| - |ChargingSuffix|..][|ChargingSuffix| - 2] == t[|t| - 2];
      }
    }
  }

  lemma PercentLine(pct: string)
    requires |pct| > 0 && pct[|pct| - 1] != ')'
    ensures ParseStatusLine(pct + RemainingSuffix) == match ParseBatteryLifePercentStr(pct)
        case None => None
        case Some(n) => Some(PercentView(n))
  {
    var t := pct + RemainingSuffix;
    assert t[..|t| - |RemainingSuffix|] == pct;
    assert t[|t| - |RemainingSuffix|..] == RemainingSuffix;
    EndsInG(t);
    assert !EndsWith(t, TimeSuffix) by {
      assert t[|t| - |TimeSuffix|] == pct[|pct| - 1];
      if |TimeSuffix| <= |t| {
        assert t[|t| - |TimeSuffix|..][0] == t[|t| - |TimeSuffix|];
      }
    }
  }

  lemma TimeLine(time: string, pct: string)
    requires NoParen(time)
    ensures ParseStatusLine(time + " (" + pct + TimeSuffix) ==
      match (ParseBatteryLifeTimeStr(time), ParseBatteryLifePercentStr(pct))
      case (Some(lifeTime), Some(n)) => Some(TimeView(lifeTime, n))
      case _ => None
  {
    var t := time + " (" + pct + TimeSuffix;
    assert t[|t| - |TimeSuffix|..] == TimeSuffix;
    TimeLineDispatch(t);
    TimeTextSlices(time, pct);
  }

  /** A line ending in ") remaining" is read as a time-remaining line. */
  lemma TimeLineDispatch(t: string)
    requires EndsWith(t, TimeSuffix)
    ensures ParseStatusLine(t) == ParseTimeRemaining(t)
  {
    assert t[|t| - |TimeSuffix|..][|TimeSuffix| - 1] == t[|t| - 1];
    EndsInG(t);
  }

  /** Where the pieces of "T (P) remaining" sit, for a time T without '('. */
  lemma TimeTextSlices(time: string, pct: string)
    requires NoParen(time)
    ensures var t := time + " (" + pct + TimeSuffix;
      IndexOf(t, '(') == Some(|time| + 1)
      && t[|time|] == ' '
      && t[..|time|] == time
      && t[|time| + 2..|t| - |TimeSuffix|] == pct
  {
    var t := time + " (" + pct + TimeSuffix;
    var i := |time| + 1;
    assert t[i] == '(';
    assert forall j | 0 <= j < i :: t[j] != '(' by {
      assert forall j | 0 <= j < |time| :: t[j] == time[j];
    }
    assert t[..|time|] == time;
    assert t[|time| + 2..|t| - |TimeSuffix|] == pct;
  }
}
