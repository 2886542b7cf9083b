# battstatus — a Dafny model of the power-status monitor

battstatus is a Windows console program. It polls the system power status
(the `SYSTEM_POWER_STATUS` record) every 100 ms and writes a line whenever
something worth reporting changed.

- In verbose mode (`-v`) it dumps the whole record and the battery rate in
  mW whenever any field differs from the last record shown.
- Otherwise it writes one status line in the battery systray's wording
  ("27 min (15%) remaining", "100% available (plugged in, charging)",
  "Fully charged (100%)", …). It does this only when battery presence, the
  charging bit or the percentage changed. On Windows 10 and later it also
  writes a notice when battery saver turns on or off.

This project models that core:

- the label functions for each field;
- the `BatteryFlag` bit-set rendering;
- the record comparison and the battery-rate reading;
- the decision made in each iteration of the polling loop, and the loop
  over a finite run of polls;
- the command-line option parser.

Modules, one per file:

- `Common` (`common.dfy`): `Option`, and `Byte`/`DWord` as bounded integers.
- `Text` (`text.dfy`): decimal rendering with its parser, two-digit zero padding, and the undocumented-value text.
- `Labels` (`labels.dfy`): `ACLineStatusStr`, `BatteryLifePercentStr`, `SystemStatusFlagStr` and `BatteryLifeTimeStr`. Each comes with a parser and a round-trip lemma.
- `Flags` (`flags.dfy`): `BatteryFlagStr`. An imperative method is proved against the list of items it must produce, and lemmas cover ordering, membership and injectivity.
- `PowerStatus` (`status.dfy`): the record, `ComparePowerStatus` and `GetBatteryMilliwatts`.
- `StatusLines` (`lines.dfy`): the status-line categories, their text, and a parser that reads each line back.
- `Monitor` (`monitor.dfy`): one iteration of the polling loop (`Step`), its fold over a run of polls (`Replay`), and the loop itself (`MonitorLoop`). It also holds the battery-saver finding below.
- `Options` (`options.dfy`): argument parsing. The loop `ParseOptions` is proved against the fold `ParseArgs`.

Inputs from the operating system are parameters of the model:

- A `Poll` holds the result of `GetSystemPowerStatus` (absent when the call fails) and the result of the battery-rate query.
- A `Config` holds the number of `-v` options and the OS major version.

This revision of the monitor has no charge-toggle suppression, no
post-resume suppression and no lifetime averaging. Its non-verbose change
check compares only battery presence, the charging bit and the percentage
(`battstatus.cpp:556-558`); the AC line status is not part of it.

## Model

| member | source | states |
|---|---|---|
| Text.NatToString | battstatus.cpp:150-152 | the decimal text of a number is non-empty, all digits, has no leading zero, and is one digit exactly below 10 |
| Text.ParseNatToString | battstatus.cpp:150-152 | decimal output reads back as the number it was made from |
| Text.ZeroPad2 | battstatus.cpp:186-187 | `fill('0')` with `setw(2)` pads on the left to two characters and keeps the digits as the suffix |
| Text.ParseZeroPad2 | battstatus.cpp:182-187 | minutes below 100 take exactly two padded digits and read back |
| Text.UndocumentedValueStr | battstatus.cpp:76-84 | the undocumented-value text starts with "Undocumented value: " followed by the value |
| Text.ParseUndocumentedValueStr | battstatus.cpp:76-84 | the undocumented-value text gives back its value, so different values get different texts |
| Text.UndocumentedIsNotAName | battstatus.cpp:76-84 | an undocumented-value text never equals a name of at most 20 characters |
| Labels.ACLineStatusStr | battstatus.cpp:104-113 | 0, 1 and 255 are "Offline", "Online" and "Unknown status", every other value its undocumented text; `ACLineStatusStrRoundTrip` shows that every value reads back from its label |
| Labels.ACLineStatusStrRoundTrip | battstatus.cpp:104-113 | 0, 1 and 255 get their names and every other value its undocumented text; every value reads back |
| Labels.BatteryLifePercentStr | battstatus.cpp:147-157 | 0..100 as "N%", 255 as "Unknown status", anything else its undocumented text; `BatteryLifePercentStrShape` and `BatteryLifePercentStrRoundTrip` state the form and the read-back |
| Labels.BatteryLifePercentStrShape | battstatus.cpp:147-157 | the label ends in '%' exactly for the documented range 0..100 |
| Labels.BatteryLifePercentStrRoundTrip | battstatus.cpp:147-157 | every percentage value (0..100, 255, undocumented) reads back from its label |
| Labels.SystemStatusFlagStr | battstatus.cpp:163-171 | 0 and 1 are "Battery saver is off/on", other values their undocumented text; `SystemStatusFlagStrRoundTrip` shows that every value reads back |
| Labels.SystemStatusFlagStrRoundTrip | battstatus.cpp:163-171 | 0 and 1 get "Battery saver is off/on" and other values their undocumented text; every value reads back |
| Labels.LifeTimeOf | battstatus.cpp:178-182 | (DWORD)-1 is unknown; otherwise whole hours and minutes below 60, within a minute below the seconds |
| Labels.BatteryLifeTimeStr | battstatus.cpp:176-190 | "Unknown" for (DWORD)-1; otherwise ends in two digits and " min", and is exactly "MM min" when under an hour |
| Labels.BatteryLifeTimeStrRoundTrip | battstatus.cpp:176-190 | the remaining-time text reads back as exactly the hours and minutes shown |
| Flags.ExtractFlag | battstatus.cpp:126-132 | one macro expansion: clears `flag & mask` and appends the name, after the separator when text is already there, exactly when those bits are set |
| Flags.RestAdvances | battstatus.cpp:133-138 | after the first k expansions, expansion k finds exactly entry k's bits; for the 255 mask these are bits 16, 32 and 64 |
| Flags.TextAdvances | battstatus.cpp:126-138 | each expansion extends the joined items of the earlier entries by its own item |
| Flags.ExtractionFinishes | battstatus.cpp:139-143 | after the six expansions only the bits above the low byte remain, written as one undocumented value |
| Flags.BatteryFlagStr | battstatus.cpp:115-145 | the result is "<none>" for zero, otherwise the separator-joined list of set entries in table order followed by any high bits |
| Flags.FlagItemsOrdered | battstatus.cpp:133-143 | names appear in the fixed order High, Low, Critical, Charging, No system battery, Unknown status, each at most once; an undocumented value comes last |
| Flags.FlagItemsNamed | battstatus.cpp:122-138 | for every flag, zero included, each name is listed exactly when its bits are set |
| Flags.FlagItemsUndocumented | battstatus.cpp:122-143 | for every flag, zero included, an undocumented value is listed exactly when bits above 255 are set, and it carries those bits |
| Flags.LowByteIsEntryBits | battstatus.cpp:133-138 | the six entries partition the low byte |
| Flags.FlagItemsNonEmpty | battstatus.cpp:115-145 | every flag value produces at least one item and a non-empty text |
| Flags.ZeroFlagView | battstatus.cpp:122-123 | a flag is zero exactly when no entry and no high bit is set |
| Flags.FlagItemsDetermineView | battstatus.cpp:115-145 | two flags list the same items exactly when they agree on every entry and on the high bits |
| Flags.NoneMeansZero | battstatus.cpp:122-123 | "<none>" is listed exactly for the zero flag |
| PowerStatus.NoBattery | battstatus.cpp:541-542 | battery presence is the BatteryFlag bit 128; `FlagBitsAreListed` ties it to the "No system battery" name |
| PowerStatus.BatterySaver | battstatus.cpp:543-544 | Reserved1 read as a bool; `Monitor.SaverNotice` and `Monitor.CorrectedNoticePerChange` use it |
| PowerStatus.Charging | battstatus.cpp:545-546 | charging is the BatteryFlag bit 8; `FlagBitsAreListed` ties it to the "Charging" name |
| PowerStatus.FlagBitsAreListed | battstatus.cpp:541-546 | the charging and no-battery bits the monitor tests are set exactly when BatteryFlagStr lists "Charging" and "No system battery" |
| PowerStatus.ComparePowerStatus | battstatus.cpp:233-248 | CPS_EQUAL exactly when all six fields are equal |
| PowerStatus.ComparePowerStatusIsEquivalence | battstatus.cpp:233-248 | the comparison is reflexive, symmetric and transitive |
| PowerStatus.AsLong | battstatus.cpp:266 | the `(LONG)` cast yields the signed 32-bit value congruent to the raw DWORD |
| PowerStatus.GetBatteryMilliwatts | battstatus.cpp:261-267 | 0 exactly when the query fails, the rate is 0 or the rate is 0x80000000; otherwise the rate read as signed, never the most negative LONG |
| StatusLines.PercentLabelEnd | battstatus.cpp:147-157 | a percentage label has at least two characters and never ends in 'g' or ')' |
| StatusLines.LifeTimeLabelHasNoParen | battstatus.cpp:176-190 | a remaining-time label holds no '(' |
| StatusLines.AvailableReadsBack | battstatus.cpp:567-573 | the "available (…charging)" line reads back with its percentage and whether it was plugged in |
| StatusLines.FullyChargedReadsBack | battstatus.cpp:577-581 | the "Fully charged (N%)" line reads back with its percentage |
| StatusLines.PercentRemainingReadsBack | battstatus.cpp:582-586 | the "N% remaining" line reads back with its percentage |
| StatusLines.TimeRemainingReadsBack | battstatus.cpp:588-593 | the "[H hr ]MM min (N%) remaining" line reads back with the displayed time and the percentage |
| StatusLines.TimeTextSlices | battstatus.cpp:590-592 | in "T (P) remaining" with no '(' in T, the first '(' separates T from P |
| StatusLines.MessageText | battstatus.cpp:561-593 | the text of each status-line category; `ParseMessageText` shows that every line reads back as what it says |
| StatusLines.ParseMessageText | battstatus.cpp:561-594 | every status line reads back as its category, percentage, plugged-in state and displayed time |
| StatusLines.MessageTextDistinguishes | battstatus.cpp:561-594 | two status lines with the same text say the same thing |
| Monitor.SelectMessage | battstatus.cpp:561-593 | first match wins: no battery, then charging (plugged in exactly when AC is 1), then an unknown lifetime (fully charged exactly at 100% with a zero rate), then time remaining; the conditions are exclusive and cover every status |
| Monitor.SameSummary | battstatus.cpp:556-558 | the non-verbose change check: presence, charging and percentage agree; `Monitor.Step` writes a status line exactly when it fails, and `VolatileFieldsPrintNoLine` shows what it ignores |
| Monitor.SaverNotice | battstatus.cpp:548-551 | the notice appears exactly on Windows 10 or later when Reserved1 changed as a bool, and carries SystemStatusFlagStr of the new value |
| Monitor.Step | battstatus.cpp:513-596 | a failed query changes nothing; verbose: a line exactly when the record differs; otherwise a line exactly when presence, charging or percentage changed; `prev` becomes the status exactly when a line is written |
| Monitor.Replay | battstatus.cpp:504-505 | a run from the zero record yields one tick per poll |
| Monitor.MonitorLoop | battstatus.cpp:504-597 | the polling loop's ticks and final `prev_status` are those of the fold `Replay` |
| Monitor.VolatileFieldsPrintNoLine | battstatus.cpp:553-559 | non-verbose: changes to the AC status, the lifetimes or Reserved1 alone never write a status line |
| Monitor.RepeatedStatusPrintsNoLine | battstatus.cpp:522-559 | polling the same status twice writes no line the second time, in either mode |
| Monitor.PrevIsLastPrinted | battstatus.cpp:504-596 | after any run, `prev_status` is the status of the last iteration that wrote a line, or the zero record if none did |
| Monitor.ReplaySnoc | battstatus.cpp:505-596 | a run extended by one poll is the run followed by one step |
| Monitor.SaverNoticeRepeats | battstatus.cpp:548-559 | as written: with battery saver turned on and nothing else changing, the notice is written on every later poll |
| Monitor.CorrectedStep | battstatus.cpp:548-559 | the fixed step writes the same tick and also records Reserved1 in `prev` when it writes a notice without a line |
| Monitor.CorrectedNoticeOnce | battstatus.cpp:548-559 | with the fix, polling the same status again writes neither a notice nor a line |
| Monitor.CorrectedReplaySnoc | battstatus.cpp:505-596 | a fixed run extended by one poll is the run followed by one fixed step |
| Monitor.CorrectedReplay | battstatus.cpp:504-596 | the fixed run from the zero record, one tick per poll; `CorrectedReplayKeepsLines` and `CorrectedNoticePerChange` state what it writes |
| Monitor.CorrectedPrevTracksSaver | battstatus.cpp:541-559 | with the fix, after a successful poll `prev` has that poll's battery-saver state (Windows 10 or later, or verbose) |
| Monitor.CorrectedNoticePerChange | battstatus.cpp:504-559 | with the fix, poll i writes the notice exactly when (non-verbose, Windows 10 or later) its battery-saver state differs from that of the last successful poll before it, or from the zero record |
| Monitor.CorrectedStepKeepsLine | battstatus.cpp:541-596 | the fix changes no failure and no line of a step |
| Monitor.CorrectedReplayKeepsLines | battstatus.cpp:504-596 | over any run, the fix changes only the notices: every failure and every line is the same |
| Monitor.CorrectedSaverNoticeOnce | battstatus.cpp:548-559 | with the fix, the same run writes the notice once |
| Options.ApplyLetters | battstatus.cpp:460-476 | letters 'p' and 'v' are accepted; 'v' is counted and 'p' sets prevent-sleep; otherwise the first other letter decides: 'h' or '?' gives the usage, anything else an unknown-option error |
| Options.ApplyArg | battstatus.cpp:451-476 | "--help" gives the usage; an empty argument or one not starting with '-' or '/' is an error naming it; otherwise its letters decide |
| Options.ApplyArgsParsed | battstatus.cpp:450-477 | parsing succeeds exactly when every argument is valid; verbosity is then the number of 'v' letters and sleep is prevented exactly when some 'p' appears |
| Options.ApplyArgsStops | battstatus.cpp:450-477 | otherwise the outcome is that of the first argument that is not valid |
| Options.ApplyArgs | battstatus.cpp:450-477 | the arguments in order from given settings; `ApplyArgsParsed` and `ApplyArgsStops` state its outcome |
| Options.ParseArgs | battstatus.cpp:450-477 | the arguments in order from verbosity 0 without prevent-sleep; `ParseOptions` is proved equal to it |
| Options.LettersIgnoreSettings | battstatus.cpp:460-476 | whether and how letters stop parsing does not depend on the options seen before |
| Options.Separate | battstatus.cpp:438-439 | one single-letter option argument per letter |
| Options.CombinedIsSeparate | battstatus.cpp:438-439 | options combined into one argument are the same as separate options |
| Options.CombinedUnfolds | battstatus.cpp:451-460 | a combined argument is parsed through its letters |
| Options.SeparateUnfolds | battstatus.cpp:450-460 | separate arguments are parsed one letter at a time |
| Options.DashStops | battstatus.cpp:472-474 | after a first option letter, "-help" stops at the '-' whether combined or separate |
| Options.PvvExample | battstatus.cpp:438-439 | -pvv and -p -v -v both give verbosity 2 with sleep prevented |
| Options.LetterStep | battstatus.cpp:460-476 | one letter of the inner loop |
| Options.ArgStep | battstatus.cpp:450-451 | one argument of the outer loop |
| Options.ParseOptions | battstatus.cpp:450-477 | the parsing loop's outcome, which returns at the first usage request or error, is that of `ParseArgs` |

## Left out

- The Win32 calls `GetSystemPowerStatus`, `CallNtPowerInformation`, `RtlGetVersion` and `GetLastError` are not modelled. Their results are inputs: `Poll` and `Config`.
- `SetThreadExecutionState` (the effect of `-p`) is not modelled; only the parsed flag is.
- `WindowProc`, `InitMonitorWindow`, the message pump and the exit on `WM_QUIT` are window-message plumbing outside this model.
- `TimeToLocalTimeStr` and the "[time]: " prefix of every line are not modelled: they depend on the clock.
- The output text of `ShowPowerStatus` and the "Battery discharge/charge: …mW" line are not modelled. A verbose `Dump` carries the record and the rate instead.
- The usage text of `ShowUsage` and the error messages are not modelled. Outcomes carry the offending argument or letter instead.
- Text.UndocumentedValueStr: the " (hex: …)" suffix is not modelled. The decimal value alone already makes the text injective. The `char` overloads are unused here.
- `BatteryFullLifeTimeStr` (battstatus.cpp:197-200) is `BatteryLifeTimeStr` under another name and appears only in the verbose dump.
- Monitor.MonitorLoop: the endless loop is modelled over a finite run of polls. The 100 ms and 1 s sleeps are not modelled.
- Monitor.Step: the battery-rate query is modelled as a value read once per poll. The source calls it only when a line needs it.
- Options.ApplyLetters: `verbose` is a C `int`. Its overflow after 2^31 'v' letters is not modelled.
- Flags.BatteryFlagStr: the six macro expansions are written as a loop over a table with the same masks in the same order.

## Findings

| source | as written | input that shows it | evidently intended | confidence | as-written member | corrected member |
|---|---|---|---|---|---|---|
| battstatus.cpp:548-559 | non-verbose: the battery-saver notice compares Reserved1 with `prev_status`, but `prev_status` is only updated when a status line is written | Windows 10, not verbose: a poll at 80% with 2 hr left, then the same status with Reserved1 = 1 on three more polls | one "Battery saver is on" notice per change | high (not executed) | Monitor.SaverNoticeRepeats | Monitor.CorrectedNoticePerChange |

`Monitor.Step` and `Monitor.MonitorLoop` keep the code as written.
`Monitor.CorrectedStep` and `Monitor.CorrectedReplay` are the fix:

- `Monitor.CorrectedNoticePerChange` shows that, over any run, the notice is written exactly when the battery-saver state differs from that of the last successful poll.
- `Monitor.CorrectedSaverNoticeOnce` shows that the same run writes the notice once.
- `Monitor.CorrectedReplayKeepsLines` shows that the fix changes no other output.
