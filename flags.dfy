/**
 * BatteryFlagStr: the BatteryFlag bit set shown as a " | "-separated list of
 * names. The documented bits are taken out one at a time in a fixed order;
 * whatever is left within the low byte is reported once as "Unknown status",
 * and anything above the low byte as one undocumented value.
 */
module Flags {
  import opened Common
  import opened Text

  /**
   * Entry `k` of the extraction table: the documented bits and their names, in
   * the order they are extracted. The last entry gathers every other bit of
   * the low byte: the source extracts it with mask 255 after the others, so
   * the bits it can still find there are 16, 32 and 64.
   */
  function Name(k: nat): string
    requires k < 6
  {
    match k
    case 0 => "High"
    case 1 => "Low"
    case 2 => "Critical"
    case 3 => "Charging"
    case 4 => "No system battery"
    case 5 => "Unknown status"
  }

  /** The single bit of entries 0 to 4. */
  function Bit(k: nat): nat
    requires k < 5
  {
    match k
    case 0 => 1
    case 1 => 2
    case 2 => 4
    case 3 => 8
    case 4 => 128
  }

  /** `x & mask` for the mask the extraction macro is given for entry `k`:
      the entry's bit for entries 0 to 4, the whole low byte (255) for entry 5. */
  function MacroBits(x: nat, k: nat): nat
    requires k < 6
  {
    if k == 5 then x % 256 else (x / Bit(k)) % 2 * Bit(k)
  }

  /** The bits of `flag` that entry `k` reports: its own bit, or bits 16, 32 and 64 for entry 5. */
  function EntryBits(flag: nat, k: nat): nat
    requires k < 6
  {
    if k == 5 then flag % 128 - flag % 16 else MacroBits(flag, k)
  }

  /** The bits of `flag` taken out by the first `k` extractions. */
  function Cleared(flag: nat, k: nat): nat
    requires k <= 6
  {
    match k
    case 0 => 0
    case 1 => flag % 2
    case 2 => flag % 4
    case 3 => flag % 8
    case 4 => flag % 16
    case 5 => flag % 16 + (flag / 128) % 2 * 128
    case 6 => flag % 256
  }

  /** The bits above the low byte, which no name covers. */
  function HighBits(flag: nat): nat {
    flag - flag % 256
  }

  /** Where a list item belongs in the fixed order: its index in Names, 6 for anything else. */
  function Rank(item: string): nat {
    if item == "High" then 0
    else if item == "Low" then 1
    else if item == "Critical" then 2
    else if item == "Charging" then 3
    else if item == "No system battery" then 4
    else if item == "Unknown status" then 5
    else 6
  }

  /** The items of the first `k` table entries whose bits are set in `flag`, in table order. */
  function ItemsUpTo(flag: DWord, k: nat): seq<string>
    requires k <= 6
  {
    if k == 0 then [] else ItemsUpTo(flag, k - 1) + EntryItem(flag, k - 1)
  }

  /** The item the table entry `k` contributes for `flag`, if any. */
  function EntryItem(flag: DWord, k: nat): seq<string>
    requires k < 6
  {
    if EntryBits(flag, k) != 0 then [Name(k)] else []
  }

  /** The undocumented remainder above the low byte, if any. */
  function HighItem(flag: DWord): seq<string> {
    if HighBits(flag) != 0 then [UndocumentedValueStr(HighBits(flag))] else []
  }

  /** The items BatteryFlagStr lists for a flag value, before they are joined. */
  function FlagItems(flag: DWord): seq<string> {
    if flag == 0 then ["<none>"] else ItemsUpTo(flag, 6) + HighItem(flag)
  }

  /** Items joined with " | ", as the stream does when it writes a separator whenever it is non-empty. */
  function Join(items: seq<string>): string {
    if items == [] then ""
    else if |items| == 1 then items[0]
    else Join(items[..|items| - 1]) + " | " + items[|items| - 1]
  }

  predicate NonEmptyItems(items: seq<string>) {
    forall i :: 0 <= i < |items| ==> |items[i]| > 0
  }

  lemma {:induction false} ItemsUpToNonEmpty(flag: DWord, k: nat)
    requires k <= 6
    ensures NonEmptyItems(ItemsUpTo(flag, k))
  {
    if k > 0 {
      ItemsUpToNonEmpty(flag, k - 1);
    }
  }

  /** Appending at most one non-empty item: the separator is written exactly when text is already there. */
  lemma JoinAppend(items: seq<string>, extra: seq<string>)
    requires NonEmptyItems(items) && |extra| <= 1 && NonEmptyItems(extra)
    ensures (Join(items) == "") <==> items == []
    ensures Join(items + extra) ==
      if extra == [] then Join(items)
      else if |Join(items)| > 0 then Join(items) + " | " + extra[0] else extra[0]
  {
    if items != [] && |items| > 1 {
      assert Join(items) == Join(items[..|items| - 1]) + " | " + items[|items| - 1];
    }
    if extra != [] {
      assert (items + extra)[..|items + extra| - 1] == items;
    } else {
      assert items + extra == items;
    }
  }

  /** The first `k` extractions have cleared their bits and written their items. */
  ghost predicate Extracted(flag: DWord, k: nat, rest: nat, text: string)
    requires k <= 6
  {
    rest == flag - Cleared(flag, k) && text == Join(ItemsUpTo(flag, k))
  }

  /** The `k`-th extraction finds exactly the bits of entry `k` among those not yet
      cleared, and clearing them leaves what the first `k + 1` extractions clear. */
  ghost predicate ExtractionStep(flag: nat, k: nat)
    requires k < 6
  {
    && Cleared(flag, k) <= flag
    && MacroBits(flag - Cleared(flag, k), k) == EntryBits(flag, k)
    && Cleared(flag, k) + EntryBits(flag, k) == Cleared(flag, k + 1)
    && Cleared(flag, k + 1) <= flag
  }

  /** Quotient and remainder are determined by any decomposition `x == d * q + m` with `0 <= m < d`. */
  lemma DivModOf(x: nat, d: nat, q: nat, m: nat)
    requires 0 <= m < d && x == d * q + m
    ensures x / d == q && x % d == m
  {
    var q', m' := x / d, x % d;
    assert d * q' + m' == d * q + m;
    if q' < q {
      MulStrict(d, q', q);
      assert false;
    } else if q < q' {
      MulStrict(d, q, q');
      assert false;
    }
  }

  lemma MulStrict(d: nat, a: nat, b: nat)
    requires a < b
    ensures d * a + d <= d * b
  {
    assert d * b == d * a + d * (b - a);
    assert d * (b - a) == d + d * (b - a - 1);
  }

  /** Splitting off the bit above the low bits: `x % 2b` is `x % b` plus bit `b` of `x`. */
  lemma NextBit(x: nat, b: nat)
    requires b > 0
    ensures (x - x % b) / b == x / b
    ensures x % (2 * b) == x % b + (x / b) % 2 * b
  {
    var q, m := x / b, x % b;
    assert x == b * q + m;
    DivModOf(x - m, b, q, 0);
    var h, t := q / 2, q % 2;
    assert q == 2 * h + t;
    assert b * q == (2 * b) * h + t * b by {
      assert b * (2 * h + t) == b * (2 * h) + b * t;
    }
    assert t * b <= b by {
      if t == 1 { } else { assert t == 0; }
    }
    DivModOf(x, 2 * b, h, t * b + m);
  }

  lemma ExtractionStep1(flag: nat) ensures ExtractionStep(flag, 1) {
    NextBit(flag, 2);
  }

  lemma ExtractionStep2(flag: nat) ensures ExtractionStep(flag, 2) {
    NextBit(flag, 4);
  }

  lemma ExtractionStep3(flag: nat) ensures ExtractionStep(flag, 3) {
    NextBit(flag, 8);
  }

  lemma ExtractionStep4(flag: nat) ensures ExtractionStep(flag, 4) {
    var q, m := flag / 128, flag % 128;
    DivModOf(flag, 16, 8 * q + m / 16, m % 16);
    DivModOf(flag - flag % 16, 128, q, m - m % 16);
  }

  lemma ExtractionStep5(flag: nat) ensures ExtractionStep(flag, 5) {
    var q, m := flag / 128, flag % 128;
    DivModOf(flag, 16, 8 * q + m / 16, m % 16);
    DivModOf(flag, 256, q / 2, (q % 2) * 128 + m);
    DivModOf(flag - flag % 16 - (flag / 128) % 2 * 128, 256, q / 2, m - m % 16);
  }

  lemma ExtractionSteps(flag: nat, k: nat)
    requires k < 6
    ensures ExtractionStep(flag, k)
  {
    match k
    case 0 =>
    case 1 => ExtractionStep1(flag);
    case 2 => ExtractionStep2(flag);
    case 3 => ExtractionStep3(flag);
    case 4 => ExtractionStep4(flag);
    case 5 => ExtractionStep5(flag);
  }

  /** Appending an entry's name (after a separator when text is already there) when its bits were found. */
  function AppendIf(found: bool, text: string, name: string): string {
    if !found then text else if |text| > 0 then text + " | " + name else name
  }

  /** One expansion of the extraction macro, for table entry `k`: if `rest & mask` is
      non-zero, write the entry's name and clear those bits with `rest &= ~mask`. */
  method ExtractFlag(rest: nat, text: string, k: nat) returns (rest': nat, text': string)
    requires k < 6
    ensures MacroBits(rest, k) <= rest
    ensures rest' == rest - MacroBits(rest, k)
    ensures text' == AppendIf(MacroBits(rest, k) != 0, text, Name(k))
  {
    rest', text' := rest, text;
    var found := MacroBits(rest, k);
    if found != 0 {
      if |text'| > 0 {
        text' := text' + " | ";
      }
      text' := text' + Name(k);
      rest' := rest' - found;
    }
  }

  /** After the first `k` extractions, the macro for entry `k` finds exactly that entry's bits. */
  lemma RestAdvances(flag: DWord, k: nat, rest: int)
    requires k < 6 && rest == flag - Cleared(flag, k)
    ensures rest >= 0 && MacroBits(rest, k) == EntryBits(flag, k)
    ensures rest - MacroBits(rest, k) == flag - Cleared(flag, k + 1)
  {
    ExtractionSteps(flag, k);
  }

  /** Writing entry `k`'s name when its bits are set extends the joined items of the first `k` entries by one. */
  lemma TextAdvances(flag: DWord, k: nat, text: string)
    requires k < 6 && text == Join(ItemsUpTo(flag, k))
    ensures AppendIf(EntryBits(flag, k) != 0, text, Name(k)) == Join(ItemsUpTo(flag, k + 1))
  {
    var items := ItemsUpTo(flag, k);
    assert ItemsUpTo(flag, k + 1) == items + EntryItem(flag, k);
    ItemsUpToNonEmpty(flag, k);
    JoinAppend(items, EntryItem(flag, k));
  }

  /** After all six extractions only the bits above the low byte are left, reported as one undocumented value. */
  lemma ExtractionFinishes(flag: DWord, rest: nat, text: string)
    requires flag != 0 && Extracted(flag, 6, rest, text)
    ensures Join(FlagItems(flag)) == AppendIf(rest != 0, text, UndocumentedValueStr(rest))
  {
    assert rest == HighBits(flag);
    ItemsUpToNonEmpty(flag, 6);
    JoinAppend(ItemsUpTo(flag, 6), HighItem(flag));
  }

  /** The text of the BatteryFlag field: "<none>" for zero, otherwise the joined items. */
  method BatteryFlagStr(flag: DWord) returns (s: string)
    ensures s == Join(FlagItems(flag))
  {
    if flag == 0 {
      return "<none>";
    }
    var rest: nat := flag;
    s := "";
    // The six expansions of the source's extraction macro, in table order.
    var k := 0;
    while k < 6
      invariant 0 <= k <= 6 && Extracted(flag, k, rest, s)
    {
      RestAdvances(flag, k, rest);
      TextAdvances(flag, k, s);
      rest, s := ExtractFlag(rest, s, k);
      k := k + 1;
    }
    ExtractionFinishes(flag, rest, s);
    if rest != 0 {
      if |s| > 0 {
        s := s + " | ";
      }
      s := s + UndocumentedValueStr(rest);
    }
  }

  // Properties of the listed items.

  lemma RankOfName(k: nat)
    requires k < 6
    ensures Rank(Name(k)) == k
  {
  }

  lemma RankOfUndocumented(n: nat)
    ensures Rank(UndocumentedValueStr(n)) == 6
  {
    UndocumentedIsNotAName(n, "High");
    UndocumentedIsNotAName(n, "Low");
    UndocumentedIsNotAName(n, "Critical");
    UndocumentedIsNotAName(n, "Charging");
    UndocumentedIsNotAName(n, "No system battery");
    UndocumentedIsNotAName(n, "Unknown status");
  }

  /** Items appear in strictly increasing table order, so none appears twice. */
  predicate StrictlyRanked(items: seq<string>) {
    forall i, j :: 0 <= i < j < |items| ==> Rank(items[i]) < Rank(items[j])
  }

  lemma {:induction false} ItemsUpToRanked(flag: DWord, k: nat)
    requires k <= 6
    ensures StrictlyRanked(ItemsUpTo(flag, k))
    ensures forall i :: 0 <= i < |ItemsUpTo(flag, k)| ==> Rank(ItemsUpTo(flag, k)[i]) < k
  {
    if k > 0 {
      ItemsUpToRanked(flag, k - 1);
      RankOfName(k - 1);
    }
  }

  /** The documented names appear in the fixed order High, Low, Critical, Charging,
      No system battery, Unknown status, each at most once, and an undocumented value last. */
  lemma FlagItemsOrdered(flag: DWord)
    ensures StrictlyRanked(FlagItems(flag))
  {
    if flag != 0 {
      ItemsUpToRanked(flag, 6);
      if HighBits(flag) != 0 {
        RankOfUndocumented(HighBits(flag));
      }
    }
  }

  lemma {:induction false} NameInItemsUpTo(flag: DWord, k: nat, j: nat)
    requires k <= 6 && j < 6
    ensures Name(j) in ItemsUpTo(flag, k) <==> j < k && EntryBits(flag, j) != 0
  {
    if k > 0 {
      NameInItemsUpTo(flag, k - 1, j);
      RankOfName(j);
      RankOfName(k - 1);
    }
  }

  /** Entry `k`'s name is listed exactly when its bits are set: bit 1, 2, 4, 8
      or 128 for the documented names, any of 16, 32 and 64 for "Unknown status". */
  lemma FlagItemsNamed(flag: DWord, k: nat)
    requires k < 6
    ensures Name(k) in FlagItems(flag) <==> EntryBits(flag, k) != 0
  {
    if flag == 0 {
      assert FlagItems(flag) == ["<none>"];
      assert Name(k) != "<none>";
      return;
    }
    NameInItemsUpTo(flag, 6, k);
    if HighBits(flag) != 0 {
      RankOfUndocumented(HighBits(flag));
      RankOfName(k);
    }
  }

  lemma UndocumentedNotInItemsUpTo(flag: DWord, n: nat)
    ensures UndocumentedValueStr(n) !in ItemsUpTo(flag, 6)
  {
    ItemsUpToRanked(flag, 6);
    RankOfUndocumented(n);
  }

  /** The undocumented-value text is injective. */
  lemma UndocumentedInjective(m: nat, n: nat)
    requires UndocumentedValueStr(m) == UndocumentedValueStr(n)
    ensures m == n
  {
    ParseUndocumentedValueStr(m);
    ParseUndocumentedValueStr(n);
  }

  /** An undocumented value is listed exactly when bits above the low byte are set, and it carries them. */
  lemma FlagItemsUndocumented(flag: DWord, n: nat)
    ensures UndocumentedValueStr(n) in FlagItems(flag) <==> n == HighBits(flag) && flag >= 256
  {
    if flag == 0 {
      assert FlagItems(flag) == ["<none>"];
      assert |UndocumentedValueStr(n)| > |"<none>"|;
      return;
    }
    UndocumentedNotInItemsUpTo(flag, n);
    assert HighBits(flag) != 0 <==> flag >= 256;
    if UndocumentedValueStr(n) in FlagItems(flag) {
      assert UndocumentedValueStr(n) in HighItem(flag);
      UndocumentedInjective(n, HighBits(flag));
    }
  }

  /** The low byte is exactly the sum of the bits the six entries report. */
  lemma LowByteIsEntryBits(flag: nat)
    ensures flag % 256 == EntryBits(flag, 0) + EntryBits(flag, 1) + EntryBits(flag, 2)
      + EntryBits(flag, 3) + EntryBits(flag, 4) + EntryBits(flag, 5)
  {
    ExtractionSteps(flag, 0);
    ExtractionSteps(flag, 1);
    ExtractionSteps(flag, 2);
    ExtractionSteps(flag, 3);
    ExtractionSteps(flag, 4);
    ExtractionSteps(flag, 5);
  }

  lemma {:induction false} ItemsUpToEmpty(flag: DWord, k: nat)
    requires k <= 6
    ensures ItemsUpTo(flag, k) == [] <==> forall j :: 0 <= j < k ==> EntryBits(flag, j) == 0
  {
    if k > 0 {
      ItemsUpToEmpty(flag, k - 1);
    }
  }

  /** Every flag value produces at least one item, so the text is never empty. */
  lemma FlagItemsNonEmpty(flag: DWord)
    ensures |FlagItems(flag)| > 0 && |Join(FlagItems(flag))| > 0
  {
    if flag != 0 {
      ItemsUpToEmpty(flag, 6);
      LowByteIsEntryBits(flag);
      if HighBits(flag) == 0 {
        assert EntryBits(flag, 0) != 0 || EntryBits(flag, 1) != 0 || EntryBits(flag, 2) != 0
          || EntryBits(flag, 3) != 0 || EntryBits(flag, 4) != 0 || EntryBits(flag, 5) != 0;
      }
      ItemsUpToNonEmpty(flag, 6);
      JoinAppend(ItemsUpTo(flag, 6), HighItem(flag));
    }
  }

  /** What the BatteryFlag text tells about a flag: which entries are set (bits 16, 32
      and 64 together count as one) and the bits above the low byte. */
  datatype FlagView = FlagView(entries: seq<bool>, high: nat)

  function ViewOf(flag: DWord): (v: FlagView)
    ensures |v.entries| == 6
  {
    FlagView(seq(6, k requires 0 <= k < 6 => EntryBits(flag, k) != 0), HighBits(flag))
  }

  /** A flag is zero exactly when no entry is set and no high bit is either. */
  lemma ZeroFlagView(flag: DWord)
    ensures flag == 0 <==> ViewOf(flag) == FlagView([false, false, false, false, false, false], 0)
  {
    LowByteIsEntryBits(flag);
    var v := ViewOf(flag);
    if v == FlagView([false, false, false, false, false, false], 0) {
      assert forall k :: 0 <= k < 6 ==> EntryBits(flag, k) == 0 by {
        forall k | 0 <= k < 6 ensures EntryBits(flag, k) == 0 {
          assert !v.entries[k];
        }
      }
    }
  }

  lemma {:induction false} SameItemsUpTo(f: DWord, g: DWord, k: nat)
    requires k <= 6 && ViewOf(f).entries == ViewOf(g).entries
    ensures ItemsUpTo(f, k) == ItemsUpTo(g, k)
  {
    if k > 0 {
      SameItemsUpTo(f, g, k - 1);
      assert ViewOf(f).entries[k - 1] == ViewOf(g).entries[k - 1];
    }
  }

  /**
   * Two flags get the same BatteryFlag items exactly when they agree on every
   * named entry and on the bits above the low byte: the only information the
   * items drop is which of bits 16, 32 and 64 make up "Unknown status".
   */
  lemma FlagItemsDetermineView(f: DWord, g: DWord)
    ensures FlagItems(f) == FlagItems(g) <==> ViewOf(f) == ViewOf(g)
  {
    ZeroFlagView(f);
    ZeroFlagView(g);
    if ViewOf(f) == ViewOf(g) {
      if f != 0 {
        SameItemsUpTo(f, g, 6);
      }
    }
    if FlagItems(f) == FlagItems(g) {
      NoneMeansZero(f);
      NoneMeansZero(g);
      if f != 0 {
        forall k | 0 <= k < 6
          ensures ViewOf(f).entries[k] == ViewOf(g).entries[k]
        {
          FlagItemsNamed(f, k);
          FlagItemsNamed(g, k);
        }
        FlagItemsUndocumented(f, HighBits(f));
        FlagItemsUndocumented(g, HighBits(f));
        FlagItemsUndocumented(g, HighBits(g));
        FlagItemsUndocumented(f, HighBits(g));
      }
    }
  }

  /** "<none>" is listed only for a zero flag. */
  lemma NoneMeansZero(flag: DWord)
    ensures "<none>" in FlagItems(flag) <==> flag == 0
  {
    if flag != 0 {
      ItemsUpToRanked(flag, 6);
      var items := ItemsUpTo(flag, 6);
      assert forall i :: 0 <= i < |items| ==> items[i] != "<none>";
      UndocumentedIsNotAName(HighBits(flag), "<none>");
    }
  }
}
