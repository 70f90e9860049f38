/** A clock that pairs wall-clock milliseconds with a counter, so that its stamps always move forward. */
module HybridLogicalClock {
  import opened IsoTime
  import opened TextOrder
  import opened Wrappers

  /** The largest integer a number represents exactly together with all smaller ones. */
  const MAX_SAFE_INTEGER := 0x1F_FFFF_FFFF_FFFF

  /** The moving part of a stamp. */
  datatype Clock = Clock(time: nat, counter: nat)

  datatype Stamp = Stamp(clock: Clock, nodeId: string)

  predicate Earlier(a: Clock, b: Clock) {
    a.time < b.time || (a.time == b.time && a.counter < b.counter)
  }

  predicate NotLater(a: Clock, b: Clock) {
    a == b || Earlier(a, b)
  }

  // ---------- One step of a clock ----------

  /** A clock after a step, and whether the step issued its value; it fails only at the very end of the range. */
  datatype Stepped = Stepped(clock: Clock, issued: bool)

  function Increment(c: Clock): Stepped {
    if c.counter < MAX_SAFE_INTEGER then Stepped(c.(counter := c.counter + 1), true)
    else if c.time >= MAX_SAFE_INTEGER then Stepped(c, false)
    else Stepped(Clock(c.time + 1, 0), true)
  }

  function Tick(c: Clock, physical: nat): Stepped {
    if physical > c.time then Stepped(Clock(physical, 0), true) else Increment(c)
  }

  function Max(a: nat, b: nat): nat {
    if a >= b then a else b
  }

  function Merge(c: Clock, remote: Clock, physical: nat): Stepped {
    if physical > c.time && physical > remote.time then Stepped(Clock(physical, 0), true)
    else if c.time == remote.time then Increment(c.(counter := Max(c.counter, remote.counter)))
    else if remote.time > c.time then Increment(remote)
    else Increment(c)
  }

  ghost predicate InRange(c: Clock) {
    c.time <= MAX_SAFE_INTEGER && c.counter <= MAX_SAFE_INTEGER
  }

  /** A local event moves the clock strictly forward and never behind the wall clock. */
  lemma TickMovesForward(c: Clock, physical: nat)
    requires InRange(c) && physical <= MAX_SAFE_INTEGER
    ensures var s := Tick(c, physical);
            && InRange(s.clock)
            && NotLater(c, s.clock)
            && (s.issued ==> Earlier(c, s.clock))
            && physical <= s.clock.time
            && (!s.issued <==> c == Clock(MAX_SAFE_INTEGER, MAX_SAFE_INTEGER))
  {
  }

  /** A receipt moves the clock strictly past itself and past what was received. */
  lemma MergeMovesForward(c: Clock, remote: Clock, physical: nat)
    requires InRange(c) && InRange(remote) && physical <= MAX_SAFE_INTEGER
    ensures var s := Merge(c, remote, physical);
            && InRange(s.clock)
            && NotLater(c, s.clock) && NotLater(remote, s.clock)
            && (s.issued ==> Earlier(c, s.clock) && Earlier(remote, s.clock))
            && physical <= s.clock.time
            && (!s.issued <==> || c == Clock(MAX_SAFE_INTEGER, MAX_SAFE_INTEGER)
                               || remote == Clock(MAX_SAFE_INTEGER, MAX_SAFE_INTEGER))
  {
  }

  /** Short of counter overflow the time is the latest of all the times involved, and the counter grows by one. */
  lemma StepsWithoutOverflow(c: Clock, remote: Clock, physical: nat)
    requires c.counter < MAX_SAFE_INTEGER && remote.counter < MAX_SAFE_INTEGER
    ensures var s := Tick(c, physical);
            s.issued && s.clock.time == Max(c.time, physical) && s.clock.counter <= c.counter + 1
    ensures var s := Merge(c, remote, physical);
            && s.issued
            && s.clock.time == Max(Max(c.time, remote.time), physical)
            && s.clock.counter <= Max(c.counter, remote.counter) + 1
  {
  }

  // ---------- One step by its fields ----------

  /** The larger of the counters of those clocks that stand at this time, or none if neither does. */
  function CounterAt(a: Clock, b: Clock, time: nat): int {
    if a.time == time && b.time == time then (if a.counter < b.counter then b.counter else a.counter)
    else if a.time == time then a.counter
    else if b.time == time then b.counter
    else -1
  }

  /** Without a carry: the latest of the times, and one more than the counters that stand at it, zero if none does. */
  lemma MergeByFields(c: Clock, remote: Clock, physical: nat)
    requires c.counter < 9007199254740991 && remote.counter < 9007199254740991
    ensures var s := Merge(c, remote, physical);
            && s.issued
            && s.clock.time >= c.time && s.clock.time >= remote.time && s.clock.time >= physical
            && (s.clock.time == c.time || s.clock.time == remote.time || s.clock.time == physical)
            && s.clock.counter == CounterAt(c, remote, s.clock.time) + 1
    ensures Tick(c, physical) == Merge(c, c, physical)
  {
  }

  /** With the counter at the largest safe integer the time moves on by one and the counter starts over. */
  lemma CarryByFields(c: Clock, physical: nat)
    requires physical <= c.time
    ensures c.counter == 9007199254740991 && c.time < 9007199254740991 ==>
              Tick(c, physical) == Stepped(Clock(c.time + 1, 0), true)
    ensures c.counter == 9007199254740991 && c.time == 9007199254740991 ==> Tick(c, physical) == Stepped(c, false)
  {
  }

  // ---------- Stamps as text ----------

  const DIGITS := "0123456789abcdef"

  function Digit(d: nat): char
    requires d < 16
  {
    DIGITS[d]
  }

  predicate IsHex(c: char) {
    '0' <= c <= '9' || 'a' <= c <= 'f'
  }

  function HexValue(c: char): (d: nat)
    requires IsHex(c)
    ensures d < 16
  {
    if c <= '9' then (c - '0') as nat else (c - 'a') as nat + 10
  }

  function Hex(n: nat): (s: string)
    ensures |s| > 0 && forall k :: 0 <= k < |s| ==> IsHex(s[k])
  {
    if n < 16 then [Digit(n)] else Hex(n / 16) + [Digit(n % 16)]
  }

  function PadStart(s: string, width: nat): (r: string)
    ensures |r| >= |s| && |r| >= width
    decreases width - |s|
  {
    if |s| >= width then s else PadStart("0" + s, width)
  }

  function Format(s: Stamp): string {
    PadStart(Hex(s.clock.time), 12) + "_" + PadStart(Hex(s.clock.counter), 4) + "_" + s.nodeId
  }

  function ParseHex(s: string): nat
    requires forall k :: 0 <= k < |s| ==> IsHex(s[k])
  {
    if s == "" then 0 else 16 * ParseHex(s[..|s| - 1]) + HexValue(s[|s| - 1])
  }

  /** How many hexadecimal digits a text starts with. */
  function HexPrefix(s: string): (n: nat)
    ensures n <= |s| && forall k :: 0 <= k < n ==> IsHex(s[k])
    ensures n < |s| ==> !IsHex(s[n])
  {
    if s != "" && IsHex(s[0]) then 1 + HexPrefix(s[1..]) else 0
  }

  predicate IsLineTerminator(c: char) {
    c in {'\n', '\r', '\U{2028}', '\U{2029}'}
  }

  /** What the canonical form can carry as a node id. */
  predicate IsNodeId(s: string) {
    s != "" && forall k :: 0 <= k < |s| ==> !IsLineTerminator(s[k])
  }

  /** A number field with the underscore that ends it, and the text after that. */
  function ParseField(s: string): (r: Option<(nat, string)>)
    ensures r.Some? ==> |r.value.1| < |s|
  {
    var n := HexPrefix(s);
    if n == 0 || n == |s| || s[n] != '_' then None else Some((ParseHex(s[..n]), s[n + 1..]))
  }

  function ParseCanonical(s: string): Option<Stamp> {
    match ParseField(s)
    case None => None
    case Some((time, rest)) =>
      match ParseField(rest)
      case None => None
      case Some((counter, nodeId)) =>
        if time <= MAX_SAFE_INTEGER && counter <= MAX_SAFE_INTEGER && IsNodeId(nodeId)
        then Some(Stamp(Clock(time, counter), nodeId)) else None
  }

  lemma DigitRoundTrip(d: nat)
    requires d < 16
    ensures IsHex(Digit(d)) && HexValue(Digit(d)) == d
  {
  }

  lemma {:induction false} HexRoundTrip(n: nat)
    ensures ParseHex(Hex(n)) == n
  {
    if n < 16 {
      DigitRoundTrip(n);
      assert [Digit(n)][..0] == "";
    } else {
      HexRoundTrip(n / 16);
      DigitRoundTrip(n % 16);
      var s := Hex(n / 16) + [Digit(n % 16)];
      assert s[..|s| - 1] == Hex(n / 16);
    }
  }

  lemma {:induction false} LeadingZero(s: string)
    requires forall k :: 0 <= k < |s| ==> IsHex(s[k])
    ensures forall k :: 0 <= k < |"0" + s| ==> IsHex(("0" + s)[k])
    ensures ParseHex("0" + s) == ParseHex(s)
  {
    if s == "" {
      assert ("0" + s)[..0] == "";
    } else {
      LeadingZero(s[..|s| - 1]);
      assert ("0" + s)[..|s|] == "0" + s[..|s| - 1];
    }
  }

  lemma {:induction false} PaddingKeepsValue(s: string, width: nat)
    requires forall k :: 0 <= k < |s| ==> IsHex(s[k])
    ensures forall k :: 0 <= k < |PadStart(s, width)| ==> IsHex(PadStart(s, width)[k])
    ensures ParseHex(PadStart(s, width)) == ParseHex(s)
    decreases width - |s|
  {
    if |s| < width {
      LeadingZero(s);
      PaddingKeepsValue("0" + s, width);
    }
  }

  lemma {:induction false} HexPrefixOf(digits: string, rest: string)
    requires forall k :: 0 <= k < |digits| ==> IsHex(digits[k])
    requires rest != "" && !IsHex(rest[0])
    ensures HexPrefix(digits + rest) == |digits|
  {
    if digits == "" {
      assert digits + rest == rest;
    } else {
      assert (digits + rest)[1..] == digits[1..] + rest;
      HexPrefixOf(digits[1..], rest);
    }
  }

  lemma FieldRoundTrip(n: nat, width: nat, rest: string)
    ensures ParseField(PadStart(Hex(n), width) + "_" + rest) == Some((n, rest))
  {
    var digits := PadStart(Hex(n), width);
    HexRoundTrip(n);
    PaddingKeepsValue(Hex(n), width);
    HexPrefixOf(digits, "_" + rest);
    var s := digits + "_" + rest;
    assert s == digits + ("_" + rest);
    assert s[..|digits|] == digits && s[|digits| + 1..] == rest;
  }

  /** Reading a written stamp gives it back exactly when its node id can be carried; otherwise it is rejected. */
  lemma FormatRoundTrip(s: Stamp)
    requires InRange(s.clock)
    ensures ParseCanonical(Format(s)) == if IsNodeId(s.nodeId) then Some(s) else None
  {
    var counterField := PadStart(Hex(s.clock.counter), 4) + "_" + s.nodeId;
    FieldRoundTrip(s.clock.time, 12, counterField);
    assert Format(s) == PadStart(Hex(s.clock.time), 12) + "_" + counterField;
    FieldRoundTrip(s.clock.counter, 4, s.nodeId);
  }

  // ---------- Older stamps ----------

  /** What a stamp's text says; the date of an older stamp may lie before 1970. */
  datatype Parsed = Parsed(time: int, counter: nat, nodeId: string)

  /** How many decimal digits a text starts with. */
  function DigitPrefix(s: string): (n: nat)
    ensures n <= |s| && AllDigits(s[..n])
    ensures n < |s| ==> !IsDigit(s[n])
  {
    if s != "" && IsDigit(s[0]) then 1 + DigitPrefix(s[1..]) else 0
  }

  const ISO_LENGTH := 24

  /** An older stamp is a date and time, a decimal counter and a node id, parted twice by the same character. */
  function ParseLegacy(s: string): Option<Parsed> {
    if |s| <= ISO_LENGTH + 1 || !IsIso(s[..ISO_LENGTH]) || s[ISO_LENGTH] !in {':', '|'} then None
    else
      var rest := s[ISO_LENGTH + 1..];
      var n := DigitPrefix(rest);
      if n == 0 || n == |rest| || rest[n] != s[ISO_LENGTH] then None
      else
        var counter, nodeId := DecimalValue(rest[..n]), rest[n + 1..];
        if counter <= MAX_SAFE_INTEGER && IsNodeId(nodeId)
        then Some(Parsed(TimeOf(s[..ISO_LENGTH]), counter, nodeId)) else None
  }

  function Parse(s: string): Option<Parsed> {
    match ParseCanonical(s)
    case Some(stamp) => Some(Parsed(stamp.clock.time, stamp.clock.counter, stamp.nodeId))
    case None => ParseLegacy(s)
  }

  function LegacyText(time: int, separator: char, counter: string, nodeId: string): string {
    IsoText(time) + ([separator] + (counter + ([separator] + nodeId)))
  }

  lemma {:induction false} DigitPrefixOf(digits: string, rest: string)
    requires AllDigits(digits) && rest != "" && !IsDigit(rest[0])
    ensures DigitPrefix(digits + rest) == |digits|
  {
    if digits == "" {
      assert digits + rest == rest;
    } else {
      assert (digits + rest)[1..] == digits[1..] + rest;
      DigitPrefixOf(digits[1..], rest);
    }
  }

  /** No text reads both ways, so the order of the two attempts does not matter. */
  lemma NoTextReadsBothWays(s: string)
    ensures ParseCanonical(s).None? || ParseLegacy(s).None?
  {
    if ParseLegacy(s).Some? {
      NotCanonical(s);
    }
  }

  lemma NotCanonical(s: string)
    requires |s| > ISO_LENGTH && IsIso(s[..ISO_LENGTH])
    ensures ParseCanonical(s).None?
  {
    IsoLength(s[..ISO_LENGTH]);
    HexPrefixStops(s, 4);
  }

  lemma {:induction false} HexPrefixStops(s: string, k: nat)
    requires k < |s| && !IsHex(s[k])
    ensures HexPrefix(s) <= k
  {
    if k > 0 && IsHex(s[0]) {
      HexPrefixStops(s[1..], k - 1);
    }
  }

  /** An older stamp of any instant in a year of four digits reads back exactly. */
  lemma LegacyReadsBack(time: int, separator: char, counter: string, nodeId: string)
    requires HasFourDigitYear(time) && separator in {':', '|'} && counter != "" && AllDigits(counter)
    ensures Parse(LegacyText(time, separator, counter, nodeId)) ==
            if DecimalValue(counter) <= MAX_SAFE_INTEGER && IsNodeId(nodeId)
            then Some(Parsed(time, DecimalValue(counter), nodeId)) else None
    ensures ParseCanonical(LegacyText(time, separator, counter, nodeId)).None?
  {
    hide IsIso, TimeOf, IsoText, HasFourDigitYear;
    var iso, s := IsoText(time), LegacyText(time, separator, counter, nodeId);
    InstantReadsBack(time);
    IsoLength(iso);
    var rest := counter + ([separator] + nodeId);
    assert s[..ISO_LENGTH] == iso && s[ISO_LENGTH] == separator && s[ISO_LENGTH + 1..] == rest;
    DigitPrefixOf(counter, [separator] + nodeId);
    assert rest[..|counter|] == counter && rest[|counter|] == separator && rest[|counter| + 1..] == nodeId;
    NotCanonical(s);
  }

  /** An older stamp starts with four digits and a dash. */
  lemma LegacyStart(time: int, separator: char, counter: string, nodeId: string)
    requires HasFourDigitYear(time)
    ensures var s := LegacyText(time, separator, counter, nodeId);
            |s| > 4 && |IsoText(time)| > 4 && s[..4] == IsoText(time)[..4] && AllDigits(s[..4]) && s[4] == '-'
  {
    hide IsIso, HasFourDigitYear;
    InstantReadsBack(time);
    IsoLength(IsoText(time));
    assert LegacyText(time, separator, counter, nodeId)[..4] == IsoText(time)[..4];
  }

  /** Among the texts, stamps of the older form from the year 1000 on stand behind every one of the newer form. */
  lemma LegacySortsLast(stamp: Stamp, time: int, separator: char, counter: string, nodeId: string)
    requires stamp.clock.time < 0x1000_0000_0000
    requires HasFourDigitYear(time) && DateOf(time / DAY).year >= 1000
    ensures TextLess(Format(stamp), LegacyText(time, separator, counter, nodeId))
  {
    hide LegacyText, Decimal, Hex, PadStart, DateOf, Fixed;
    LegacyStart(time, separator, counter, nodeId);
    FourDigitYears(time);
    YearFirst(time, DateOf(time / DAY).year);
    ThousandsDigit(DateOf(time / DAY).year);
    WidthPowers();
    PaddedIsFixed(stamp.clock.time, 12);
    LeadingDigit(stamp.clock.time);
    assert Format(stamp)[0] == '0';
    assert LegacyText(time, separator, counter, nodeId)[..4][0] > '0';
  }

  lemma ThousandsDigit(year: nat)
    requires 1000 <= year <= 9999
    ensures Decimal(year, 4)[0] > '0'
  {
    assert Decimal(year, 4) == Decimal(year / 10, 3) + Decimal(year, 4)[3..];
    assert Decimal(year / 10, 3) == Decimal(year / 10 / 10, 2) + Decimal(year / 10, 3)[2..];
    assert Decimal(year / 10 / 10, 2) == Decimal(year / 10 / 10 / 10, 1) + Decimal(year / 10 / 10, 2)[1..];
  }

  lemma LeadingDigit(n: nat)
    requires n < 0x1000_0000_0000
    ensures Fixed(n, 12)[0] == '0'
  {
    assert Power16(11) == 0x1000_0000_0000 by {
      WidthPowers();
      assert Power16(12) == 16 * Power16(11);
    }
    LeadingZeroOf(n, 12);
  }

  lemma {:induction false} LeadingZeroOf(n: nat, w: nat)
    requires w > 0 && n < Power16(w - 1)
    ensures Fixed(n, w)[0] == '0'
  {
    if w > 1 {
      LeadingZeroOf(n / 16, w - 1);
    }
  }

  /** A receipt of what was read; a time before 1970 is behind every clock. */
  function MergeParsed(c: Clock, remote: Parsed, physical: nat): Stepped {
    if remote.time >= 0 then Merge(c, Clock(remote.time, remote.counter), physical)
    else Tick(c, physical)
  }

  /** Every text that reads, of either form, is passed by its receipt, and the clock stays in range. */
  lemma ReceiptPassesWhatItRead(c: Clock, text: string, physical: nat)
    requires InRange(c) && physical <= MAX_SAFE_INTEGER && Parse(text).Some?
    ensures var remote, s := Parse(text).value, MergeParsed(c, Parse(text).value, physical);
            && InRange(s.clock)
            && NotLater(c, s.clock) && (s.issued ==> Earlier(c, s.clock))
            && physical <= s.clock.time
            && (s.issued ==>
                  || remote.time < s.clock.time
                  || (remote.time == s.clock.time && remote.counter < s.clock.counter))
  {
    hide Tick, Merge, ParseHex, IsIso, TimeOf;
    ReadsInRange(text);
    var remote := Parse(text).value;
    TickMovesForward(c, physical);
    if remote.time >= 0 {
      MergeMovesForward(c, Clock(remote.time, remote.counter), physical);
    }
  }

  /** What reads is a safe integer twice; an older stamp's date lies in a year of four digits. */
  lemma ReadsInRange(text: string)
    requires Parse(text).Some?
    ensures Parse(text).value.time <= MAX_SAFE_INTEGER && Parse(text).value.counter <= MAX_SAFE_INTEGER
  {
    if ParseCanonical(text).None? {
      InstantsAreSafe(text[..ISO_LENGTH]);
    }
  }

  lemma InstantsAreSafe(text: string)
    requires IsIso(text)
    ensures TimeOf(text) < YEAR_10000 <= MAX_SAFE_INTEGER
  {
    hide IsIso, TimeOf;
    TextWritesBack(text);
  }

  // ---------- The order of the text and the order of the stamps ----------

  function Power16(w: nat): (p: nat)
    ensures p > 0
  {
    if w == 0 then 1 else 16 * Power16(w - 1)
  }

  /** The last `w` hexadecimal digits of a number. */
  function Fixed(n: nat, w: nat): (s: string)
    ensures |s| == w
  {
    if w == 0 then "" else Fixed(n / 16, w - 1) + [Digit(n % 16)]
  }

  lemma {:induction false} FixedOfZero(w: nat, k: nat)
    requires k < w
    ensures Fixed(0, w)[k] == '0'
  {
    if k < w - 1 {
      FixedOfZero(w - 1, k);
    }
  }

  /** A number that fits the width has no digits beyond it. */
  lemma {:induction false} HexFits(n: nat, w: nat)
    requires w > 0 && n < Power16(w)
    ensures |Hex(n)| <= w
    ensures Fixed(n, w)[w - |Hex(n)|..] == Hex(n)
    ensures forall k :: 0 <= k < w - |Hex(n)| ==> Fixed(n, w)[k] == '0'
  {
    if n < 16 {
      forall k | 0 <= k < w - 1 ensures Fixed(n, w)[k] == '0' {
        FixedOfZero(w - 1, k);
      }
    } else {
      assert Power16(w) == 16 * Power16(w - 1);
      HexFits(n / 16, w - 1);
    }
  }

  lemma {:induction false} PadToFixed(s: string, t: string, width: nat)
    requires |s| <= width == |t|
    requires t[width - |s|..] == s
    requires forall k :: 0 <= k < width - |s| ==> t[k] == '0'
    ensures PadStart(s, width) == t
    decreases width - |s|
  {
    if |s| < width {
      assert t[width - |s| - 1..] == [t[width - |s| - 1]] + s;
      PadToFixed("0" + s, t, width);
    }
  }

  lemma PaddedIsFixed(n: nat, w: nat)
    requires w > 0 && n < Power16(w)
    ensures PadStart(Hex(n), w) == Fixed(n, w)
  {
    HexFits(n, w);
    PadToFixed(Hex(n), Fixed(n, w), w);
  }

  lemma {:induction false} FixedOrder(m: nat, n: nat, w: nat)
    requires m < Power16(w) && n < Power16(w)
    ensures TextLess(Fixed(m, w), Fixed(n, w)) <==> m < n
    ensures Fixed(m, w) == Fixed(n, w) <==> m == n
  {
    if w > 0 {
      FixedOrder(m / 16, n / 16, w - 1);
      TextLessConcat(Fixed(m / 16, w - 1), Fixed(n / 16, w - 1), [Digit(m % 16)], [Digit(n % 16)]);
      DigitOrder(m % 16, n % 16);
      var x, y := Fixed(m, w), Fixed(n, w);
      assert x[..w - 1] == Fixed(m / 16, w - 1) && y[..w - 1] == Fixed(n / 16, w - 1);
      assert x[w - 1] == Digit(m % 16) && y[w - 1] == Digit(n % 16);
    }
  }

  lemma DigitOrder(a: nat, b: nat)
    requires a < 16 && b < 16
    ensures TextLess([Digit(a)], [Digit(b)]) <==> a < b
    ensures Digit(a) == Digit(b) <==> a == b
  {
    DigitRoundTrip(a);
    DigitRoundTrip(b);
    assert [Digit(a)][1..] == "" && [Digit(b)][1..] == "";
  }

  /** Twelve digits of time and four of counter. */
  predicate FitsWidths(c: Clock) {
    c.time < 0x1_0000_0000_0000 && c.counter < 0x1_0000
  }

  lemma WidthPowers()
    ensures Power16(12) == 0x1_0000_0000_0000 && Power16(4) == 0x1_0000
  {
    assert Power16(4) == 0x1_0000;
    assert Power16(8) == 0x1_0000_0000;
  }

  /** Clocks first, node ids last. */
  predicate StampLess(a: Stamp, b: Stamp) {
    Earlier(a.clock, b.clock) || (a.clock == b.clock && TextLess(a.nodeId, b.nodeId))
  }

  /** Within the padded widths, ordering the text orders the stamps, node ids last. */
  lemma TextOrderIsStampOrder(a: Stamp, b: Stamp)
    requires FitsWidths(a.clock) && FitsWidths(b.clock)
    ensures TextLess(Format(a), Format(b)) <==> StampLess(a, b)
  {
    hide Hex, PadStart, Fixed;
    WidthPowers();
    var ta, ca := PadStart(Hex(a.clock.time), 12), PadStart(Hex(a.clock.counter), 4);
    var tb, cb := PadStart(Hex(b.clock.time), 12), PadStart(Hex(b.clock.counter), 4);
    PaddedIsFixed(a.clock.time, 12);
    PaddedIsFixed(b.clock.time, 12);
    PaddedIsFixed(a.clock.counter, 4);
    PaddedIsFixed(b.clock.counter, 4);
    FixedOrder(a.clock.time, b.clock.time, 12);
    FixedOrder(a.clock.counter, b.clock.counter, 4);
    assert Format(a) == ta + ("_" + (ca + ("_" + a.nodeId)));
    assert Format(b) == tb + ("_" + (cb + ("_" + b.nodeId)));
    TextLessConcat(ta, tb, "_" + (ca + ("_" + a.nodeId)), "_" + (cb + ("_" + b.nodeId)));
    TextLessConcat("_", "_", ca + ("_" + a.nodeId), cb + ("_" + b.nodeId));
    TextLessConcat(ca, cb, "_" + a.nodeId, "_" + b.nodeId);
    TextLessConcat("_", "_", a.nodeId, b.nodeId);
  }

  lemma HexOfNext(p: nat, d: nat)
    requires p > 0 && d < 16
    ensures Hex(16 * p + d) == Hex(p) + [Digit(d)]
  {
    assert (16 * p + d) / 16 == p && (16 * p + d) % 16 == d;
  }

  lemma HexOfDigit(d: nat)
    requires d < 16
    ensures Hex(d) == [Digit(d)]
  {
  }

  /** A power of sixteen takes a digit more than the number before it, and starts with a smaller one. */
  lemma {:induction false} PowerDigits(w: nat)
    requires w > 0
    ensures Power16(w) > 0
    ensures |Hex(Power16(w))| == w + 1 && Hex(Power16(w))[0] == '1'
    ensures |Hex(Power16(w) - 1)| == w && Hex(Power16(w) - 1)[0] == 'f'
  {
    hide Hex;
    var p := Power16(w - 1);
    assert Power16(w) == 16 * p;
    HexOfNext(p, 0);
    if w == 1 {
      HexOfDigit(1);
      HexOfDigit(15);
    } else {
      PowerDigits(w - 1);
      PowerIsLarge(w - 1);
      HexOfNext(p - 1, 15);
    }
  }

  lemma PowerIsLarge(w: nat)
    requires w > 0
    ensures Power16(w) >= 16
  {
  }

  /** A field that outgrows its width falls back in the text, whatever follows. */
  lemma WideFieldFallsBack(w: nat, x: string, y: string)
    requires w > 0
    ensures Power16(w) > 0
    ensures TextLess(PadStart(Hex(Power16(w)), w) + x, PadStart(Hex(Power16(w) - 1), w) + y)
  {
    hide Hex, Power16;
    PowerDigits(w);
  }

  /** Beyond four digits the counter outgrows its field and the text falls back. */
  lemma WideCounterBreaksTextOrder(time: nat, nodeId: string)
    ensures var a, b := Stamp(Clock(time, 0xFFFF), nodeId), Stamp(Clock(time, 0x1_0000), nodeId);
            Earlier(a.clock, b.clock) && TextLess(Format(b), Format(a))
  {
    hide Hex, PadStart, Power16, TextLess;
    var a, b := Stamp(Clock(time, 0xFFFF), nodeId), Stamp(Clock(time, 0x1_0000), nodeId);
    WidthPowers();
    var t, ca, cb := PadStart(Hex(time), 12), PadStart(Hex(0xFFFF), 4), PadStart(Hex(0x1_0000), 4);
    WideFieldFallsBack(4, "_" + nodeId, "_" + nodeId);
    assert Format(a) == (t + "_") + (ca + ("_" + nodeId));
    assert Format(b) == (t + "_") + (cb + ("_" + nodeId));
    TextLessConcat(t + "_", t + "_", cb + ("_" + nodeId), ca + ("_" + nodeId));
  }

  /** Beyond twelve digits the time outgrows its field and the text falls back. */
  lemma WideTimeBreaksTextOrder(counter: nat, nodeId: string)
    ensures var a, b := Stamp(Clock(0xFFFF_FFFF_FFFF, counter), nodeId),
                        Stamp(Clock(0x1_0000_0000_0000, counter), nodeId);
            Earlier(a.clock, b.clock) && TextLess(Format(b), Format(a))
  {
    hide Hex, PadStart, Power16, TextLess;
    var a := Stamp(Clock(0xFFFF_FFFF_FFFF, counter), nodeId);
    var b := Stamp(Clock(0x1_0000_0000_0000, counter), nodeId);
    WidthPowers();
    var c := PadStart(Hex(counter), 4);
    WideFieldFallsBack(12, "_" + (c + ("_" + nodeId)), "_" + (c + ("_" + nodeId)));
    assert Format(a) == PadStart(Hex(0xFFFF_FFFF_FFFF), 12) + ("_" + (c + ("_" + nodeId)));
    assert Format(b) == PadStart(Hex(0x1_0000_0000_0000), 12) + ("_" + (c + ("_" + nodeId)));
  }

  /** Over all stamps with times and counters below these, the text order is the order of the stamps. */
  ghost predicate TextFollowsStamps(times: nat, counters: nat) {
    forall a: Stamp, b: Stamp ::
      a.clock.time < times && a.clock.counter < counters && b.clock.time < times && b.clock.counter < counters ==>
        (TextLess(Format(a), Format(b)) <==> StampLess(a, b))
  }

  /** The text order is right exactly up to twelve digits of time and four of counter. */
  lemma TextOrderExactWidths(times: nat, counters: nat)
    requires times > 0 && counters > 0
    ensures TextFollowsStamps(times, counters) <==> times <= 0x1_0000_0000_0000 && counters <= 0x1_0000
  {
    hide Format, TextLess;
    if times <= 0x1_0000_0000_0000 && counters <= 0x1_0000 {
      forall a: Stamp, b: Stamp |
          a.clock.time < times && a.clock.counter < counters && b.clock.time < times && b.clock.counter < counters
        ensures TextLess(Format(a), Format(b)) <==> StampLess(a, b)
      {
        TextOrderIsStampOrder(a, b);
      }
    } else if counters > 0x1_0000 {
      WideCounterBreaksTextOrder(0, "");
      var a, b := Stamp(Clock(0, 0xFFFF), ""), Stamp(Clock(0, 0x1_0000), "");
      assert StampLess(a, b) && !StampLess(b, a);
    } else {
      WideTimeBreaksTextOrder(0, "");
      var a, b := Stamp(Clock(0xFFFF_FFFF_FFFF, 0), ""), Stamp(Clock(0x1_0000_0000_0000, 0), "");
      assert StampLess(a, b) && !StampLess(b, a);
    }
  }

  // ---------- The clock object ----------

  datatype ClockError = InvalidTimestamp | Exhausted

  class HybridLogicalClock {
    var latestTime: nat
    var counter: nat
    const nodeId: string

    ghost function Value(): Clock
      reads this
    {
      Clock(latestTime, counter)
    }

    constructor (nodeId: string, physical: nat)
      ensures this.nodeId == nodeId && Value() == Clock(physical, 0)
    {
      this.nodeId, latestTime, counter := nodeId, physical, 0;
    }

    method Advance() returns (issued: bool)
      modifies this
      ensures Stepped(Value(), issued) == Increment(old(Value()))
    {
      if counter < MAX_SAFE_INTEGER {
        counter := counter + 1;
        return true;
      }
      if latestTime >= MAX_SAFE_INTEGER {
        return false;
      }
      latestTime := latestTime + 1;
      counter := 0;
      return true;
    }

    method Now(physical: nat) returns (r: Result<string, ClockError>)
      modifies this
      ensures Value() == Tick(old(Value()), physical).clock
      ensures r == if Tick(old(Value()), physical).issued then Success(Format(Stamp(Value(), nodeId)))
                   else Failure(Exhausted)
    {
      var issued := true;
      if physical > latestTime {
        latestTime := physical;
        counter := 0;
      } else {
        issued := Advance();
      }
      return if issued then Success(Format(Stamp(Clock(latestTime, counter), nodeId))) else Failure(Exhausted);
    }

    method Update(remote: string, physical: nat) returns (r: Result<string, ClockError>)
      modifies this
      ensures match Parse(remote)
              case None => r == Failure(InvalidTimestamp) && Value() == old(Value())
              case Some(stamp) =>
                var s := MergeParsed(old(Value()), stamp, physical);
                && Value() == s.clock
                && r == if s.issued then Success(Format(Stamp(Value(), nodeId))) else Failure(Exhausted)
    {
      var parsed := Parse(remote);
      if parsed.None? {
        return Failure(InvalidTimestamp);
      }
      var stamp := parsed.value;
      var issued := true;
      if physical > latestTime && physical > stamp.time {
        latestTime := physical;
        counter := 0;
      } else if latestTime == stamp.time {
        counter := if counter >= stamp.counter then counter else stamp.counter;
        issued := Advance();
      } else if stamp.time > latestTime {
        latestTime := stamp.time;
        counter := stamp.counter;
        issued := Advance();
      } else {
        issued := Advance();
      }
      return if issued then Success(Format(Stamp(Clock(latestTime, counter), nodeId))) else Failure(Exhausted);
    }
  }
}
