/**
  * Instants as texts, the way ECMAScript's `toISOString` writes them, and back. An instant is a count of milliseconds
  * since the start of 1970, before it if negative; the calendar is the one of RFC 3339, extended to all years.
  */
module IsoTime {
  import opened CivilDate
  import opened TextOrder
  import opened Wrappers

  const DAY := 86400000

  // ---------- Decimal fields ----------

  predicate IsDigit(c: char) {
    '0' <= c <= '9'
  }

  predicate AllDigits(s: string) {
    forall k :: 0 <= k < |s| ==> IsDigit(s[k])
  }

  function Power10(w: nat): (p: nat)
    ensures p > 0
  {
    if w == 0 then 1 else 10 * Power10(w - 1)
  }

  /** The last `w` decimal digits of a number. */
  function Decimal(n: nat, w: nat): (s: string)
    ensures |s| == w && AllDigits(s)
  {
    if w == 0 then "" else Decimal(n / 10, w - 1) + ['0' + (n % 10) as char]
  }

  function DecimalValue(s: string): nat
    requires AllDigits(s)
  {
    if s == "" then 0 else 10 * DecimalValue(s[..|s| - 1]) + (s[|s| - 1] - '0') as nat
  }

  lemma {:induction false} DecimalReads(n: nat, w: nat)
    requires n < Power10(w)
    ensures DecimalValue(Decimal(n, w)) == n
  {
    if w > 0 {
      DecimalReads(n / 10, w - 1);
      assert Decimal(n, w)[..w - 1] == Decimal(n / 10, w - 1);
    }
  }

  lemma {:induction false} DecimalWrites(s: string)
    requires AllDigits(s)
    ensures DecimalValue(s) < Power10(|s|)
    ensures Decimal(DecimalValue(s), |s|) == s
  {
    if s != "" {
      DecimalWrites(s[..|s| - 1]);
      assert s == s[..|s| - 1] + [s[|s| - 1]];
    }
  }

  lemma {:induction false} DecimalOrder(m: nat, n: nat, w: nat)
    requires m < Power10(w) && n < Power10(w)
    ensures TextLess(Decimal(m, w), Decimal(n, w)) <==> m < n
    ensures Decimal(m, w) == Decimal(n, w) <==> m == n
  {
    if w > 0 {
      var x, y := ['0' + (m % 10) as char], ['0' + (n % 10) as char];
      DecimalOrder(m / 10, n / 10, w - 1);
      TextLessConcat(Decimal(m / 10, w - 1), Decimal(n / 10, w - 1), x, y);
      assert x[1..] == y[1..] == "";
      assert Decimal(m, w)[..w - 1] == Decimal(m / 10, w - 1) && Decimal(m, w)[w - 1] == x[0];
      assert Decimal(n, w)[..w - 1] == Decimal(n / 10, w - 1) && Decimal(n, w)[w - 1] == y[0];
    }
  }

  // ---------- Texts of fixed layout ----------

  /** A field of so many digits, and what stands after it. */
  datatype Field = Field(width: nat, after: char)

  const ISO_LAYOUT: seq<Field> :=
    [Field(4, '-'), Field(2, '-'), Field(2, 'T'), Field(2, ':'), Field(2, ':'), Field(2, '.'), Field(3, 'Z')]

  predicate FitsLayout(values: seq<nat>, layout: seq<Field>) {
    && |values| == |layout|
    && (layout == [] || (values[0] < Power10(layout[0].width) && FitsLayout(values[1..], layout[1..])))
  }

  function Write(values: seq<nat>, layout: seq<Field>): string
    requires |values| == |layout|
  {
    if layout == [] then ""
    else Decimal(values[0], layout[0].width) + ([layout[0].after] + Write(values[1..], layout[1..]))
  }

  predicate Follows(text: string, layout: seq<Field>) {
    if layout == [] then text == ""
    else
      var w := layout[0].width;
      && w < |text|
      && AllDigits(text[..w]) && text[w] == layout[0].after
      && Follows(text[w + 1..], layout[1..])
  }

  function Read(text: string, layout: seq<Field>): (values: seq<nat>)
    requires Follows(text, layout)
    ensures |values| == |layout|
  {
    if layout == [] then []
    else
      var w := layout[0].width;
      [DecimalValue(text[..w])] + Read(text[w + 1..], layout[1..])
  }

  lemma {:induction false} ReadsWhatWasWritten(values: seq<nat>, layout: seq<Field>)
    requires FitsLayout(values, layout)
    ensures Follows(Write(values, layout), layout)
    ensures Read(Write(values, layout), layout) == values
  {
    if layout != [] {
      hide Follows, Read, Write, Power10;
      ReadsWhatWasWritten(values[1..], layout[1..]);
      ReadsFirstField(values, layout);
    }
  }

  lemma ReadsFirstField(values: seq<nat>, layout: seq<Field>)
    requires layout != [] && |values| == |layout| && values[0] < Power10(layout[0].width)
    requires Follows(Write(values[1..], layout[1..]), layout[1..])
    requires Read(Write(values[1..], layout[1..]), layout[1..]) == values[1..]
    ensures Follows(Write(values, layout), layout) && Read(Write(values, layout), layout) == values
  {
    hide Follows, Read, Decimal, DecimalValue, Power10, AllDigits;
    DecimalReads(values[0], layout[0].width);
    ReadsField(Decimal(values[0], layout[0].width), Write(values[1..], layout[1..]), layout);
    assert [values[0]] + values[1..] == values;
  }

  lemma ReadsField(digits: string, rest: string, layout: seq<Field>)
    requires layout != [] && AllDigits(digits) && |digits| == layout[0].width && Follows(rest, layout[1..])
    ensures var text := digits + ([layout[0].after] + rest);
            Follows(text, layout) && Read(text, layout) == [DecimalValue(digits)] + Read(rest, layout[1..])
  {
    var text := digits + ([layout[0].after] + rest);
    assert text[..|digits|] == digits && text[|digits|] == layout[0].after && text[|digits| + 1..] == rest;
  }

  lemma {:induction false} WritesWhatWasRead(text: string, layout: seq<Field>)
    requires Follows(text, layout)
    ensures FitsLayout(Read(text, layout), layout)
    ensures Write(Read(text, layout), layout) == text
  {
    if layout != [] {
      hide FitsLayout, Write, Follows, Read, Decimal, DecimalValue, AllDigits, Power10;
      var w := layout[0].width;
      FirstField(text, layout);
      WritesWhatWasRead(text[w + 1..], layout[1..]);
      WritesField(text[..w], Read(text[w + 1..], layout[1..]), layout);
      assert text == text[..w] + ([text[w]] + text[w + 1..]);
    }
  }

  lemma FirstField(text: string, layout: seq<Field>)
    requires layout != [] && Follows(text, layout)
    ensures var w := layout[0].width;
            && w < |text| && AllDigits(text[..w]) && text[w] == layout[0].after
            && Follows(text[w + 1..], layout[1..])
            && Read(text, layout) == [DecimalValue(text[..w])] + Read(text[w + 1..], layout[1..])
  {
  }

  lemma WritesField(digits: string, values: seq<nat>, layout: seq<Field>)
    requires layout != [] && AllDigits(digits) && |digits| == layout[0].width && FitsLayout(values, layout[1..])
    ensures var all := [DecimalValue(digits)] + values;
            FitsLayout(all, layout) && Write(all, layout) == digits + ([layout[0].after] + Write(values, layout[1..]))
  {
    hide DecimalValue, Decimal, Power10;
    DecimalWrites(digits);
    assert ([DecimalValue(digits)] + values)[1..] == values;
  }

  /** The first field that differs decides. */
  predicate ComesBefore(a: seq<nat>, b: seq<nat>)
    requires |a| == |b|
  {
    a != [] && (a[0] < b[0] || (a[0] == b[0] && ComesBefore(a[1..], b[1..])))
  }

  lemma {:induction false} WrittenOrder(a: seq<nat>, b: seq<nat>, layout: seq<Field>)
    requires FitsLayout(a, layout) && FitsLayout(b, layout)
    ensures TextLess(Write(a, layout), Write(b, layout)) <==> ComesBefore(a, b)
  {
    if layout != [] {
      var w, after := layout[0].width, [layout[0].after];
      var x, y := Write(a[1..], layout[1..]), Write(b[1..], layout[1..]);
      DecimalOrder(a[0], b[0], w);
      TextLessConcat(Decimal(a[0], w), Decimal(b[0], w), after + x, after + y);
      TextLessConcat(after, after, x, y);
      assert after[1..] == "";
      WrittenOrder(a[1..], b[1..], layout[1..]);
    }
  }

  // ---------- Instants ----------

  /** The date of a day counted from 1970-01-01. */
  function DateOf(day: int): (date: Date)
    ensures IsDate(date) && DayNumber(date) == day
  {
    var era := EraOf(day + 719468);
    DateInEraCounts(era, day + 719468 - era * 146097);
    DateInEra(era, day + 719468 - era * 146097)
  }

  /** The fields of the month, the day and the time of day. */
  function FieldsAfterYear(date: Date, millis: nat): seq<nat>
    requires IsDate(date)
  {
    [date.month, date.day, millis / 3600000, millis / 60000 % 60, millis / 1000 % 60, millis % 1000]
  }

  /** Years beyond four digits take a sign and six. */
  function IsoText(time: int): string {
    var date := DateOf(time / DAY);
    var fields := FieldsAfterYear(date, time % DAY);
    if 0 <= date.year <= 9999 then Write([date.year] + fields, ISO_LAYOUT)
    else if date.year > 9999 then "+" + Decimal(date.year, 6) + "-" + Write(fields, ISO_LAYOUT[1..])
    else "-" + Decimal(-date.year, 6) + "-" + Write(fields, ISO_LAYOUT[1..])
  }

  function DateRead(text: string): Date
    requires Follows(text, ISO_LAYOUT)
  {
    var v := Read(text, ISO_LAYOUT);
    Date(v[0], v[1], v[2])
  }

  /** The layout, a date of the calendar and a time of day. */
  predicate IsIso(text: string) {
    && Follows(text, ISO_LAYOUT)
    && IsDate(DateRead(text))
    && var v := Read(text, ISO_LAYOUT);
       v[3] < 24 && v[4] < 60 && v[5] < 60
  }

  function TimeOf(text: string): int
    requires IsIso(text)
  {
    var v := Read(text, ISO_LAYOUT);
    DayNumber(DateRead(text)) * DAY + (v[3] * 3600000 + v[4] * 60000 + v[5] * 1000 + v[6])
  }

  /** The first instant of the year 0. */
  const YEAR_0 := -62167219200000

  /** The first instant of the year 10000. */
  const YEAR_10000 := 253402300800000

  predicate HasFourDigitYear(time: int) {
    YEAR_0 <= time < YEAR_10000
  }

  lemma FourDigitYears(time: int)
    ensures HasFourDigitYear(time) <==> 0 <= DateOf(time / DAY).year <= 9999
    ensures time >= YEAR_10000 <==> DateOf(time / DAY).year > 9999
  {
    hide DateOf, DayNumber, DaysInMonth;
    var date, end, start := DateOf(time / DAY), Date(10000, 1, 1), Date(0, 1, 1);
    EndsOfYears();
    EarlierIsSmaller(date, end);
    EarlierIsSmaller(date, start);
  }

  lemma EndsOfYears()
    ensures IsDate(Date(10000, 1, 1)) && DayNumber(Date(10000, 1, 1)) * DAY == YEAR_10000
    ensures IsDate(Date(0, 1, 1)) && DayNumber(Date(0, 1, 1)) * DAY == YEAR_0
  {
    hide DaysBeforeYear;
    Epoch();
    FirstMonth(0);
    FirstMonth(10000);
    assert DaysBeforeYear(10000) == 3652059 && DaysBeforeYear(0) == -366 by { YearsBefore(); }
  }

  lemma YearsBefore()
    ensures DaysBeforeYear(10000) == 3652059 && DaysBeforeYear(0) == -366
  {
  }

  lemma FieldsOfDay(millis: nat)
    requires millis < DAY
    ensures millis / 3600000 < 24 && millis / 60000 % 60 < 60 && millis / 1000 % 60 < 60 && millis % 1000 < 1000
    ensures millis ==
            millis / 3600000 * 3600000 + millis / 60000 % 60 * 60000 + millis / 1000 % 60 * 1000 + millis % 1000
  {
    assert millis / 60000 == millis / 1000 / 60;
    assert millis / 3600000 == millis / 60000 / 60;
  }

  lemma MillisOfFields(h: nat, m: nat, s: nat, f: nat)
    requires h < 24 && m < 60 && s < 60 && f < 1000
    ensures var millis := h * 3600000 + m * 60000 + s * 1000 + f;
            && millis < DAY
            && millis / 3600000 == h && millis / 60000 % 60 == m && millis / 1000 % 60 == s && millis % 1000 == f
  {
    var millis := h * 3600000 + m * 60000 + s * 1000 + f;
    assert millis / 1000 == h * 3600 + m * 60 + s;
    assert millis / 60000 == h * 60 + m;
  }

  /** A time of a day in a four-digit year, field by field. */
  lemma FieldsFit(date: Date, millis: nat)
    requires IsDate(date) && 0 <= date.year <= 9999 && millis < DAY
    ensures FitsLayout([date.year] + FieldsAfterYear(date, millis), ISO_LAYOUT)
  {
    hide FitsLayout, Power10, IsDate, ISO_LAYOUT;
    var h, m, s, f := millis / 3600000, millis / 60000 % 60, millis / 1000 % 60, millis % 1000;
    FieldsOfDay(millis);
    TimeFits(h, m, s, f);
    DateFits(date, [h, m, s, f]);
    assert [date.year] + FieldsAfterYear(date, millis) == [date.year, date.month, date.day] + [h, m, s, f];
  }

  lemma OneMoreFits(value: nat, values: seq<nat>, field: Field, layout: seq<Field>)
    requires value < Power10(field.width) && FitsLayout(values, layout)
    ensures FitsLayout([value] + values, [field] + layout)
  {
    assert ([value] + values)[1..] == values && ([field] + layout)[1..] == layout;
  }

  lemma TimeFits(h: nat, m: nat, s: nat, f: nat)
    requires h < 24 && m < 60 && s < 60 && f < 1000
    ensures FitsLayout([h, m, s, f], ISO_LAYOUT[3..])
  {
    hide FitsLayout, Power10;
    LayoutPowers();
    NothingFits();
    var l := ISO_LAYOUT;
    assert [f] + [] == [f] && [s] + [f] == [s, f] && [m] + [s, f] == [m, s, f] && [h] + [m, s, f] == [h, m, s, f];
    assert [l[6]] + [] == [l[6]] && [l[5]] + [l[6]] == [l[5], l[6]] && [l[4]] + [l[5], l[6]] == [l[4], l[5], l[6]];
    OneMoreFits(f, [], l[6], []);
    OneMoreFits(s, [f], l[5], [l[6]]);
    OneMoreFits(m, [s, f], l[4], [l[5], l[6]]);
    OneMoreFits(h, [m, s, f], l[3], [l[4], l[5], l[6]]);
    assert [l[3]] + [l[4], l[5], l[6]] == l[3..];
  }

  lemma DateFits(date: Date, rest: seq<nat>)
    requires IsDate(date) && 0 <= date.year <= 9999 && FitsLayout(rest, ISO_LAYOUT[3..])
    ensures FitsLayout([date.year, date.month, date.day] + rest, ISO_LAYOUT)
  {
    hide FitsLayout, Power10;
    LayoutPowers();
    var l := ISO_LAYOUT;
    OneMoreFits(date.day, rest, l[2], l[3..]);
    OneMoreFits(date.month, [date.day] + rest, l[1], [l[2]] + l[3..]);
    OneMoreFits(date.year, [date.month] + ([date.day] + rest), l[0], [l[1]] + ([l[2]] + l[3..]));
    assert [l[0]] + ([l[1]] + ([l[2]] + l[3..])) == l;
    assert [date.year] + ([date.month] + ([date.day] + rest)) == [date.year, date.month, date.day] + rest;
  }

  lemma NothingFits()
    ensures FitsLayout([], [])
  {
  }

  lemma LayoutPowers()
    ensures Power10(2) == 100 && Power10(3) == 1000 && Power10(4) == 10000
  {
  }

  /** An instant reads back from its text, and the text is of the layout, exactly in the years of four digits. */
  lemma InstantReadsBack(time: int)
    ensures Follows(IsoText(time), ISO_LAYOUT) <==> HasFourDigitYear(time)
    ensures HasFourDigitYear(time) ==> IsIso(IsoText(time)) && TimeOf(IsoText(time)) == time
  {
    hide DayNumber, IsDate, DateOf, Write, Follows, Read, FitsLayout, Decimal;
    var date, millis := DateOf(time / DAY), time % DAY;
    var fields := [date.year] + FieldsAfterYear(date, millis);
    FourDigitYears(time);
    if HasFourDigitYear(time) {
      FieldsFit(date, millis);
      ReadsWhatWasWritten(fields, ISO_LAYOUT);
      FieldsOfDay(millis);
    } else {
      StartsWithDigit(IsoText(time));
    }
  }

  lemma StartsWithDigit(text: string)
    ensures Follows(text, ISO_LAYOUT) ==> text != "" && IsDigit(text[0])
  {
    if Follows(text, ISO_LAYOUT) {
      assert IsDigit(text[..4][0]);
    }
  }

  lemma {:induction false} WrittenLength(text: string, layout: seq<Field>)
    requires Follows(text, layout)
    ensures |text| == Length(layout)
  {
    if layout != [] {
      WrittenLength(text[layout[0].width + 1..], layout[1..]);
    }
  }

  function Length(layout: seq<Field>): nat {
    if layout == [] then 0 else layout[0].width + 1 + Length(layout[1..])
  }

  lemma IsoLength(text: string)
    requires IsIso(text)
    ensures |text| == 24 && AllDigits(text[..4]) && text[4] == '-'
  {
    WrittenLength(text, ISO_LAYOUT);
    assert Length(ISO_LAYOUT) == 24;
  }

  lemma YearFirst(time: int, year: nat)
    requires DateOf(time / DAY).year == year <= 9999
    ensures |IsoText(time)| > 4 && IsoText(time)[..4] == Decimal(year, 4)
  {
    hide DateOf, Decimal;
  }

  /** A text that names a real date and time of day is the text of the instant it names. */
  lemma TextWritesBack(text: string)
    requires IsIso(text)
    ensures HasFourDigitYear(TimeOf(text)) && IsoText(TimeOf(text)) == text
  {
    hide TimeOf, DateOf, DateRead, IsDate, Write, Follows, Read, FitsLayout, FieldsAfterYear;
    WritesWhatWasRead(text, ISO_LAYOUT);
    FieldsOfTime(text);
    FourDigitYears(TimeOf(text));
  }

  /** The date and the time of day that a text names are those of its instant. */
  lemma FieldsOfTime(text: string)
    requires IsIso(text)
    ensures var v, date := Read(text, ISO_LAYOUT), DateOf(TimeOf(text) / DAY);
            0 <= date.year <= 9999 && [date.year] + FieldsAfterYear(date, TimeOf(text) % DAY) == v
  {
    hide DayNumber, Write, Follows, Read, FitsLayout, FieldsAfterYear, Earlier;
    var v := Read(text, ISO_LAYOUT);
    WritesWhatWasRead(text, ISO_LAYOUT);
    FittingFields(v);
    var millis := v[3] * 3600000 + v[4] * 60000 + v[5] * 1000 + v[6];
    FieldsRead(text, v, millis);
    var day := DayNumber(DateRead(text));
    DayAndMillis(day, millis);
    EarlierIsSmaller(DateOf(day), DateRead(text));
  }

  lemma FieldsRead(text: string, v: seq<nat>, millis: nat)
    requires IsIso(text) && v == Read(text, ISO_LAYOUT) && v[6] < 1000
    requires millis == v[3] * 3600000 + v[4] * 60000 + v[5] * 1000 + v[6]
    ensures millis < DAY && [v[0]] + FieldsAfterYear(DateRead(text), millis) == v
  {
    hide IsDate, Follows, Read;
    MillisOfFields(v[3], v[4], v[5], v[6]);
  }

  lemma DayAndMillis(day: int, millis: nat)
    requires millis < DAY
    ensures (day * DAY + millis) / DAY == day && (day * DAY + millis) % DAY == millis
  {
  }

  lemma FittingFields(v: seq<nat>)
    requires FitsLayout(v, ISO_LAYOUT)
    ensures |v| == 7 && v[0] < 10000 && v[6] < 1000
  {
    var l := ISO_LAYOUT;
    LayoutPowers();
    assert FitsLayout(v[1..], l[1..]);
    Tail(v, l, 1);
    Tail(v, l, 2);
    Tail(v, l, 3);
    Tail(v, l, 4);
    Tail(v, l, 5);
    assert v[6..][0] == v[6];
  }

  lemma Tail(v: seq<nat>, l: seq<Field>, k: nat)
    requires k < |v| == |l| && FitsLayout(v[k..], l[k..])
    ensures FitsLayout(v[k + 1..], l[k + 1..])
  {
    assert v[k..][1..] == v[k + 1..] && l[k..][1..] == l[k + 1..];
  }

  /**
    * Comparing a text with `toISOString` of what `Date.parse` made of it lets through exactly the texts that name a
    * real date and time of day, whatever the engine makes of the others, so long as it reads those right.
    */
  lemma RoundTripCheckKeepsRealDates(text: string, parsed: Option<int>)
    requires Follows(text, ISO_LAYOUT)
    requires IsIso(text) ==> parsed == Some(TimeOf(text))
    ensures parsed.Some? && IsoText(parsed.value) == text <==> IsIso(text)
  {
    hide IsIso, Follows, IsoText, HasFourDigitYear, TimeOf;
    if IsIso(text) {
      TextWritesBack(text);
    } else if parsed.Some? {
      InstantReadsBack(parsed.value);
    }
  }

  // ---------- The order of the texts ----------

  /** In the years of four digits the texts are in the order of time. */
  lemma TextOrderIsTimeOrder(a: int, b: int)
    requires HasFourDigitYear(a) && HasFourDigitYear(b)
    ensures TextLess(IsoText(a), IsoText(b)) <==> a < b
  {
    hide DayNumber, IsDate, DateOf, Write, FitsLayout, TextLess, ComesBefore;
    var da, db, ma, mb := DateOf(a / DAY), DateOf(b / DAY), a % DAY, b % DAY;
    FourDigitYears(a);
    FourDigitYears(b);
    FieldsFit(da, ma);
    FieldsFit(db, mb);
    WrittenOrder([da.year] + FieldsAfterYear(da, ma), [db.year] + FieldsAfterYear(db, mb), ISO_LAYOUT);
    FieldOrder(da, ma, db, mb);
    EarlierIsSmaller(da, db);
    EarlierIsSmaller(db, da);
  }

  lemma FieldOrder(a: Date, ma: nat, b: Date, mb: nat)
    requires IsDate(a) && IsDate(b) && a.year >= 0 && b.year >= 0 && ma < DAY && mb < DAY
    ensures ComesBefore([a.year] + FieldsAfterYear(a, ma), [b.year] + FieldsAfterYear(b, mb)) <==>
            Earlier(a, b) || (a == b && ma < mb)
  {
    hide IsDate, ComesBefore;
    var x, y := [a.year] + FieldsAfterYear(a, ma), [b.year] + FieldsAfterYear(b, mb);
    NextField(x, y, 0);
    NextField(x, y, 1);
    NextField(x, y, 2);
    TimeOfDayOrder(a, ma, b, mb);
    assert x[0..] == x && y[0..] == y;
    assert x[3..] == FieldsAfterYear(a, ma)[2..] && y[3..] == FieldsAfterYear(b, mb)[2..];
  }

  lemma TimeOfDayOrder(a: Date, ma: nat, b: Date, mb: nat)
    requires IsDate(a) && IsDate(b) && ma < DAY && mb < DAY
    ensures ComesBefore(FieldsAfterYear(a, ma)[2..], FieldsAfterYear(b, mb)[2..]) <==> ma < mb
  {
    hide IsDate, ComesBefore;
    FieldsOfDay(ma);
    FieldsOfDay(mb);
    var x, y := FieldsAfterYear(a, ma), FieldsAfterYear(b, mb);
    NextField(x, y, 2);
    NextField(x, y, 3);
    NextField(x, y, 4);
    NextField(x, y, 5);
    NothingBefore();
    assert x[6..] == [] && y[6..] == [];
  }

  lemma NothingBefore()
    ensures !ComesBefore([], [])
  {
  }

  lemma NextField(x: seq<nat>, y: seq<nat>, k: nat)
    requires k < |x| == |y|
    ensures ComesBefore(x[k..], y[k..]) <==> x[k] < y[k] || (x[k] == y[k] && ComesBefore(x[k + 1..], y[k + 1..]))
  {
    assert x[k..][1..] == x[k + 1..] && y[k..][1..] == y[k + 1..];
  }

  /** From 1970 up to an instant, the texts are in the order of time exactly if it is not past the year 9999. */
  lemma TextOrderHoldsUntilYear10000(until: nat)
    ensures (forall a: nat, b: nat :: a < until && b < until ==> (TextLess(IsoText(a), IsoText(b)) <==> a < b)) <==>
            until <= YEAR_10000
  {
    hide IsoText, TextLess;
    if until <= YEAR_10000 {
      forall a: nat, b: nat | a < until && b < until ensures TextLess(IsoText(a), IsoText(b)) <==> a < b {
        TextOrderIsTimeOrder(a, b);
      }
    } else {
      var last: nat, first: nat := YEAR_10000, 0;
      SignComesFirst(last, first);
      assert last < until && first < until && TextLess(IsoText(last), IsoText(first));
    }
  }

  lemma SignComesFirst(later: int, earlier: int)
    requires later >= YEAR_10000 && HasFourDigitYear(earlier)
    ensures TextLess(IsoText(later), IsoText(earlier))
  {
    hide DateOf, Write, Decimal;
    FourDigitYears(later);
    InstantReadsBack(earlier);
    assert IsoText(later)[0] == '+';
    StartsWithDigit(IsoText(earlier));
  }
}
