/** The native clock: the same steps on machine integers, under a mutex. */
module NativeClock {
  import opened Wrappers
  import opened HybridLogicalClock
  import opened IsoTime

  const U64_MAX := 0xFFFF_FFFF_FFFF_FFFF
  const U32_MAX := 0xFFFF_FFFF

  const LastClock := Clock(U64_MAX, U32_MAX)

  ghost predicate Fits(c: Clock) {
    c.time <= U64_MAX && c.counter <= U32_MAX
  }

  /** The counter carries into the time, and the time saturates. */
  function NativeIncrement(time: nat, counter: nat): Clock {
    if counter < U32_MAX then Clock(time, counter + 1)
    else Clock(if time < U64_MAX then time + 1 else U64_MAX, 0)
  }

  function NativeTick(c: Clock, physical: nat): Clock {
    if physical > c.time then Clock(physical, 0) else NativeIncrement(c.time, c.counter)
  }

  function NativeMerge(c: Clock, remote: Clock, physical: nat): Clock {
    if physical > c.time && physical > remote.time then Clock(physical, 0)
    else if c.time == remote.time then NativeIncrement(c.time, Max(c.counter, remote.counter))
    else if c.time > remote.time then NativeIncrement(c.time, c.counter)
    else NativeIncrement(remote.time, remote.counter)
  }

  /** A local event moves forward exactly when the clock is not at its last value. */
  lemma TickForwardUnlessSaturated(c: Clock, physical: nat)
    requires Fits(c) && physical <= U64_MAX
    ensures Fits(NativeTick(c, physical))
    ensures Earlier(c, NativeTick(c, physical)) <==> c != LastClock
    ensures physical <= NativeTick(c, physical).time
  {
  }

  /** A receipt moves past both clocks exactly when neither is at its last value. */
  lemma MergeForwardUnlessSaturated(c: Clock, remote: Clock, physical: nat)
    requires Fits(c) && Fits(remote) && physical <= U64_MAX
    ensures var m := NativeMerge(c, remote, physical);
            && Fits(m)
            && (Earlier(c, m) && Earlier(remote, m) <==> c != LastClock && remote != LastClock)
            && physical <= m.time
  {
  }

  /** Short of a counter carry the native clock takes the very steps of the other. */
  lemma SameStepsBelowCarry(c: Clock, remote: Clock, physical: nat)
    requires c.counter < U32_MAX && remote.counter < U32_MAX
    ensures Tick(c, physical) == Stepped(NativeTick(c, physical), true)
    ensures Merge(c, remote, physical) == Stepped(NativeMerge(c, remote, physical), true)
  {
  }

  /** Past either clock's last value the native clock falls back instead. */
  lemma SaturatedFallsBack(c: Clock, remote: Clock, physical: nat)
    requires Fits(c) && Fits(remote) && physical <= U64_MAX
    ensures c == LastClock ==> !Earlier(c, NativeTick(c, physical)) && !Earlier(c, NativeMerge(c, remote, physical))
    ensures remote == LastClock ==> !Earlier(remote, NativeMerge(c, remote, physical))
  {
  }

  // ---------- Reading stamps ----------

  /** A hexadecimal digit in either case. */
  predicate IsRadixDigit(c: char) {
    IsHex(c) || 'A' <= c <= 'F'
  }

  function RadixDigit(c: char): nat
    requires IsRadixDigit(c)
  {
    if IsHex(c) then HexValue(c) else (c - 'A') as nat + 10
  }

  predicate AllRadixDigits(s: string) {
    forall k :: 0 <= k < |s| ==> IsRadixDigit(s[k])
  }

  function RadixValue(s: string): nat
    requires AllRadixDigits(s)
  {
    if s == "" then 0 else 16 * RadixValue(s[..|s| - 1]) + RadixDigit(s[|s| - 1])
  }

  /** An unsigned number in base 16, perhaps with a plus sign before it, that does not exceed the type's limit. */
  function FromRadix(s: string, limit: nat): (r: Option<nat>)
    ensures r.Some? ==> r.value <= limit
  {
    var digits := if s != "" && s[0] == '+' then s[1..] else s;
    if digits == "" || !AllRadixDigits(digits) then None
    else if RadixValue(digits) <= limit then Some(RadixValue(digits))
    else None
  }

  /** Where the first underscore stands, or the length. */
  function UpToUnderscore(s: string): (n: nat)
    ensures n <= |s|
  {
    if s == "" || s[0] == '_' then 0 else 1 + UpToUnderscore(s[1..])
  }

  /** Two fields and whatever follows the second underscore. */
  function NativeParse(s: string): (r: Option<Stamp>)
    ensures r.Some? ==> Fits(r.value.clock)
  {
    var i := UpToUnderscore(s);
    if i == |s| then None
    else
      var rest := s[i + 1..];
      var j := UpToUnderscore(rest);
      if j == |rest| then None
      else
        var time, counter := FromRadix(s[..i], U64_MAX), FromRadix(rest[..j], U32_MAX);
        if time.None? || counter.None? then None
        else Some(Stamp(Clock(time.value, counter.value), rest[j + 1..]))
  }

  lemma {:induction false} RadixReadsHex(s: string)
    requires forall k :: 0 <= k < |s| ==> IsHex(s[k])
    ensures AllRadixDigits(s)
    ensures RadixValue(s) == ParseHex(s)
  {
    if s != "" {
      RadixReadsHex(s[..|s| - 1]);
    }
  }

  lemma {:induction false} FieldEnds(digits: string, rest: string)
    requires forall k :: 0 <= k < |digits| ==> IsHex(digits[k])
    ensures UpToUnderscore(digits + "_" + rest) == |digits|
  {
    if digits == "" {
      assert digits + "_" + rest == "_" + rest;
    } else {
      FieldEnds(digits[1..], rest);
      assert IsHex(digits[0]);
      assert (digits + "_" + rest)[1..] == digits[1..] + "_" + rest;
    }
  }

  lemma FieldReads(n: nat, width: nat, limit: nat)
    ensures forall k :: 0 <= k < |PadStart(Hex(n), width)| ==> IsHex(PadStart(Hex(n), width)[k])
    ensures FromRadix(PadStart(Hex(n), width), limit) == if n <= limit then Some(n) else None
  {
    var s := PadStart(Hex(n), width);
    PaddingKeepsValue(Hex(n), width);
    HexRoundTrip(n);
    RadixReadsHex(s);
    assert IsHex(s[0]);
  }

  /** A stamp that either clock has written reads back natively exactly when its numbers fit the machine integers. */
  lemma NativeReadsWhatFits(s: Stamp)
    ensures NativeParse(Format(s)) == if Fits(s.clock) then Some(s) else None
  {
    hide Hex, PadStart, FromRadix;
    var t, c := PadStart(Hex(s.clock.time), 12), PadStart(Hex(s.clock.counter), 4);
    FieldReads(s.clock.time, 12, U64_MAX);
    FieldReads(s.clock.counter, 4, U32_MAX);
    var rest := c + "_" + s.nodeId;
    FieldEnds(t, rest);
    FieldEnds(c, s.nodeId);
    assert Format(s) == t + "_" + rest;
    assert (t + "_" + rest)[..|t|] == t && (t + "_" + rest)[|t| + 1..] == rest;
    assert rest[..|c|] == c && rest[|c| + 1..] == s.nodeId;
  }

  /** What a receipt makes of a stamp's text: one that cannot be read counts as the zero stamp. */
  function Reading(remote: string): (c: Clock)
    ensures Fits(c)
  {
    var stamp := NativeParse(remote);
    if stamp.Some? then stamp.value.clock else Clock(0, 0)
  }

  /**
    * A stamp of the other clock received natively: passed for sure if its counter fits 32 bits. Otherwise it is not
    * read, and passed exactly when the wall clock or the node's own clock is already past its millisecond.
    */
  lemma ForeignStampPassedExactlyWhen(c: Clock, remote: Stamp, physical: nat)
    requires Fits(c) && InRange(remote.clock) && physical <= U64_MAX
    ensures Earlier(remote.clock, NativeMerge(c, Reading(Format(remote)), physical)) <==>
            || remote.clock.counter <= U32_MAX
            || remote.clock.time < physical || remote.clock.time < c.time
            || (remote.clock.time == c.time && c.counter == U32_MAX)
  {
    hide Format, NativeParse;
    NativeReadsWhatFits(remote);
  }

  /** The first field of a native stamp is over before its first underscore. */
  lemma {:induction false} UnderscoreBehind(s: string, k: nat)
    requires k < |s| && forall i :: 0 <= i <= k ==> s[i] != '_'
    ensures UpToUnderscore(s) > k
  {
    if k > 0 {
      UnderscoreBehind(s[1..], k - 1);
    }
  }

  /** Natively a stamp of the older form is not read, and its receipt is no more than a local event. */
  lemma LegacyCountsAsLocal(
    c: Clock, time: int, separator: char, counter: string, nodeId: string, physical: nat)
    requires Fits(c) && HasFourDigitYear(time)
    ensures var remote := LegacyText(time, separator, counter, nodeId);
            && NativeParse(remote) == None
            && NativeMerge(c, Reading(remote), physical) == NativeTick(c, physical)
  {
    hide LegacyText, NativeParse, Decimal, HasFourDigitYear;
    LegacyStart(time, separator, counter, nodeId);
    DashIsNotRead(LegacyText(time, separator, counter, nodeId));
  }

  lemma DashIsNotRead(s: string)
    requires |s| > 4 && AllDigits(s[..4]) && s[4] == '-'
    ensures NativeParse(s) == None
  {
    hide UpToUnderscore, FromRadix;
    assert forall i :: 0 <= i < 4 ==> s[i] == s[..4][i] && IsDigit(s[..4][i]);
    UnderscoreBehind(s, 4);
    var field := s[..UpToUnderscore(s)];
    NoNumber(field, 4, U64_MAX);
  }

  lemma NoNumber(s: string, k: nat, limit: nat)
    requires k < |s| && s[0] != '+' && !IsRadixDigit(s[k])
    ensures FromRadix(s, limit) == None
  {
  }

  class NativeHybridLogicalClock {
    var state: Clock
    const nodeId: string

    constructor (nodeId: string, physical: nat)
      requires physical <= U64_MAX
      ensures this.nodeId == nodeId && state == Clock(physical, 0) && Fits(state)
    {
      this.nodeId, state := nodeId, Clock(physical, 0);
    }

    method Now(physical: nat) returns (text: string)
      requires Fits(state) && physical <= U64_MAX
      modifies this
      ensures Fits(state)
      ensures state == NativeTick(old(state), physical) && text == Format(Stamp(state, nodeId))
    {
      if physical > state.time {
        state := Clock(physical, 0);
      } else {
        state := NativeIncrement(state.time, state.counter);
      }
      return Format(Stamp(state, nodeId));
    }

    method Update(remote: string, physical: nat) returns (text: string)
      requires Fits(state) && physical <= U64_MAX
      modifies this
      ensures Fits(state)
      ensures state == NativeMerge(old(state), Reading(remote), physical) && text == Format(Stamp(state, nodeId))
    {
      var parsed := NativeParse(remote);
      var other := if parsed.Some? then parsed.value.clock else Clock(0, 0);
      if physical > state.time && physical > other.time {
        state := Clock(physical, 0);
      } else if state.time == other.time {
        state := NativeIncrement(state.time, if state.counter >= other.counter then state.counter else other.counter);
      } else if state.time > other.time {
        state := NativeIncrement(state.time, state.counter);
      } else {
        state := NativeIncrement(other.time, other.counter);
      }
      return Format(Stamp(state, nodeId));
    }
  }
}
