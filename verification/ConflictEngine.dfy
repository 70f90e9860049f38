/** Last-writer-wins resolution by logical timestamp. */
module ConflictEngine {
  import opened Wrappers
  import opened HybridLogicalClock
  import opened IsoTime

  /** `content` stands for everything else that is signed and carried. */
  datatype Envelope = Envelope(envelopeId: string, logicalTimestamp: string, content: string)

  /** How node ids are compared: negative, zero or positive. */
  type Collation = (string, string) -> int

  /** A locale's comparison is total, transitive and turns around with its arguments; it may equate two texts. */
  ghost predicate IsCollation(collate: Collation) {
    && (forall a, b :: collate(a, b) < 0 <==> collate(b, a) > 0)
    && (forall a, b, c :: collate(a, b) <= 0 && collate(b, c) <= 0 ==> collate(a, c) <= 0)
  }

  function CompareStamps(collate: Collation, a: Parsed, b: Parsed): int {
    if a.time != b.time then (if a.time < b.time then -1 else 1)
    else if a.counter != b.counter then (if a.counter < b.counter then -1 else 1)
    else collate(a.nodeId, b.nodeId)
  }

  /** Comparison of two timestamps; none when one of them cannot be read. */
  function Compare(collate: Collation, a: string, b: string): Option<int> {
    match (Parse(a), Parse(b))
    case (Some(x), Some(y)) => Some(CompareStamps(collate, x, y))
    case _ => None
  }

  datatype Winner = Local | Remote

  datatype Resolution = Resolution(winner: Winner, resolved: Envelope)

  function ResolveLww(collate: Collation, local: Envelope, remote: Envelope): Option<Resolution> {
    match Compare(collate, local.logicalTimestamp, remote.logicalTimestamp)
    case None => None
    case Some(order) => Some(if order >= 0 then Resolution(Local, local) else Resolution(Remote, remote))
  }

  /**
    * The remote envelope wins exactly if its time is later, or the times are equal and its counter is larger, or both
    * are equal and its node id collates behind; the local one wins otherwise; and unreadable stamps decide nothing.
    */
  lemma LaterWins(collate: Collation, local: Envelope, remote: Envelope)
    requires IsCollation(collate)
    ensures ResolveLww(collate, local, remote).None? <==>
            Parse(local.logicalTimestamp).None? || Parse(remote.logicalTimestamp).None?
    ensures ResolveLww(collate, local, remote).Some? ==>
              var l, r := Parse(local.logicalTimestamp).value, Parse(remote.logicalTimestamp).value;
              var resolution := ResolveLww(collate, local, remote).value;
              && (resolution.winner == Remote <==>
                  || l.time < r.time
                  || (l.time == r.time && l.counter < r.counter)
                  || (l.time == r.time && l.counter == r.counter && collate(l.nodeId, r.nodeId) < 0))
              && resolution.resolved == (if resolution.winner == Remote then remote else local)
  {
    hide Parse;
  }

  // ---------- Two replicas ----------

  predicate Readable(e: Envelope) {
    Parse(e.logicalTimestamp).Some?
  }

  ghost function Order(collate: Collation, a: Envelope, b: Envelope): int
    requires Readable(a) && Readable(b)
  {
    Compare(collate, a.logicalTimestamp, b.logicalTimestamp).value
  }

  function Keep(collate: Collation, current: Envelope, incoming: Envelope): (kept: Envelope)
    requires Readable(current) && Readable(incoming)
    ensures kept == current || kept == incoming
    ensures Readable(kept)
  {
    ResolveLww(collate, current, incoming).value.resolved
  }

  lemma OrderIsTotal(collate: Collation, a: Envelope, b: Envelope, c: Envelope)
    requires IsCollation(collate) && Readable(a) && Readable(b) && Readable(c)
    ensures Order(collate, a, b) < 0 <==> Order(collate, b, a) > 0
    ensures Order(collate, a, a) == 0
    ensures Order(collate, a, b) <= 0 && Order(collate, b, c) <= 0 ==> Order(collate, a, c) <= 0
    ensures Order(collate, a, b) < 0 && Order(collate, b, c) <= 0 ==> Order(collate, a, c) < 0
    ensures Order(collate, a, b) <= 0 && Order(collate, b, c) < 0 ==> Order(collate, a, c) < 0
  {
    hide Parse;
    var x, y, z := Parse(a.logicalTimestamp).value, Parse(b.logicalTimestamp).value,
                   Parse(c.logicalTimestamp).value;
    assert collate(x.nodeId, y.nodeId) < 0 <==> collate(y.nodeId, x.nodeId) > 0;
    assert collate(z.nodeId, y.nodeId) < 0 <==> collate(y.nodeId, z.nodeId) > 0;
    assert collate(x.nodeId, z.nodeId) < 0 <==> collate(z.nodeId, x.nodeId) > 0;
    assert collate(x.nodeId, x.nodeId) < 0 <==> collate(x.nodeId, x.nodeId) > 0;
    assert collate(x.nodeId, y.nodeId) <= 0 && collate(y.nodeId, z.nodeId) <= 0 ==> collate(x.nodeId, z.nodeId) <= 0;
    assert collate(y.nodeId, z.nodeId) <= 0 && collate(z.nodeId, x.nodeId) <= 0 ==> collate(y.nodeId, x.nodeId) <= 0;
    assert collate(z.nodeId, x.nodeId) <= 0 && collate(x.nodeId, y.nodeId) <= 0 ==> collate(z.nodeId, y.nodeId) <= 0;
  }

  /** Which side calls an envelope local matters exactly when two different ones compare equal. */
  lemma KeepCommutesUnlessTied(collate: Collation, a: Envelope, b: Envelope)
    requires IsCollation(collate) && Readable(a) && Readable(b)
    ensures Keep(collate, a, b) == Keep(collate, b, a) <==> a == b || Order(collate, a, b) != 0
  {
    OrderIsTotal(collate, a, b, a);
  }

  lemma KeepIsAssociativeAndIdempotent(collate: Collation, a: Envelope, b: Envelope, c: Envelope)
    requires IsCollation(collate) && Readable(a) && Readable(b) && Readable(c)
    ensures Keep(collate, Keep(collate, a, b), c) == Keep(collate, a, Keep(collate, b, c))
    ensures Keep(collate, a, a) == a
  {
    OrderIsTotal(collate, a, b, c);
    OrderIsTotal(collate, b, a, c);
    OrderIsTotal(collate, a, c, b);
    OrderIsTotal(collate, b, c, a);
    OrderIsTotal(collate, c, b, a);
  }

  // ---------- Any number of deliveries ----------

  ghost predicate AllReadable(es: seq<Envelope>) {
    forall e :: e in es ==> Readable(e)
  }

  /** What a replica holds after these deliveries, in this order. */
  function Fold(collate: Collation, es: seq<Envelope>): (kept: Envelope)
    requires es != [] && AllReadable(es)
    ensures kept in es
  {
    if |es| == 1 then es[0]
    else
      var init, last := es[..|es| - 1], es[|es| - 1];
      assert es == init + [last];
      Keep(collate, Fold(collate, init), last)
  }

  ghost predicate Greatest(collate: Collation, es: seq<Envelope>, top: Envelope)
    requires AllReadable(es)
  {
    top in es && forall e :: e in es ==> Order(collate, e, top) <= 0
  }

  /** A replica holds an envelope of greatest timestamp among all it was given. */
  lemma {:induction false} FoldIsGreatest(collate: Collation, es: seq<Envelope>)
    requires IsCollation(collate) && es != [] && AllReadable(es)
    ensures Greatest(collate, es, Fold(collate, es))
  {
    hide Order;
    if |es| == 1 {
      OrderIsTotal(collate, es[0], es[0], es[0]);
    } else {
      var init, last := es[..|es| - 1], es[|es| - 1];
      assert es == init + [last];
      FoldIsGreatest(collate, init);
      var before, after := Fold(collate, init), Fold(collate, es);
      KeptIsNotLess(collate, before, last);
      forall e | e in es ensures Order(collate, e, after) <= 0 {
        if e in init {
          OrderIsTotal(collate, e, before, after);
        }
      }
    }
  }

  lemma KeptIsNotLess(collate: Collation, a: Envelope, b: Envelope)
    requires IsCollation(collate) && Readable(a) && Readable(b)
    ensures Order(collate, a, Keep(collate, a, b)) <= 0 && Order(collate, b, Keep(collate, a, b)) <= 0
  {
    OrderIsTotal(collate, a, b, a);
    OrderIsTotal(collate, b, a, b);
  }

  ghost predicate SameSet(xs: seq<Envelope>, ys: seq<Envelope>) {
    forall e :: e in xs <==> e in ys
  }

  /** One way of delivering the envelopes of `es`: in some order, each at least once. */
  ghost predicate Delivers(xs: seq<Envelope>, es: seq<Envelope>) {
    xs != [] && AllReadable(xs) && SameSet(xs, es)
  }

  /** No two envelopes share the greatest timestamp. */
  ghost predicate Untied(collate: Collation, es: seq<Envelope>)
    requires AllReadable(es)
  {
    forall a, b :: Greatest(collate, es, a) && Greatest(collate, es, b) ==> a == b
  }

  lemma FoldIsGreatestDelivered(collate: Collation, xs: seq<Envelope>, es: seq<Envelope>)
    requires IsCollation(collate) && AllReadable(es) && Delivers(xs, es)
    ensures Greatest(collate, es, Fold(collate, xs))
  {
    hide Fold, Order;
    FoldIsGreatest(collate, xs);
    assert forall e :: e in es ==> e in xs;
  }

  /** Two replicas given the same envelopes, in any orders and with any repetitions, hold the same one. */
  lemma ReplicasConverge(collate: Collation, es: seq<Envelope>, xs: seq<Envelope>, ys: seq<Envelope>)
    requires IsCollation(collate) && AllReadable(es) && Untied(collate, es)
    requires Delivers(xs, es) && Delivers(ys, es)
    ensures Fold(collate, xs) == Fold(collate, ys)
  {
    hide Fold, Greatest, AllReadable;
    FoldIsGreatestDelivered(collate, xs, es);
    FoldIsGreatestDelivered(collate, ys, es);
  }

  /** In particular no two tie when different envelopes always carry different timestamps. */
  lemma DistinctTimestampsAreUntied(collate: Collation, es: seq<Envelope>)
    requires IsCollation(collate) && AllReadable(es)
    requires forall a, b :: a in es && b in es && a != b ==> Order(collate, a, b) != 0
    ensures Untied(collate, es)
  {
    forall a, b | Greatest(collate, es, a) && Greatest(collate, es, b) ensures a == b {
      OrderIsTotal(collate, a, b, a);
    }
  }

  lemma {:induction false} FirstGreatestStays(collate: Collation, top: Envelope, es: seq<Envelope>)
    requires IsCollation(collate) && Readable(top) && AllReadable(es)
    requires forall e :: e in es ==> Order(collate, e, top) <= 0
    ensures AllReadable([top] + es) && Fold(collate, [top] + es) == top
  {
    hide Order;
    assert AllReadable([top] + es);
    if es != [] {
      var init, last := es[..|es| - 1], es[|es| - 1];
      assert es == init + [last];
      assert ([top] + es)[..|es|] == [top] + init;
      FirstGreatestStays(collate, top, init);
      KeepsTheGreater(collate, top, last);
    }
  }

  lemma KeepsTheGreater(collate: Collation, top: Envelope, e: Envelope)
    requires IsCollation(collate) && Readable(top) && Readable(e) && Order(collate, e, top) <= 0
    ensures Keep(collate, top, e) == top
  {
    OrderIsTotal(collate, top, e, top);
  }

  /** When two different envelopes share the greatest timestamp, two replicas can part for good. */
  lemma TiedReplicasPart(collate: Collation, es: seq<Envelope>, a: Envelope, b: Envelope)
    requires IsCollation(collate) && AllReadable(es) && a != b
    requires Greatest(collate, es, a) && Greatest(collate, es, b)
    ensures Delivers([a] + es, es) && Delivers([b] + es, es)
    ensures Fold(collate, [a] + es) == a && Fold(collate, [b] + es) == b
  {
    FirstGreatestStays(collate, a, es);
    FirstGreatestStays(collate, b, es);
  }

  /** A stamp written in both forms is one timestamp, so envelopes that differ only in its form are tied. */
  lemma BothFormsTie(collate: Collation, stamp: Stamp, separator: char, counter: string, a: Envelope, b: Envelope)
    requires IsCollation(collate) && InRange(stamp.clock) && HasFourDigitYear(stamp.clock.time)
    requires IsNodeId(stamp.nodeId) && separator in {':', '|'}
    requires counter != "" && AllDigits(counter) && DecimalValue(counter) == stamp.clock.counter
    requires a.logicalTimestamp == Format(stamp)
    requires b.logicalTimestamp == LegacyText(stamp.clock.time, separator, counter, stamp.nodeId)
    ensures Readable(a) && Readable(b) && Order(collate, a, b) == 0
    ensures a != b && !Untied(collate, [a, b])
  {
    hide ParseCanonical, ParseLegacy, Format, LegacyText, HasFourDigitYear, DecimalValue;
    FormatRoundTrip(stamp);
    LegacyReadsBack(stamp.clock.time, separator, counter, stamp.nodeId);
    assert Parse(a.logicalTimestamp) == Parse(b.logicalTimestamp);
    OrderIsTotal(collate, a, a, b);
    OrderIsTotal(collate, b, b, a);
    assert [a, b][0] == a && [a, b][1] == b;
    assert Greatest(collate, [a, b], a) && Greatest(collate, [a, b], b);
  }

  /** Every way of delivering the same envelopes ends alike exactly when no two share the greatest timestamp. */
  lemma ConvergesExactlyWhenUntied(collate: Collation, es: seq<Envelope>)
    requires IsCollation(collate) && es != [] && AllReadable(es)
    ensures (forall xs, ys :: Delivers(xs, es) && Delivers(ys, es) ==> Fold(collate, xs) == Fold(collate, ys))
            <==> Untied(collate, es)
  {
    hide Fold, Greatest;
    if Untied(collate, es) {
      forall xs, ys | Delivers(xs, es) && Delivers(ys, es) ensures Fold(collate, xs) == Fold(collate, ys) {
        ReplicasConverge(collate, es, xs, ys);
      }
    } else {
      var a, b :| Greatest(collate, es, a) && Greatest(collate, es, b) && a != b;
      TiedReplicasPart(collate, es, a, b);
    }
  }
}
