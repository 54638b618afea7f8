/** The read and reply percentages an automation card shows for a
    sequence: each count over `delivered || 1`, times 100, rounded with
    `Math.round` (halves round up). Nothing clamps the result. */
module Automation {
  import opened Records

  datatype Percents = Percents(readPercent: nat, replyPercent: nat)

  /** `sequence.performance.delivered || 1`: zero is falsy. */
  function Total(delivered: nat): (t: nat)
    ensures t >= 1
    ensures delivered != 0 ==> t == delivered
    ensures delivered == 0 ==> t == 1
  {
    if delivered == 0 then 1 else delivered
  }

  /** `Math.round(count / total * 100)` over exact rationals: the nearest
      whole number to 100 * count / total, halves going up. */
  function RoundedPercent(count: nat, total: nat): (p: nat)
    requires total >= 1
    ensures 2 * total * p <= 200 * count + total < 2 * total * (p + 1)
  {
    (200 * count + total) / (2 * total)
  }

  /** Both percentages of an automation card. */
  function CardPercents(perf: Performance): (r: Percents)
    ensures var t := Total(perf.delivered);
            2 * t * r.readPercent <= 200 * perf.read + t < 2 * t * (r.readPercent + 1)
    ensures var t := Total(perf.delivered);
            2 * t * r.replyPercent <= 200 * perf.replies + t < 2 * t * (r.replyPercent + 1)
  {
    var total := Total(perf.delivered);
    Percents(RoundedPercent(perf.read, total), RoundedPercent(perf.replies, total))
  }

  lemma MulMonotone(t: nat, a: nat, b: nat)
    requires a <= b
    ensures t * a <= t * b
  {
  }

  /** Exactly one whole number is the rounded percentage. */
  lemma RoundedPercentUnique(count: nat, total: nat, p: nat)
    requires total >= 1
    requires 2 * total * p <= 200 * count + total < 2 * total * (p + 1)
    ensures p == RoundedPercent(count, total)
  {
    var q := RoundedPercent(count, total);
    if p < q {
      MulMonotone(2 * total, p + 1, q);
    } else if q < p {
      MulMonotone(2 * total, q + 1, p);
    }
  }

  /** A count no larger than a positive total gives at most 100. */
  lemma PercentAtMostHundred(count: nat, total: nat)
    requires total >= 1 && count <= total
    ensures RoundedPercent(count, total) <= 100
  {
    var p := RoundedPercent(count, total);
    if p > 100 {
      MulMonotone(200, count, total);
      MulMonotone(2 * total, 101, p);
    }
  }

  /** A larger count never gives a smaller percentage. */
  lemma PercentMonotone(c1: nat, c2: nat, total: nat)
    requires total >= 1 && c1 <= c2
    ensures RoundedPercent(c1, total) <= RoundedPercent(c2, total)
  {
    var p1, p2 := RoundedPercent(c1, total), RoundedPercent(c2, total);
    if p2 < p1 {
      MulMonotone(200, c1, c2);
      MulMonotone(2 * total, p2 + 1, p1);
    }
  }

  /** When the total divides 100 times the count, no rounding happens. */
  lemma PercentExact(count: nat, total: nat, p: nat)
    requires total >= 1 && total * p == 100 * count
    ensures RoundedPercent(count, total) == p
  {
    RoundedPercentUnique(count, total, p);
  }

  /** With nothing delivered the total is 1, so the percentages are the
      raw counts times 100 and can exceed 100. */
  lemma NothingDelivered(perf: Performance)
    requires perf.delivered == 0
    ensures CardPercents(perf) == Percents(100 * perf.read, 100 * perf.replies)
  {
    PercentExact(perf.read, 1, 100 * perf.read);
    PercentExact(perf.replies, 1, 100 * perf.replies);
  }

  /** Within a campaign that delivered something, reads and replies not
      exceeding deliveries give percentages between 0 and 100. */
  lemma CardPercentsBounded(perf: Performance)
    requires perf.delivered > 0
    requires perf.read <= perf.delivered && perf.replies <= perf.delivered
    ensures CardPercents(perf).readPercent <= 100 && CardPercents(perf).replyPercent <= 100
  {
    PercentAtMostHundred(perf.read, perf.delivered);
    PercentAtMostHundred(perf.replies, perf.delivered);
  }

  /** The three sequences on the dashboard and the zero-delivery case. */
  lemma WorkedValues()
    ensures CardPercents(Performance(184, 156, 92)) == Percents(85, 50)
    ensures CardPercents(Performance(92, 81, 24)) == Percents(88, 26)
    ensures CardPercents(Performance(1280, 1044, 312)) == Percents(82, 24)
    ensures CardPercents(Performance(0, 5, 2)) == Percents(500, 200)
  {
    NothingDelivered(Performance(0, 5, 2));
  }
}
