/**
 * What the browser client derives from stored records for display: the change column of
 * the history dialog, and the card and header totals.
 */
module HistoryView {
  import opened Common
  import opened Text
  import opened Accounting

  /** The points an entry is compared with: the previous entry's, or 0 for the first. */
  function PreviousPoints(h: seq<Entry>, i: nat): int
    requires i < |h|
  {
    if i == 0 then 0 else h[i - 1].points
  }

  /** The change shown beside each entry of the history dialog. */
  function ChangeColumn(h: seq<Entry>): (c: seq<int>)
    ensures |c| == |h|
    ensures forall i {:trigger c[i]} :: 0 <= i < |h| ==> c[i] == h[i].points - PreviousPoints(h, i)
  {
    if h == [] then []
    else
      var init := h[..|h| - 1];
      var c' := ChangeColumn(init);
      assert forall i :: 0 <= i < |init| ==> PreviousPoints(init, i) == PreviousPoints(h, i);
      c' + [h[|h| - 1].points - PreviousPoints(h, |h| - 1)]
  }

  /** The sum of the first `k` numbers of `s`. */
  function SumTo(s: seq<int>, k: nat): int
    requires k <= |s|
  {
    if k == 0 then 0 else SumTo(s, k - 1) + s[k - 1]
  }

  /**
   * Adding up the changes shown for the first `k + 1` entries gives entry `k`'s points:
   * the column loses nothing.
   */
  lemma {:induction false} ChangesAddUpToPoints(h: seq<Entry>, k: nat)
    requires k < |h|
    ensures SumTo(ChangeColumn(h), k + 1) == h[k].points
  {
    if k > 0 {
      ChangesAddUpToPoints(h, k - 1);
    }
  }

  /** All the changes shown add up to the last entry's points. */
  lemma ChangesAddUpToLast(h: seq<Entry>)
    requires |h| > 0
    ensures SumTo(ChangeColumn(h), |h|) == h[|h| - 1].points
  {
    ChangesAddUpToPoints(h, |h| - 1);
  }

  /** How a change is written: `+n` when positive, `n` (with its minus sign) when negative, `0` otherwise. */
  function ChangeText(c: int): (s: string)
    ensures |s| >= 2 || s == "0" || (|s| == 1 && IsDigit(s[0]))
    ensures s[0] == '+' <==> c > 0
    ensures s[0] == '-' <==> c < 0
    ensures s == "0" <==> c == 0
  {
    if c > 0 then "+" + Decimal(c) else if c < 0 then "-" + Decimal(-c) else "0"
  }

  /** Reads a rendered change back. */
  function ParseChangeText(s: string): int
    requires |s| >= 1
    requires AllDigits(s[1..]) && (IsDigit(s[0]) || s[0] == '+' || s[0] == '-')
  {
    if s[0] == '+' then ParseDecimal(s[1..])
    else if s[0] == '-' then -(ParseDecimal(s[1..]) as int)
    else ParseDecimal(s)
  }

  /** The rendered change determines the change: reading it back gives the number shown. */
  lemma ChangeTextRoundTrip(c: int)
    ensures |ChangeText(c)| >= 1 && AllDigits(ChangeText(c)[1..])
    ensures ParseChangeText(ChangeText(c)) == c
  {
    var s := ChangeText(c);
    if c > 0 {
      assert s[1..] == Decimal(c);
      DecimalRoundTrip(c);
    } else if c < 0 {
      assert s[1..] == Decimal(-c);
      DecimalRoundTrip(-c);
    } else {
      assert ParseDecimal(s) == 10 * ParseDecimal(s[..0]) + DigitValue('0');
    }
  }

  /** The points a card shows: progress within the current reward cycle. */
  function DisplayPoints(s: Student, threshold: nat): (p: nat)
    requires threshold > 0
    ensures p < threshold && p <= s.points
    ensures s.points == (s.points / threshold) * threshold + p
    ensures s.points < threshold ==> p == s.points
  {
    CycleLocal(s.points, threshold)
  }

  /** The header's points total: the students' displayed points, added up. */
  function TotalPoints(ss: seq<Student>, threshold: nat): (total: nat)
    requires threshold > 0
    ensures total <= |ss| * (threshold - 1)
  {
    if ss == [] then 0
    else
      var n := |ss|;
      assert n * (threshold - 1) == (n - 1) * (threshold - 1) + (threshold - 1);
      TotalPoints(ss[..n - 1], threshold) + DisplayPoints(ss[n - 1], threshold)
  }

  /** The header's reward total: the students' reward counters, a missing one counted as 0. */
  function TotalRewards(ss: seq<Student>): (total: nat)
    ensures forall i :: 0 <= i < |ss| ==> RewardsOf(ss[i]) <= total
  {
    if ss == [] then 0 else TotalRewards(ss[..|ss| - 1]) + RewardsOf(ss[|ss| - 1])
  }

  /** Replacing one record changes the reward total by the difference of the two counters. */
  lemma {:induction false} TotalRewardsAfterUpdate(ss: seq<Student>, i: nat, s: Student)
    requires i < |ss|
    ensures TotalRewards(ss[i := s]) + RewardsOf(ss[i]) == TotalRewards(ss) + RewardsOf(s)
  {
    var n := |ss|;
    var ss' := ss[i := s];
    if i < n - 1 {
      assert ss'[..n - 1] == ss[..n - 1][i := s];
      TotalRewardsAfterUpdate(ss[..n - 1], i, s);
    } else {
      assert ss'[..n - 1] == ss[..n - 1];
    }
  }

  /** Appending a record adds its counter to the reward total. */
  lemma TotalRewardsAppend(ss: seq<Student>, s: Student)
    ensures TotalRewards(ss + [s]) == TotalRewards(ss) + RewardsOf(s)
  {
    assert (ss + [s])[..|ss|] == ss;
  }
}
