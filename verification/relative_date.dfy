/** `formatDate` in profile/profile.js: the "Updated ..." text of a project
    card. The source measures the absolute time between now and the date and
    rounds it up to whole days; here that day count `d` is the input. */
module RelativeDate {
  import opened Text

  /** `Math.ceil(d / k)` for a natural `d` and positive `k`. */
  function CeilDiv(d: nat, k: nat): (q: nat)
    requires k > 0
    ensures k * (q - 1) < d <= k * q || (d == 0 && q == 0)
  {
    (d + k - 1) / k
  }

  lemma CeilDivMonotone(a: nat, b: nat, k: nat)
    requires k > 0 && a <= b
    ensures CeilDiv(a, k) <= CeilDiv(b, k)
  {
    assert a + k - 1 <= b + k - 1;
  }

  /** The function as written: 1 is today, 2 yesterday, up to 7 gives
      `d - 1` days, up to 30 whole weeks rounded up, beyond that whole months
      rounded up. */
  function FormatDateAsWritten(d: nat): string
  {
    if d == 1 then "today"
    else if d == 2 then "yesterday"
    else if d <= 7 then IntToString(d - 1) + " days ago"
    else if d <= 30 then NatToString(CeilDiv(d, 7)) + " weeks ago"
    else NatToString(CeilDiv(d, 30)) + " months ago"
  }

  /** A date exactly now (a zero day count) falls through to the day branch
      and reads "-1 days ago". */
  lemma FormatDateAsWrittenAtZero()
    ensures FormatDateAsWritten(0) == "-1 days ago"
  {
    assert NatToString(1) == "1";
  }

  /** The bucket a day count falls in. */
  datatype Age = Today | Yesterday | Days(n: nat) | Weeks(n: nat) | Months(n: nat)

  /** The buckets, with a zero day count read as today. */
  function AgeOf(d: nat): (a: Age)
    ensures a == Today <==> d <= 1
    ensures a == Yesterday <==> d == 2
    ensures a.Days? <==> 3 <= d <= 7
    ensures a.Days? ==> a.n == d - 1
    ensures a.Weeks? <==> 8 <= d <= 30
    ensures a.Weeks? ==> 2 <= a.n <= 5 && 7 * (a.n - 1) < d <= 7 * a.n
    ensures a.Months? <==> d > 30
    ensures a.Months? ==> a.n >= 2 && 30 * (a.n - 1) < d <= 30 * a.n
  {
    if d <= 1 then Today
    else if d == 2 then Yesterday
    else if d <= 7 then Days(d - 1)
    else if d <= 30 then Weeks(CeilDiv(d, 7))
    else Months(CeilDiv(d, 30))
  }

  function AgeText(a: Age): string
  {
    match a
    case Today => "today"
    case Yesterday => "yesterday"
    case Days(n) => NatToString(n) + " days ago"
    case Weeks(n) => NatToString(n) + " weeks ago"
    case Months(n) => NatToString(n) + " months ago"
  }

  /** `formatDate` with the zero day count read as today. */
  function FormatDate(d: nat): (text: string)
    ensures |text| > 0 && text[0] != '-'
    ensures d <= 1 ==> text == "today"
    ensures d == 2 ==> text == "yesterday"
  {
    var a := AgeOf(d);
    assert a.Days? || a.Weeks? || a.Months? ==> NatToString(a.n)[0] != '-';
    AgeText(a)
  }

  /** For every positive day count the corrected function says what the
      source says. */
  lemma FormatDateAgrees(d: nat)
    requires d >= 1
    ensures FormatDate(d) == FormatDateAsWritten(d)
  {
  }

  /** Orders the buckets from most to least recent. */
  function AgeRank(a: Age): nat
  {
    match a
    case Today => 0
    case Yesterday => 1
    case Days(n) => 1 + n
    case Weeks(n) => 8 + n
    case Months(n) => 20 + n
  }

  /** An older date never reads as more recent than a newer one. */
  lemma AgeMonotone(d1: nat, d2: nat)
    requires d1 <= d2
    ensures AgeRank(AgeOf(d1)) <= AgeRank(AgeOf(d2))
  {
    CeilDivMonotone(d1, d2, 7);
    CeilDivMonotone(d1, d2, 30);
  }
}
