/** `timeSince` of the course card: elapsed whole hours, the label shown,
    and the 24-hour "new" badge. */
module Courses {
  import opened Wrappers
  import opened Text
  import opened Decimal

  const MillisPerSecond := 1000
  const SecondsPerHour := 3600
  const MillisPerHour := MillisPerSecond * SecondsPerHour

  /** `Math.floor(a / d)` for a positive divisor: the greatest `q` with
      `q * d <= a`. (For a positive divisor Dafny's `/` already rounds down,
      also for negative `a`.) */
  function FloorDiv(a: int, d: int): (q: int)
    requires d > 0
    ensures q * d <= a < q * d + d
  {
    a / d
  }

  /** Whole seconds, then whole hours of those, is whole hours of the
      milliseconds. */
  lemma WholeHours(elapsed: int)
    ensures FloorDiv(FloorDiv(elapsed, MillisPerSecond), SecondsPerHour) == FloorDiv(elapsed, MillisPerHour)
  {
  }

  datatype Age = Age(hours: int, labelText: string, isNew: bool)

  /** `` `Added ${hours} hour${hours === 1 ? '' : 's'} ago` `` */
  function AddedLabel(hours: int): string {
    "Added " + IntToString(hours) + " hour" + (if hours == 1 then "" else "s") + " ago"
  }

  /** `timeSince(date)` at clock reading `now`, both in milliseconds. The
      hours are the whole hours elapsed, rounded down (a date in the future
      gives a negative count); the label is "Just now" exactly below one hour,
      names the hour in the singular at exactly one hour and in the plural
      from two hours on; the badge shows exactly below 24 hours. */
  function TimeSince(now: int, addedAt: int): (r: Age)
    ensures r.hours * MillisPerHour <= now - addedAt < (r.hours + 1) * MillisPerHour
    ensures r.labelText == "Just now" <==> r.hours < 1
    ensures r.hours == 1 ==> r.labelText == "Added 1 hour ago"
    ensures r.hours >= 2 ==> r.labelText == "Added " + IntToString(r.hours) + " hours ago"
    ensures r.isNew <==> r.hours < 24
  {
    var seconds := FloorDiv(now - addedAt, MillisPerSecond);
    var hours := FloorDiv(seconds, SecondsPerHour);
    WholeHours(now - addedAt);
    var caption := if hours < 1 then "Just now" else AddedLabel(hours);
    assert AddedLabel(hours)[0] == 'A';
    assert IntToString(1) == "1";
    Age(hours, caption, hours < 24)
  }

  /** More elapsed time never gives fewer hours. */
  lemma HoursMonotone(now1: int, a1: int, now2: int, a2: int)
    requires now1 - a1 <= now2 - a2
    ensures TimeSince(now1, a1).hours <= TimeSince(now2, a2).hours
  {
  }

  /** The hour count read back from an "Added N hour(s) ago" label: the
      numeral between the prefix and the next space. */
  function ParseAddedLabel(caption: string): Option<int> {
    if |caption| < 6 || caption[..6] != "Added " then None
    else
      match IndexOf(caption[6..], ' ')
      case None => None
      case Some(k) => ParseInt(caption[6..][..k])
  }

  /** An "Added" label reads back as its hour count. */
  lemma AddedLabelRoundTrip(hours: int)
    ensures ParseAddedLabel(AddedLabel(hours)) == Some(hours)
  {
    var n := IntToString(hours);
    var caption := AddedLabel(hours);
    var rest := " hour" + (if hours == 1 then "" else "s") + " ago";
    assert caption == "Added " + n + rest;
    assert caption[..6] == "Added ";
    assert caption[6..] == n + rest;
    assert forall k :: 0 <= k < |n| ==> (n + rest)[k] == n[k] && n[k] != ' ';
    assert (n + rest)[|n|] == ' ';
    assert IndexOf(n + rest, ' ') == Some(|n|);
    assert (n + rest)[..|n|] == n;
    ParseIntToString(hours);
  }

  /** From one hour on the label names the hour count: it reads back as that
      count, so different counts give different labels. */
  lemma LabelNamesHours(now1: int, a1: int, now2: int, a2: int)
    requires TimeSince(now1, a1).hours >= 1 && TimeSince(now2, a2).hours >= 1
    ensures ParseAddedLabel(TimeSince(now1, a1).labelText) == Some(TimeSince(now1, a1).hours)
    ensures TimeSince(now1, a1).labelText == TimeSince(now2, a2).labelText ==>
      TimeSince(now1, a1).hours == TimeSince(now2, a2).hours
  {
    var r1, r2 := TimeSince(now1, a1), TimeSince(now2, a2);
    assert r1.labelText == AddedLabel(r1.hours);
    assert r2.labelText == AddedLabel(r2.hours);
    AddedLabelRoundTrip(r1.hours);
    AddedLabelRoundTrip(r2.hours);
  }

  /** The card's own case. It reads the clock twice: `now1` to date the
      course six hours back, then `now2` inside `timeSince`. Whenever the
      second reading is less than an hour after the first, the course reads
      "Added 6 hours ago" and still carries the badge. */
  lemma SixHoursAgo(now1: int, now2: int)
    requires now1 <= now2 < now1 + MillisPerHour
    ensures TimeSince(now2, now1 - 6 * 3600 * 1000) == Age(6, "Added 6 hours ago", true)
  {
    var r := TimeSince(now2, now1 - 6 * 3600 * 1000);
    assert r.hours == 6;
    assert IntToString(6) == "6";
  }
}
