/** `TimeUtils.formatRelative`: how long ago a moment was, in whole minutes, hours or days. */
module TimeUtils {
  import opened Labels
  import Text
  import Progress

  /** The bucket `formatRelative` picks, with the number it shows. */
  datatype Bucket = JustNow | Minutes(n: int) | Hours(n: int) | Days(n: int) | OnDate

  /**
   * The bucket for a difference of `diff` milliseconds: whole minutes
   * `diff / 60000`, truncated toward zero, decide.
   */
  function BucketOf(diff: int): (b: Bucket)
    ensures var m := Progress.TruncDiv(diff, 60000);
      && (b.JustNow? <==> m < 1)
      && (b.Minutes? <==> 1 <= m < 60)
      && (b.Hours? <==> 60 <= m < 60 * 24)
      && (b.Days? <==> 60 * 24 <= m < 60 * 24 * 7)
      && (b.OnDate? <==> 60 * 24 * 7 <= m)
    ensures b.Minutes? ==> 1 <= b.n <= 59
    ensures b.Hours? ==> 1 <= b.n <= 23
    ensures b.Days? ==> 1 <= b.n <= 6
  {
    var minutes := Progress.TruncDiv(diff, 60000);
    if minutes < 1 then JustNow
    else if minutes < 60 then Minutes(minutes)
    else if minutes < 60 * 24 then Hours(minutes / 60)
    else if minutes < 60 * 24 * 7 then Days(minutes / (60 * 24))
    else OnDate
  }

  /**
   * `formatRelative(millis)`, with `now` for `System.currentTimeMillis()`:
   * "justo ahora" exactly under a minute ago (or in the future), the date
   * exactly from a week ago on, a count with its unit in between.
   */
  function FormatRelative(now: int, millis: int): (r: Label)
    ensures r == Plain("justo ahora") <==> now - millis < 60000
    ensures r.DateText? <==> now - millis >= 7 * 24 * 60 * 60000
    ensures r.DateText? ==> r == DateText("dd MMM", millis)
    ensures var d := now - millis; 60000 <= d < 3600000 ==> r == Plain(Text.IntToString(d / 60000) + " min")
    ensures var d := now - millis; 3600000 <= d < 86400000 ==> r == Plain(Text.IntToString(d / 3600000) + " h")
    ensures var d := now - millis; 86400000 <= d < 604800000 ==> r == Plain(Text.IntToString(d / 86400000) + " d")
  {
    BucketCounts(now - millis);
    match BucketOf(now - millis)
    case JustNow => Plain("justo ahora")
    case Minutes(n) =>
      var t := Text.IntToString(n) + " min";
      assert t[|t| - 1] != "justo ahora"[10];
      Plain(t)
    case Hours(n) =>
      var t := Text.IntToString(n) + " h";
      assert t[|t| - 1] != "justo ahora"[10];
      Plain(t)
    case Days(n) =>
      var t := Text.IntToString(n) + " d";
      assert t[|t| - 1] != "justo ahora"[10];
      Plain(t)
    case OnDate => DateText("dd MMM", millis)
  }

  /** The number shown is the elapsed time in the bucket's unit, truncated. */
  lemma BucketCounts(diff: int)
    ensures BucketOf(diff).Minutes? ==> BucketOf(diff).n == diff / 60000
    ensures BucketOf(diff).Hours? ==> BucketOf(diff).n == diff / 3600000
    ensures BucketOf(diff).Days? ==> BucketOf(diff).n == diff / 86400000
  {
    if diff >= 0 {
      var m := Progress.TruncDiv(diff, 60000);
      assert m == diff / 60000;
      NestedDivision(diff, 60000, 60);
      NestedDivision(diff, 60000, 60 * 24);
    }
  }

  /** Dividing by `a` and then by `b` is dividing by `a * b`. */
  lemma NestedDivision(x: int, a: int, b: int)
    requires x >= 0 && a > 0 && b > 0
    ensures x / a / b == x / (a * b)
  {
    var q := x / a / b;
    var r1 := x % a;
    var r2 := (x / a) % b;
    assert x / a == q * b + r2;
    assert x == (q * b + r2) * a + r1;
    assert x == q * (a * b) + (r2 * a + r1);
    assert r2 * a + r1 < a * b by {
      assert r2 <= b - 1;
      assert r2 * a <= (b - 1) * a;
    }
    Progress.DivUnique(q, r2 * a + r1, a * b);
  }
}
