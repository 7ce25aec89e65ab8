/** `formatRelativeTime` of the admin viewer (admin-app/app.js): a
    non-negative millisecond difference is bucketed into seconds, minutes,
    hours, days, weeks, months or years by repeated floor division. The
    difference is a parameter (the source reads the clock); the label is
    kept as a datatype and rendered to text separately. */
module RelativeTime {
  import opened Wrappers

  const Second: nat := 1000
  const Minute: nat := 60 * Second
  const Hour: nat := 60 * Minute
  const Day: nat := 24 * Hour

  datatype Unit = Seconds | Minutes | Hours | Days | Weeks | Months | Years

  datatype Label = JustNow | Ago(amount: nat, unit: Unit)

  /** The length of one unit in milliseconds; a month counts 30 days and a
      year 365, as the divisions in the source do. */
  function UnitMs(u: Unit): nat {
    match u
    case Seconds => Second
    case Minutes => Minute
    case Hours => Hour
    case Days => Day
    case Weeks => 7 * Day
    case Months => 30 * Day
    case Years => 365 * Day
  }

  /** The amount is the whole number of units in the difference. */
  predicate IsFloor(diffMs: int, l: Label) {
    l.Ago? ==> l.amount * UnitMs(l.unit) <= diffMs < (l.amount + 1) * UnitMs(l.unit)
  }

  /** The function as written. After 4 weeks the month count `days / 30`
      is shown while it is below 12, that is up to 360 days, but the year
      count `days / 365` only reaches 1 at 365 days: differences of 360 to
      364 days read "0y ago". Everywhere else it agrees with `Bucket`. */
  function ClassifyAsWritten(diffMs: int): (r: Label)
    ensures r == (if 360 * Day <= diffMs < 365 * Day then Ago(0, Years) else Bucket(diffMs))
  {
    if diffMs < 0 then JustNow
    else
      Floors(diffMs);
      var seconds := diffMs / 1000;
      if seconds < 5 then JustNow
      else if seconds < 60 then Ago(seconds, Seconds)
      else
        var minutes := seconds / 60;
        if minutes < 60 then Ago(minutes, Minutes)
        else
          var hours := minutes / 60;
          if hours < 24 then Ago(hours, Hours)
          else
            var days := hours / 24;
            if days < 7 then Ago(days, Days)
            else
              var weeks := days / 7;
              if weeks < 5 then Ago(weeks, Weeks)
              else
                var months := days / 30;
                if months < 12 then Ago(months, Months)
                else Ago(days / 365, Years)
  }

  /** The successive floor divisions of the source equal single divisions by
      the unit lengths. */
  lemma Floors(d: int)
    requires d >= 0
    ensures d / 1000 / 60 == d / Minute
    ensures d / 1000 / 60 / 60 == d / Hour
    ensures d / 1000 / 60 / 60 / 24 == d / Day
    ensures d / Day / 7 == d / (7 * Day)
    ensures d / Day / 30 == d / (30 * Day)
    ensures d / Day / 365 == d / (365 * Day)
  {
    DivDiv(d, 1000, 60);
    DivDiv(d, Minute, 60);
    DivDiv(d, Hour, 24);
    DivDiv(d, Day, 7);
    DivDiv(d, Day, 30);
    DivDiv(d, Day, 365);
  }

  /** Dividing by `a` and then by `b` is dividing by `a * b`. */
  lemma DivDiv(x: nat, a: nat, b: nat)
    requires a > 0 && b > 0
    ensures x / a / b == x / (a * b)
  {
    var q, r := x / a, x % a;
    var q2, r2 := q / b, q % b;
    var ab := a * b;
    var rest := a * r2 + r;
    assert a * q == a * (b * q2) + a * r2 by {
      MulAddDistrib(a, b * q2, r2);
    }
    assert a * (b * q2) == ab * q2 by {
      MulAssoc(a, b, q2);
    }
    assert x == ab * q2 + rest;
    assert a * r2 <= a * (b - 1) by {
      MulMono(a, r2, b - 1);
    }
    assert a * (b - 1) == ab - a by {
      MulAddDistrib(a, b - 1, 1);
    }
    DivUnique(x, ab, q2, rest);
  }

  lemma MulAddDistrib(a: int, b: int, c: int)
    ensures a * (b + c) == a * b + a * c
  {
  }

  lemma MulAssoc(a: int, b: int, c: int)
    ensures a * (b * c) == (a * b) * c
  {
  }

  lemma MulMono(a: nat, b: int, c: int)
    requires b <= c
    ensures a * b <= a * c
  {
    MulAddDistrib(a, b, c - b);
  }

  /** Euclidean division has one quotient for each remainder range. */
  lemma DivUnique(x: int, d: nat, q: int, r: int)
    requires d > 0 && x == d * q + r && 0 <= r < d
    ensures x / d == q
  {
    var q', r' := x / d, x % d;
    assert d * q' + r' == d * q + r;
    if q' < q {
      MulMono(d, q' + 1, q);
      MulAddDistrib(d, q', 1);
    } else if q' > q {
      MulMono(d, q + 1, q');
      MulAddDistrib(d, q, 1);
    }
  }

  /** The "0y ago" label is produced exactly for differences from 360 up to
      (not including) 365 days. */
  lemma ZeroYearsAsWritten(diffMs: int)
    ensures ClassifyAsWritten(diffMs) == Ago(0, Years) <==> 360 * Day <= diffMs < 365 * Day
  {
  }

  /** A concrete instance: exactly 360 days ago renders as "0y ago". */
  lemma ZeroYearsExample()
    ensures FormatRelativeTime(360 * Day) == "0y ago"
    ensures FormatRelativeTimeCorrected(360 * Day) == "12mo ago"
  {
    assert Bucket(360 * Day) == Ago(12, Months);
    TwelveRender();
  }

  lemma ZeroYearsRender()
    ensures Render(Ago(0, Years)) == "0y ago"
  {
    assert NatToString(0) == "0";
  }

  lemma TwelveRender()
    ensures Render(Ago(12, Months)) == "12mo ago"
  {
    assert NatToString(1) == "1";
    assert NatToString(12) == "12";
  }

  /** The date label of a message stamped `createdAt` at time `now`: empty
      when there is no timestamp, otherwise the label of the elapsed time. */
  function LabelOf(createdAt: Option<int>, now: int, corrected: bool): (r: string)
    ensures r == "" <==> createdAt.None?
  {
    match createdAt
    case None => ""
    case Some(t) => FormatAt(now - t, corrected)
  }

  /** The stamped label as written and the corrected one differ exactly
      when the message is 360 to 364 days old. */
  lemma LabelCorrection(t: int, now: int)
    ensures LabelOf(Some(t), now, false) != LabelOf(Some(t), now, true) <==> InYearGap(now - t)
    ensures InYearGap(now - t) ==>
      LabelOf(Some(t), now, false) == "0y ago" && LabelOf(Some(t), now, true) == "12mo ago"
  {
    LabelOfStamp(t, now, false);
    LabelOfStamp(t, now, true);
    CorrectionAt(now - t);
  }

  lemma LabelOfStamp(t: int, now: int, corrected: bool)
    ensures LabelOf(Some(t), now, corrected) == FormatAt(now - t, corrected)
  {
  }

  /** Differences of 360 to 364 days: past twelve 30-day months but short
      of a 365-day year. */
  predicate InYearGap(diffMs: int) {
    360 * Day <= diffMs < 365 * Day
  }

  /** The label as written and the corrected label differ exactly on ages
      of 360 to 364 days, where they read `0y ago` and `12mo ago`. */
  lemma CorrectionAt(diffMs: int)
    ensures FormatAt(diffMs, false) != FormatAt(diffMs, true) <==> InYearGap(diffMs)
    ensures InYearGap(diffMs) ==>
      FormatAt(diffMs, false) == "0y ago" && FormatAt(diffMs, true) == "12mo ago"
  {
    if 360 * Day <= diffMs < 365 * Day {
      assert Bucket(diffMs) == Ago(12, Months);
      TwelveRender();
    }
  }

  /** The corrected bucketing the rest of the model uses: the month bucket
      runs until a whole year (365 days) has passed. */
  function Classify(diffMs: int): (r: Label)
    ensures r == Bucket(diffMs)
  {
    if diffMs < 0 then JustNow
    else
      Floors(diffMs);
      var seconds := diffMs / 1000;
      if seconds < 5 then JustNow
      else if seconds < 60 then Ago(seconds, Seconds)
      else
        var minutes := seconds / 60;
        if minutes < 60 then Ago(minutes, Minutes)
        else
          var hours := minutes / 60;
          if hours < 24 then Ago(hours, Hours)
          else
            var days := hours / 24;
            if days < 7 then Ago(days, Days)
            else
              var weeks := days / 7;
              if weeks < 5 then Ago(weeks, Weeks)
              else
                var months := days / 30;
                if days < 365 then Ago(months, Months)
                else Ago(days / 365, Years)
  }

  /** The intended labelling stated directly on the millisecond difference:
      each unit covers one range of differences and shows the whole number
      of units elapsed, which is always at least 1. */
  function Bucket(diffMs: int): (r: Label)
    ensures r == JustNow <==> diffMs < 5 * Second
    ensures IsFloor(diffMs, r)
    ensures r.Ago? ==> r.amount >= 1
  {
    if diffMs < 5 * Second then JustNow
    else if diffMs < Minute then Ago(diffMs / Second, Seconds)
    else if diffMs < Hour then Ago(diffMs / Minute, Minutes)
    else if diffMs < Day then Ago(diffMs / Hour, Hours)
    else if diffMs < 7 * Day then Ago(diffMs / Day, Days)
    else if diffMs < 35 * Day then Ago(diffMs / (7 * Day), Weeks)
    else if diffMs < 365 * Day then Ago(diffMs / (30 * Day), Months)
    else Ago(diffMs / (365 * Day), Years)
  }

  /** The unit suffixes of the source's template strings. */
  function Suffix(u: Unit): string {
    match u
    case Seconds => "s"
    case Minutes => "m"
    case Hours => "h"
    case Days => "d"
    case Weeks => "w"
    case Months => "mo"
    case Years => "y"
  }

  /** The text shown: `just now`, or the amount in decimal, the unit suffix and ` ago`. */
  function Render(l: Label): string {
    match l
    case JustNow => "just now"
    case Ago(n, u) => NatToString(n) + Suffix(u) + " ago"
  }

  /** `formatRelativeTime(date)` as written, with `now - date` given as
      `diffMs`. */
  function FormatRelativeTime(diffMs: int): (r: string)
    ensures r == (if 360 * Day <= diffMs < 365 * Day then "0y ago" else Render(Bucket(diffMs)))
  {
    ZeroYearsRender();
    Render(ClassifyAsWritten(diffMs))
  }

  /** The label with the year bucket corrected: the intended labelling. */
  function FormatRelativeTimeCorrected(diffMs: int): (r: string)
    ensures r == Render(Bucket(diffMs))
  {
    Render(Classify(diffMs))
  }

  /** The label as written or, with `corrected`, the corrected one. Never
      empty. */
  function FormatAt(diffMs: int, corrected: bool): (r: string)
    ensures |r| > 0
  {
    if corrected then FormatRelativeTimeCorrected(diffMs) else FormatRelativeTime(diffMs)
  }

  function DigitChar(d: nat): (c: char)
    requires d < 10
    ensures '0' <= c <= '9'
  {
    "0123456789"[d]
  }

  /** The value of a string of decimal digits. */
  function DecimalValue(s: string): nat
    requires forall i :: 0 <= i < |s| ==> '0' <= s[i] <= '9'
  {
    if |s| == 0 then 0
    else DecimalValue(s[..|s| - 1]) * 10 + (s[|s| - 1] as int - '0' as int)
  }

  /** The decimal numeral of `n`, without leading zeros, as JavaScript's
      number-to-string conversion writes a non-negative integer: its digits
      read back as `n`. */
  function NatToString(n: nat): (s: string)
    ensures |s| >= 1
    ensures forall i :: 0 <= i < |s| ==> '0' <= s[i] <= '9'
    ensures s[0] == '0' ==> n == 0
  {
    if n < 10 then [DigitChar(n)]
    else NatToString(n / 10) + [DigitChar(n % 10)]
  }

  /** The numeral of `n` reads back as `n`. */
  lemma {:induction false} NatToStringValue(n: nat)
    ensures DecimalValue(NatToString(n)) == n
  {
    var s := NatToString(n);
    if n < 10 {
      DigitCharValue(n);
      assert s[..0] == [];
    } else {
      NatToStringValue(n / 10);
      DigitCharValue(n % 10);
      assert s[..|s| - 1] == NatToString(n / 10);
    }
  }

  /** A digit character stands for its digit. */
  lemma DigitCharValue(d: nat)
    requires d < 10
    ensures DigitChar(d) as int - '0' as int == d
  {
  }

  /** The number of leading digits of `s`. */
  function DigitRun(s: string): (k: nat)
    ensures k <= |s|
    ensures forall i :: 0 <= i < k ==> '0' <= s[i] <= '9'
    ensures k < |s| ==> !('0' <= s[k] <= '9')
  {
    if |s| > 0 && '0' <= s[0] <= '9' then 1 + DigitRun(s[1..]) else 0
  }

  /** Reads a label back from its text. */
  function ParseLabel(s: string): Option<Label> {
    var k := DigitRun(s);
    if k == 0 then (if s == "just now" then Some(JustNow) else None)
    else if s[0] == '0' && k > 1 then None
    else
      match UnitOfTail(s[k..])
      case None => None
      case Some(u) => Some(Ago(DecimalValue(s[..k]), u))
  }

  /** The unit named by the text after the numeral. */
  function UnitOfTail(rest: string): Option<Unit> {
    if rest == "s ago" then Some(Seconds)
    else if rest == "m ago" then Some(Minutes)
    else if rest == "h ago" then Some(Hours)
    else if rest == "d ago" then Some(Days)
    else if rest == "w ago" then Some(Weeks)
    else if rest == "mo ago" then Some(Months)
    else if rest == "y ago" then Some(Years)
    else None
  }

  lemma UnitOfSuffix(u: Unit)
    ensures UnitOfTail(Suffix(u) + " ago") == Some(u)
  {
    match u
    case Seconds => assert Suffix(u) + " ago" == "s ago";
    case Minutes => assert Suffix(u) + " ago" == "m ago";
    case Hours => assert Suffix(u) + " ago" == "h ago";
    case Days => assert Suffix(u) + " ago" == "d ago";
    case Weeks => assert Suffix(u) + " ago" == "w ago";
    case Months => assert Suffix(u) + " ago" == "mo ago";
    case Years => assert Suffix(u) + " ago" == "y ago";
  }

  /** Every label's text reads back as that label, so no two labels (in
      particular `m` minutes and `mo` months) are rendered alike. */
  lemma ParseRender(l: Label)
    ensures ParseLabel(Render(l)) == Some(l)
  {
    match l
    case JustNow =>
      assert DigitRun("just now") == 0;
    case Ago(n, u) =>
      var tail := Suffix(u) + " ago";
      assert tail[0] == Suffix(u)[0];
      ParseNumeralThen(n, tail);
      UnitOfSuffix(u);
      assert Render(l) == NatToString(n) + tail;
  }

  /** A numeral followed by text that starts with a non-digit splits back into the two. */
  lemma ParseNumeralThen(n: nat, tail: string)
    requires |tail| > 0 && !('0' <= tail[0] <= '9')
    ensures var s := NatToString(n) + tail; var k := DigitRun(s);
      && k == |NatToString(n)| && k > 0
      && s[..k] == NatToString(n) && s[k..] == tail
      && (s[0] == '0' ==> k == 1)
      && DecimalValue(s[..k]) == n
  {
    var digits := NatToString(n);
    var s := digits + tail;
    NatToStringValue(n);
    DigitRunOfNumeral(digits, tail);
    assert s[..|digits|] == digits;
    assert s[|digits|..] == tail;
  }

  lemma {:induction false} DigitRunOfNumeral(digits: string, tail: string)
    requires forall i :: 0 <= i < |digits| ==> '0' <= digits[i] <= '9'
    requires |tail| > 0 && !('0' <= tail[0] <= '9')
    ensures DigitRun(digits + tail) == |digits|
    decreases |digits|
  {
    if |digits| > 0 {
      assert (digits + tail)[1..] == digits[1..] + tail;
      DigitRunOfNumeral(digits[1..], tail);
    } else {
      assert digits + tail == tail;
    }
  }

  /** Two different labels never render to the same text. */
  lemma RenderInjective(a: Label, b: Label)
    requires Render(a) == Render(b)
    ensures a == b
  {
    ParseRender(a);
    ParseRender(b);
  }
}
