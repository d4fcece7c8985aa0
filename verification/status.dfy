/** getStatus and formatLeft: how many calendar days remain until an expiry
    date, the badge that count earns, and the text shown for it. */
module Status {
  import opened Text
  import opened Calendar
  import opened Optional

  /** An item expiring within this many days (and not today or earlier) is
      due soon. */
  const SoonDays: int := 3

  const ExpiredLabel: string := "Просрочено"
  const DueTodayLabel: string := "Истекает сегодня"
  const DueSoonLabel: string := "Скоро истекает"
  const FineLabel: string := "Ок"

  /** The badge colour ("danger", "warn" or "ok" in the page's markup). */
  datatype Kind = Danger | Warn | Ok

  /** A status; `left` is None when the expiry is an Invalid Date, where the
      day count is NaN. */
  datatype StatusInfo = StatusInfo(kind: Kind, caption: string, left: Option<int>)

  /** getStatus(expiry) with the current date `today` passed in: expired and
      due-today items are Danger, items due within SoonDays are Warn, the rest
      are Ok; each case has its own caption. A NaN count fails every
      comparison, so an Invalid Date is Ok. */
  function GetStatus(expiry: Option<Day>, today: Day): (r: StatusInfo)
    ensures r.left.Some? <==> expiry.Some?
    ensures expiry.Some? ==> r.left.value == expiry.value - today
    ensures r.kind == Danger <==> r.left.Some? && r.left.value <= 0
    ensures r.kind == Warn <==> r.left.Some? && 0 < r.left.value <= SoonDays
    ensures r.kind == Ok <==> r.left.None? || r.left.value > SoonDays
    ensures r.caption == ExpiredLabel <==> r.left.Some? && r.left.value < 0
    ensures r.caption == DueTodayLabel <==> r.left.Some? && r.left.value == 0
    ensures r.caption == DueSoonLabel <==> r.kind == Warn
    ensures r.caption == FineLabel <==> r.kind == Ok
  {
    match expiry
    case None => StatusInfo(Ok, FineLabel, None)
    case Some(e) =>
      var left := DayDiff(today, e);
      if left < 0 then StatusInfo(Danger, ExpiredLabel, Some(left))
      else if left == 0 then StatusInfo(Danger, DueTodayLabel, Some(left))
      else if left <= SoonDays then StatusInfo(Warn, DueSoonLabel, Some(left))
      else StatusInfo(Ok, FineLabel, Some(left))
  }

  /** The status of a calendar date seen from another: the count is positive
      exactly when the expiry date comes later in calendar order, so an item is
      Danger exactly when its expiry date is today or already past. */
  lemma {:induction false} DangerWhenNotLater(expiry: Date, today: Date)
    ensures GetStatus(Some(DayNumber(expiry)), DayNumber(today)).kind == Danger <==> !Before(today, expiry)
    ensures GetStatus(Some(DayNumber(expiry)), DayNumber(today)).caption == DueTodayLabel <==> expiry == today
  {
    DayDiffOrder(today, expiry);
  }

  // ---------------------------------------------------------------------------
  // formatLeft
  // ---------------------------------------------------------------------------

  const DaysSuffix: string := " дн."
  const AgoSuffix: string := " дн. назад"

  /** formatLeft(left): a count in the past reads "N дн. назад" with N its
      absolute value, any other count "N дн.", and the NaN count of an Invalid
      Date (None) "NaN дн.". The text reads back as the count it shows, and
      says "назад" exactly for a count in the past. */
  function FormatLeft(left: Option<int>): (s: string)
    ensures ReadLeft(s) == left
    ensures EndsWith(s, AgoSuffix) <==> left.Some? && left.value < 0
    ensures left.None? ==> s == "NaN" + DaysSuffix
  {
    match left
    case None =>
      var s := "NaN" + DaysSuffix;
      assert !IsDigit(s[0]);
      assert s[..|s| - |DaysSuffix|] == "NaN";
      s
    case Some(n) =>
      if n < 0 then
        ReadAgo(NatToString(-n), -n);
        NatToString(-n) + AgoSuffix
      else
        ReadDays(IntToString(n), n);
        IntToString(n) + DaysSuffix
  }

  predicate EndsWith(s: string, suffix: string) {
    |suffix| <= |s| && s[|s| - |suffix|..] == suffix
  }

  /** Reads a day count back from the text formatLeft shows; text showing no
      count (such as "NaN дн.") reads as None. */
  function ReadLeft(s: string): Option<int> {
    if EndsWith(s, AgoSuffix) && IsDigits(s[..|s| - |AgoSuffix|]) && s[..|s| - |AgoSuffix|] != [] then
      var n: int := ParseDigits(s[..|s| - |AgoSuffix|]);
      Some(-n)
    else if EndsWith(s, DaysSuffix) && IsDigits(s[..|s| - |DaysSuffix|]) && s[..|s| - |DaysSuffix|] != [] then
      Some(ParseDigits(s[..|s| - |DaysSuffix|]))
    else None
  }

  lemma ReadAgo(digits: string, n: nat)
    requires digits != [] && IsDigits(digits) && ParseDigits(digits) == n
    ensures ReadLeft(digits + AgoSuffix) == Some(-(n as int))
    ensures EndsWith(digits + AgoSuffix, AgoSuffix)
  {
    var s := digits + AgoSuffix;
    assert s[..|s| - |AgoSuffix|] == digits;
    assert s[|s| - |AgoSuffix|..] == AgoSuffix;
  }

  lemma ReadDays(digits: string, n: nat)
    requires digits != [] && IsDigits(digits) && ParseDigits(digits) == n
    ensures ReadLeft(digits + DaysSuffix) == Some(n)
    ensures !EndsWith(digits + DaysSuffix, AgoSuffix)
  {
    var s := digits + DaysSuffix;
    assert s[..|s| - |DaysSuffix|] == digits;
    assert s[|s| - |DaysSuffix|..] == DaysSuffix;
    assert s[|s| - 1] == '.' && AgoSuffix[|AgoSuffix| - 1] == 'д';
  }

  /** Different counts are shown differently, and NaN unlike any count. */
  lemma FormatLeftInjective(a: Option<int>, b: Option<int>)
    requires FormatLeft(a) == FormatLeft(b)
    ensures a == b
  {
  }
}
