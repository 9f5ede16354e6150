/** The streak computation of `updateStreak`. Timestamps are milliseconds
    since the epoch; a calendar day is the day number `ts / 86400000`
    (days in UTC), and "today" is given as a day number. */
module Streak {

  const MsPerDay: int := 86_400_000

  /** The calendar day of a timestamp: the one whose
      `[start of day, start of next day)` interval contains it. */
  function Day(ts: int): (d: int)
    ensures d * MsPerDay <= ts < (d + 1) * MsPerDay
  {
    ts / MsPerDay
  }

  lemma DayMonotone(a: int, b: int)
    requires a <= b
    ensures Day(a) <= Day(b)
  {
    assert Day(a) * MsPerDay < (Day(b) + 1) * MsPerDay;
  }

  /** The `while` loop: walk the timestamps, newest first, and count one
      more day whenever the current timestamp falls on the day before the
      last day counted (the first being yesterday). */
  function Scan(ts: seq<int>, today: int, streak: nat): (r: nat)
    ensures r >= streak
  {
    if |ts| == 0 then streak
    else Scan(ts[1..], today, if Day(ts[0]) == today - (streak + 1) then streak + 1 else streak)
  }

  /** Timestamps newest first, as the reversed history lists them. */
  predicate NewestFirst(ts: seq<int>)
  {
    forall i, j :: 0 <= i < j < |ts| ==> ts[j] <= ts[i]
  }

  predicate QuizOn(ts: seq<int>, d: int)
  {
    exists k :: 0 <= k < |ts| && Day(ts[k]) == d
  }

  /** `n` consecutive days ending yesterday each hold a quiz, and the day
      before them does not. */
  predicate DaysInARow(ts: seq<int>, today: int, n: nat)
  {
    (forall d :: today - n <= d < today ==> QuizOn(ts, d)) && !QuizOn(ts, today - n - 1)
  }

  /** On newest-first timestamps, the loop started at `streak` counts every
      day from `today - (streak + 1)` backwards that holds a quiz, up to the
      first day that does not. */
  lemma {:induction false} ScanCountsDays(ts: seq<int>, today: int, streak: nat)
    requires NewestFirst(ts)
    ensures var r := Scan(ts, today, streak);
      (forall d :: today - r <= d < today - streak ==> QuizOn(ts, d)) && !QuizOn(ts, today - r - 1)
    decreases |ts|
  {
    if |ts| > 0 {
      var rest := ts[1..];
      assert NewestFirst(rest);
      var hit := Day(ts[0]) == today - streak - 1;
      var next := if hit then streak + 1 else streak;
      ScanCountsDays(rest, today, next);
      var r := Scan(ts, today, streak);
      assert r == Scan(rest, today, next);
      forall d | today - r <= d < today - streak
        ensures QuizOn(ts, d)
      {
        if hit && d == today - streak - 1 {
          assert Day(ts[0]) == d;
        } else {
          assert QuizOn(rest, d);
          var k :| 0 <= k < |rest| && Day(rest[k]) == d;
          assert ts[k + 1] == rest[k];
        }
      }
      forall k | 0 <= k < |ts|
        ensures Day(ts[k]) != today - r - 1
      {
        if k > 0 {
          assert ts[k] == rest[k - 1];
        } else if !hit && r > streak {
          assert QuizOn(rest, today - streak - 1);
          var k2 :| 0 <= k2 < |rest| && Day(rest[k2]) == today - streak - 1;
          assert ts[k2 + 1] <= ts[0];
          DayMonotone(ts[k2 + 1], ts[0]);
        }
      }
    }
  }

  /** Only one count can have that shape, so it is the length of the run. */
  lemma DaysInARowUnique(ts: seq<int>, today: int, m: nat, n: nat)
    requires DaysInARow(ts, today, m) && DaysInARow(ts, today, n)
    ensures m == n
  {
    assert m < n ==> QuizOn(ts, today - m - 1);
    assert n < m ==> QuizOn(ts, today - n - 1);
  }

  /** `updateStreak` on the reversed timestamps (non-empty: the source reads
      `ts[0]`): `doneToday` says whether the newest one is today, and the
      count is the loop's, plus one when the quiz was done today. */
  method CountStreak(ts: seq<int>, today: int) returns (days: nat, doneToday: bool)
    requires |ts| > 0
    ensures doneToday <==> Day(ts[0]) == today
    ensures days == Scan(ts, today, 0) + (if doneToday then 1 else 0)
    ensures NewestFirst(ts) ==> DaysInARow(ts, today, days - (if doneToday then 1 else 0))
  {
    var streak := 0;
    var index := 0;
    while index < |ts|
      invariant 0 <= index <= |ts|
      invariant Scan(ts[index..], today, streak) == Scan(ts, today, 0)
    {
      var day := today - (streak + 1);
      assert ts[index..][1..] == ts[index + 1..];
      if Day(ts[index]) == day {
        streak := streak + 1;
      }
      index := index + 1;
    }
    doneToday := Day(ts[0]) == today;
    days := if doneToday then streak + 1 else streak;
    if NewestFirst(ts) {
      ScanCountsDays(ts, today, 0);
    }
  }

  /** The streak picture: unhappy at 0 days, happy at 1 to 3, very happy
      above 3. */
  function StreakImage(days: nat): (image: string)
    ensures image == "images/unhappy.png" <==> days == 0
    ensures image == "images/happy.png" <==> 1 <= days <= 3
    ensures image == "images/veryhappy.png" <==> days > 3
  {
    if days == 0 then "images/unhappy.png"
    else if days <= 3 then "images/happy.png"
    else "images/veryhappy.png"
  }
}
