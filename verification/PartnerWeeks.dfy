/**
 A partner's members: their status, the summary of statuses and methods, and sign-ups
 per Nairobi week.
 */
module PartnerWeeks {
  import opened Wrappers

  const DAY := 86_400_000
  const EAT := 3 * 3_600_000
  const ACTIVE_DAYS_NEEDED := 2

  /** A member's progress; a time that does not parse is missing. */
  datatype Progress = Progress(
    entry: string, claimedAt: Option<int>, windowEndsAt: Option<int>,
    activeDays: int, posts: int, offers: int, accountStatus: string)

  // ---------------------------------------------------------------- weeks

  /** The day number of the Monday that starts the week of `t`, in Nairobi. */
  function StartOfWeek(t: int): int {
    var days := (t + EAT) / DAY;
    var weekday := (days + 4) % 7;
    days - (weekday + 6) % 7
  }

  /** 1970-01-05, day 4, was a Monday. */
  predicate IsMonday(day: int) { day % 7 == 4 }

  /** The day number of a moment, in Nairobi. */
  lemma DayOf(t: int, days: int)
    ensures days == (t + EAT) / DAY <==> days * DAY <= t + EAT < (days + 1) * DAY
  {
  }

  lemma OneMonday(days: int, a: int, b: int)
    requires IsMonday(a) && IsMonday(b) && a <= days < a + 7 && b <= days < b + 7
    ensures a == b
  {
  }

  lemma MondayBefore(days: int)
    ensures var monday := days - ((days + 4) % 7 + 6) % 7;
            IsMonday(monday) && monday <= days < monday + 7
  {
  }

  /** It is the one Monday whose seven days, counted from midnight in Nairobi, hold `t`. */
  lemma StartOfWeekIff(t: int, day: int)
    ensures day == StartOfWeek(t) <==>
              IsMonday(day) && day * 86_400_000 <= t + 10_800_000 < (day + 7) * 86_400_000
  {
    var days := (t + EAT) / DAY;
    DayOf(t, days);
    MondayBefore(days);
    if IsMonday(day) && day * DAY <= t + EAT < (day + 7) * DAY {
      OneMonday(days, day, StartOfWeek(t));
    }
  }

  datatype Bucket = Bucket(week: int, count: nat)

  /** Sign-ups whose week starts on the given day. */
  function InWeek(rows: seq<int>, week: int): nat {
    if rows == [] then 0
    else InWeek(rows[..|rows| - 1], week) + if StartOfWeek(rows[|rows| - 1]) == week then 1 else 0
  }

  /** Sign-ups whose week starts in the range, its end excluded. */
  function InWindow(rows: seq<int>, first: int, end: int): nat {
    if rows == [] then 0
    else InWindow(rows[..|rows| - 1], first, end) + if first <= StartOfWeek(rows[|rows| - 1]) < end then 1 else 0
  }

  function Total(buckets: seq<Bucket>): nat {
    if buckets == [] then 0 else Total(buckets[..|buckets| - 1]) + buckets[|buckets| - 1].count
  }

  predicate WeekApart(buckets: seq<Bucket>, first: int) {
    forall i :: 0 <= i < |buckets| ==> buckets[i].week == first + 7 * i
  }

  predicate Counted(buckets: seq<Bucket>, rows: seq<int>) {
    forall i :: 0 <= i < |buckets| ==> buckets[i].count == InWeek(rows, buckets[i].week)
  }

  lemma {:induction false} WindowGrows(rows: seq<int>, first: int, end: int)
    requires IsMonday(end) && first <= end
    ensures InWindow(rows, first, end + 7) == InWindow(rows, first, end) + InWeek(rows, end)
    ensures first == end ==> InWindow(rows, first, end) == 0
  {
    if rows != [] {
      WindowGrows(rows[..|rows| - 1], first, end);
      StartOfWeekIff(rows[|rows| - 1], StartOfWeek(rows[|rows| - 1]));
    }
  }

  lemma MondayAfter(day: int, weeks: nat)
    requires IsMonday(day)
    ensures IsMonday(day + 7 * weeks)
  {
  }

  /** No sign-up of the window is lost or counted twice: the counts add up to the sign-ups in it. */
  lemma {:induction false} CountsConserve(buckets: seq<Bucket>, rows: seq<int>, first: int)
    requires IsMonday(first) && WeekApart(buckets, first) && Counted(buckets, rows)
    ensures Total(buckets) == InWindow(rows, first, first + 7 * |buckets|)
  {
    if buckets == [] {
      WindowGrows(rows, first, first);
    } else {
      var n := |buckets| - 1;
      var end := first + 7 * n;
      CountsConserve(buckets[..n], rows, first);
      MondayAfter(first, n);
      WindowGrows(rows, first, end);
      assert first + 7 * |buckets| == end + 7;
    }
  }

  function Times(claimed: seq<Option<int>>): seq<int> {
    if claimed == [] then []
    else Times(claimed[..|claimed| - 1]) + (if claimed[|claimed| - 1].Some? then [claimed[|claimed| - 1].value] else [])
  }

  /** The first bucket of the week, or the number of buckets. */
  method FindIndex(buckets: seq<Bucket>, week: int) returns (i: nat)
    ensures i <= |buckets| && (i < |buckets| ==> buckets[i].week == week)
    ensures forall j :: 0 <= j < i ==> buckets[j].week != week
  {
    i := 0;
    while i < |buckets| && buckets[i].week != week
      invariant 0 <= i <= |buckets|
      invariant forall j :: 0 <= j < i ==> buckets[j].week != week
    {
      i := i + 1;
    }
  }

  lemma InWeekAppend(rows: seq<int>, t: int, week: int)
    ensures InWeek(rows + [t], week) == InWeek(rows, week) + if StartOfWeek(t) == week then 1 else 0
  {
    assert (rows + [t])[..|rows|] == rows;
  }

  /** Counts one more sign-up, in the bucket of its week if there is one. */
  method CountOne(buckets: seq<Bucket>, first: int, ghost rows: seq<int>, t: int) returns (r: seq<Bucket>)
    requires WeekApart(buckets, first) && Counted(buckets, rows)
    ensures |r| == |buckets| && WeekApart(r, first) && Counted(r, rows + [t])
  {
    var week := StartOfWeek(t);
    var i := FindIndex(buckets, week);
    r := if i < |buckets| then buckets[i := buckets[i].(count := buckets[i].count + 1)] else buckets;
    forall j | 0 <= j < |r| ensures r[j].week == first + 7 * j && r[j].count == InWeek(rows + [t], r[j].week) {
      InWeekAppend(rows, t, r[j].week);
    }
  }

  /** Sign-ups per week, oldest first. A time that does not parse has no week to print, which throws,
      unless there is no bucket to compare it with. */
  method WeeklyCounts(claimed: seq<Option<int>>, weeks: nat, now: int) returns (out: Option<seq<Bucket>>)
    ensures out.None? <==> weeks > 0 && None in claimed
    ensures out.Some? ==> |out.value| == weeks && WeekApart(out.value, StartOfWeek(now) - 7 * (weeks - 1))
    ensures out.Some? ==> Counted(out.value, Times(claimed))
  {
    var current := StartOfWeek(now);
    var buckets: seq<Bucket> := seq(weeks, i requires 0 <= i < weeks => Bucket(current - (weeks - 1 - i) * 7, 0));
    for k := 0 to |claimed|
      invariant weeks > 0 ==> None !in claimed[..k]
      invariant |buckets| == weeks && WeekApart(buckets, current - 7 * (weeks - 1))
      invariant Counted(buckets, Times(claimed[..k]))
    {
      assert claimed[..k + 1][..k] == claimed[..k];
      if claimed[k].None? {
        if weeks > 0 {
          return None;
        }
      } else {
        buckets := CountOne(buckets, current - 7 * (weeks - 1), Times(claimed[..k]), claimed[k].value);
      }
    }
    assert claimed[..|claimed|] == claimed;
    out := Some(buckets);
  }

  /** A sign-up lands in at most one bucket, and in one exactly when its week is in the window. */
  lemma LandsOnce(buckets: seq<Bucket>, first: int, t: int)
    requires IsMonday(first) && WeekApart(buckets, first)
    ensures (exists i :: 0 <= i < |buckets| && buckets[i].week == StartOfWeek(t)) <==>
            first <= StartOfWeek(t) < first + 7 * |buckets|
    ensures forall i, j :: 0 <= i < |buckets| && 0 <= j < |buckets| && buckets[i].week == buckets[j].week ==> i == j
  {
    StartOfWeekIff(t, StartOfWeek(t));
    if first <= StartOfWeek(t) < first + 7 * |buckets| {
      var i := (StartOfWeek(t) - first) / 7;
      assert buckets[i].week == StartOfWeek(t);
    }
  }

  // ---------------------------------------------------------------- statuses

  datatype Status = Qualified | InProgress | NotQualified

  predicate InGoodStanding(r: Progress) { r.accountStatus != "suspended" && r.accountStatus != "banned" }

  predicate Engaged(r: Progress) { r.activeDays >= ACTIVE_DAYS_NEEDED || r.posts + r.offers > 0 }

  function MemberStatus(r: Progress, now: int): Status {
    if Engaged(r) && InGoodStanding(r) then Qualified
    else if r.windowEndsAt.Some? && r.windowEndsAt.value > now then InProgress
    else NotQualified
  }

  predicate ThisWeek(r: Progress, now: int) {
    r.claimedAt.Some? && now - r.claimedAt.value < 7 * DAY
  }

  /** How many rows satisfy the condition. */
  function CountIf(rows: seq<Progress>, p: Progress -> bool): nat {
    if rows == [] then 0 else CountIf(rows[..|rows| - 1], p) + if p(rows[|rows| - 1]) then 1 else 0
  }

  /** How many members came in by the given method. */
  function CountEntry(rows: seq<Progress>, entry: string): nat {
    if rows == [] then 0 else CountEntry(rows[..|rows| - 1], entry) + if rows[|rows| - 1].entry == entry then 1 else 0
  }

  datatype Summary = Summary(
    credited: nat, qualified: nat, inProgress: nat, notQualified: nat, thisWeek: nat, byMethod: map<string, nat>)

  function Of(byMethod: map<string, nat>, entry: string): nat {
    if entry in byMethod then byMethod[entry] else 0
  }

  predicate Tallies(s: Summary, rows: seq<Progress>, now: int) {
    && s.qualified == CountIf(rows, (r: Progress) => MemberStatus(r, now) == Qualified)
    && s.inProgress == CountIf(rows, (r: Progress) => MemberStatus(r, now) == InProgress)
    && s.notQualified == CountIf(rows, (r: Progress) => MemberStatus(r, now) == NotQualified)
    && s.thisWeek == CountIf(rows, (r: Progress) => ThisWeek(r, now))
  }

  ghost predicate MethodTallies(s: Summary, rows: seq<Progress>) {
    forall entry :: Of(s.byMethod, entry) == CountEntry(rows, entry)
  }

  method Summarise(rows: seq<Progress>, now: int) returns (s: Summary)
    ensures s.credited == |rows| && Tallies(s, rows, now) && MethodTallies(s, rows)
  {
    s := Summary(|rows|, 0, 0, 0, 0, map["code" := 0, "link" := 0, "qr" := 0]);
    for k := 0 to |rows|
      invariant s.credited == |rows| && Tallies(s, rows[..k], now) && MethodTallies(s, rows[..k])
    {
      assert rows[..k + 1][..k] == rows[..k];
      var r := rows[k];
      match MemberStatus(r, now) {
        case Qualified => s := s.(qualified := s.qualified + 1);
        case InProgress => s := s.(inProgress := s.inProgress + 1);
        case NotQualified => s := s.(notQualified := s.notQualified + 1);
      }
      if ThisWeek(r, now) {
        s := s.(thisWeek := s.thisWeek + 1);
      }
      s := s.(byMethod := s.byMethod[r.entry := Of(s.byMethod, r.entry) + 1]);
    }
    assert rows[..|rows|] == rows;
  }

  /** Every credited member has one status, and the three methods add up to the credited members
      exactly when nobody came by another one. */
  lemma {:induction false} SummaryConserves(s: Summary, rows: seq<Progress>, now: int)
    requires s.credited == |rows| && Tallies(s, rows, now) && MethodTallies(s, rows)
    ensures s.qualified + s.inProgress + s.notQualified == s.credited
    ensures Of(s.byMethod, "code") + Of(s.byMethod, "link") + Of(s.byMethod, "qr") == s.credited <==>
            forall r :: r in rows ==> r.entry in ["code", "link", "qr"]
  {
    StatusesAddUp(rows, now);
    MethodsAddUp(rows);
  }

  lemma {:induction false} StatusesAddUp(rows: seq<Progress>, now: int)
    ensures CountIf(rows, (r: Progress) => MemberStatus(r, now) == Qualified)
            + CountIf(rows, (r: Progress) => MemberStatus(r, now) == InProgress)
            + CountIf(rows, (r: Progress) => MemberStatus(r, now) == NotQualified) == |rows|
  {
    if rows != [] {
      StatusesAddUp(rows[..|rows| - 1], now);
    }
  }

  lemma {:induction false} MethodsAddUp(rows: seq<Progress>)
    ensures var sum := CountEntry(rows, "code") + CountEntry(rows, "link")
                       + CountEntry(rows, "qr");
            sum <= |rows| && (sum == |rows| <==> forall r :: r in rows ==> r.entry in ["code", "link", "qr"])
  {
    if rows != [] {
      var n := |rows| - 1;
      MethodsAddUp(rows[..n]);
      assert rows == rows[..n] + [rows[n]];
    }
  }

  /** The status by what the member did: qualified by two active days, a post or an offer, unless the
      account is suspended or banned; otherwise in progress exactly as long as the window is open. */
  lemma StatusIff(r: Progress, now: int)
    ensures var open := r.windowEndsAt.Some? && now < r.windowEndsAt.value;
            var earned := (2 <= r.activeDays || 1 <= r.posts + r.offers) && r.accountStatus !in ["suspended", "banned"];
            && (MemberStatus(r, now) == Qualified <==> earned)
            && (MemberStatus(r, now) == InProgress <==> !earned && open)
            && (MemberStatus(r, now) == NotQualified <==> !earned && !open)
    ensures ThisWeek(r, now) <==> r.claimedAt.Some? && now < r.claimedAt.value + 604_800_000
  {
  }

  /** As time passes a status changes only from in progress to not qualified. */
  lemma StatusOverTime(r: Progress, now: int, later: int)
    requires now <= later
    ensures MemberStatus(r, later) == MemberStatus(r, now)
            || (MemberStatus(r, now) == InProgress && MemberStatus(r, later) == NotQualified)
  {
  }
}
