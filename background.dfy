/** The background service worker: the in-memory timer, its one-second tick,
    session completion with the analytics and streak bookkeeping, the two
    navigation listeners, the context-menu quick block, the daily reset and
    the message router. Storage is modelled by the fields `settings`,
    `analytics` and `sessions`; every handler runs to completion before the
    next one starts. */
module Background {
  import opened Wrappers
  import opened Text
  import opened State
  import opened Clock
  import opened BlockPolicy

  // ---------------------------------------------------------------------------
  // Phase choice

  /** Whether completing focus session number `count` earns the long break:
      `count % every === 0` in JavaScript. For `count >= 0` the JavaScript
      remainder agrees with Dafny's, and `count % 0` is NaN, which is never 0. */
  predicate LongBreakDue(count: nat, every: int)
  {
    every != 0 && count % every == 0
  }

  /** The phase pre-selected after completing `completed`, where `count` is the
      number of focus sessions completed so far, this one included. */
  function NextPhase(completed: Phase, count: nat, every: int): Phase
  {
    if completed != Focus then Focus
    else if LongBreakDue(count, every) then LongBreak
    else ShortBreak
  }

  /** Minutes credited for completing a break phase. */
  function BreakMinutes(phase: Phase, s: Settings): (m: nat)
    ensures phase == LongBreak ==> m == s.longBreakDuration
    ensures phase != LongBreak ==> m == s.breakDuration
  {
    if phase == LongBreak then s.longBreakDuration else s.breakDuration
  }

  /** A break always leads back to focus, and focus always to a break: the
      long one exactly when it is due. */
  lemma NextPhaseAlternates(completed: Phase, count: nat, every: int)
    ensures NextPhase(completed, count, every) == Focus <==> completed != Focus
    ensures completed == Focus ==> (NextPhase(completed, count, every) == LongBreak <==> LongBreakDue(count, every))
  {
  }

  /** With a positive setting `k`, the long break is due exactly when the
      session count is a multiple of `k`. */
  lemma LongBreakDueOnMultiples(count: nat, k: int, q: nat)
    requires k > 0
    ensures LongBreakDue(count, k) <==> count == (count / k) * k
    ensures LongBreakDue(q * k, k)
  {
    DivModUnique(q * k, k, q, 0);
  }

  /** Number of long breaks earned by focus sessions 1 … n. */
  ghost function LongBreaksUpTo(n: nat, every: int): nat
  {
    if n == 0 then 0
    else LongBreaksUpTo(n - 1, every) + (if NextPhase(Focus, n, every) == LongBreak then 1 else 0)
  }

  lemma DivStep(n: nat, k: nat)
    requires n >= 1 && k >= 1
    ensures n / k == (n - 1) / k + (if n % k == 0 then 1 else 0)
  {
    var q, r := (n - 1) / k, (n - 1) % k;
    assert n - 1 == q * k + r && 0 <= r < k;
    if r == k - 1 {
      assert n == (q + 1) * k;
      DivModUnique(n, k, q + 1, 0);
    } else {
      assert n == q * k + (r + 1);
      DivModUnique(n, k, q, r + 1);
    }
  }

  lemma MulStep(a: int, k: int)
    ensures a * k == (a - 1) * k + k
  {
  }
  /** Quotient and remainder are determined by `n == q * k + r`, `r < k`. */
  lemma DivModUnique(n: nat, k: nat, q: nat, r: nat)
    requires k >= 1 && r < k && n == q * k + r
    ensures n / k == q && n % k == r
  {
    var q', r' := n / k, n % k;
    assert (q' - q) * k == r - r' by {
      assert q' * k + r' == q * k + r;
      assert (q' - q) * k == q' * k - q * k;
    }
    MulSmall(q' - q, k);
  }
  /** The only multiple of `k` strictly between `-k` and `k` is zero. */
  lemma MulSmall(a: int, k: int)
    requires k > 0 && -k < a * k < k
    ensures a == 0
  {
    if a > 0 {
      MulPositive(a - 1, k);
      MulStep(a, k);
    } else if a < 0 {
      MulPositive(-a - 1, k);
      MulStep(-a, k);
    }
  }
  lemma MulPositive(a: int, k: int)
    requires a >= 0 && k >= 0
    ensures a * k >= 0
  {
  }

  /** With a positive setting `k`, exactly every k-th focus session ends in a
      long break: sessions 1 … n earn n / k of them. */
  lemma {:induction false} LongBreakEveryKth(n: nat, k: int)
    requires k > 0
    ensures LongBreaksUpTo(n, k) == n / k
  {
    if n > 0 {
      LongBreakEveryKth(n - 1, k);
      DivStep(n, k);
    }
  }

  /** A setting of zero never grants a long break. */
  lemma {:induction false} NoLongBreakWhenZero(n: nat)
    ensures LongBreaksUpTo(n, 0) == 0
  {
    if n > 0 {
      NoLongBreakWhenZero(n - 1);
    }
  }

  /** With the default of 4: sessions 1, 2, 3 are followed by a short break,
      4 and 8 by a long one; a finished break always leads back to focus. */
  lemma DefaultCycle(p: Phase)
    ensures NextPhase(Focus, 1, 4) == ShortBreak && NextPhase(Focus, 2, 4) == ShortBreak
    ensures NextPhase(Focus, 3, 4) == ShortBreak && NextPhase(Focus, 4, 4) == LongBreak
    ensures NextPhase(Focus, 8, 4) == LongBreak
    ensures p != Focus ==> NextPhase(p, 5, 4) == Focus
  {
  }

  // ---------------------------------------------------------------------------
  // Analytics bookkeeping for a completed focus session

  /** Analytics after a focus session of `minutes` completes on calendar day
      `today`: the totals grow, and the streak follows the consecutive-day rule. */
  function AfterFocus(a: Analytics, minutes: nat, today: int): (r: Analytics)
    ensures r.totalSessions == a.totalSessions + 1
    ensures r.totalFocusMinutes == a.totalFocusMinutes + minutes
    ensures r.totalBreakMinutes == a.totalBreakMinutes
    ensures r.distractionAttempts == a.distractionAttempts
    ensures r.lastSessionDate == Some(today)
    ensures a.lastSessionDate == Some(today) ==>
      r.streakDays == a.streakDays && r.sessionsToday == a.sessionsToday + 1
    ensures a.lastSessionDate == Some(today - 1) ==> r.streakDays == a.streakDays + 1
    ensures a.lastSessionDate != Some(today) && a.lastSessionDate != Some(today - 1) ==> r.streakDays == 1
    ensures a.lastSessionDate != Some(today) ==> r.sessionsToday == 1
  {
    var counted := a.(totalSessions := a.totalSessions + 1,
                      totalFocusMinutes := a.totalFocusMinutes + minutes,
                      sessionsToday := a.sessionsToday + 1);
    if a.lastSessionDate == Some(today) then counted
    else
      counted.(streakDays := if a.lastSessionDate == Some(today - 1) then a.streakDays + 1 else 1,
               lastSessionDate := Some(today),
               sessionsToday := 1)
  }

  /** Analytics after focus sessions of `minutes` complete on the given days,
      in order. */
  ghost function AfterFocusDays(a: Analytics, minutes: nat, days: seq<int>): Analytics
  {
    if days == [] then a
    else AfterFocus(AfterFocusDays(a, minutes, days[..|days| - 1]), minutes, days[|days| - 1])
  }

  ghost predicate NonDecreasing(days: seq<int>)
  {
    forall i, j :: 0 <= i <= j < |days| ==> days[i] <= days[j]
  }

  /** The `k` calendar days ending at `last` each saw a session, and the day
      before them saw none. */
  ghost predicate ConsecutiveRun(days: seq<int>, last: int, k: nat)
  {
    (forall d :: last - k < d <= last ==> d in days) && last - k !in days
  }

  /** `r` is what the analytics should say after focus sessions of `minutes`
      on the non-empty list of `days`: the last day, the run of consecutive
      days up to it, the sessions on it, and the totals. */
  ghost predicate Summarises(r: Analytics, minutes: nat, days: seq<int>)
    requires days != []
  {
    var last := days[|days| - 1];
    && r.lastSessionDate == Some(last)
    && r.streakDays >= 1 && ConsecutiveRun(days, last, r.streakDays)
    && r.sessionsToday == multiset(days)[last]
    && r.totalSessions == |days|
    && r.totalFocusMinutes == minutes * |days|
  }

  /** Starting from the reset analytics, completing focus sessions on a
      non-decreasing sequence of days leaves `streakDays` equal to the number
      of consecutive days, up to the last one, that saw a session;
      `sessionsToday` equal to the number of sessions on the last day; and the
      totals equal to the number of sessions and their minutes. */
  lemma {:induction false} StreakCountsConsecutiveDays(minutes: nat, days: seq<int>)
    requires days != [] && NonDecreasing(days)
    ensures Summarises(AfterFocusDays(DefaultAnalytics, minutes, days), minutes, days)
  {
    var n := |days|;
    var x := days[n - 1];
    var p := days[..n - 1];
    assert days == p + [x];
    if p == [] {
      assert AfterFocusDays(DefaultAnalytics, minutes, p) == DefaultAnalytics;
      assert x - 1 !in days;
    } else {
      assert NonDecreasing(p);
      StreakCountsConsecutiveDays(minutes, p);
      StreakExtends(minutes, p, x, AfterFocusDays(DefaultAnalytics, minutes, p));
    }
  }

  /** One more session on day `x`, no earlier than the previous ones, keeps
      the summary true. */
  lemma StreakExtends(minutes: nat, p: seq<int>, x: int, prev: Analytics)
    requires p != [] && NonDecreasing(p + [x]) && Summarises(prev, minutes, p)
    ensures Summarises(AfterFocus(prev, minutes, x), minutes, p + [x])
  {
    var days := p + [x];
    var last' := p[|p| - 1];
    var k := prev.streakDays;
    assert days[|p| - 1] == last' && days[|p|] == x;
    assert last' <= x;
    assert multiset(days)[x] == multiset(p)[x] + 1;
    assert forall d :: d in days <==> d in p || d == x;
    assert minutes * |days| == minutes * |p| + minutes;
    if x == last' {
      assert ConsecutiveRun(days, x, k);
    } else {
      assert forall d :: d in p ==> d < x by {
        forall d | d in p ensures d < x {
          var i :| 0 <= i < |p| && p[i] == d;
          assert days[i] <= days[|p| - 1];
        }
      }
      assert x !in p;
      assert x !in multiset(p);
      if x == last' + 1 {
        assert ConsecutiveRun(days, x, k + 1);
      } else {
        assert ConsecutiveRun(days, x, 1);
      }
    }
  }

  /** The streak examples: a first session starts a streak of one, a second
      one on the same day keeps it, one on the next day extends it, and one
      after a gap of two days restarts it. */
  lemma StreakExamples(day: int)
    ensures AfterFocus(DefaultAnalytics, 25, day).streakDays == 1
    ensures AfterFocus(AfterFocus(DefaultAnalytics, 25, day), 25, day).streakDays == 1
    ensures AfterFocus(AfterFocus(DefaultAnalytics, 25, day), 25, day + 1).streakDays == 2
    ensures AfterFocus(AfterFocus(DefaultAnalytics, 25, day), 25, day + 2).streakDays == 1
  {
  }

  // ---------------------------------------------------------------------------
  // The service

  /** A notification the completion asks for. */
  datatype Notice = SessionCompleteNotice(next: Phase) | BreakCompleteNotice

  /** The `action` tag of a runtime message. */
  datatype Action =
    | StartSessionRequest
    | StopSessionRequest
    | TimerStateQuery
    | RemainingTimeQuery
    | AnalyticsQuery
    | ResetAnalyticsRequest
    | UnknownAction

  /** The reply sent back for a message. */
  datatype Response =
    | Done
    | TimerSnapshot(isActive: bool, currentPhase: Phase, remainingTime: nat, startTime: Option<int>,
                    completedSessions: nat, isPaused: bool, settings: Settings)
    | RemainingTime(seconds: nat)
    | AnalyticsSnapshot(analytics: Analytics, sessions: seq<SessionRecord>)
    | Failure(message: string)

  class FocusService {
    // The in-memory timer state.
    var isActive: bool
    var currentPhase: Phase
    var remainingTime: nat
    var startTime: Option<int>
    var completedSessions: nat
    var isPaused: bool
    // Whether the one-second interval is scheduled.
    var clockRunning: bool
    // The toolbar badge text.
    var badge: string
    // The persisted records.
    var settings: Settings
    var analytics: Analytics
    var sessions: seq<SessionRecord>

    /** The settings echo mirrors the timer, the clock runs exactly while a
        session is active, and the badge shows the countdown exactly then. */
    ghost predicate Valid()
      reads this
    {
      && settings.isActive == isActive
      && (isActive ==> settings.currentPhase == currentPhase)
      && clockRunning == isActive
      && badge == (if isActive then BadgeText(remainingTime) else "")
    }

    /** A fresh install: the timer defaults and the seeded records. */
    constructor ()
      ensures Valid()
      ensures !isActive && currentPhase == Focus && remainingTime == 0 && startTime == None
      ensures completedSessions == 0 && !isPaused
      ensures settings == DefaultSettings && analytics == DefaultAnalytics && sessions == []
    {
      isActive, currentPhase, remainingTime, startTime := false, Focus, 0, None;
      completedSessions, isPaused := 0, false;
      clockRunning, badge := false, "";
      settings, analytics, sessions := DefaultSettings, DefaultAnalytics, [];
    }

    /** Shows the countdown on the badge while a session is active. */
    method UpdateBadge()
      modifies this`badge
      ensures badge == if old(isActive) then BadgeText(old(remainingTime)) else old(badge)
    {
      if isActive {
        badge := BadgeText(remainingTime);
      }
    }

    /** Starts a `duration`-minute countdown in `phase` at time `now`. */
    method StartTimer(duration: nat, phase: Phase, now: int)
      requires Valid()
      modifies this
      ensures Valid()
      ensures isActive && !isPaused && currentPhase == phase && startTime == Some(now)
      ensures remainingTime == duration * 60
      ensures completedSessions == old(completedSessions)
      ensures settings == old(settings).(isActive := true, currentPhase := phase)
      ensures analytics == old(analytics) && sessions == old(sessions)
    {
      isActive, currentPhase, remainingTime := true, phase, duration * 60;
      startTime, isPaused := Some(now), false;
      settings := settings.(isActive := true, currentPhase := phase);
      clockRunning := true;
      UpdateBadge();
    }

    /** The `startSession` message: always a focus phase of the configured
        length, whatever was left of an earlier countdown. */
    method StartSession(now: int)
      requires Valid()
      modifies this
      ensures Valid()
      ensures isActive && !isPaused && currentPhase == Focus && startTime == Some(now)
      ensures remainingTime == old(settings.focusDuration) * 60
      ensures completedSessions == old(completedSessions)
      ensures settings == old(settings).(isActive := true, currentPhase := Focus)
      ensures analytics == old(analytics) && sessions == old(sessions)
    {
      StartTimer(settings.focusDuration, Focus, now);
    }

    /** Stops the countdown without touching what it has counted. */
    method StopTimer()
      requires Valid()
      modifies this
      ensures Valid()
      ensures !isActive && !isPaused && !clockRunning && badge == ""
      ensures remainingTime == old(remainingTime) && completedSessions == old(completedSessions)
      ensures currentPhase == old(currentPhase) && startTime == old(startTime)
      ensures settings == old(settings).(isActive := false)
      ensures analytics == old(analytics) && sessions == old(sessions)
    {
      clockRunning := false;
      isActive, isPaused := false, false;
      settings := settings.(isActive := false);
      badge := "";
    }

    /** Completes the running phase at time `now` on calendar day `today`.
        Only the settings echo learns the next phase; the timer's own phase
        is left as it was. */
    method CompleteSession(now: int, today: int) returns (notice: Option<Notice>)
      requires Valid()
      modifies this
      ensures Valid()
      ensures !isActive && !clockRunning && badge == ""
      ensures currentPhase == old(currentPhase) && remainingTime == old(remainingTime)
      ensures isPaused == old(isPaused) && startTime == old(startTime)
      ensures old(currentPhase) == Focus ==>
        && completedSessions == old(completedSessions) + 1
        && analytics == AfterFocus(old(analytics), old(settings.focusDuration), today)
        && sessions == old(sessions) + [SessionRecord(now, old(settings.focusDuration), Focus, true)]
        && settings == old(settings).(isActive := false,
             currentPhase := NextPhase(Focus, completedSessions, old(settings.sessionsUntilLongBreak)))
        && notice == (if old(settings.notifications.sessionComplete)
                      then Some(SessionCompleteNotice(settings.currentPhase)) else None)
      ensures old(currentPhase) != Focus ==>
        && completedSessions == old(completedSessions)
        && analytics == old(analytics).(totalBreakMinutes :=
             old(analytics.totalBreakMinutes) + BreakMinutes(old(currentPhase), old(settings)))
        && sessions == old(sessions)
        && settings == old(settings).(isActive := false, currentPhase := Focus)
        && notice == (if old(settings.notifications.breakComplete) then Some(BreakCompleteNotice) else None)
    {
      clockRunning := false;
      var next: Phase;
      if currentPhase == Focus {
        completedSessions := completedSessions + 1;
        analytics := AfterFocus(analytics, settings.focusDuration, today);
        sessions := sessions + [SessionRecord(now, settings.focusDuration, Focus, true)];
        next := NextPhase(Focus, completedSessions, settings.sessionsUntilLongBreak);
        notice := if settings.notifications.sessionComplete then Some(SessionCompleteNotice(next)) else None;
      } else {
        analytics := analytics.(totalBreakMinutes :=
          analytics.totalBreakMinutes + BreakMinutes(currentPhase, settings));
        next := Focus;
        notice := if settings.notifications.breakComplete then Some(BreakCompleteNotice) else None;
      }
      isActive := false;
      settings := settings.(isActive := false, currentPhase := next);
      badge := "";
    }

    /** One firing of the one-second interval, which is scheduled only while
        the clock runs. It counts down only when not paused and above zero,
        and completes the session on reaching zero; a tick at zero changes
        nothing, so a session completes once. */
    method Tick(now: int, today: int) returns (completed: bool, notice: Option<Notice>)
      requires Valid() && clockRunning
      modifies this
      ensures Valid()
      ensures completed <==> !old(isPaused) && old(remainingTime) == 1
      ensures old(isPaused) || old(remainingTime) == 0 ==> unchanged(this) && notice == None
      ensures !old(isPaused) && old(remainingTime) > 1 ==>
        && remainingTime == old(remainingTime) - 1
        && isActive == old(isActive) && currentPhase == old(currentPhase)
        && isPaused == old(isPaused) && startTime == old(startTime)
        && completedSessions == old(completedSessions)
        && settings == old(settings) && analytics == old(analytics) && sessions == old(sessions)
        && notice == None
      ensures completed ==>
        && remainingTime == 0 && !isActive && !clockRunning && badge == ""
        && currentPhase == old(currentPhase) && isPaused == old(isPaused) && startTime == old(startTime)
      ensures completed && old(currentPhase) == Focus ==>
        && completedSessions == old(completedSessions) + 1
        && analytics == AfterFocus(old(analytics), old(settings.focusDuration), today)
        && sessions == old(sessions) + [SessionRecord(now, old(settings.focusDuration), Focus, true)]
        && settings == old(settings).(isActive := false,
             currentPhase := NextPhase(Focus, completedSessions, old(settings.sessionsUntilLongBreak)))
        && notice == (if old(settings.notifications.sessionComplete)
                      then Some(SessionCompleteNotice(settings.currentPhase)) else None)
      ensures completed && old(currentPhase) != Focus ==>
        && completedSessions == old(completedSessions)
        && analytics == old(analytics).(totalBreakMinutes :=
             old(analytics.totalBreakMinutes) + BreakMinutes(old(currentPhase), old(settings)))
        && sessions == old(sessions)
        && settings == old(settings).(isActive := false, currentPhase := Focus)
        && notice == (if old(settings.notifications.breakComplete) then Some(BreakCompleteNotice) else None)
    {
      completed, notice := false, None;
      if !isPaused && remainingTime > 0 {
        remainingTime := remainingTime - 1;
        UpdateBadge();
        if remainingTime == 0 {
          completed := true;
          notice := CompleteSession(now, today);
        }
      }
    }

    /** The block check shared by both navigation listeners; `host` is None
        when the URL did not parse. A redirect counts one distraction. */
    method CheckNavigation(host: Option<string>) returns (redirect: bool)
      requires Valid()
      modifies this`analytics
      ensures Valid()
      ensures redirect == ShouldRedirect(settings, host)
      ensures analytics == old(analytics).(distractionAttempts :=
        old(analytics.distractionAttempts) + (if redirect then 1 else 0))
    {
      redirect := ShouldRedirect(settings, host);
      if redirect {
        analytics := analytics.(distractionAttempts := analytics.distractionAttempts + 1);
      }
    }

    /** `webNavigation.onBeforeNavigate`: only top-level frames are checked. */
    method OnBeforeNavigate(frameId: int, host: Option<string>) returns (redirect: bool)
      requires Valid()
      modifies this`analytics
      ensures Valid()
      ensures redirect == (frameId == 0 && ShouldRedirect(settings, host))
      ensures analytics == old(analytics).(distractionAttempts :=
        old(analytics.distractionAttempts) + (if redirect then 1 else 0))
    {
      redirect := false;
      if frameId == 0 {
        redirect := CheckNavigation(host);
      }
    }

    /** `tabs.onUpdated`: only updates that change the URL are checked. */
    method OnTabUpdated(urlChanged: bool, host: Option<string>) returns (redirect: bool)
      requires Valid()
      modifies this`analytics
      ensures Valid()
      ensures redirect == (urlChanged && ShouldRedirect(settings, host))
      ensures analytics == old(analytics).(distractionAttempts :=
        old(analytics.distractionAttempts) + (if redirect then 1 else 0))
    {
      redirect := false;
      if urlChanged {
        redirect := CheckNavigation(host);
      }
    }

    /** The "Block this site" context-menu entry: appends the page's host,
        first "www." removed, unless already listed; afterwards the page is
        blocked by the list. */
    method BlockThisSite(host: Option<string>) returns (added: bool)
      requires Valid()
      modifies this`settings
      ensures Valid()
      ensures host.None? ==> !added && settings == old(settings)
      ensures host.Some? ==>
        var h := StripWww(host.value);
        && added == (h !in old(settings.blockedSites))
        && settings == old(settings).(blockedSites :=
             if added then old(settings.blockedSites) + [h] else old(settings.blockedSites))
        && IsBlocked(host.value, settings.blockedSites)
    {
      added := false;
      if host.Some? {
        var h := StripWww(host.value);
        var sites := settings.blockedSites;
        if h !in sites {
          sites := sites + [h];
          added := true;
        }
        ListedHostBlocked(host.value, sites);
        settings := settings.(blockedSites := sites);
      }
    }

    /** The `resetAnalytics` message: counters back to zero, log emptied. */
    method ResetAnalytics()
      requires Valid()
      modifies this`analytics, this`sessions
      ensures Valid()
      ensures analytics == DefaultAnalytics && sessions == []
    {
      analytics, sessions := DefaultAnalytics, [];
    }

    /** The midnight alarm: only today's session count is cleared. */
    method ResetDailyStats()
      requires Valid()
      modifies this`analytics
      ensures Valid()
      ensures analytics == old(analytics).(sessionsToday := 0)
    {
      analytics := analytics.(sessionsToday := 0);
    }

    /** The runtime message router. A start request only ever starts focus, so
        a timer that is in focus stays in focus. */
    method HandleMessage(action: Action, now: int) returns (response: Response)
      requires Valid()
      modifies this
      ensures Valid()
      ensures old(currentPhase) == Focus ==> currentPhase == Focus
      ensures action == StartSessionRequest ==>
        && response == Done
        && isActive && !isPaused && currentPhase == Focus && startTime == Some(now)
        && remainingTime == old(settings.focusDuration) * 60
        && completedSessions == old(completedSessions)
        && settings == old(settings).(isActive := true, currentPhase := Focus)
        && analytics == old(analytics) && sessions == old(sessions)
      ensures action == StopSessionRequest ==>
        && response == Done
        && !isActive && !isPaused && !clockRunning && badge == ""
        && remainingTime == old(remainingTime) && completedSessions == old(completedSessions)
        && currentPhase == old(currentPhase) && startTime == old(startTime)
        && settings == old(settings).(isActive := false)
        && analytics == old(analytics) && sessions == old(sessions)
      ensures action == TimerStateQuery ==>
        response == TimerSnapshot(isActive, currentPhase, remainingTime, startTime,
                                  completedSessions, isPaused, settings)
        && unchanged(this)
      ensures action == RemainingTimeQuery ==> response == RemainingTime(remainingTime) && unchanged(this)
      ensures action == AnalyticsQuery ==> response == AnalyticsSnapshot(analytics, sessions) && unchanged(this)
      ensures action == ResetAnalyticsRequest ==>
        && response == Done && analytics == DefaultAnalytics && sessions == []
        && isActive == old(isActive) && currentPhase == old(currentPhase)
        && remainingTime == old(remainingTime) && startTime == old(startTime)
        && completedSessions == old(completedSessions) && isPaused == old(isPaused)
        && clockRunning == old(clockRunning) && badge == old(badge) && settings == old(settings)
      ensures action == UnknownAction ==> response == Failure("Unknown action") && unchanged(this)
    {
      match action
      case StartSessionRequest =>
        StartSession(now);
        response := Done;
      case StopSessionRequest =>
        StopTimer();
        response := Done;
      case TimerStateQuery =>
        response := TimerSnapshot(isActive, currentPhase, remainingTime, startTime,
                                  completedSessions, isPaused, settings);
      case RemainingTimeQuery =>
        response := RemainingTime(remainingTime);
      case AnalyticsQuery =>
        response := AnalyticsSnapshot(analytics, sessions);
      case ResetAnalyticsRequest =>
        ResetAnalytics();
        response := Done;
      case UnknownAction =>
        response := Failure("Unknown action");
    }
  }
}
