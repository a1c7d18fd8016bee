/** The phase a session runs in and the three records the extension keeps in
    local storage (`settings`, `analytics`, the `sessions` log), with the
    defaults written on first install. */
module State {
  import opened Wrappers

  datatype Phase = Focus | ShortBreak | LongBreak

  /** Which notifications the user wants. */
  datatype Notifications = Notifications(sessionComplete: bool, breakComplete: bool, motivational: bool)

  /** The `settings` record. `isActive` and `currentPhase` echo the in-memory
      timer; `sessionsUntilLongBreak` is whatever the settings form parsed, so
      it may be zero or negative. */
  datatype Settings = Settings(
    focusDuration: nat,
    breakDuration: nat,
    longBreakDuration: nat,
    sessionsUntilLongBreak: int,
    blockedSites: seq<string>,
    isActive: bool,
    currentPhase: Phase,
    notifications: Notifications,
    theme: string,
    showBadge: bool)

  /** The `analytics` record. `lastSessionDate` keeps the calendar day (a day
      number) of the last completed focus session: the only thing ever read
      back from the stored timestamp. */
  datatype Analytics = Analytics(
    totalSessions: nat,
    totalFocusMinutes: nat,
    totalBreakMinutes: nat,
    distractionAttempts: nat,
    streakDays: nat,
    lastSessionDate: Option<int>,
    sessionsToday: nat)

  /** One entry of the `sessions` log; `date` is the completion time stamp. */
  datatype SessionRecord = SessionRecord(date: int, duration: nat, kind: Phase, completed: bool)

  const PresetSites: seq<string> :=
    ["facebook.com", "twitter.com", "instagram.com", "reddit.com", "youtube.com", "tiktok.com"]

  const DefaultSettings: Settings := Settings(
    25, 5, 15, 4, PresetSites, false, Focus,
    Notifications(true, true, true), "purple", true)

  const DefaultAnalytics: Analytics := Analytics(0, 0, 0, 0, 0, None, 0)
}
