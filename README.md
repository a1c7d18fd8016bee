# Smart Focus Assistant: a Dafny model of the timer and the site blocker

This project models the core of the Smart Focus Assistant browser extension:
a Pomodoro timer that, during a focus session, keeps the user away from a list
of distracting sites. It covers three parts of the extension:

- **The background service worker** (`background.js`), modelled as the class
  `Background.FocusService`. Its fields are the in-memory timer state
  (`isActive`, `currentPhase`, `remainingTime`, `startTime`,
  `completedSessions`, `isPaused`), whether the one-second interval is
  running, the badge text, and the three stored records `settings`,
  `analytics` and `sessions`. Its methods are:
  - starting, stopping and ticking the timer;
  - completing a session, with the analytics and streak bookkeeping;
  - the two navigation listeners;
  - the "Block this site" context-menu entry;
  - the midnight reset;
  - the message router.

  The invariant `Valid()` says:
  - the stored `isActive` and `currentPhase` echo the timer while it runs;
  - the interval runs exactly while the timer is active;
  - the badge reads the remaining time while active.
- **The site-list editor** of the options page (`sites.js`), modelled as the
  class `Sites.SiteList`. It holds the edited list and the copy last saved to
  storage. Its operations are:
  - normalising typed input;
  - adding, quick-adding, removing and clearing sites;
  - merging an imported list the way `[...new Set(...)]` does;
  - the search filter.
- **The page script** (`content.js`), modelled as the class
  `Content.PageGuard`. Its fields are:
  - the page's `isBlocked` flag;
  - the number of overlay elements on the page;
  - how often an overlay was shown;
  - the overlay clock's text.

  Its invariant says there is at most one overlay, and only while the page
  is blocked. The pure keydown guard and the overlay clock formatter sit
  beside it.

Four shared modules hold the pieces more than one of these uses:
- `Text` models the JavaScript string operations the core relies on:
  - `includes`;
  - `replace` with a string pattern, which replaces the first occurrence
    wherever it is;
  - `trim`;
  - ASCII `toLowerCase`/`toUpperCase`;
  - decimal rendering of numbers.
- `Clock` holds the badge `M:SS` and overlay `MM:SS` formats, with a reader
  that inverts them.
- `BlockPolicy` holds the symmetric-substring block rule shared by both
  navigation listeners and the page script.
- `State` holds the stored records and their defaults.

## Notes on the code's behaviour

- **Stripping "www."** The hostname check calls
  `hostname.replace('www.', '')`, which removes the first `www.` anywhere in
  the host, not only a leading one. So `shop.www.example.com` is checked as
  `shop.example.com`. See `BlockPolicy.StripWww` and
  `BlockPolicy.InnerWwwExample`.
- **The stored phase.** On completion the code writes the *next* phase
  only into the stored settings; the in-memory timer keeps the phase that
  just ended. Stopping leaves the phase alone. `Valid()` therefore asks the
  stored `currentPhase` to match the timer only while the timer runs.
- **The timer phase.** Because `startSession` only ever starts focus, a timer
  driven by the message router is always in focus. That is the
  `old(currentPhase) == Focus ==> currentPhase == Focus` clause of
  `HandleMessage`. The break branch of `completeSession` is therefore reached
  only through `StartTimer` with a break phase, which the router never
  issues.
- **Input normalisation.** `addSite` strips each prefix once only: a scheme,
  then `www.`, then a trailing slash. So `http://http://x` keeps its second
  scheme (`Sites.SchemeStrippedOnce`). Whitespace exposed by a strip is not
  trimmed again. For a bare host typed with any optional scheme, `www.`,
  trailing slash and surrounding whitespace, the stored site is the host
  (`Sites.NormalizeStripsDecorations`).

## Model

| member | source | states |
|---|---|---|
| Text.IndexOf | background.js:261-264 | `indexOf`: the pattern occurs at the returned position and at no earlier one; none is returned only when it occurs nowhere |
| Text.Includes | background.js:263-265 | `includes` holds exactly when the pattern occurs at some position |
| Text.ReplaceFirst | background.js:261 | `replace` with a string pattern: no occurrence leaves the text alone; otherwise the first occurrence, wherever it stands, is replaced and the text before and after it is kept |
| Text.Trim | sites.js:59 | `trim` removes exactly the whitespace run at each end and keeps the middle; the result is empty exactly when the input is all whitespace |
| Text.ToLower | sites.js:59 | `toLowerCase` keeps the length, leaves no upper-case ASCII letter and changes only A-Z, each to its lower-case letter |
| Text.ToLowerIdempotent | sites.js:59 | lower-casing twice is lower-casing once |
| Text.ToUpper | content.js:158 | `toUpperCase` keeps the length, leaves no lower-case ASCII letter and changes only a-z |
| Text.DecimalString | background.js:238 | rendering a number gives a non-empty digit string, one digit exactly below 10, with no leading zero |
| Text.DecimalStringValue | background.js:238 | the rendered digits denote the number |
| Clock.Pad2Pads | background.js:238 | `Pad2`, that is `padStart(2, '0')`: width at least 2, the original text at the end, zeros before it |
| Clock.Pad2Value | content.js:117 | the padded seconds field still denotes the number |
| Clock.BadgeShape | background.js:232-239 | `BadgeText`: the badge is the unpadded minutes, a colon, then a two-digit seconds field |
| Clock.OverlayShape | content.js:114-117 | `OverlayText`: the overlay clock is a zero-padded minutes field of width at least two, a colon and two seconds digits |
| Clock.BadgeRoundTrip | background.js:232-239 | reading the badge back gives exactly the remaining seconds |
| Clock.OverlayRoundTrip | content.js:113-117 | reading the overlay clock back gives exactly the remaining seconds |
| Clock.BadgeInjective | background.js:233-238 | two different remaining times never show the same badge |
| BlockPolicy.StripWww | background.js:261 | the first "www." anywhere is removed and the text around it kept: a host without one is unchanged, a leading one goes from the front |
| BlockPolicy.SiteMatchesSymmetric | background.js:264 | `SiteMatches`: a host and an entry match when either occurs in the other, whichever is the longer |
| BlockPolicy.AnyMatch | background.js:263-265 | `some` over the list is true exactly when some listed site contains, or is contained in, the host |
| BlockPolicy.IsBlocked | background.js:260-265 | a host is blocked exactly when some listed site matches it, both ways, after "www." is removed |
| BlockPolicy.IdleOrBreakNeverBlocks | background.js:254-257 | `Enforcing`: with the stored timer inactive or outside focus, nothing is redirected, whatever the host and list |
| BlockPolicy.ShouldRedirect | background.js:254-265 | a navigation is redirected only during an active focus phase with a known host, and then exactly when the host is blocked |
| BlockPolicy.EmptySiteBlocksAll | background.js:263-265 | an empty entry in the list blocks every host |
| BlockPolicy.ListedHostBlocked | background.js:403-408 | a host whose stripped name is listed is blocked |
| BlockPolicy.EmptyHostBlockedByAnyList | background.js:263-265 | a host that is empty after stripping is blocked by any non-empty list |
| BlockPolicy.SubdomainBlocked | background.js:263-265 | a host ending in a listed site is blocked, provided the host has no "www." in it (a listed "www.x.com" does not block "m.www.x.com", since the host loses its "www.") |
| BlockPolicy.PartOfSiteBlocked | background.js:263-265 | any fragment of a listed site, used as a host, is blocked (the match is symmetric) |
| BlockPolicy.LeadingWwwIgnored | background.js:261 | a leading "www." makes no difference to blocking |
| BlockPolicy.MoreSitesBlockMore | background.js:263-265 | blocking is monotone in the list |
| BlockPolicy.SubdomainExample | background.js:261-265 | m.facebook.com is blocked by facebook.com |
| BlockPolicy.UnrelatedHostNotBlocked | background.js:261-265 | a host without "www.", shorter than the entry, whose first character sits nowhere it could start inside the entry, is not blocked by it (example.com against facebook.com) |
| BlockPolicy.WwwHostExample | background.js:261-265 | www.facebook.com is blocked by facebook.com |
| BlockPolicy.InnerWwwRemoved | background.js:261 | the first "www." is removed wherever it stands: a host `pre` + "www." + `rest`, with no "www." in `pre`, is checked as `pre` + `rest` |
| BlockPolicy.InnerWwwExample | background.js:261 | shop.www.example.com is checked as shop.example.com |
| Background.LongBreakEveryKth | background.js:179-186 | with k sessions per cycle, exactly n / k of the first n focus sessions are followed by a long break |
| Background.NoLongBreakWhenZero | background.js:180 | with a cycle length of 0 (`% 0` is NaN) no long break is ever chosen |
| Background.NextPhaseAlternates | background.js:179-186 | `NextPhase`: a finished break leads to focus, a finished focus to a break, the long one exactly when it is due |
| Background.LongBreakDueOnMultiples | background.js:180 | `LongBreakDue`: with k sessions per cycle the long break is due exactly on multiples of k |
| Background.BreakMinutes | background.js:199-203 | a finished long break credits the long-break length, any other break the short-break length |
| Background.DefaultCycle | background.js:179-186 | with the default of 4: short, short, short, long, and focus after any break |
| Background.AfterFocus | background.js:146-167 | completing focus counts one session and its minutes; the streak grows after yesterday, stays on the same day and restarts at 1 otherwise; today's count restarts at 1 on a new day |
| Background.StreakCountsConsecutiveDays | background.js:151-167 | over any non-decreasing run of session days, the streak is the number of consecutive days ending at the last one, today's count is the number of sessions on the last day, and the totals add up |
| Background.StreakExtends | background.js:151-167 | one more session keeps that summary true |
| Background.StreakExamples | background.js:155-163 | first session 1, same day 1, next day 2, after a gap 1 |
| Background.FocusService.constructor | background.js:5-47 | the idle timer with the default settings, zeroed analytics and an empty log |
| Background.FocusService.UpdateBadge | background.js:232-245 | an active timer's badge shows the remaining time; an inactive one is left as it is |
| Background.FocusService.StartTimer | background.js:75-112 | the timer runs with `duration * 60` seconds in the given phase, and the stored settings echo it; the session count and analytics are untouched |
| Background.FocusService.StartSession | background.js:317-321 | a start request runs a focus timer of the configured focus length |
| Background.FocusService.StopTimer | background.js:114-131 | the timer and the stored flag go inactive and the badge clears; the remaining time, phase and counts are kept |
| Background.FocusService.CompleteSession | background.js:133-230 | focus: one more session, `AfterFocus` analytics, a log record, and the next break (long every k-th) is stored; break: its minutes are credited and focus is stored next; either way the timer stops and the badge clears |
| Background.FocusService.Tick | background.js:100-109 | a tick of the running interval counts down one second unless paused or at zero, changing nothing else; reaching zero completes the session exactly once, with the analytics, log, next phase and notice of `CompleteSession` |
| Background.FocusService.CheckNavigation | background.js:254-277 | redirects exactly when `ShouldRedirect`, and counts one distraction attempt exactly then |
| Background.FocusService.OnBeforeNavigate | background.js:248-278 | only main-frame navigations are checked |
| Background.FocusService.OnTabUpdated | background.js:281-310 | only URL changes are checked; an unparsable URL is ignored |
| Background.FocusService.BlockThisSite | background.js:399-423 | the page's host, "www." removed, is appended unless already listed, and the host is then blocked |
| Background.FocusService.ResetAnalytics | background.js:344-350 | counters go back to the defaults and the session log is emptied |
| Background.FocusService.ResetDailyStats | background.js:371-375 | only today's session count is cleared |
| Background.FocusService.HandleMessage | background.js:313-362 | each action's response and its whole effect: start and stop as `StartSession` and `StopTimer`, reset clears only the analytics and log; queries change nothing; unknown actions answer an error; the timer phase stays focus |
| Sites.StripScheme | sites.js:63 | a leading "http://" or "https://" is removed, once; text without one is unchanged |
| Sites.StripLeadingWww | sites.js:63 | a leading "www." is removed, once; text without one is unchanged |
| Sites.StripTrailingSlash | sites.js:63 | a trailing "/" is removed, once; text without one is unchanged |
| Sites.Cleaned | sites.js:59 | the trimmed, lower-cased input has no upper-case letter and is empty exactly when the input is blank |
| Sites.Normalize | sites.js:57-63 | only blank input is refused; otherwise the site is a lower-case part of the trimmed input, which `NormalizeStripsDecorations` pins down to the bare host |
| Sites.NormalizeStripsDecorations | sites.js:59-63 | a bare host typed with any optional scheme, "www.", trailing slash and surrounding whitespace is stored as the host |
| Sites.NormalizeKeepsBareHost | sites.js:59-63 | a lower-case host without scheme, "www." or trailing slash is kept as typed |
| Sites.SchemeStrippedOnce | sites.js:63 | the scheme is stripped once: whatever follows "http://" is kept |
| Sites.SchemeOnlyInputBlocksEverything | sites.js:61-63 | the input "http://" is accepted as the empty site, which blocks every host |
| Sites.NormalizeNonEmpty | sites.js:61-63 | with the emptiness test after the strips, no empty site is produced, and every other input normalises as before |
| Sites.AddDistinct | sites.js:132 | filling a set: duplicate-free, the starting list kept in front, the elements of both and nothing else |
| Sites.Distinct | sites.js:132 | `[...new Set(s)]` is duplicate-free with the same elements as `s` |
| Sites.DistinctIsFirstOccurrences | sites.js:132 | it keeps exactly the first occurrence of each element, in order |
| Sites.Merge | sites.js:132 | the import result is duplicate-free and holds exactly the current and imported sites |
| Sites.MergeKeepsCurrentFirst | sites.js:132 | a duplicate-free current list stays, in order, at the front; new sites follow it |
| Sites.MergeIdempotent | sites.js:128-135 | importing the same file again changes nothing |
| Sites.MergeAppendsNew | sites.js:132 | importing already-listed sites followed by new distinct ones appends exactly the new ones, in order |
| Sites.MergeExample | sites.js:132 | importing a, a, b into [a] gives [a, b] for any two different sites |
| Sites.Filter | sites.js:165-168 | the search shows exactly the listed sites containing the query, in list order |
| Sites.FilterCounts | sites.js:165-168 | each matching site is shown as often as it is listed, and no other site is shown |
| Sites.EmptyQueryShowsAll | sites.js:166-167 | an empty query shows the whole list |
| Sites.SpliceStart | sites.js:88 | `splice`'s start index lies in the list, and is the index itself when in range |
| Sites.RemoveAt | sites.js:88 | `splice(i, 1)` in range removes one element and keeps the rest in order; past the end it changes nothing |
| Sites.RemoveAtKeepsOrder | sites.js:88 | in a duplicate-free list the removed site is gone and no duplicate appears |
| Sites.SiteList.Load | sites.js:4-7 | the stored list, or an empty one when none is stored |
| Sites.SiteList.Save | sites.js:95-99 | the stored list becomes the edited list |
| Sites.SiteList.AddNormalized | sites.js:65-72 | after normalisation: no site means no change, a listed site is refused without change, a new one is appended and saved; no duplicate is introduced |
| Sites.SiteList.AddSite | sites.js:57-73 | blank input and already-listed sites are refused without change; otherwise the normalised site, which may be empty, is appended and saved; no duplicate is introduced |
| Sites.SiteList.AddSiteCorrected | sites.js:57-73 | as `AddSite` with the emptiness test after the strips: no empty site is ever added |
| Sites.SchemeOnlyAddBlocksEverything | sites.js:57-73 | adding "http://" to a list without the empty site appends the empty site, after which every host is blocked |
| Sites.SiteList.QuickAdd | sites.js:76-84 | a preset site is appended and saved unless already listed |
| Sites.SiteList.RemoveSite | sites.js:87-92 | `splice(i, 1)` on the whole list, saved; reports the removed site |
| Sites.SiteList.RemoveShownSite | sites.js:165-168 | removing the i-th site of the filtered view splices that very site out of the whole list at its first position, the rest keeping their order, and saves |
| Sites.SiteList.ClearAllSites | sites.js:102-108 | a confirmed clear empties and saves the list; a refused one changes nothing |
| Sites.SiteList.ImportSites | sites.js:128-138 | a parsed array is merged in and saved; anything else leaves the list alone |
| Sites.SiteList.Search | sites.js:165-168 | the shown list is the filter by the lower-cased query |
| Sites.FilteredRemoveHitsWrongSite | sites.js:165-168 | whenever a listed site precedes the only one matching the query (facebook.com, youtube.com, "you"), the one row shown is the matching site, and its button, index 0, removes the other |
| Content.ShouldBlockPage | content.js:15-26 | missing settings, an inactive timer or a break never block; otherwise the page is blocked exactly when a listed site matches its host |
| Content.PageAgreesWithNavigation | content.js:23-26 | the page blocks itself exactly when the background would redirect to it |
| Content.BypassKeyNames | content.js:152-158 | the upper-cased key is in the bypass list exactly for F12 and I, J, C, U in either case |
| Content.SuppressKey | content.js:148-161 | nothing is suppressed unless the page is blocked; then F12, or Ctrl/Cmd with f12, I, J, C or U in either case |
| Content.PageGuard.constructor | content.js:7-8 | a page starts unblocked with no overlay |
| Content.PageGuard.ShowOverlay | content.js:41-103 | one overlay appears, showing the placeholder clock |
| Content.PageGuard.RemoveOverlay | content.js:125-134 | the overlay, if any, is gone |
| Content.PageGuard.CheckBlockStatus | content.js:11-38 | the flag becomes the block decision; the overlay is shown only when the flag turns on and removed when it turns off; a check that finds the page still blocked changes nothing |
| Content.PageGuard.Reassert | content.js:166-175 | a blocked page that lost its overlay gets one back, counted and showing the placeholder; otherwise nothing happens |
| Content.PageGuard.OnVisibilityChange | content.js:184-193 | a blocked page becoming visible without its overlay gets one back, counted; in every other case nothing changes |
| Content.PageGuard.PageRemovesOverlay | content.js:170-172 | the page's own scripts may delete the overlay; the invariant survives, and the flag stays set |
| Content.PageGuard.UpdateOverlayTimer | content.js:106-122 | with an overlay and a positive remaining time the clock shows that time, readable back exactly; otherwise the text is left as it was |
| Content.PageGuard.OnMessage | content.js:197-205 | `checkBlock` answers with the flag as it was before the check it starts; both checks run `CheckBlockStatus` with its flag, overlay, count and clock effects; other requests change nothing |
| Content.PageGuard.Init | content.js:208-226 | the first check sets the flag, showing the overlay when the page turns blocked, and the periodic re-check is scheduled |
| Content.PageGuard.Unload | content.js:236-241 | the re-check stops and the overlay goes |
| Content.RepeatedCheck | content.js:28-34 | two checks with the same settings show at most the one overlay the first one shows |

## Left out

- Browser APIs are not modelled: storage, notifications, tabs, alarms, the context-menu registration, the badge colour and the keep-alive ping. Storage is represented by the fields `settings`, `analytics` and `sessions`, and a shown notification is the returned `Notice`.
- Asynchronous interleaving is not modelled: each handler runs to completion before the next one starts. The `checkBlock` reply, sent before the check it starts finishes, is modelled. The window inside `completeSession` is not: the tick calls it without `await`, it clears the interval at once but sets `isActive` to false only after its storage reads and writes, so in between `getTimerState` reports an active timer at 0 seconds, and a `startSession` arriving then is switched off again while its new interval keeps running.
- Time is not modelled. `Date.now()` and ISO date strings become an integer `now` and a calendar-day number `today`, and "yesterday" is `today - 1`. Time zones, `toDateString` and the scheduling of the midnight alarm (`getNextMidnight`) are not modelled; the alarm firing is the method `ResetDailyStats`.
- URL parsing is not modelled. The navigation listeners and the context-menu entry receive the parsed hostname as an `Option`, with `None` for a URL that does not parse.
- The `setInterval` scheduling of the tick, the page re-check and the overlay clock is not modelled; each firing is a method call (`Tick`, `CheckBlockStatus`, `UpdateOverlayTimer`).
- `onInstalled` storage seeding is left out. Only its defaults are modelled (`State.DefaultSettings`, `State.DefaultAnalytics`).
- Restarting the service worker, which loses the in-memory timer while storage keeps `isActive`, is left out.
- Text.ToLower: only ASCII letters are mapped. JavaScript also maps non-ASCII letters.
- Content.SuppressKey: `toUpperCase` is modelled on ASCII only, which may differ for non-ASCII key names.
- Text.Trim: the whitespace set is the JavaScript one written out; exotic code points outside it are not treated as whitespace.
- The overlay's HTML and CSS, its `dataset.timerInterval` bookkeeping, the right-click blocking on the overlay and the "Close Tab" button are left out; the overlay is counted, not built.
- The overlay placeholder is modelled as the text `25:00`; the surrounding whitespace of the HTML template is not.
- `renderSites`, `updateStats`, `showNotification` and the site counter are left out as DOM output. The list they would show is `blockedSites`, and the filtered list is `Search`.
- `exportSites` is left out because it only serialises the list to a download.
- Imported JSON arrays are modelled as lists of strings. Arrays holding non-string values, which the code would merge unchanged, are not modelled.
- `popup.js`, `settings.js`, `analytics.js` and `blocked.js` are not part of this model.
- Integer widths are not modelled. JavaScript numbers are doubles; all counters here stay far below 2^53, so they are unbounded integers.

## Findings

| source | as written | input that shows it | evidently intended | confidence | as-written member | corrected member |
|---|---|---|---|---|---|---|
| sites.js:47, sites.js:165-168 | the search view renders the filtered list, and each row's Remove button calls `removeSite(i)` with the row's index in the filtered list, which `splice`s that index out of the whole list | list [facebook.com, youtube.com], search "you": the one row shown is youtube.com, and its button removes facebook.com | the button removes the site on its row | high, not executed | Sites.SiteList.RemoveSite, Sites.FilteredRemoveHitsWrongSite | Sites.SiteList.RemoveShownSite |
| sites.js:61-63 | the emptiness test runs before the scheme, "www." and slash are stripped | typing `http://` adds the empty site, and an empty site matches every host, so every page is blocked during focus | refuse input that is empty after stripping | high, not executed | Sites.Normalize, Sites.SchemeOnlyInputBlocksEverything, Sites.SiteList.AddSite, Sites.SchemeOnlyAddBlocksEverything | Sites.NormalizeNonEmpty, Sites.SiteList.AddSiteCorrected |
