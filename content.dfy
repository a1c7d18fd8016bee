/** The script injected into every page: the page's own block flag, the
    overlay it keeps on screen while the page is blocked, the keyboard
    shortcuts it swallows and the countdown shown on the overlay. */
module Content {
  import opened Wrappers
  import opened Text
  import opened State
  import opened Clock
  import opened BlockPolicy

  // ---------------------------------------------------------------------------
  // The block decision and the keyboard guard

  /** The decision `checkBlockStatus` takes for this page from the stored
      settings: missing settings, an inactive timer or a break never block. */
  function ShouldBlockPage(settings: Option<Settings>, hostname: string): (r: bool)
    ensures settings.None? ==> !r
    ensures settings.Some? && !Enforcing(settings.value) ==> !r
    ensures settings.Some? && Enforcing(settings.value) ==>
      (r <==> exists site :: site in settings.value.blockedSites && SiteMatches(StripWww(hostname), site))
  {
    settings.Some? && Enforcing(settings.value) && IsBlocked(hostname, settings.value.blockedSites)
  }

  /** The page blocks itself exactly when the background would redirect a
      navigation to the same host. */
  lemma PageAgreesWithNavigation(s: Settings, hostname: string)
    ensures ShouldBlockPage(Some(s), hostname) == ShouldRedirect(s, Some(hostname))
  {
  }

  /** The keys that, with Ctrl or Cmd held, are swallowed on a blocked page. */
  const BypassKeys: seq<string> := ["F12", "I", "J", "C", "U"]

  lemma UpperSingleLetter(key: string, c: char)
    requires 'A' <= c <= 'Z'
    ensures ToUpper(key) == [c] <==> key == [c] || key == [(c as int + 32) as char]
  {
    if ToUpper(key) == [c] {
      assert |key| == 1;
      assert key == [key[0]];
    }
    if key == [(c as int + 32) as char] {
      var r := ToUpper(key);
      assert r[0] != key[0];
      assert r == [r[0]];
    }
  }

  lemma UpperF12(key: string, f: string)
    requires f == "F12"
    ensures ToUpper(key) == f <==> key == f || key == "f12"
  {
    var r := ToUpper(key);
    if r == f {
      assert |key| == 3;
      assert key[1] == '1' && key[2] == '2';
      assert key == [key[0], '1', '2'];
    }
    if key == "f12" {
      assert r[0] != key[0];
      assert r == [r[0], r[1], r[2]];
    }
  }

  /** Which key names upper-case into the bypass list: F12 and the letters
      I, J, C, U, each in either case. */
  lemma BypassKeyNames(key: string)
    ensures ToUpper(key) in BypassKeys <==>
      key in ["F12", "f12", "I", "i", "J", "j", "C", "c", "U", "u"]
  {
    UpperF12(key, "F12");
    UpperSingleLetter(key, 'I');
    UpperSingleLetter(key, 'J');
    UpperSingleLetter(key, 'C');
    UpperSingleLetter(key, 'U');
  }

  /** The keydown guard: whether the key event is cancelled. */
  function SuppressKey(isBlocked: bool, key: string, ctrl: bool, meta: bool): (r: bool)
    ensures !isBlocked ==> !r
    ensures isBlocked ==>
      (r <==> key == "F12" || ((ctrl || meta) && key in ["f12", "I", "i", "J", "j", "C", "c", "U", "u"]))
  {
    BypassKeyNames(key);
    isBlocked && (key == "F12" || ((ctrl || meta) && ToUpper(key) in BypassKeys))
  }

  // ---------------------------------------------------------------------------
  // The page's state

  /** What the overlay clock reads before its first update. */
  const Placeholder: string := "25:00"

  /** A request the background sends to the page. */
  datatype PageRequest = CheckBlock | ForceCheck | OtherRequest

  class PageGuard {
    /** `window.location.hostname`. */
    const hostname: string
    /** The script's `isBlocked` flag. */
    var isBlocked: bool
    /** How many overlay elements the page holds. */
    var overlays: nat
    /** How many times an overlay has been put on the page. */
    var timesShown: nat
    /** The text of the overlay's clock. */
    var timerText: string
    /** Whether the five-second re-check is scheduled. */
    var polling: bool

    /** An overlay is on the page only while the page is blocked, and never
        more than one. */
    ghost predicate Valid()
      reads this
    {
      overlays <= 1 && (overlays == 1 ==> isBlocked)
    }

    /** The script as it starts on a page: not blocked, no overlay. */
    constructor (hostname: string)
      ensures Valid()
      ensures this.hostname == hostname && !isBlocked && overlays == 0 && timesShown == 0
      ensures timerText == Placeholder && !polling
    {
      this.hostname := hostname;
      isBlocked := false;
      overlays := 0;
      timesShown := 0;
      timerText := Placeholder;
      polling := false;
    }

    /** `showBlockOverlay`: appends a fresh overlay whose clock reads the
        placeholder until its first update. */
    method ShowOverlay()
      requires overlays == 0
      modifies this`overlays, this`timesShown, this`timerText
      ensures overlays == 1 && timesShown == old(timesShown) + 1 && timerText == Placeholder
    {
      overlays := 1;
      timesShown := timesShown + 1;
      timerText := Placeholder;
    }

    /** `removeBlockOverlay`: removes the overlay, if there is one. */
    method RemoveOverlay()
      modifies this`overlays
      ensures overlays == 0
    {
      overlays := 0;
    }

    /** `checkBlockStatus` once the stored settings have been read: the flag
        follows the decision, and the overlay is added or removed only when
        the flag changes. */
    method CheckBlockStatus(settings: Option<Settings>)
      requires Valid()
      modifies this`isBlocked, this`overlays, this`timesShown, this`timerText
      ensures Valid()
      ensures isBlocked == ShouldBlockPage(settings, hostname)
      ensures !isBlocked ==> overlays == 0 && timesShown == old(timesShown)
      ensures isBlocked && !old(isBlocked) ==>
        overlays == 1 && timesShown == old(timesShown) + 1 && timerText == Placeholder
      ensures isBlocked && old(isBlocked) ==>
        overlays == old(overlays) && timesShown == old(timesShown) && timerText == old(timerText)
    {
      if settings.None? || !settings.value.isActive || settings.value.currentPhase != Focus {
        if isBlocked {
          RemoveOverlay();
          isBlocked := false;
        }
        return;
      }
      var shouldBlock := IsBlocked(hostname, settings.value.blockedSites);
      if shouldBlock && !isBlocked {
        ShowOverlay();
        isBlocked := true;
      } else if !shouldBlock && isBlocked {
        RemoveOverlay();
        isBlocked := false;
      }
    }

    /** The mutation observer and the visibility handler: a blocked page whose
        overlay has gone gets a new one; otherwise nothing happens. */
    method Reassert()
      requires Valid()
      modifies this`overlays, this`timesShown, this`timerText
      ensures Valid()
      ensures isBlocked ==> overlays == 1
      ensures timesShown == old(timesShown) + (if isBlocked && old(overlays) == 0 then 1 else 0)
      ensures isBlocked && old(overlays) == 0 ==> timerText == Placeholder
      ensures !(isBlocked && old(overlays) == 0) ==> overlays == old(overlays) && timerText == old(timerText)
    {
      if isBlocked && overlays == 0 {
        ShowOverlay();
      }
    }

    /** `visibilitychange`: only a page becoming visible re-asserts. */
    method OnVisibilityChange(visible: bool)
      requires Valid()
      modifies this`overlays, this`timesShown, this`timerText
      ensures Valid()
      ensures visible && isBlocked ==> overlays == 1
      ensures visible && isBlocked && old(overlays) == 0 ==>
        timesShown == old(timesShown) + 1 && timerText == Placeholder
      ensures !(visible && isBlocked && old(overlays) == 0) ==>
        overlays == old(overlays) && timesShown == old(timesShown) && timerText == old(timerText)
    {
      if visible {
        Reassert();
      }
    }

    /** The page's own scripts delete the overlay element. */
    method PageRemovesOverlay()
      requires Valid()
      modifies this`overlays
      ensures Valid() && overlays == 0
    {
      overlays := 0;
    }

    /** `updateOverlayTimer` with the background's answer to
        `getRemainingTime` (None when it does not answer). */
    method UpdateOverlayTimer(remaining: Option<int>)
      modifies this`timerText
      ensures old(overlays) == 1 && remaining.Some? && remaining.value > 0 ==>
        timerText == OverlayText(remaining.value) && ReadClock(timerText) == Some(remaining.value)
      ensures !(old(overlays) == 1 && remaining.Some? && remaining.value > 0) ==> timerText == old(timerText)
    {
      if overlays == 1 && remaining.Some? && remaining.value > 0 {
        var seconds: nat := remaining.value;
        timerText := OverlayText(seconds);
        OverlayRoundTrip(seconds);
      }
    }

    /** The message listener. `checkBlock` answers with the flag as it was
        when the request arrived, since the check it starts finishes only
        after the settings have been read. */
    method OnMessage(request: PageRequest, settings: Option<Settings>) returns (reply: Option<bool>)
      requires Valid()
      modifies this`isBlocked, this`overlays, this`timesShown, this`timerText
      ensures Valid()
      ensures reply == if request == CheckBlock then Some(old(isBlocked)) else None
      ensures request != OtherRequest ==> isBlocked == ShouldBlockPage(settings, hostname)
      ensures request != OtherRequest && !isBlocked ==> overlays == 0 && timesShown == old(timesShown)
      ensures request != OtherRequest && isBlocked && !old(isBlocked) ==>
        overlays == 1 && timesShown == old(timesShown) + 1 && timerText == Placeholder
      ensures request != OtherRequest && isBlocked && old(isBlocked) ==>
        overlays == old(overlays) && timesShown == old(timesShown) && timerText == old(timerText)
      ensures request == OtherRequest ==>
        isBlocked == old(isBlocked) && overlays == old(overlays) && timesShown == old(timesShown)
        && timerText == old(timerText)
    {
      reply := if request == CheckBlock then Some(isBlocked) else None;
      if request != OtherRequest {
        CheckBlockStatus(settings);
      }
    }

    /** `init`: the first check, then the five-second re-check. */
    method Init(settings: Option<Settings>)
      requires Valid()
      modifies this
      ensures Valid() && polling
      ensures isBlocked == ShouldBlockPage(settings, hostname)
      ensures !isBlocked ==> overlays == 0 && timesShown == old(timesShown)
      ensures isBlocked && !old(isBlocked) ==>
        overlays == 1 && timesShown == old(timesShown) + 1 && timerText == Placeholder
      ensures isBlocked && old(isBlocked) ==>
        overlays == old(overlays) && timesShown == old(timesShown) && timerText == old(timerText)
    {
      CheckBlockStatus(settings);
      polling := true;
    }

    /** `beforeunload`: the re-check stops and the overlay goes; the flag
        itself is left as it was. */
    method Unload()
      requires Valid()
      modifies this`overlays, this`polling
      ensures Valid() && !polling && overlays == 0
    {
      polling := false;
      RemoveOverlay();
    }
  }

  /** Checking twice with the same settings is checking once: the second
      check shows no further overlay and leaves the flag where it was. */
  method RepeatedCheck(g: PageGuard, settings: Option<Settings>)
    requires g.Valid()
    modifies g
    ensures g.Valid() && g.isBlocked == ShouldBlockPage(settings, g.hostname)
    ensures g.timesShown == old(g.timesShown) + (if g.isBlocked && !old(g.isBlocked) then 1 else 0)
    ensures g.isBlocked ==> g.overlays == (if old(g.isBlocked) then old(g.overlays) else 1)
    ensures !g.isBlocked ==> g.overlays == 0
  {
    g.CheckBlockStatus(settings);
    g.CheckBlockStatus(settings);
  }
}
