/** The two renderings of a countdown: the toolbar badge `M:SS` written on
    every tick, and the `MM:SS` clock inside the in-page blocking overlay,
    together with a reader that recovers the number of seconds from either. */
module Clock {
  import opened Wrappers
  import opened Text

  /** `s.padStart(2, '0')`: zeros in front until `s` is two characters long. */
  function Pad2(s: string): string
  {
    if |s| >= 2 then s else if |s| == 1 then "0" + s else "00"
  }

  /** Padding reaches width two, keeps `s` at the end and puts only zeros in
      front of it. */
  lemma Pad2Pads(s: string)
    ensures var r := Pad2(s);
      && |r| == (if |s| >= 2 then |s| else 2)
      && r[|r| - |s|..] == s
      && forall i :: 0 <= i < |r| - |s| ==> r[i] == '0'
  {
  }

  /** Badge text for `t` remaining seconds: whole minutes without padding,
      then the seconds as two digits. */
  function BadgeText(t: nat): string
  {
    DecimalString(t / 60) + ":" + Pad2(DecimalString(t % 60))
  }

  /** Overlay clock for `t` remaining seconds: both fields padded to two digits. */
  function OverlayText(t: nat): string
  {
    Pad2(DecimalString(t / 60)) + ":" + Pad2(DecimalString(t % 60))
  }

  /** In `m:p` with a two-character `p`, the colon stands third from the end
      and splits the text back into `m` and `p`. */
  lemma FieldsOf(m: string, p: string)
    requires |p| == 2
    ensures var r := m + ":" + p;
      |r| == |m| + 3 && r[|r| - 3] == ':' && r[..|r| - 3] == m && r[|r| - 2..] == p
  {
    var r := m + ":" + p;
    assert r[..|r| - 3] == m;
    assert r[|r| - 2..] == p;
  }

  /** Reads a clock `M…M:SS` (at least one minute digit, exactly two second
      digits, seconds below 60) back into a number of seconds. */
  function ReadClock(text: string): Option<nat>
  {
    if |text| >= 4 && text[|text| - 3] == ':'
       && AllDigits(text[..|text| - 3]) && AllDigits(text[|text| - 2..])
       && DigitsValue(text[|text| - 2..]) < 60
    then Some(DigitsValue(text[..|text| - 3]) * 60 + DigitsValue(text[|text| - 2..]))
    else None
  }

  /** A number rendered and padded is a digit string of at least two
      characters, and of exactly two below 100. */
  lemma Pad2Width(n: nat)
    ensures AllDigits(Pad2(DecimalString(n)))
    ensures |Pad2(DecimalString(n))| >= 2
    ensures n < 100 ==> |Pad2(DecimalString(n))| == 2
  {
    if 10 <= n < 100 {
      assert DecimalString(n / 10) == [DigitChar(n / 10)];
    }
  }

  /** A number rendered and padded to two places keeps its value. */
  lemma Pad2Value(n: nat)
    ensures AllDigits(Pad2(DecimalString(n)))
    ensures DigitsValue(Pad2(DecimalString(n))) == n
  {
    var d := DecimalString(n);
    DecimalStringValue(n);
    if |d| < 2 {
      assert Pad2(d) == "0" + d;
      LeadingZeroValue(d);
    }
  }

  /** Reading `m:p` gives back `t` when the fields denote its minutes and its
      seconds. */
  lemma ReadFields(t: nat, m: string, p: string)
    requires m != [] && AllDigits(m) && DigitsValue(m) == t / 60
    requires |p| == 2 && AllDigits(p) && DigitsValue(p) == t % 60
    ensures ReadClock(m + ":" + p) == Some(t)
  {
    var text := m + ":" + p;
    assert text[..|text| - 3] == m;
    assert text[|text| - 2..] == p;
  }

  /** The clock reader inverts the renderer for any minutes field `m` that is a
      digit string denoting `t / 60`. */
  lemma ReadRendered(t: nat, m: string)
    requires m != [] && AllDigits(m) && DigitsValue(m) == t / 60
    ensures ReadClock(m + ":" + Pad2(DecimalString(t % 60))) == Some(t)
  {
    Pad2Value(t % 60);
    Pad2Width(t % 60);
    ReadFields(t, m, Pad2(DecimalString(t % 60)));
  }

  /** The badge text denotes exactly the remaining seconds. */
  lemma BadgeRoundTrip(t: nat)
    ensures ReadClock(BadgeText(t)) == Some(t)
  {
    DecimalStringValue(t / 60);
    ReadRendered(t, DecimalString(t / 60));
  }

  /** The overlay clock denotes exactly the remaining seconds. */
  lemma OverlayRoundTrip(t: nat)
    ensures ReadClock(OverlayText(t)) == Some(t)
  {
    Pad2Value(t / 60);
    ReadRendered(t, Pad2(DecimalString(t / 60)));
  }

  /** Different remaining times never show the same badge. */
  lemma BadgeInjective(a: nat, b: nat)
    requires BadgeText(a) == BadgeText(b)
    ensures a == b
  {
    BadgeRoundTrip(a);
    BadgeRoundTrip(b);
  }

  /** The badge is the unpadded minutes, a colon and two seconds digits. */
  lemma BadgeShape(t: nat)
    ensures var r := BadgeText(t);
      && |r| >= 4 && r[|r| - 3] == ':'
      && AllDigits(r[..|r| - 3]) && AllDigits(r[|r| - 2..])
  {
    Pad2Width(t % 60);
    FieldsOf(DecimalString(t / 60), Pad2(DecimalString(t % 60)));
  }

  /** The overlay clock is two or more minute digits, a colon and two seconds
      digits. */
  lemma OverlayShape(t: nat)
    ensures var r := OverlayText(t);
      && |r| >= 5 && r[|r| - 3] == ':'
      && AllDigits(r[..|r| - 3]) && AllDigits(r[|r| - 2..])
  {
    Pad2Width(t / 60);
    Pad2Width(t % 60);
    FieldsOf(Pad2(DecimalString(t / 60)), Pad2(DecimalString(t % 60)));
  }
}
