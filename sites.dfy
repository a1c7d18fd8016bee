/** The blocked-site list editor of the options page: the list the page holds,
    its add, quick-add, remove, clear and import operations, the normalisation
    of typed input and the search filter. */
module Sites {
  import opened Wrappers
  import opened Text
  import opened BlockPolicy

  // ---------------------------------------------------------------------------
  // Normalisation of typed input

  /** `.replace(/^https?:\/\//, '')`: one leading scheme is dropped. */
  function StripScheme(s: string): (r: string)
    ensures |r| <= |s| && r == s[|s| - |r|..]
    ensures StartsWith(s, "http://") ==> r == s[7..]
    ensures StartsWith(s, "https://") ==> r == s[8..]
    ensures !StartsWith(s, "http://") && !StartsWith(s, "https://") ==> r == s
  {
    assert StartsWith(s, "http://") ==> s[4] == ':';
    assert StartsWith(s, "https://") ==> s[4] == 's';
    if StartsWith(s, "https://") then s[8..]
    else if StartsWith(s, "http://") then s[7..]
    else s
  }

  /** `.replace(/^www\./, '')`: one leading "www." is dropped. */
  function StripLeadingWww(s: string): (r: string)
    ensures |r| <= |s| && r == s[|s| - |r|..]
    ensures StartsWith(s, "www.") ==> r == s[4..]
    ensures !StartsWith(s, "www.") ==> r == s
  {
    if StartsWith(s, "www.") then s[4..] else s
  }

  /** `.replace(/\/$/, '')`: one trailing slash is dropped. */
  function StripTrailingSlash(s: string): (r: string)
    ensures |r| <= |s| && r == s[..|r|]
    ensures EndsWith(s, "/") ==> r == s[..|s| - 1] && s[|s| - 1] == '/'
    ensures !EndsWith(s, "/") ==> r == s
  {
    if EndsWith(s, "/") then s[..|s| - 1] else s
  }

  /** The trimmed, lower-cased input, before any prefix is stripped. */
  function Cleaned(raw: string): (t: string)
    ensures NoUpper(t) && (t == [] <==> Trim(raw) == [])
  {
    ToLower(Trim(raw))
  }

  /** `addSite`'s normalisation. The emptiness test comes before the strips,
      so only blank input is refused. */
  function Normalize(raw: string): (r: Option<string>)
    ensures r.None? <==> Trim(raw) == []
    ensures r.Some? ==> NoUpper(r.value) && Includes(Cleaned(raw), r.value)
  {
    var t := Cleaned(raw);
    if t == [] then None
    else
      var a := StripScheme(t);
      var b := StripLeadingWww(a);
      var r := StripTrailingSlash(b);
      CleanedPartKept(t, a, b, r);
      Some(r)
  }

  /** A prefix of a suffix of a suffix of a lower-case text is a lower-case
      part of it. */
  lemma CleanedPartKept(t: string, a: string, b: string, r: string)
    requires NoUpper(t)
    requires |a| <= |t| && a == t[|t| - |a|..]
    requires |b| <= |a| && b == a[|a| - |b|..]
    requires |r| <= |b| && r == b[..|r|]
    ensures NoUpper(r) && Includes(t, r)
  {
    var i := |t| - |b|;
    assert b == t[i..];
    assert r == t[i..i + |r|];
    assert OccursAt(t, r, i);
  }

  /** Input that is already a bare lower-case host is kept as typed. */
  lemma NormalizeKeepsBareHost(raw: string)
    requires raw != [] && !IsWhitespace(raw[0]) && !IsWhitespace(raw[|raw| - 1]) && NoUpper(raw)
    requires !StartsWith(raw, "http://") && !StartsWith(raw, "https://")
    requires !StartsWith(raw, "www.") && !EndsWith(raw, "/")
    ensures Normalize(raw) == Some(raw)
  {
    assert Trim(raw) == raw;
    assert ToLower(raw) == raw;
  }

  /** The scheme is stripped once only: whatever follows "http://" is kept,
      even a second scheme. */
  lemma SchemeStrippedOnce(raw: string, rest: string)
    requires Cleaned(raw) == "http://" + rest
    requires !StartsWith(rest, "www.") && !EndsWith(rest, "/")
    ensures Normalize(raw) == Some(rest)
  {
    var t := Cleaned(raw);
    assert t != [];
    assert !StartsWith(t, "https://") by {
      assert t[4] == ':';
      assert |t| < 8 || t[..8][4] != "https://"[4];
    }
    assert t[..7] == "http://";
    assert StripScheme(t) == rest;
    assert StripLeadingWww(rest) == rest;
    assert StripTrailingSlash(rest) == rest;
  }

  /** Whitespace around a text that neither starts nor ends with whitespace
      is exactly what `trim` removes. */
  lemma TrimPadded(ws1: string, m: string, ws2: string)
    requires forall k :: 0 <= k < |ws1| ==> IsWhitespace(ws1[k])
    requires forall k :: 0 <= k < |ws2| ==> IsWhitespace(ws2[k])
    requires m != [] && !IsWhitespace(m[0]) && !IsWhitespace(m[|m| - 1])
    ensures Trim(ws1 + m + ws2) == m
  {
    var s := ws1 + m + ws2;
    LeadingWsPadded(ws1, m, ws2);
    var r := Trim(s);
    var i := |ws1|;
    assert s[i + |m| - 1] == m[|m| - 1];
    assert r != [];
    assert s[i + |r| - 1] == r[|r| - 1];
    assert forall k :: i + |m| <= k < |s| ==> s[k] == ws2[k - i - |m|];
    assert |r| == |m|;
    assert r == s[i..i + |m|] == m;
  }

  /** The whitespace run at the front of a padded text is the padding. */
  lemma LeadingWsPadded(ws1: string, m: string, ws2: string)
    requires forall k :: 0 <= k < |ws1| ==> IsWhitespace(ws1[k])
    requires m != [] && !IsWhitespace(m[0])
    ensures LeadingWs(ws1 + m + ws2) == |ws1|
  {
    var s := ws1 + m + ws2;
    assert s[|ws1|] == m[0];
    assert forall k :: 0 <= k < |ws1| ==> s[k] == ws1[k];
  }

  /** Text without upper-case letters is its own lower case. */
  lemma LowerKeeps(s: string)
    requires NoUpper(s)
    ensures ToLower(s) == s
  {
  }

  /** `StripScheme` on a host with an optional scheme in front removes
      exactly that scheme. */
  lemma SchemeRemoved(p: string, x: string)
    requires p in {"", "http://", "https://"}
    requires p == "" ==> !StartsWith(x, "http://") && !StartsWith(x, "https://")
    ensures StripScheme(p + x) == x
  {
    assert (p + x)[..|p|] == p && (p + x)[|p|..] == x;
  }

  /** `StripLeadingWww` on a host with an optional "www." in front removes
      exactly that "www.". */
  lemma WwwRemoved(w: string, x: string)
    requires w in {"", "www."}
    requires w == "" ==> !StartsWith(x, "www.")
    ensures StripLeadingWww(w + x) == x
  {
    assert (w + x)[..|w|] == w && (w + x)[|w|..] == x;
  }

  /** `StripTrailingSlash` on a host with an optional slash after it removes
      exactly that slash. */
  lemma SlashRemoved(x: string, e: string)
    requires e in {"", "/"}
    requires e == "" ==> !EndsWith(x, "/")
    ensures StripTrailingSlash(x + e) == x
  {
    assert (x + e)[..|x|] == x;
    assert e == "/" ==> (x + e)[|x + e| - 1..] == "/";
  }

  /** A slash after a host that does not start with "www." does not make
      one. */
  lemma NoWwwWithSlash(h: string, e: string)
    requires e in {"", "/"} && !StartsWith(h, "www.")
    ensures !StartsWith(h + e, "www.")
  {
    var x := h + e;
    if |h| >= 4 { assert x[..4] == h[..4]; }
    else if |x| >= 4 { assert x[3] == '/'; }
  }

  /** An optional "www." and slash around a host that does not start with
      "http:" or "https:" make no scheme. */
  lemma NoSchemeWithWww(w: string, h: string, e: string)
    requires w in {"", "www."} && e in {"", "/"}
    requires h != [] && !StartsWith(h, "http:") && !StartsWith(h, "https:")
    ensures !StartsWith(w + h + e, "http://") && !StartsWith(w + h + e, "https://")
  {
    var y := w + h + e;
    if w != "" {
      assert y[0] == 'w';
    } else {
      assert y == h + e;
      if |h| >= 6 {
        assert y[..5] == h[..5] && y[..6] == h[..6];
      }
      if |y| >= 8 {
        assert y[..8][..6] == y[..6] && "https://"[..6] == "https:";
      }
    }
  }

  /** The prefix and suffix strips of `addSite`, applied to a bare host with
      an optional scheme, "www." and slash around it, give back the host. */
  lemma StripsDecorated(p: string, w: string, h: string, e: string)
    requires p in {"", "http://", "https://"} && w in {"", "www."} && e in {"", "/"}
    requires h != [] && !StartsWith(h, "http:") && !StartsWith(h, "https:")
    requires !StartsWith(h, "www.") && !EndsWith(h, "/")
    ensures StripTrailingSlash(StripLeadingWww(StripScheme(p + w + h + e))) == h
  {
    var x := h + e;
    NoWwwWithSlash(h, e);
    NoSchemeWithWww(w, h, e);
    assert w + h + e == w + x;
    assert p + w + h + e == p + (w + x);
    SchemeRemoved(p, w + x);
    WwwRemoved(w, x);
    SlashRemoved(h, e);
  }

  /** Trimming and lower-casing a padded text that has no upper-case letters
      and no whitespace at its ends gives back that text. */
  lemma CleanedPadded(ws1: string, m: string, ws2: string)
    requires forall k :: 0 <= k < |ws1| ==> IsWhitespace(ws1[k])
    requires forall k :: 0 <= k < |ws2| ==> IsWhitespace(ws2[k])
    requires m != [] && !IsWhitespace(m[0]) && !IsWhitespace(m[|m| - 1]) && NoUpper(m)
    ensures Cleaned(ws1 + m + ws2) == m
  {
    TrimPadded(ws1, m, ws2);
    LowerKeeps(m);
  }

  /** A bare host with an optional scheme, "www." and slash around it is
      non-empty, has no upper-case letter and has no whitespace at its ends. */
  lemma DecoratedHostShape(p: string, w: string, h: string, e: string)
    requires p in {"", "http://", "https://"} && w in {"", "www."} && e in {"", "/"}
    requires h != [] && NoUpper(h) && !IsWhitespace(h[0]) && !IsWhitespace(h[|h| - 1])
    ensures var m := p + w + h + e;
      m != [] && !IsWhitespace(m[0]) && !IsWhitespace(m[|m| - 1]) && NoUpper(m)
  {
    var m := p + w + h + e;
    assert m[0] == if p != "" then 'h' else if w != "" then 'w' else h[0];
    assert m[|m| - 1] == if e != "" then '/' else h[|h| - 1];
    forall k | 0 <= k < |m| ensures !('A' <= m[k] <= 'Z') {
      if |p| + |w| <= k < |p| + |w| + |h| {
        assert m[k] == h[k - |p| - |w|];
      }
    }
  }

  /** Whatever way a bare host is typed (surrounding whitespace, an optional
      "http://" or "https://", an optional "www.", an optional trailing
      slash), the stored site is that host. A bare host is non-empty,
      lower-case, has no whitespace at either end, and does not itself start
      with a scheme or "www." or end in a slash. */
  lemma NormalizeStripsDecorations(ws1: string, p: string, w: string, h: string, e: string, ws2: string)
    requires forall k :: 0 <= k < |ws1| ==> IsWhitespace(ws1[k])
    requires forall k :: 0 <= k < |ws2| ==> IsWhitespace(ws2[k])
    requires p in {"", "http://", "https://"} && w in {"", "www."} && e in {"", "/"}
    requires h != [] && NoUpper(h) && !IsWhitespace(h[0]) && !IsWhitespace(h[|h| - 1])
    requires !StartsWith(h, "http:") && !StartsWith(h, "https:")
    requires !StartsWith(h, "www.") && !EndsWith(h, "/")
    ensures Normalize(ws1 + p + w + h + e + ws2) == Some(h)
  {
    var m := p + w + h + e;
    assert ws1 + p + w + h + e + ws2 == ws1 + m + ws2;
    DecoratedHostShape(p, w, h, e);
    CleanedPadded(ws1, m, ws2);
    StripsDecorated(p, w, h, e);
  }

  /** Input made only of a scheme is accepted and normalises to the empty
      site, and an empty site blocks every host. */
  lemma SchemeOnlyInputBlocksEverything(raw: string, host: string)
    requires raw == "http://"
    ensures Normalize(raw) == Some("")
    ensures IsBlocked(host, [""])
  {
    assert raw[0] == 'h' && raw[|raw| - 1] == '/';
    assert Trim(raw) == raw;
    assert ToLower(raw) == raw;
    assert StartsWith(raw, "http://");
    EmptySiteBlocksAll(host, [""]);
  }

  /** The normalisation with the emptiness test moved after the strips, so that
      no empty site can be produced. */
  function NormalizeNonEmpty(raw: string): (r: Option<string>)
    ensures r.Some? ==> r.value != []
    ensures r == if Normalize(raw) == Some("") then None else Normalize(raw)
  {
    var t := Cleaned(raw);
    var r := StripTrailingSlash(StripLeadingWww(StripScheme(t)));
    if r == [] then None else Some(r)
  }

  // ---------------------------------------------------------------------------
  // Distinct elements, as `[...new Set(s)]` computes them

  ghost predicate NoDuplicates(s: seq<string>)
  {
    forall i, j :: 0 <= i < j < |s| ==> s[i] != s[j]
  }

  /** Adds the elements of `s` to `acc` in order, skipping those already
      present: what filling a `Set` does. */
  function AddDistinct(acc: seq<string>, s: seq<string>): (r: seq<string>)
    ensures NoDuplicates(acc) ==> NoDuplicates(r)
    ensures |acc| <= |r| && r[..|acc|] == acc
    ensures forall x :: x in r <==> x in acc || x in s
    decreases |s|
  {
    if s == [] then acc
    else
      var acc' := if s[0] in acc then acc else acc + [s[0]];
      assert forall x :: x in s <==> x == s[0] || x in s[1..];
      var r := AddDistinct(acc', s[1..]);
      assert r[..|acc|] == r[..|acc'|][..|acc|];
      r
  }

  /** `[...new Set(s)]`. */
  function Distinct(s: seq<string>): (r: seq<string>)
    ensures NoDuplicates(r)
    ensures forall x :: x in r <==> x in s
  {
    AddDistinct([], s)
  }

  /** The reference reading of "distinct, in first-occurrence order": keep
      each element that does not occur earlier. */
  ghost function FirstOccurrences(s: seq<string>): seq<string>
  {
    if s == [] then []
    else
      var p := s[..|s| - 1];
      FirstOccurrences(p) + (if s[|s| - 1] in p then [] else [s[|s| - 1]])
  }

  lemma {:induction false} AddDistinctSnoc(acc: seq<string>, p: seq<string>, x: string)
    ensures AddDistinct(acc, p + [x]) ==
      var r := AddDistinct(acc, p); if x in r then r else r + [x]
    decreases |p|
  {
    if p == [] {
      assert AddDistinct(acc, [x]) == AddDistinct(if x in acc then acc else acc + [x], []);
    } else {
      var acc' := if p[0] in acc then acc else acc + [p[0]];
      assert (p + [x])[0] == p[0] && (p + [x])[1..] == p[1..] + [x];
      AddDistinctSnoc(acc', p[1..], x);
    }
  }

  /** Filling a set keeps exactly the first occurrences, in order. */
  lemma {:induction false} DistinctIsFirstOccurrences(s: seq<string>)
    ensures Distinct(s) == FirstOccurrences(s)
    decreases |s|
  {
    if s != [] {
      var p, x := s[..|s| - 1], s[|s| - 1];
      assert s == p + [x];
      DistinctIsFirstOccurrences(p);
      AddDistinctSnoc([], p, x);
    }
  }

  lemma {:induction false} AddDistinctAppend(acc: seq<string>, a: seq<string>, b: seq<string>)
    ensures AddDistinct(acc, a + b) == AddDistinct(AddDistinct(acc, a), b)
    decreases |a|
  {
    if a != [] {
      var acc' := if a[0] in acc then acc else acc + [a[0]];
      assert (a + b)[0] == a[0] && (a + b)[1..] == a[1..] + b;
      AddDistinctAppend(acc', a[1..], b);
    } else {
      assert a + b == b;
    }
  }

  /** Adding elements that are all present already changes nothing. */
  lemma {:induction false} AddDistinctAbsorbs(acc: seq<string>, s: seq<string>)
    requires forall x :: x in s ==> x in acc
    ensures AddDistinct(acc, s) == acc
    decreases |s|
  {
    if s != [] {
      assert s[0] in s;
      assert forall x :: x in s[1..] ==> x in s;
      AddDistinctAbsorbs(acc, s[1..]);
    }
  }

  /** A duplicate-free list is its own set of distinct elements. */
  lemma {:induction false} AddDistinctFresh(acc: seq<string>, s: seq<string>)
    requires NoDuplicates(acc + s)
    ensures AddDistinct(acc, s) == acc + s
    decreases |s|
  {
    if s != [] {
      assert (acc + s)[|acc|] == s[0];
      assert s[0] !in acc by {
        forall i | 0 <= i < |acc| ensures acc[i] != s[0] {
          assert (acc + s)[i] == acc[i];
        }
      }
      assert acc + s == (acc + [s[0]]) + s[1..];
      AddDistinctFresh(acc + [s[0]], s[1..]);
    }
  }

  /** The import merge `[...new Set([...current, ...imported])]`. */
  function Merge(current: seq<string>, imported: seq<string>): (r: seq<string>)
    ensures NoDuplicates(r)
    ensures forall x :: x in r <==> x in current || x in imported
  {
    Distinct(current + imported)
  }

  /** Merging into a duplicate-free list keeps that list, unchanged and in
      order, at the front, and appends the new elements after it. */
  lemma MergeKeepsCurrentFirst(current: seq<string>, imported: seq<string>)
    requires NoDuplicates(current)
    ensures Merge(current, imported) == AddDistinct(current, imported)
    ensures |current| <= |Merge(current, imported)|
    ensures Merge(current, imported)[..|current|] == current
  {
    AddDistinctAppend([], current, imported);
    AddDistinctFresh([], current);
    assert [] + current == current;
  }

  /** Importing the same file a second time changes nothing. */
  lemma MergeIdempotent(current: seq<string>, imported: seq<string>)
    ensures Merge(Merge(current, imported), imported) == Merge(current, imported)
  {
    var m := Merge(current, imported);
    MergeKeepsCurrentFirst(m, imported);
    AddDistinctAbsorbs(m, imported);
  }

  /** Importing sites that are all listed already, followed by new distinct
      ones, appends exactly the new ones. */
  lemma MergeAppendsNew(cur: seq<string>, dup: seq<string>, extra: seq<string>)
    requires forall x :: x in dup ==> x in cur
    requires NoDuplicates(cur + extra)
    ensures Merge(cur, dup + extra) == cur + extra
  {
    assert NoDuplicates(cur) by {
      forall i, j | 0 <= i < j < |cur| ensures cur[i] != cur[j] {
        assert (cur + extra)[i] == cur[i] && (cur + extra)[j] == cur[j];
      }
    }
    MergeKeepsCurrentFirst(cur, dup + extra);
    AddDistinctAppend(cur, dup, extra);
    AddDistinctAbsorbs(cur, dup);
    AddDistinctFresh(cur, extra);
  }

  /** Importing a, a, b into [a] gives the two distinct sites. */
  lemma MergeExample(a: string, b: string)
    requires a != b
    ensures Merge([a], [a, a, b]) == [a, b]
  {
    assert [a, a, b] == [a, a] + [b] && [a, b] == [a] + [b];
    MergeAppendsNew([a], [a, a], [b]);
  }

  // ---------------------------------------------------------------------------
  // Search filter and removal

  /** `a` is `b` with some elements left out, order kept. */
  ghost predicate Subsequence(a: seq<string>, b: seq<string>)
    decreases |b|
  {
    a == [] || (b != [] && ((a[0] == b[0] && Subsequence(a[1..], b[1..])) || Subsequence(a, b[1..])))
  }

  /** `sites.filter(s => s.includes(q))`. */
  function Filter(sites: seq<string>, q: string): (r: seq<string>)
    ensures forall x :: x in r <==> x in sites && Includes(x, q)
    ensures Subsequence(r, sites)
  {
    if sites == [] then []
    else
      var rest := Filter(sites[1..], q);
      assert forall x :: x in sites <==> x == sites[0] || x in sites[1..];
      if Includes(sites[0], q) then
        var r := [sites[0]] + rest;
        assert r[1..] == rest;
        r
      else rest
  }

  /** The search shows each matching site as often as it is listed, and no
      other site. */
  lemma {:induction false} FilterCounts(sites: seq<string>, q: string, x: string)
    ensures multiset(Filter(sites, q))[x] == if Includes(x, q) then multiset(sites)[x] else 0
  {
    if sites != [] {
      FilterCounts(sites[1..], q, x);
      assert sites == [sites[0]] + sites[1..];
      assert multiset(sites) == multiset{sites[0]} + multiset(sites[1..]);
      if Includes(sites[0], q) {
        assert Filter(sites, q) == [sites[0]] + Filter(sites[1..], q);
        assert multiset(Filter(sites, q)) == multiset{sites[0]} + multiset(Filter(sites[1..], q));
      }
    }
  }

  /** An empty query shows every site. */
  lemma {:induction false} EmptyQueryShowsAll(sites: seq<string>)
    ensures Filter(sites, "") == sites
  {
    if sites != [] {
      IncludesItself(sites[0]);
      EmptyQueryShowsAll(sites[1..]);
    }
  }

  /** The index `splice(i, 1)` starts at: a negative `i` counts from the end;
      both are clamped to the list. */
  function SpliceStart(len: nat, i: int): (k: nat)
    ensures k <= len
    ensures 0 <= i <= len ==> k == i
  {
    if i < 0 then (if len + i < 0 then 0 else len + i)
    else if i > len then len
    else i
  }

  /** The list after `splice(i, 1)`. */
  function RemoveAt(s: seq<string>, i: int): (r: seq<string>)
    ensures 0 <= i < |s| ==> |r| == |s| - 1 && multiset(r) + multiset{s[i]} == multiset(s)
    ensures 0 <= i < |s| ==> r[..i] == s[..i] && r[i..] == s[i + 1..]
    ensures i >= |s| ==> r == s
  {
    var k := SpliceStart(|s|, i);
    if k < |s| then
      assert s == s[..k] + [s[k]] + s[k + 1..];
      s[..k] + s[k + 1..]
    else s
  }

  /** Removing one element keeps the others in their order and adds no
      duplicate. */
  lemma RemoveAtKeepsOrder(s: seq<string>, i: int)
    requires 0 <= i < |s|
    ensures NoDuplicates(s) ==> NoDuplicates(RemoveAt(s, i)) && s[i] !in RemoveAt(s, i)
  {
    var r := RemoveAt(s, i);
    assert forall j :: 0 <= j < |r| ==> r[j] == if j < i then s[j] else s[j + 1];
  }

  /** The first index of `x` in `s`. */
  function Find(s: seq<string>, x: string): (k: nat)
    requires x in s
    ensures k < |s| && s[k] == x && x !in s[..k]
  {
    if s[0] == x then 0
    else
      var k := Find(s[1..], x) + 1;
      assert s[..k] == [s[0]] + s[1..][..k - 1];
      k
  }

  // ---------------------------------------------------------------------------
  // The page's list

  /** What `addSite` reports. */
  datatype AddOutcome = EmptyInput | AlreadyBlocked | Added(site: string)

  class SiteList {
    /** The list shown and edited on the page. */
    var blockedSites: seq<string>
    /** `settings.blockedSites` as last saved to storage. */
    var saved: seq<string>

    /** `loadSites`: the stored list, or an empty one when there is none. */
    constructor Load(stored: Option<seq<string>>)
      ensures blockedSites == (if stored.Some? then stored.value else [])
      ensures saved == blockedSites
    {
      blockedSites := if stored.Some? then stored.value else [];
      saved := blockedSites;
    }

    /** `saveSites`. */
    method Save()
      modifies this`saved
      ensures saved == blockedSites
    {
      saved := blockedSites;
    }

    /** The part of `addSite` after normalisation: no site refuses the input,
        a listed site is refused without change, and a new one is appended and
        saved. */
    method AddNormalized(site: Option<string>) returns (outcome: AddOutcome)
      modifies this
      ensures site.None? ==>
        outcome == EmptyInput && blockedSites == old(blockedSites) && saved == old(saved)
      ensures site.Some? && site.value in old(blockedSites) ==>
        outcome == AlreadyBlocked && blockedSites == old(blockedSites) && saved == old(saved)
      ensures site.Some? && site.value !in old(blockedSites) ==>
        outcome == Added(site.value) && blockedSites == old(blockedSites) + [site.value] && saved == blockedSites
      ensures NoDuplicates(old(blockedSites)) ==> NoDuplicates(blockedSites)
    {
      if site.None? {
        return EmptyInput;
      }
      if site.value in blockedSites {
        return AlreadyBlocked;
      }
      AppendFresh(blockedSites, site.value);
      blockedSites := blockedSites + [site.value];
      Save();
      outcome := Added(site.value);
    }

    /** `addSite` with the text typed into the input box. Only blank input is
        refused: input that is empty once stripped, such as "http://", adds
        the empty site. */
    method AddSite(input: string) returns (outcome: AddOutcome)
      modifies this
      ensures Normalize(input).None? ==>
        outcome == EmptyInput && blockedSites == old(blockedSites) && saved == old(saved)
      ensures Normalize(input).Some? && Normalize(input).value in old(blockedSites) ==>
        outcome == AlreadyBlocked && blockedSites == old(blockedSites) && saved == old(saved)
      ensures Normalize(input).Some? && Normalize(input).value !in old(blockedSites) ==>
        outcome == Added(Normalize(input).value)
        && blockedSites == old(blockedSites) + [Normalize(input).value] && saved == blockedSites
      ensures NoDuplicates(old(blockedSites)) ==> NoDuplicates(blockedSites)
    {
      outcome := AddNormalized(Normalize(input));
    }

    /** `addSite` with the emptiness test moved after the strips
        (`NormalizeNonEmpty`), so that it never adds the empty site. */
    method AddSiteCorrected(input: string) returns (outcome: AddOutcome)
      modifies this
      ensures NormalizeNonEmpty(input).None? ==>
        outcome == EmptyInput && blockedSites == old(blockedSites) && saved == old(saved)
      ensures NormalizeNonEmpty(input).Some? && NormalizeNonEmpty(input).value in old(blockedSites) ==>
        outcome == AlreadyBlocked && blockedSites == old(blockedSites) && saved == old(saved)
      ensures NormalizeNonEmpty(input).Some? && NormalizeNonEmpty(input).value !in old(blockedSites) ==>
        outcome == Added(NormalizeNonEmpty(input).value)
        && blockedSites == old(blockedSites) + [NormalizeNonEmpty(input).value] && saved == blockedSites
      ensures NoDuplicates(old(blockedSites)) ==> NoDuplicates(blockedSites)
      ensures "" in blockedSites ==> "" in old(blockedSites)
    {
      var site := NormalizeNonEmpty(input);
      outcome := AddNormalized(site);
      assert site.Some? ==> site.value != "";
    }

    /** `quickAdd` with a preset site, taken as given. */
    method QuickAdd(site: string) returns (added: bool)
      modifies this
      ensures added == (site !in old(blockedSites))
      ensures blockedSites == if added then old(blockedSites) + [site] else old(blockedSites)
      ensures saved == if added then blockedSites else old(saved)
      ensures NoDuplicates(old(blockedSites)) ==> NoDuplicates(blockedSites)
    {
      added := site !in blockedSites;
      if added {
        AppendFresh(blockedSites, site);
        blockedSites := blockedSites + [site];
        Save();
      }
    }

    /** `removeSite(i)`: `splice(i, 1)` on the whole list. */
    method RemoveSite(i: int) returns (removed: seq<string>)
      modifies this
      ensures blockedSites == RemoveAt(old(blockedSites), i) && saved == blockedSites
      ensures 0 <= i < |old(blockedSites)| ==> removed == [old(blockedSites)[i]]
      ensures i >= |old(blockedSites)| ==> removed == []
      ensures NoDuplicates(old(blockedSites)) ==> NoDuplicates(blockedSites)
    {
      var k := SpliceStart(|blockedSites|, i);
      removed := if k < |blockedSites| then [blockedSites[k]] else [];
      if 0 <= i < |blockedSites| {
        RemoveAtKeepsOrder(blockedSites, i);
      }
      NoDuplicatesAfterRemove(blockedSites, i);
      blockedSites := RemoveAt(blockedSites, i);
      Save();
    }

    /** Removes the `i`-th site of the list as the search view shows it for
        `query`, rather than the `i`-th of the whole list. */
    method RemoveShownSite(query: string, i: int) returns (removed: seq<string>)
      modifies this
      ensures var shown := Filter(old(blockedSites), ToLower(query));
        0 <= i < |shown| ==>
          && removed == [shown[i]]
          && blockedSites == RemoveAt(old(blockedSites), Find(old(blockedSites), shown[i]))
          && |blockedSites| == |old(blockedSites)| - 1
          && multiset(blockedSites) + multiset{shown[i]} == multiset(old(blockedSites))
          && saved == blockedSites
      ensures var shown := Filter(old(blockedSites), ToLower(query));
        !(0 <= i < |shown|) ==> removed == [] && blockedSites == old(blockedSites) && saved == old(saved)
    {
      var shown := Filter(blockedSites, ToLower(query));
      if 0 <= i < |shown| {
        var k := Find(blockedSites, shown[i]);
        blockedSites := RemoveAt(blockedSites, k);
        Save();
        removed := [shown[i]];
      } else {
        removed := [];
      }
    }

    /** `clearAllSites`, after the confirmation dialog answered `confirmed`. */
    method ClearAllSites(confirmed: bool)
      modifies this
      ensures confirmed ==> blockedSites == [] && saved == []
      ensures !confirmed ==> blockedSites == old(blockedSites) && saved == old(saved)
    {
      if confirmed {
        blockedSites := [];
        Save();
      }
    }

    /** The import reader: `imported` is None when the file is not JSON or not
        an array, which leaves the list as it was. */
    method ImportSites(imported: Option<seq<string>>) returns (ok: bool)
      modifies this
      ensures ok == imported.Some?
      ensures imported.None? ==> blockedSites == old(blockedSites) && saved == old(saved)
      ensures imported.Some? ==>
        blockedSites == Merge(old(blockedSites), imported.value) && saved == blockedSites
    {
      if imported.None? {
        return false;
      }
      blockedSites := Merge(blockedSites, imported.value);
      Save();
      ok := true;
    }

    /** The search box: the sites containing the lower-cased query, in list
        order; the list itself is not touched. */
    method Search(query: string) returns (shown: seq<string>)
      ensures shown == Filter(blockedSites, ToLower(query))
    {
      shown := Filter(blockedSites, ToLower(query));
    }
  }

  /** Typing "http://" into a list without the empty site adds the empty
      site, and from then on every host is blocked. */
  method SchemeOnlyAddBlocksEverything(list: SiteList, host: string) returns (outcome: AddOutcome)
    requires "" !in list.blockedSites
    modifies list
    ensures outcome == Added("")
    ensures list.blockedSites == old(list.blockedSites) + [""]
    ensures IsBlocked(host, list.blockedSites)
  {
    SchemeOnlyInputBlocksEverything("http://", host);
    outcome := list.AddSite("http://");
    EmptySiteBlocksAll(host, list.blockedSites);
  }

  lemma AppendFresh(s: seq<string>, x: string)
    requires x !in s
    ensures NoDuplicates(s) ==> NoDuplicates(s + [x])
  {
  }

  lemma NoDuplicatesAfterRemove(s: seq<string>, i: int)
    ensures NoDuplicates(s) ==> NoDuplicates(RemoveAt(s, i))
  {
    var k := SpliceStart(|s|, i);
    if k < |s| {
      var r := RemoveAt(s, i);
      assert r == s[..k] + s[k + 1..];
      assert forall j :: 0 <= j < |r| ==> r[j] == if j < k then s[j] else s[j + 1];
    }
  }

  /** Through the search view, the Remove buttons pass the index of a site in
      the filtered list, and `removeSite` splices that index out of the whole
      list. For any listed `a` before `b` where only `b` matches the query
      (facebook.com, youtube.com and "you"), the one row shown is `b`, and
      its button, index 0, removes `a`. */
  lemma FilteredRemoveHitsWrongSite(a: string, b: string, q: string)
    requires !Includes(a, q) && Includes(b, q)
    ensures Filter([a, b], q) == [b]
    ensures RemoveAt([a, b], 0) == [b] && a in [a, b] && a !in RemoveAt([a, b], 0)
  {
    assert [a, b][1..] == [b];
    assert [b][1..] == [];
  }
}
