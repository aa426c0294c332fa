/** The URL classifier: the YouTube and Vimeo regular expressions of
    video-provider-consent.js (lines 29-35, the YouTube one also at
    youtube-video.js line 13), written out as matchers, and the id extraction
    of `onSrcChanged`.

    Each expression starts with `^.*`, which JavaScript tries greedily and then
    shortens one character at a time; the first length at which the rest of
    the expression matches wins. A match therefore starts at the RIGHTMOST
    place (within the first line, since `.` does not match a line terminator)
    where the rest can match. The `Is...Parse` predicates below list every way
    the expression can match; the `Is...Match` predicates pick the one the
    backtracking order prefers; the matchers are proved to return it. */
module UrlPatterns {
  import opened Wrappers
  import opened Strings

  /** `.*` can cover `s[..start]`: no line terminator before `start`. */
  ghost predicate WithinFirstLine(s: string, start: nat) {
    start <= |s| && forall j :: 0 <= j < start ==> !IsLineTerminator(s[j])
  }

  lemma WithinFirstLineIsBeforeLineEnd(s: string, start: nat)
    ensures WithinFirstLine(s, start) <==> start <= LineEnd(s)
  {
  }

  // ---------------------------------------------------------------------
  // YouTube: /^.*(youtu\.be\/|\/v\/|\/embed\/|\/watch\?v=|\&v=)([^#\&\?\/]*).*/
  // ---------------------------------------------------------------------

  /** The alternatives of group 1, in the order they are written. */
  const YoutubeMarkers: seq<string> := ["youtu.be/", "/v/", "/embed/", "/watch?v=", "&v="]

  /** Group 1 (as the index of its alternative) and group 2, with the length of the leading `.*`. */
  datatype YoutubeCapture = YoutubeCapture(start: nat, marker: nat, id: string)

  /** One way the YouTube expression matches `s`: `.*` covers `s[..start]`,
      alternative `marker` follows, then group 2 is `id`, a run of characters
      other than `#&?/`; the trailing `.*` can always match the empty string. */
  ghost predicate IsYoutubeParse(s: string, start: nat, marker: nat, id: string) {
    && WithinFirstLine(s, start)
    && marker < |YoutubeMarkers|
    && OccursAt(s, YoutubeMarkers[marker] + id, start)
    && AllInClass(id, NotIdDelimiter)
  }

  /** The parse JavaScript returns: the longest `.*`, and for it the greedy group 2.
      (At one position at most one alternative can occur, so the order of the
      alternatives never has to break a tie.) */
  ghost predicate IsYoutubeMatch(s: string, start: nat, marker: nat, id: string) {
    && IsYoutubeParse(s, start, marker, id)
    && forall k: nat, m: nat, g: string :: IsYoutubeParse(s, k, m, g) ==>
         k <= start && (k == start ==> m == marker && |g| <= |id|)
  }

  /** The first alternative, from index `m` on, that occurs at `k`. */
  function MarkerFrom(s: string, k: nat, m: nat): (r: Option<nat>)
    decreases |YoutubeMarkers| - m
    ensures r.Some? ==> m <= r.value < |YoutubeMarkers| && OccursAt(s, YoutubeMarkers[r.value], k)
    ensures r.None? ==> forall a: nat :: m <= a < |YoutubeMarkers| ==> !OccursAt(s, YoutubeMarkers[a], k)
  {
    if m >= |YoutubeMarkers| then None
    else if OccursAt(s, YoutubeMarkers[m], k) then Some(m)
    else MarkerFrom(s, k, m + 1)
  }

  /** The rightmost position at or before `k` where an alternative occurs, with that alternative. */
  function LastMarker(s: string, k: nat): (r: Option<(nat, nat)>)
    decreases k
    ensures r.Some? ==> r.value.0 <= k && r.value.1 < |YoutubeMarkers|
    ensures r.Some? ==> OccursAt(s, YoutubeMarkers[r.value.1], r.value.0)
    ensures r.Some? ==> forall q: nat, a: nat :: r.value.0 < q <= k && a < |YoutubeMarkers| ==>
                          !OccursAt(s, YoutubeMarkers[a], q)
    ensures r.None? ==> forall q: nat, a: nat :: q <= k && a < |YoutubeMarkers| ==>
                          !OccursAt(s, YoutubeMarkers[a], q)
  {
    match MarkerFrom(s, k, 0)
    case Some(a) => Some((k, a))
    case None => if k == 0 then None else LastMarker(s, k - 1)
  }

  /** `s.match(youtubeRegExpr)`: the capture, or None for `null`. */
  function YoutubeMatch(s: string): Option<YoutubeCapture> {
    match LastMarker(s, LineEnd(s))
    case None => None
    case Some((k, a)) =>
      var b := k + |YoutubeMarkers[a]|;
      Some(YoutubeCapture(k, a, s[b..RunEnd(s, b, NotIdDelimiter)]))
  }

  /** No two alternatives occur at the same position. */
  lemma MarkersExclusive(s: string, k: nat, a: nat, b: nat)
    requires a < |YoutubeMarkers| && b < |YoutubeMarkers|
    requires OccursAt(s, YoutubeMarkers[a], k) && OccursAt(s, YoutubeMarkers[b], k)
    ensures a == b
  {
    OccursAtChars(s, YoutubeMarkers[a], k);
    OccursAtChars(s, YoutubeMarkers[b], k);
    assert YoutubeMarkers[a][0] == s[k] == YoutubeMarkers[b][0];
    assert YoutubeMarkers[a][1] == s[k + 1] == YoutubeMarkers[b][1];
  }

  /** The matcher returns exactly the match JavaScript reports, and `null`
      exactly when the expression cannot match. */
  lemma YoutubeMatchIsPreferredParse(s: string)
    ensures YoutubeMatch(s).Some? ==>
      var c := YoutubeMatch(s).value; IsYoutubeMatch(s, c.start, c.marker, c.id)
    ensures YoutubeMatch(s).None? ==> forall k: nat, m: nat, g: string :: !IsYoutubeParse(s, k, m, g)
  {
    if YoutubeMatch(s).Some? {
      var (k, a) := LastMarker(s, LineEnd(s)).value;
      FoundMarkerIsMatch(s, k, a);
    } else {
      NoMarkerNoParse(s);
    }
  }

  /** Without an alternative in the first line nothing can match. */
  lemma NoMarkerNoParse(s: string)
    requires LastMarker(s, LineEnd(s)).None?
    ensures forall k: nat, m: nat, g: string :: !IsYoutubeParse(s, k, m, g)
  {
    forall k: nat, m: nat, g: string | IsYoutubeParse(s, k, m, g) ensures false {
      ParseHasMarker(s, k, m, g);
    }
  }

  /** The alternative found last, with its greedy group 2, is the preferred parse. */
  lemma FoundMarkerIsMatch(s: string, k: nat, a: nat)
    requires LastMarker(s, LineEnd(s)) == Some((k, a))
    ensures var b := k + |YoutubeMarkers[a]|;
      IsYoutubeMatch(s, k, a, s[b..RunEnd(s, b, NotIdDelimiter)])
  {
    FoundMarkerIsParse(s, k, a);
    forall k': nat, m: nat, g: string | IsYoutubeParse(s, k', m, g)
      ensures var b := k + |YoutubeMarkers[a]|;
        k' <= k && (k' == k ==> m == a && |g| <= |s[b..RunEnd(s, b, NotIdDelimiter)]|)
    {
      ParseBeforeFoundMarker(s, k, a, k', m, g);
    }
  }

  /** Any parse starts at or before the alternative found last, and one
      starting there has no longer group 2. */
  lemma ParseBeforeFoundMarker(s: string, k: nat, a: nat, k': nat, m: nat, g: string)
    requires LastMarker(s, LineEnd(s)) == Some((k, a))
    requires IsYoutubeParse(s, k', m, g)
    ensures var b := k + |YoutubeMarkers[a]|;
      k' <= k && (k' == k ==> m == a && |g| <= |s[b..RunEnd(s, b, NotIdDelimiter)]|)
  {
    ParseHasMarker(s, k', m, g);
    if k' == k {
      ParseAtFoundMarker(s, k, a, m, g);
    }
  }

  /** Every parse starts, within the first line, with an alternative. */
  lemma ParseHasMarker(s: string, k: nat, m: nat, g: string)
    requires IsYoutubeParse(s, k, m, g)
    ensures k <= LineEnd(s) && OccursAt(s, YoutubeMarkers[m], k) && OccursAt(s, g, k + |YoutubeMarkers[m]|)
  {
    WithinFirstLineIsBeforeLineEnd(s, k);
    OccursAtConcat(s, YoutubeMarkers[m], g, k);
  }

  /** The alternative found last, with its greedy group 2, is a parse. */
  lemma FoundMarkerIsParse(s: string, k: nat, a: nat)
    requires a < |YoutubeMarkers| && k <= LineEnd(s) && OccursAt(s, YoutubeMarkers[a], k)
    ensures var b := k + |YoutubeMarkers[a]|;
      IsYoutubeParse(s, k, a, s[b..RunEnd(s, b, NotIdDelimiter)])
  {
    var b := k + |YoutubeMarkers[a]|;
    var id := s[b..RunEnd(s, b, NotIdDelimiter)];
    WithinFirstLineIsBeforeLineEnd(s, k);
    assert OccursAt(s, id, b);
    OccursAtConcat(s, YoutubeMarkers[a], id, k);
  }

  /** A parse at the position of the found alternative uses that alternative
      and has no longer group 2. */
  lemma ParseAtFoundMarker(s: string, k: nat, a: nat, m: nat, g: string)
    requires a < |YoutubeMarkers| && OccursAt(s, YoutubeMarkers[a], k)
    requires IsYoutubeParse(s, k, m, g)
    ensures var b := k + |YoutubeMarkers[a]|;
      m == a && |g| <= |s[b..RunEnd(s, b, NotIdDelimiter)]|
  {
    var b := k + |YoutubeMarkers[a]|;
    ParseHasMarker(s, k, m, g);
    MarkersExclusive(s, k, a, m);
    OccursAtChars(s, g, b);
    RunEndCovers(s, b, NotIdDelimiter, b + |g|);
  }

  /** Two preferred parses are the same parse: the match is well defined. */
  lemma YoutubeMatchUnique(s: string, k1: nat, m1: nat, g1: string, k2: nat, m2: nat, g2: string)
    requires IsYoutubeMatch(s, k1, m1, g1) && IsYoutubeMatch(s, k2, m2, g2)
    ensures k1 == k2 && m1 == m2 && g1 == g2
  {
    assert k1 == k2 && m1 == m2 && |g1| == |g2|;
    OccursAtConcat(s, YoutubeMarkers[m1], g1, k1);
    OccursAtConcat(s, YoutubeMarkers[m2], g2, k2);
  }

  // ---------------------------------------------------------------------
  // Vimeo: /^.*(vimeo\.com\/)((video\/)|(channels\/[A-z]+\/)|(groups\/[A-z]+\/videos\/))?([0-9]+)/
  // ---------------------------------------------------------------------

  /** Which branch of the optional group 2 matched (groups 3, 4 and 5), with the [A-z]+ name. */
  datatype VimeoPrefix = NoPrefix | Video | Channel(name: string) | Group(name: string)

  function PrefixText(p: VimeoPrefix): string {
    match p
    case NoPrefix => ""
    case Video => "video/"
    case Channel(n) => "channels/" + n + "/"
    case Group(n) => "groups/" + n + "/videos/"
  }

  predicate WellFormedPrefix(p: VimeoPrefix) {
    (p.Channel? || p.Group?) ==> p.name != [] && AllInClass(p.name, AsciiRangeAz)
  }

  /** Group 2's branch and group 6 (the digits), with the length of the leading `.*`. */
  datatype VimeoCapture = VimeoCapture(start: nat, prefix: VimeoPrefix, id: string)

  /** One way the Vimeo expression matches `s`. */
  ghost predicate IsVimeoParse(s: string, start: nat, p: VimeoPrefix, digits: string) {
    && WithinFirstLine(s, start)
    && WellFormedPrefix(p)
    && digits != [] && AllInClass(digits, Digit)
    && OccursAt(s, "vimeo.com/" + PrefixText(p) + digits, start)
  }

  /** The parse JavaScript returns: the longest `.*`, then the greedy digits.
      (At one position at most one branch of group 2 fits, so their order
      never has to break a tie.) */
  ghost predicate IsVimeoMatch(s: string, start: nat, p: VimeoPrefix, digits: string) {
    && IsVimeoParse(s, start, p, digits)
    && forall k: nat, q: VimeoPrefix, d: string :: IsVimeoParse(s, k, q, d) ==>
         k <= start && (k == start ==> q == p && |d| <= |digits|)
  }

  predicate DigitAt(s: string, i: nat) {
    i < |s| && InClass(s[i], Digit)
  }

  /** `[A-z]+` from `i` (greedy; it cannot give back characters, since `/`
      lies outside [A-z]) followed by `after` and a digit: where the name ends. */
  function NameAt(s: string, i: nat, after: string): Option<nat>
    requires i <= |s|
  {
    var e := RunEnd(s, i, AsciiRangeAz);
    if e > i && OccursAt(s, after, e) && DigitAt(s, e + |after|) then Some(e) else None
  }

  /** The branches of the optional group 2 tried at `i` in backtracking order
      (`video/`, `channels/<name>/`, `groups/<name>/videos/`, then skipping the
      group), each accepted only if group 6 can follow: the branch taken and
      where the digits start. */
  function BranchAt(s: string, i: nat): Option<(VimeoPrefix, nat)>
    requires i <= |s|
  {
    if OccursAt(s, "video/", i) && DigitAt(s, i + 6) then Some((Video, i + 6))
    else if OccursAt(s, "channels/", i) && NameAt(s, i + 9, "/").Some? then
      var e := NameAt(s, i + 9, "/").value;
      Some((Channel(s[i + 9..e]), e + 1))
    else if OccursAt(s, "groups/", i) && NameAt(s, i + 7, "/videos/").Some? then
      var e := NameAt(s, i + 7, "/videos/").value;
      Some((Group(s[i + 7..e]), e + 8))
    else if DigitAt(s, i) then Some((NoPrefix, i))
    else None
  }

  /** The rest of the expression tried at `k`: `vimeo.com/`, a branch, the greedy digits. */
  function VimeoAt(s: string, k: nat): Option<(VimeoPrefix, string)> {
    if !OccursAt(s, "vimeo.com/", k) then None
    else
      match BranchAt(s, k + 10)
      case Some((p, j)) => Some((p, s[j..RunEnd(s, j, Digit)]))
      case None => None
  }

  /** The rightmost position at or before `k` where the rest of the expression matches. */
  function LastVimeo(s: string, k: nat): (r: Option<nat>)
    decreases k
    ensures r.Some? ==> r.value <= k && VimeoAt(s, r.value).Some?
  {
    if VimeoAt(s, k).Some? then Some(k)
    else if k == 0 then None
    else LastVimeo(s, k - 1)
  }

  /** ... and it matches nowhere after that position. */
  lemma LastVimeoIsLast(s: string, k: nat)
    ensures LastVimeo(s, k).Some? ==> forall q: nat :: LastVimeo(s, k).value < q <= k ==> VimeoAt(s, q).None?
    ensures LastVimeo(s, k).None? ==> forall q: nat :: q <= k ==> VimeoAt(s, q).None?
  {
    forall q: nat | q <= k && (LastVimeo(s, k).Some? ==> LastVimeo(s, k).value < q)
      ensures VimeoAt(s, q).None?
    {
      LastVimeoSkips(s, k, q);
    }
  }

  /** One position at a time: `q` lies past the result (or there is none), so nothing matches at `q`. */
  lemma {:induction false} LastVimeoSkips(s: string, k: nat, q: nat)
    requires q <= k
    requires LastVimeo(s, k).Some? ==> LastVimeo(s, k).value < q
    decreases k
    ensures VimeoAt(s, q).None?
  {
    if q < k {
      assert LastVimeo(s, k) == LastVimeo(s, k - 1);
      LastVimeoSkips(s, k - 1, q);
    }
  }

  /** `s.match(vimeoRegExpr)`: the capture, or None for `null`. */
  function VimeoMatch(s: string): Option<VimeoCapture> {
    match LastVimeo(s, LineEnd(s))
    case None => None
    case Some(k) =>
      var (p, d) := VimeoAt(s, k).value;
      Some(VimeoCapture(k, p, d))
  }

  lemma OccursAtFirst(s: string, pat: string, i: nat)
    requires pat != []
    ensures OccursAt(s, pat, i) ==> s[i] == pat[0]
  {
    if OccursAt(s, pat, i) {
      assert s[i..i + |pat|][0] == s[i];
    }
  }

  lemma NameAtSound(s: string, i: nat, after: string)
    requires i <= |s| && NameAt(s, i, after).Some?
    ensures var e := NameAt(s, i, after).value;
      i < e <= |s| && AllInClass(s[i..e], AsciiRangeAz) && DigitAt(s, e + |after|) &&
      OccursAt(s, s[i..e] + after, i)
  {
    var e := NameAt(s, i, after).value;
    OccursAtConcat(s, s[i..e], after, i);
  }

  lemma NameAtComplete(s: string, i: nat, n: string, after: string)
    requires i <= |s| && n != [] && AllInClass(n, AsciiRangeAz)
    requires after != [] && !InClass(after[0], AsciiRangeAz)
    requires OccursAt(s, n + after, i) && DigitAt(s, i + |n| + |after|)
    ensures NameAt(s, i, after) == Some(i + |n|) && s[i..i + |n|] == n
  {
    OccursAtConcat(s, n, after, i);
    OccursAtChars(s, n, i);
    OccursAtFirst(s, after, i + |n|);
    RunEndUnique(s, i, AsciiRangeAz, i + |n|);
  }

  lemma BranchSound(s: string, i: nat)
    requires i <= |s| && BranchAt(s, i).Some?
    ensures var r := BranchAt(s, i).value;
      WellFormedPrefix(r.0) && OccursAt(s, PrefixText(r.0), i) && r.1 == i + |PrefixText(r.0)| && DigitAt(s, r.1)
  {
    var r := BranchAt(s, i).value;
    if r.0.Channel? {
      ChannelBranchSound(s, i);
    } else if r.0.Group? {
      GroupBranchSound(s, i);
    }
  }

  lemma ChannelBranchSound(s: string, i: nat)
    requires i <= |s| && BranchAt(s, i).Some? && BranchAt(s, i).value.0.Channel?
    ensures var r := BranchAt(s, i).value;
      WellFormedPrefix(r.0) && OccursAt(s, PrefixText(r.0), i) && r.1 == i + |PrefixText(r.0)| && DigitAt(s, r.1)
  {
    var p := BranchAt(s, i).value.0;
    NameAtSound(s, i + 9, "/");
    OccursAtConcat(s, "channels/", p.name + "/", i);
    assert PrefixText(p) == "channels/" + (p.name + "/");
  }

  lemma GroupBranchSound(s: string, i: nat)
    requires i <= |s| && BranchAt(s, i).Some? && BranchAt(s, i).value.0.Group?
    ensures var r := BranchAt(s, i).value;
      WellFormedPrefix(r.0) && OccursAt(s, PrefixText(r.0), i) && r.1 == i + |PrefixText(r.0)| && DigitAt(s, r.1)
  {
    var p := BranchAt(s, i).value.0;
    NameAtSound(s, i + 7, "/videos/");
    OccursAtConcat(s, "groups/", p.name + "/videos/", i);
    assert PrefixText(p) == "groups/" + (p.name + "/videos/");
  }

  lemma BranchComplete(s: string, i: nat, q: VimeoPrefix)
    requires i <= |s| && WellFormedPrefix(q)
    requires OccursAt(s, PrefixText(q), i) && DigitAt(s, i + |PrefixText(q)|)
    ensures BranchAt(s, i) == Some((q, i + |PrefixText(q)|))
  {
    match q
    case NoPrefix =>
      OccursAtFirst(s, "video/", i);
      OccursAtFirst(s, "channels/", i);
      OccursAtFirst(s, "groups/", i);
    case Video =>
    case Channel(n) => ChannelBranchComplete(s, i, n);
    case Group(n) => GroupBranchComplete(s, i, n);
  }

  lemma ChannelBranchComplete(s: string, i: nat, n: string)
    requires i <= |s| && n != [] && AllInClass(n, AsciiRangeAz)
    requires OccursAt(s, "channels/" + (n + "/"), i) && DigitAt(s, i + 9 + |n| + 1)
    ensures BranchAt(s, i) == Some((Channel(n), i + 9 + |n| + 1))
  {
    OccursAtConcat(s, "channels/", n + "/", i);
    OccursAtFirst(s, "channels/", i);
    OccursAtFirst(s, "video/", i);
    NameAtComplete(s, i + 9, n, "/");
  }

  lemma GroupBranchComplete(s: string, i: nat, n: string)
    requires i <= |s| && n != [] && AllInClass(n, AsciiRangeAz)
    requires OccursAt(s, "groups/" + (n + "/videos/"), i) && DigitAt(s, i + 7 + |n| + 8)
    ensures BranchAt(s, i) == Some((Group(n), i + 7 + |n| + 8))
  {
    OccursAtConcat(s, "groups/", n + "/videos/", i);
    OccursAtFirst(s, "groups/", i);
    OccursAtFirst(s, "video/", i);
    OccursAtFirst(s, "channels/", i);
    NameAtComplete(s, i + 7, n, "/videos/");
  }

  /** What VimeoAt finds at `k` is a parse starting there (apart from the line condition). */
  lemma VimeoAtSound(s: string, k: nat)
    requires VimeoAt(s, k).Some?
    ensures var (p, d) := VimeoAt(s, k).value;
      WellFormedPrefix(p) && d != [] && AllInClass(d, Digit) &&
      OccursAt(s, "vimeo.com/" + PrefixText(p) + d, k)
  {
    var p := VimeoAt(s, k).value.0;
    var d := VimeoAt(s, k).value.1;
    VimeoAtParts(s, k);
    OccursAtConcat(s, "vimeo.com/", PrefixText(p), k);
    OccursAtConcat(s, "vimeo.com/" + PrefixText(p), d, k);
  }

  /** The pieces of that match, one after the other. */
  lemma VimeoAtParts(s: string, k: nat)
    requires VimeoAt(s, k).Some?
    ensures var (p, d) := VimeoAt(s, k).value;
      && WellFormedPrefix(p) && d != [] && AllInClass(d, Digit)
      && OccursAt(s, "vimeo.com/", k) && OccursAt(s, PrefixText(p), k + 10)
      && OccursAt(s, d, k + 10 + |PrefixText(p)|)
  {
    var (p, j) := BranchAt(s, k + 10).value;
    BranchSound(s, k + 10);
    assert VimeoAt(s, k).value == (p, s[j..RunEnd(s, j, Digit)]);
  }

  /** Every parse starting at `k` has the branch VimeoAt took and no more digits. */
  lemma VimeoAtComplete(s: string, k: nat, q: VimeoPrefix, d: string)
    requires WellFormedPrefix(q) && d != [] && AllInClass(d, Digit)
    requires OccursAt(s, "vimeo.com/" + PrefixText(q) + d, k)
    ensures VimeoAt(s, k).Some?
    ensures VimeoAt(s, k).value.0 == q && |d| <= |VimeoAt(s, k).value.1|
  {
    var t := PrefixText(q);
    var j := k + 10 + |t|;
    OccursAtConcat(s, "vimeo.com/" + t, d, k);
    OccursAtConcat(s, "vimeo.com/", t, k);
    DigitsCovered(s, d, j);
    BranchComplete(s, k + 10, q);
  }

  /** Digits found at `j` start a run of digits at least that long. */
  lemma DigitsCovered(s: string, d: string, j: nat)
    requires d != [] && AllInClass(d, Digit) && OccursAt(s, d, j)
    ensures DigitAt(s, j) && j + |d| <= RunEnd(s, j, Digit)
  {
    OccursAtChars(s, d, j);
    assert s[j] == d[0];
    RunEndCovers(s, j, Digit, j + |d|);
  }

  /** The matcher returns exactly the match JavaScript reports, and `null`
      exactly when the expression cannot match. */
  lemma VimeoMatchIsPreferredParse(s: string)
    ensures VimeoMatch(s).Some? ==>
      var c := VimeoMatch(s).value; IsVimeoMatch(s, c.start, c.prefix, c.id)
    ensures VimeoMatch(s).None? ==> forall k: nat, q: VimeoPrefix, d: string :: !IsVimeoParse(s, k, q, d)
  {
    var n := LineEnd(s);
    LastVimeoIsLast(s, n);
    match LastVimeo(s, n)
    case None =>
      forall k: nat, q: VimeoPrefix, d: string | IsVimeoParse(s, k, q, d) ensures false {
        WithinFirstLineIsBeforeLineEnd(s, k);
        VimeoAtComplete(s, k, q, d);
      }
    case Some(start) =>
      var c := VimeoMatch(s).value;
      VimeoAtSound(s, start);
      WithinFirstLineIsBeforeLineEnd(s, start);
      forall k: nat, q: VimeoPrefix, d: string | IsVimeoParse(s, k, q, d)
        ensures k <= c.start && (k == c.start ==> q == c.prefix && |d| <= |c.id|)
      {
        WithinFirstLineIsBeforeLineEnd(s, k);
        VimeoAtComplete(s, k, q, d);
      }
  }

  // ---------------------------------------------------------------------
  // Classification and id extraction
  // ---------------------------------------------------------------------

  /** The `videoProvider` getter; `Unrecognised` stands for `undefined`. */
  datatype Provider = YouTube | Vimeo | Unrecognised

  /** `videoProvider` (video-provider-consent.js:94-102): the YouTube expression is tried first. */
  function VideoProvider(src: string): Provider {
    if YoutubeMatch(src).Some? then YouTube
    else if VimeoMatch(src).Some? then Vimeo
    else Unrecognised
  }

  /** Classification in terms of the expressions alone: YouTube whenever the
      YouTube expression can match, Vimeo when only the Vimeo one can, and
      otherwise nothing. */
  lemma ProviderByPatterns(src: string)
    ensures VideoProvider(src) == YouTube <==> exists k: nat, m: nat, g: string :: IsYoutubeParse(src, k, m, g)
    ensures VideoProvider(src) == Vimeo <==>
      (forall k: nat, m: nat, g: string :: !IsYoutubeParse(src, k, m, g)) && exists k: nat, q: VimeoPrefix, d: string :: IsVimeoParse(src, k, q, d)
    ensures VideoProvider(src) == Unrecognised <==>
      (forall k: nat, m: nat, g: string :: !IsYoutubeParse(src, k, m, g)) && (forall k: nat, q: VimeoPrefix, d: string :: !IsVimeoParse(src, k, q, d))
  {
    YoutubeMatchIsPreferredParse(src);
    VimeoMatchIsPreferredParse(src);
    if YoutubeMatch(src).Some? {
      var c := YoutubeMatch(src).value;
      assert IsYoutubeParse(src, c.start, c.marker, c.id);
    } else if VimeoMatch(src).Some? {
      var c := VimeoMatch(src).value;
      assert IsVimeoParse(src, c.start, c.prefix, c.id);
    }
  }

  /** `#id` for a YouTube source (video-provider-consent.js:118,
      youtube-video.js:41-44): group 2 when its `length`, counted in UTF-16
      code units, is exactly 11, otherwise (and when nothing matches) the
      empty string. */
  function YoutubeId(src: string): (r: string)
    ensures r == "" || (Utf16Length(r) == 11 && AllInClass(r, NotIdDelimiter))
  {
    match YoutubeMatch(src)
    case Some(c) => if Utf16Length(c.id) == 11 then c.id else ""
    case None => ""
  }

  /** `onSrcChanged` of video-provider-consent.js (lines 113-126): the new `#id`,
      or None for the `default` branch, which hides the player and leaves `#id` alone. */
  function ExtractId(src: string): Option<string> {
    match VideoProvider(src)
    case YouTube => Some(YoutubeId(src))
    case Vimeo =>
      var d := VimeoMatch(src).value.id;
      Some(if |d| > 0 then d else "")
    case Unrecognised => None
  }

  /** The YouTube id is group 2 of the reported match when that has 11
      characters, and empty otherwise, including when nothing matches. */
  lemma YoutubeIdSpec(src: string)
    ensures forall k: nat, m: nat, g: string :: IsYoutubeMatch(src, k, m, g) ==>
      YoutubeId(src) == if Utf16Length(g) == 11 then g else ""
    ensures (forall k: nat, m: nat, g: string :: !IsYoutubeParse(src, k, m, g)) ==> YoutubeId(src) == ""
    ensures YoutubeId(src) == "" || (Utf16Length(YoutubeId(src)) == 11 && AllInClass(YoutubeId(src), NotIdDelimiter))
  {
    YoutubeMatchIsPreferredParse(src);
    if YoutubeMatch(src).Some? {
      var c := YoutubeMatch(src).value;
      forall k: nat, m: nat, g: string | IsYoutubeMatch(src, k, m, g) ensures g == c.id {
        YoutubeMatchUnique(src, k, m, g, c.start, c.marker, c.id);
      }
    }
  }

  /** For a Vimeo source, `#id` is the digit run of the reported match: never
      empty and all digits. */
  lemma VimeoIdSpec(src: string)
    requires VideoProvider(src) == Vimeo
    ensures exists k: nat, q: VimeoPrefix :: IsVimeoMatch(src, k, q, ExtractId(src).value)
    ensures ExtractId(src).value != [] && AllInClass(ExtractId(src).value, Digit)
  {
    VimeoMatchIsPreferredParse(src);
    var c := VimeoMatch(src).value;
    assert IsVimeoParse(src, c.start, c.prefix, c.id);
    assert ExtractId(src) == Some(c.id);
    assert IsVimeoMatch(src, c.start, c.prefix, ExtractId(src).value);
  }

  /** The new `#id` in terms of the two expressions alone: None (the player
      is hidden) exactly when neither can match, the YouTube id whenever the
      YouTube expression can match, and otherwise the digits of the match the
      Vimeo expression reports. */
  lemma ExtractIdByPatterns(src: string)
    ensures ExtractId(src).None? <==>
      (forall k: nat, m: nat, g: string :: !IsYoutubeParse(src, k, m, g)) &&
      (forall k: nat, q: VimeoPrefix, d: string :: !IsVimeoParse(src, k, q, d))
    ensures (exists k: nat, m: nat, g: string :: IsYoutubeParse(src, k, m, g)) ==>
      ExtractId(src) == Some(YoutubeId(src))
    ensures
      && (forall k: nat, m: nat, g: string :: !IsYoutubeParse(src, k, m, g))
      && (exists k: nat, q: VimeoPrefix, d: string :: IsVimeoParse(src, k, q, d))
      ==> ExtractId(src).Some? && exists k: nat, q: VimeoPrefix :: IsVimeoMatch(src, k, q, ExtractId(src).value)
  {
    ProviderByPatterns(src);
    if VideoProvider(src) == Vimeo {
      VimeoIdSpec(src);
    }
  }
  // ---------------------------------------------------------------------
  // Matching from the right: a match is fixed by its last possible start
  // ---------------------------------------------------------------------

  /** `s[q..]` starts like one of the alternatives: they are told apart by
      their first three characters (each has at least three). */
  predicate MarkerMayBeginAt(s: string, q: nat) {
    q + 2 < |s| &&
    var x, y, z := s[q], s[q + 1], s[q + 2];
    || (x == 'y' && y == 'o')
    || (x == '&' && y == 'v')
    || (x == '/' && (y == 'e' || y == 'w' || (y == 'v' && z == '/')))
  }

  lemma MarkerBegins(s: string, q: nat, a: nat)
    requires a < |YoutubeMarkers|
    ensures OccursAt(s, YoutubeMarkers[a], q) ==> MarkerMayBeginAt(s, q)
  {
    if OccursAt(s, YoutubeMarkers[a], q) {
      OccursAtChars(s, YoutubeMarkers[a], q);
    }
  }

  /** An alternative at `k` and nothing after `k` that could begin another
      one: searching from any `n` at or after `k`, `k` is the last position
      where an alternative occurs. */
  lemma LastMarkerAt(s: string, n: nat, k: nat, a: nat)
    requires k <= n && a < |YoutubeMarkers| && OccursAt(s, YoutubeMarkers[a], k)
    requires forall q: nat :: k < q ==> !MarkerMayBeginAt(s, q)
    ensures LastMarker(s, n) == Some((k, a))
  {
    var r := LastMarker(s, n);
    assert r.Some?;
    var p := r.value.0;
    var m := r.value.1;
    MarkerBegins(s, p, m);
    assert p == k;
    MarkersExclusive(s, k, a, m);
  }

  /** Hence, when `.*` can reach `k`, the YouTube match starts at `k`. */
  lemma YoutubeMatchAt(s: string, k: nat, a: nat)
    requires a < |YoutubeMarkers| && OccursAt(s, YoutubeMarkers[a], k) && WithinFirstLine(s, k)
    requires forall q: nat :: k < q ==> !MarkerMayBeginAt(s, q)
    ensures var b := k + |YoutubeMarkers[a]|;
      YoutubeMatch(s) == Some(YoutubeCapture(k, a, s[b..RunEnd(s, b, NotIdDelimiter)]))
  {
    WithinFirstLineIsBeforeLineEnd(s, k);
    LastMarkerAt(s, LineEnd(s), k, a);
    assert LastMarker(s, LineEnd(s)) == Some((k, a));
  }

  /** No alternative can begin anywhere: the YouTube expression does not match. */
  lemma YoutubeNoMatch(s: string)
    requires forall q: nat :: !MarkerMayBeginAt(s, q)
    ensures YoutubeMatch(s) == None
  {
    forall q: nat, a: nat | a < |YoutubeMarkers| ensures !OccursAt(s, YoutubeMarkers[a], q) {
      MarkerBegins(s, q, a);
    }
  }

  /** The rest of the Vimeo expression matches at `k`, and no `v` follows
      `k`: searching from any `n` at or after `k`, `k` is the last position
      where it matches. */
  lemma LastVimeoAt(s: string, n: nat, k: nat)
    requires k <= n && VimeoAt(s, k).Some?
    requires forall q :: k < q < |s| ==> s[q] != 'v'
    ensures LastVimeo(s, n) == Some(k)
  {
    var r := LastVimeo(s, n);
    LastVimeoIsLast(s, n);
    assert r.Some?;
    assert OccursAt(s, "vimeo.com/", r.value);
    OccursAtFirst(s, "vimeo.com/", r.value);
  }

  /** A Vimeo parse at `k` whose digits run up to a non-digit (or the end) is
      exactly what the expression finds at `k`. */
  lemma VimeoAtExact(s: string, k: nat, p: VimeoPrefix, d: string)
    requires WellFormedPrefix(p) && d != [] && AllInClass(d, Digit)
    requires OccursAt(s, "vimeo.com/" + PrefixText(p) + d, k)
    requires !DigitAt(s, k + 10 + |PrefixText(p)| + |d|)
    ensures VimeoAt(s, k) == Some((p, d))
  {
    VimeoAtComplete(s, k, p, d);
    VimeoAtSound(s, k);
    var v := VimeoAt(s, k).value;
    assert v.0 == p;
    SameDigitRun(s, k, "vimeo.com/" + PrefixText(p), d, v.1);
    assert v == (p, d);
  }

  /** Two texts after the same prefix, the longer all digits and the shorter
      followed by a non-digit, are the same. */
  lemma SameDigitRun(s: string, k: nat, pre: string, d: string, id: string)
    requires OccursAt(s, pre + d, k) && OccursAt(s, pre + id, k)
    requires AllInClass(id, Digit) && !DigitAt(s, k + |pre| + |d|) && |d| <= |id|
    ensures id == d
  {
    var j := k + |pre|;
    OccursAtConcat(s, pre, d, k);
    OccursAtConcat(s, pre, id, k);
    DigitsEndAt(s, j, id, |d|);
    OccursAtChars(s, id, j);
    OccursAtChars(s, d, j);
  }

  /** A run of digits at `j` cannot reach past a non-digit at `j + n`. */
  lemma DigitsEndAt(s: string, j: nat, id: string, n: nat)
    requires OccursAt(s, id, j) && AllInClass(id, Digit) && !DigitAt(s, j + n)
    ensures |id| <= n
  {
    OccursAtChars(s, id, j);
  }

  /** Hence such a parse with no `v` after `k` is the Vimeo match. */
  lemma VimeoMatchAt(s: string, k: nat, p: VimeoPrefix, d: string)
    requires IsVimeoParse(s, k, p, d)
    requires forall q :: k < q < |s| ==> s[q] != 'v'
    requires !DigitAt(s, k + 10 + |PrefixText(p)| + |d|)
    ensures VimeoMatch(s) == Some(VimeoCapture(k, p, d))
  {
    WithinFirstLineIsBeforeLineEnd(s, k);
    VimeoAtExact(s, k, p, d);
    LastVimeoAt(s, LineEnd(s), k);
  }

  /** A text in which no YouTube alternative can begin and without a `v` is
      not a video source. */
  lemma UnrecognisedWithoutMarkers(s: string)
    requires forall q: nat :: !MarkerMayBeginAt(s, q)
    requires forall q :: 0 <= q < |s| ==> s[q] != 'v'
    ensures VideoProvider(s) == Unrecognised
  {
    YoutubeNoMatch(s);
    forall k: nat, q: VimeoPrefix, d: string | IsVimeoParse(s, k, q, d) ensures false {
      OccursAtFirst(s, "vimeo.com/" + PrefixText(q) + d, k);
    }
    ProviderByPatterns(s);
  }

  /** The character-level facts about the watch link used below: where the
      alternative and the id occur, ... */
  lemma WatchLinkOccurrences(s: string)
    requires s == "https://www.youtube.com/watch?v=dQw4w9WgXcQ"
    ensures |s| == 43 && OccursAt(s, YoutubeMarkers[3], 23) && OccursAt(s, "dQw4w9WgXcQ", 32)
  {
    assert forall m :: 0 <= m < 9 ==> s[23 + m] == YoutubeMarkers[3][m];
    OccursAtByChars(s, YoutubeMarkers[3], 23);
    assert forall m :: 0 <= m < 11 ==> s[32 + m] == "dQw4w9WgXcQ"[m];
    OccursAtByChars(s, "dQw4w9WgXcQ", 32);
  }

  /** ... and which characters the text holds. */
  lemma WatchLinkCharacters(s: string)
    requires s == "https://www.youtube.com/watch?v=dQw4w9WgXcQ"
    ensures WithinFirstLine(s, 23)
    ensures forall q: nat :: 23 < q ==> !MarkerMayBeginAt(s, q)
    ensures forall m :: 32 <= m < 43 ==> InClass(s[m], NotIdDelimiter)
  {
  }

  /** A watch link yields its 11-character id. */
  lemma WatchLinkExample(s: string)
    requires s == "https://www.youtube.com/watch?v=dQw4w9WgXcQ"
    ensures ExtractId(s) == Some("dQw4w9WgXcQ")
  {
    WatchLinkOccurrences(s);
    WatchLinkCharacters(s);
    YoutubeMatchAt(s, 23, 3);
    RunEndUnique(s, 32, NotIdDelimiter, |s|);
  }

  /** An id with a character outside the Basic Multilingual Plane: nine
      letters and one emoji make ten characters but eleven code units, and
      JavaScript keeps it. */
  lemma AstralIdExample(s: string)
    requires s == "https://youtu.be/abcdefghi\U{1F600}"
    ensures ExtractId(s) == Some("abcdefghi\U{1F600}")
  {
    AstralIdMatch(s);
    AstralIdLength();
  }

  lemma AstralIdMatch(s: string)
    requires s == "https://youtu.be/abcdefghi\U{1F600}"
    ensures YoutubeMatch(s) == Some(YoutubeCapture(8, 0, "abcdefghi\U{1F600}"))
  {
    AstralIdOccurrences(s);
    AstralIdCharacters(s);
    YoutubeMatchAt(s, 8, 0);
    RunEndUnique(s, 17, NotIdDelimiter, |s|);
  }

  lemma AstralIdOccurrences(s: string)
    requires s == "https://youtu.be/abcdefghi\U{1F600}"
    ensures OccursAt(s, YoutubeMarkers[0], 8) && OccursAt(s, "abcdefghi\U{1F600}", 17)
  {
    assert forall m :: 0 <= m < 9 ==> s[8 + m] == YoutubeMarkers[0][m];
    OccursAtByChars(s, YoutubeMarkers[0], 8);
    assert forall m :: 0 <= m < 10 ==> s[17 + m] == "abcdefghi\U{1F600}"[m];
    OccursAtByChars(s, "abcdefghi\U{1F600}", 17);
  }

  lemma AstralIdCharacters(s: string)
    requires s == "https://youtu.be/abcdefghi\U{1F600}"
    ensures |s| == 27 && WithinFirstLine(s, 8)
    ensures forall q: nat :: 8 < q ==> !MarkerMayBeginAt(s, q)
    ensures forall m :: 17 <= m < 27 ==> InClass(s[m], NotIdDelimiter)
  {
  }

  lemma AstralIdLength()
    ensures Utf16Length("abcdefghi\U{1F600}") == 11
  {
    Utf16LengthConcat("abcdefghi", "\U{1F600}");
    assert "abcdefghi" + "\U{1F600}" == "abcdefghi\U{1F600}";
  }

  /** A short link whose id is not 11 characters long yields the empty id. */
  lemma ShortIdExample(s: string)
    requires s == "https://youtu.be/abc"
    ensures ExtractId(s) == Some("")
  {
    assert forall m :: 0 <= m < 9 ==> s[8 + m] == YoutubeMarkers[0][m];
    OccursAtByChars(s, YoutubeMarkers[0], 8);
    YoutubeMatchAt(s, 8, 0);
    RunEndUnique(s, 17, NotIdDelimiter, |s|);
  }

  /** The character-level facts about the channel link used below: where the
      expression's text occurs, ... */
  lemma ChannelLinkOccurrence(s: string)
    requires s == "https://vimeo.com/channels/staff/76979871"
    ensures |s| == 41 && OccursAt(s, "vimeo.com/" + PrefixText(Channel("staff")) + "76979871", 8)
  {
    ChannelLinkParts(s);
    var p := PrefixText(Channel("staff"));
    assert p == "channels/staff/";
    OccursAtConcat(s, "vimeo.com/", p, 8);
    OccursAtConcat(s, "vimeo.com/" + p, "76979871", 8);
  }

  lemma ChannelLinkParts(s: string)
    requires s == "https://vimeo.com/channels/staff/76979871"
    ensures |s| == 41 && OccursAt(s, "vimeo.com/", 8) && OccursAt(s, "channels/staff/", 18)
    ensures OccursAt(s, "76979871", 33)
  {
    ChannelLinkHost(s);
    ChannelLinkPath(s);
    assert forall m :: 0 <= m < 8 ==> s[33 + m] == "76979871"[m];
    OccursAtByChars(s, "76979871", 33);
  }

  lemma ChannelLinkHost(s: string)
    requires s == "https://vimeo.com/channels/staff/76979871"
    ensures OccursAt(s, "vimeo.com/", 8)
  {
    assert forall m :: 0 <= m < 10 ==> s[8 + m] == "vimeo.com/"[m];
    OccursAtByChars(s, "vimeo.com/", 8);
  }

  lemma ChannelLinkPath(s: string)
    requires s == "https://vimeo.com/channels/staff/76979871"
    ensures OccursAt(s, "channels/staff/", 18)
  {
    assert forall m :: 0 <= m < 15 ==> s[18 + m] == "channels/staff/"[m];
    OccursAtByChars(s, "channels/staff/", 18);
  }

  /** ... and which characters the text holds. */
  lemma ChannelLinkCharacters(s: string)
    requires s == "https://vimeo.com/channels/staff/76979871"
    ensures WithinFirstLine(s, 8)
    ensures forall q :: 8 < q < |s| ==> s[q] != 'v'
    ensures forall q: nat :: !MarkerMayBeginAt(s, q)
  {
  }

  /** A Vimeo channel link yields the digits after the channel name. */
  lemma VimeoChannelExample(s: string)
    requires s == "https://vimeo.com/channels/staff/76979871"
    ensures ExtractId(s) == Some("76979871")
  {
    ChannelLinkOccurrence(s);
    ChannelLinkCharacters(s);
    var p := Channel("staff");
    assert WellFormedPrefix(p);
    assert AllInClass("76979871", Digit);
    VimeoMatchAt(s, 8, p, "76979871");
    YoutubeNoMatch(s);
  }

  /** The characters of a Vimeo link that carries a YouTube link: where the
      alternative occurs, ... */
  lemma MixedLinkOccurrence(s: string)
    requires s == "https://vimeo.com/1?u=youtu.be/abc"
    ensures OccursAt(s, YoutubeMarkers[0], 22)
  {
    assert forall m :: 0 <= m < 9 ==> s[22 + m] == YoutubeMarkers[0][m];
    OccursAtByChars(s, YoutubeMarkers[0], 22);
  }

  /** ... and that nothing after it can begin another. */
  lemma MixedLinkCharacters(s: string)
    requires s == "https://vimeo.com/1?u=youtu.be/abc"
    ensures WithinFirstLine(s, 22)
    ensures forall q: nat :: 22 < q ==> !MarkerMayBeginAt(s, q)
  {
  }

  /** A Vimeo link that also carries a YouTube link is classified as YouTube. */
  lemma YoutubeWinsExample(s: string)
    requires s == "https://vimeo.com/1?u=youtu.be/abc"
    ensures VideoProvider(s) == YouTube
  {
    MixedLinkOccurrence(s);
    MixedLinkCharacters(s);
    YoutubeMatchAt(s, 22, 0);
  }

  /** A plain file name is not a video source. */
  lemma FileNameExample()
    ensures ExtractId("clip.mp4") == None
  {
    UnrecognisedWithoutMarkers("clip.mp4");
  }

  /** The character-level facts about the plain Vimeo link: where the
      expression's text occurs, ... */
  lemma PlainVimeoOccurrence(s: string)
    requires s == "https://vimeo.com/76979871"
    ensures |s| == 26 && OccursAt(s, "vimeo.com/" + PrefixText(NoPrefix) + "76979871", 8)
  {
    assert forall m :: 0 <= m < 18 ==> s[8 + m] == "vimeo.com/76979871"[m];
    OccursAtByChars(s, "vimeo.com/76979871", 8);
    assert "vimeo.com/" + PrefixText(NoPrefix) + "76979871" == "vimeo.com/76979871";
  }

  /** ... and which characters the text holds. */
  lemma PlainVimeoCharacters(s: string)
    requires s == "https://vimeo.com/76979871"
    ensures WithinFirstLine(s, 8)
    ensures forall q :: 8 < q < |s| ==> s[q] != 'v'
    ensures forall q: nat :: !MarkerMayBeginAt(s, q)
  {
  }

  /** A plain Vimeo link yields the digits after the host. */
  lemma PlainVimeoExample(s: string)
    requires s == "https://vimeo.com/76979871"
    ensures ExtractId(s) == Some("76979871")
  {
    PlainVimeoOccurrence(s);
    PlainVimeoCharacters(s);
    assert AllInClass("76979871", Digit);
    VimeoMatchAt(s, 8, NoPrefix, "76979871");
    YoutubeNoMatch(s);
  }
}
