/** The embed addresses that `render` gives the player iframe
    (video-provider-consent.js:180 and :183, youtube-video.js:87), and the
    reading of their query strings that the players apply
    (`URLSearchParams`: split on `&`, skip empty pieces, cut each piece at its
    first `=`). */
module Embed {
  import opened Wrappers
  import opened Strings

  /** `window.location`, reduced to the two parts the templates use. */
  datatype Location = Location(protocol: string, host: string)

  /** The `origin` parameter: the protocol, the two slashes percent-encoded, the host. */
  function Origin(loc: Location): string {
    loc.protocol + "%2F%2F" + loc.host
  }

  /** A location whose protocol and host hold no `&`. A host that is a DNS
      name never does, but a URL host in general may. */
  predicate PlainLocation(loc: Location) {
    '&' !in loc.protocol && '&' !in loc.host
  }

  // ---------------------------------------------------------------------
  // Reading a query string
  // ---------------------------------------------------------------------

  /** A query parameter: name and value. */
  datatype Param = Param(key: string, value: string)

  /** Everything before the first `?`. */
  function PathOf(url: string): string {
    match FindFrom(url, "?", 0)
    case None => url
    case Some(i) => url[..i]
  }

  /** Everything after the first `?` (empty when there is none). */
  function QueryOf(url: string): string {
    match FindFrom(url, "?", 0)
    case None => ""
    case Some(i) => url[i + 1..]
  }

  /** One `&`-separated piece, cut at its first `=` (no `=`: an empty value). */
  function KeyValue(piece: string): Param {
    match FindFrom(piece, "=", 0)
    case None => Param(piece, "")
    case Some(i) => Param(piece[..i], piece[i + 1..])
  }

  function Pairs(pieces: seq<string>): seq<Param> {
    if pieces == [] then []
    else (if pieces[0] == [] then [] else [KeyValue(pieces[0])]) + Pairs(pieces[1..])
  }

  /** The parameters of `url`'s query, in order. */
  function SearchParams(url: string): seq<Param> {
    Pairs(Split(QueryOf(url), "&"))
  }

  lemma PathAndQuery(path: string, q: string)
    requires '?' !in path
    ensures PathOf(path + "?" + q) == path && QueryOf(path + "?" + q) == q
  {
    var url := path + "?" + q;
    FindChar(path, '?', q);
    assert url == path + ['?'] + q;
    assert url[..|path|] == path;
    assert url[|path| + 1..] == q;
  }

  lemma KeyValueOf(k: string, v: string)
    requires '=' !in k
    ensures KeyValue(k + "=" + v) == Param(k, v)
  {
    var piece := k + "=" + v;
    FindChar(k, '=', v);
    assert piece == k + ['='] + v;
    assert piece[..|k|] == k;
    assert piece[|k| + 1..] == v;
  }

  lemma {:induction false} PairsAppend(xs: seq<string>, ys: seq<string>)
    ensures Pairs(xs + ys) == Pairs(xs) + Pairs(ys)
  {
    if xs != [] {
      assert (xs + ys)[0] == xs[0];
      assert (xs + ys)[1..] == xs[1..] + ys;
      PairsAppend(xs[1..], ys);
      var h := if xs[0] == [] then [] else [KeyValue(xs[0])];
      assert Pairs(xs + ys) == h + (Pairs(xs[1..]) + Pairs(ys));
      assert h + (Pairs(xs[1..]) + Pairs(ys)) == (h + Pairs(xs[1..])) + Pairs(ys);
    } else {
      assert xs + ys == ys;
    }
  }

  /** A parameter that survives being written as `key=value` between `&`s. */
  predicate ParamOk(p: Param) {
    p.key != [] && '&' !in p.key && '=' !in p.key && '&' !in p.value
  }

  /** `key=value`. */
  function Encode(p: Param): string {
    p.key + "=" + p.value
  }

  /** The parameters written out as a query, joined by `&`. */
  function QueryString(ps: seq<Param>): string {
    if |ps| == 0 then ""
    else if |ps| == 1 then Encode(ps[0])
    else Encode(ps[0]) + "&" + QueryString(ps[1..])
  }

  lemma EncodeRead(p: Param)
    requires ParamOk(p)
    ensures '&' !in Encode(p) && Encode(p) != [] && Pairs([Encode(p)]) == [p]
  {
    KeyValueOf(p.key, p.value);
  }

  /** Reading a written query gives back its parameters, in order. */
  lemma {:induction false} QueryRoundTrip(ps: seq<Param>)
    requires forall i :: 0 <= i < |ps| ==> ParamOk(ps[i])
    ensures Pairs(Split(QueryString(ps), "&")) == ps
  {
    if |ps| == 0 {
      SplitWithoutChar("", '&');
    } else if |ps| == 1 {
      EncodeRead(ps[0]);
      SplitWithoutChar(Encode(ps[0]), '&');
    } else {
      var e := Encode(ps[0]);
      EncodeRead(ps[0]);
      QueryRoundTrip(ps[1..]);
      SplitAfter(e, '&', QueryString(ps[1..]));
      PairsAppend([e], Split(QueryString(ps[1..]), "&"));
    }
  }

  /** Hence the address `path?query` reads back as its path and parameters. */
  lemma UrlRoundTrip(path: string, ps: seq<Param>)
    requires '?' !in path && forall i :: 0 <= i < |ps| ==> ParamOk(ps[i])
    ensures PathOf(path + "?" + QueryString(ps)) == path
    ensures SearchParams(path + "?" + QueryString(ps)) == ps
  {
    PathAndQuery(path, QueryString(ps));
    QueryRoundTrip(ps);
  }

  lemma QueryStringCons(p: Param, ps: seq<Param>)
    requires ps != []
    ensures QueryString([p] + ps) == Encode(p) + "&" + QueryString(ps)
  {
    assert ([p] + ps)[1..] == ps;
  }

  /** Writing one more parameter at the end of a query. */
  lemma {:induction false} QuerySnoc(ps: seq<Param>, p: Param)
    requires ps != []
    ensures QueryString(ps + [p]) == QueryString(ps) + "&" + Encode(p)
  {
    if |ps| > 1 {
      assert (ps + [p])[1..] == ps[1..] + [p];
      QuerySnoc(ps[1..], p);
    }
  }

  /** Hence a text ending in a written query, followed by `&` and one more
      parameter written out, ends in the longer query. */
  lemma AppendParam(path: string, ps: seq<Param>, p: Param, piece: string)
    requires ps != [] && piece == "&" + Encode(p)
    ensures path + QueryString(ps) + piece == path + QueryString(ps + [p])
  {
    QuerySnoc(ps, p);
  }

  // ---------------------------------------------------------------------
  // The templates
  // ---------------------------------------------------------------------

  /** The YouTube `src` template of video-provider-consent.js:180 with
      `"&" + escape` between its parameters. The source writes `&amp;`
      (escape `"amp;"`): HTML escaping, but the text goes to `setAttribute`,
      which stores it verbatim, so the address really contains `&amp;`.
      The evidently intended address has a bare `&` (escape `""`). */
  function YoutubeTemplate(escape: string, id: string, loc: Location, autoplay: bool, justConfirmed: bool): string {
    "https://www.youtube-nocookie.com/embed/" + id + "?" + "rel=0"
      + ("&" + escape + "enablejsapi=1")
      + ("&" + escape + "origin=") + Origin(loc)
      + (if autoplay || justConfirmed then "&" + escape + "autoplay=1" else "")
      + (if autoplay then "&" + escape + "mute=1" else "")
  }

  /** The escape video-provider-consent.js:180 and youtube-video.js:87 write
      after each `&` of the YouTube address. */
  const WrittenEscape: string := "amp;"

  /** No escape: the bare `&` the template evidently means. */
  const BareEscape: string := ""

  /** The YouTube `src` as video-provider-consent.js:180 writes it. */
  function YoutubeSrcAsWritten(id: string, loc: Location, autoplay: bool, justConfirmed: bool): string {
    YoutubeTemplate(WrittenEscape, id, loc, autoplay, justConfirmed)
  }

  /** The YouTube `src` of youtube-video.js:87 as written. */
  function YoutubeVideoSrcAsWritten(id: string, loc: Location, autoplay: bool): string {
    "https://www.youtube-nocookie.com/embed/" + id + "?" + "rel=0" + "&amp;enablejsapi=1" + "&amp;origin=" + Origin(loc)
      + (if autoplay then "&amp;autoplay=1&amp;mute=1" else "")
  }

  /** The YouTube `src` with `&` between the parameters, which is what the
      template evidently means. */
  function YoutubeSrc(id: string, loc: Location, autoplay: bool, justConfirmed: bool): string {
    YoutubeTemplate(BareEscape, id, loc, autoplay, justConfirmed)
  }

  /** The Vimeo `src` of video-provider-consent.js:183. */
  function VimeoSrc(id: string, autoplay: bool, justConfirmed: bool): string {
    "https://player.vimeo.com/video/" + id + "?"
      + (if autoplay || justConfirmed then "autoplay=1" else "")
      + (if autoplay then "&background=1" else "")
  }

  /** The parameters of the YouTube template for a given escape: every name
      after the first starts with the escape. */
  function YoutubeParams(escape: string, loc: Location, autoplay: bool, justConfirmed: bool): seq<Param> {
    [Param("rel", "0"), Param(escape + "enablejsapi", "1"), Param(escape + "origin", Origin(loc))]
      + (if autoplay || justConfirmed then [Param(escape + "autoplay", "1")] else [])
      + (if autoplay then [Param(escape + "mute", "1")] else [])
  }

  /** The parameters of the Vimeo address. */
  function VimeoParams(autoplay: bool, justConfirmed: bool): seq<Param> {
    (if autoplay || justConfirmed then [Param("autoplay", "1")] else [])
      + (if autoplay then [Param("background", "1")] else [])
  }

  /** `&`, the escape and `key=value` is `&` and the parameter named by the
      escape and the key. */
  lemma EscapedPiece(escape: string, key: string, value: string, text: string)
    requires text == key + "=" + value
    ensures "&" + escape + text == "&" + Encode(Param(escape + key, value))
  {
  }

  lemma Regroup(t: string, x: string, e: string, y: string, o: string)
    ensures t + (x + e + y) + o == t + (x + e + (y + o))
  {
  }

  /** The YouTube template is its path followed by its parameters written out. */
  lemma YoutubeTemplateIsQuery(escape: string, id: string, loc: Location, autoplay: bool, justConfirmed: bool)
    ensures YoutubeTemplate(escape, id, loc, autoplay, justConfirmed)
      == "https://www.youtube-nocookie.com/embed/" + id + "?" + QueryString(YoutubeParams(escape, loc, autoplay, justConfirmed))
  {
    var path := "https://www.youtube-nocookie.com/embed/" + id + "?";
    var play, mute := Param(escape + "autoplay", "1"), Param(escape + "mute", "1");
    var t2, ps2 := YoutubeFixedPart(escape, id, loc);
    var a := if autoplay || justConfirmed then "&" + escape + "autoplay=1" else "";
    var t3, ps3 := t2 + a, if autoplay || justConfirmed then ps2 + [play] else ps2;
    if autoplay || justConfirmed {
      EscapedPiece(escape, "autoplay", "1", "autoplay=1");
      AppendParam(path, ps2, play, a);
    }
    var m := if autoplay then "&" + escape + "mute=1" else "";
    var t4, ps4 := t3 + m, if autoplay then ps3 + [mute] else ps3;
    if autoplay {
      EscapedPiece(escape, "mute", "1", "mute=1");
      AppendParam(path, ps3, mute, m);
    }
    assert ps4 == YoutubeParams(escape, loc, autoplay, justConfirmed);
  }

  /** The part of the YouTube template that does not depend on the flags:
      `rel`, `enablejsapi` and `origin`. */
  lemma YoutubeFixedPart(escape: string, id: string, loc: Location) returns (t: string, ps: seq<Param>)
    ensures t == "https://www.youtube-nocookie.com/embed/" + id + "?" + "rel=0"
      + ("&" + escape + "enablejsapi=1") + ("&" + escape + "origin=") + Origin(loc)
    ensures ps == [Param("rel", "0"), Param(escape + "enablejsapi", "1"), Param(escape + "origin", Origin(loc))]
    ensures t == "https://www.youtube-nocookie.com/embed/" + id + "?" + QueryString(ps)
  {
    var path := "https://www.youtube-nocookie.com/embed/" + id + "?";
    var o := Origin(loc);
    var rel, api, origin := Param("rel", "0"), Param(escape + "enablejsapi", "1"), Param(escape + "origin", o);
    assert Encode(rel) == "rel=0";
    var t0, ps0 := path + "rel=0", [rel];
    assert t0 == path + QueryString(ps0);
    EscapedPiece(escape, "enablejsapi", "1", "enablejsapi=1");
    var t1, ps1 := t0 + ("&" + escape + "enablejsapi=1"), ps0 + [api];
    AppendParam(path, ps0, api, "&" + escape + "enablejsapi=1");
    EscapedPiece(escape, "origin", o, "origin=" + o);
    t, ps := t1 + ("&" + escape + "origin=") + o, ps1 + [origin];
    Regroup(t1, "&", escape, "origin=", o);
    AppendParam(path, ps1, origin, "&" + escape + ("origin=" + o));
  }

  // ---------------------------------------------------------------------
  // What the players read
  // ---------------------------------------------------------------------

  lemma YoutubeBaseHasNoQuery(id: string)
    requires '?' !in id
    ensures '?' !in "https://www.youtube-nocookie.com/embed/" + id
  {
  }

  /** A name that can be written between `&`s and before `=`. */
  predicate KeyText(k: string) {
    k != [] && '&' !in k && '=' !in k
  }

  lemma TemplateKeys()
    ensures KeyText("rel") && KeyText("enablejsapi") && KeyText("origin")
    ensures KeyText("autoplay") && KeyText("mute") && KeyText("background")
  {
  }

  lemma EscapedKey(escape: string, k: string)
    requires '&' !in escape && '=' !in escape && KeyText(k)
    ensures KeyText(escape + k)
  {
  }

  /** The parameters of the YouTube template satisfy what writing them out needs. */
  lemma YoutubeParamsOk(escape: string, loc: Location, autoplay: bool, justConfirmed: bool)
    requires '&' !in escape && '=' !in escape && PlainLocation(loc)
    ensures var ps := YoutubeParams(escape, loc, autoplay, justConfirmed);
      forall i :: 0 <= i < |ps| ==> ParamOk(ps[i])
  {
    TemplateKeys();
    EscapedKey(escape, "enablejsapi");
    EscapedKey(escape, "origin");
    EscapedKey(escape, "autoplay");
    EscapedKey(escape, "mute");
    assert '&' !in "%2F%2F";
  }

  /** A player reads from the YouTube template its path and exactly the
      template's parameters, in order. */
  lemma YoutubeTemplateParams(escape: string, id: string, loc: Location, autoplay: bool, justConfirmed: bool)
    requires '?' !in id && '&' !in escape && '=' !in escape && PlainLocation(loc)
    ensures PathOf(YoutubeTemplate(escape, id, loc, autoplay, justConfirmed)) == "https://www.youtube-nocookie.com/embed/" + id
    ensures SearchParams(YoutubeTemplate(escape, id, loc, autoplay, justConfirmed)) == YoutubeParams(escape, loc, autoplay, justConfirmed)
  {
    YoutubeTemplateIsQuery(escape, id, loc, autoplay, justConfirmed);
    YoutubeBaseHasNoQuery(id);
    YoutubeParamsOk(escape, loc, autoplay, justConfirmed);
    UrlRoundTrip("https://www.youtube-nocookie.com/embed/" + id, YoutubeParams(escape, loc, autoplay, justConfirmed));
  }

  /** The corrected YouTube address: the player reads `rel=0`,
      `enablejsapi=1` and the origin, then `autoplay=1` exactly when autoplay
      is on or consent was just given, and `mute=1` exactly when autoplay is on. */
  lemma YoutubeSrcParams(id: string, loc: Location, autoplay: bool, justConfirmed: bool)
    requires '?' !in id && PlainLocation(loc)
    ensures PathOf(YoutubeSrc(id, loc, autoplay, justConfirmed)) == "https://www.youtube-nocookie.com/embed/" + id
    ensures SearchParams(YoutubeSrc(id, loc, autoplay, justConfirmed)) ==
      [Param("rel", "0"), Param("enablejsapi", "1"), Param("origin", Origin(loc))]
        + (if autoplay || justConfirmed then [Param("autoplay", "1")] else [])
        + (if autoplay then [Param("mute", "1")] else [])
  {
    YoutubeTemplateParams("", id, loc, autoplay, justConfirmed);
    assert "" + "enablejsapi" == "enablejsapi" && "" + "origin" == "origin";
    assert "" + "autoplay" == "autoplay" && "" + "mute" == "mute";
  }

  /** Hence the player autoplays exactly when autoplay is on or consent was
      just given, and is muted exactly when autoplay is on. */
  lemma YoutubeSrcFlags(id: string, loc: Location, autoplay: bool, justConfirmed: bool)
    requires '?' !in id && PlainLocation(loc)
    ensures Param("autoplay", "1") in SearchParams(YoutubeSrc(id, loc, autoplay, justConfirmed)) <==> autoplay || justConfirmed
    ensures Param("mute", "1") in SearchParams(YoutubeSrc(id, loc, autoplay, justConfirmed)) <==> autoplay
  {
    YoutubeSrcParams(id, loc, autoplay, justConfirmed);
  }

  /** The address as written: the same path, but every name after `rel`
      reads as `amp;` and the name, ... */
  lemma YoutubeSrcAsWrittenParams(id: string, loc: Location, autoplay: bool, justConfirmed: bool)
    requires '?' !in id && PlainLocation(loc)
    ensures PathOf(YoutubeSrcAsWritten(id, loc, autoplay, justConfirmed)) == "https://www.youtube-nocookie.com/embed/" + id
    ensures SearchParams(YoutubeSrcAsWritten(id, loc, autoplay, justConfirmed)) == YoutubeParams("amp;", loc, autoplay, justConfirmed)
  {
    YoutubeTemplateParams("amp;", id, loc, autoplay, justConfirmed);
  }

  /** ... so the player never sees `enablejsapi`, `origin`, `autoplay` or
      `mute`, whatever the flags: autoplay and mute are lost. */
  lemma YoutubeSrcAsWrittenLosesFlags(id: string, loc: Location, autoplay: bool, justConfirmed: bool)
    requires '?' !in id && PlainLocation(loc)
    ensures forall p | p in SearchParams(YoutubeSrcAsWritten(id, loc, autoplay, justConfirmed)) ::
      p.key != "enablejsapi" && p.key != "origin" && p.key != "autoplay" && p.key != "mute"
  {
    YoutubeSrcAsWrittenParams(id, loc, autoplay, justConfirmed);
    forall p | p in YoutubeParams("amp;", loc, autoplay, justConfirmed)
      ensures p.key != "enablejsapi" && p.key != "origin" && p.key != "autoplay" && p.key != "mute"
    {
      EscapedKeysDiffer(p.key);
    }
  }

  /** No escaped name, nor `rel`, is a name a player acts on. */
  lemma EscapedKeysDiffer(k: string)
    requires k == "rel" || k == "amp;" + "enablejsapi" || k == "amp;" + "origin" || k == "amp;" + "autoplay" || k == "amp;" + "mute"
    ensures k != "enablejsapi" && k != "origin" && k != "autoplay" && k != "mute"
  {
    if k == "amp;" + "mute" {
      assert k[1] == 'm' != "autoplay"[1];
    }
  }

  /** The YouTube-only element's template is the general one for a visitor who
      has not just confirmed. */
  lemma YoutubeVideoSrcIsGeneral(id: string, loc: Location, autoplay: bool)
    ensures YoutubeVideoSrcAsWritten(id, loc, autoplay) == YoutubeSrcAsWritten(id, loc, autoplay, false)
  {
    EscapedApi();
    EscapedOrigin();
    if autoplay {
      EscapedFlags();
    }
  }

  /** As written, the YouTube-only element's address never tells a player
      to autoplay or to mute, whatever the `autoplay` attribute says. */
  lemma YoutubeVideoSrcLosesFlags(id: string, loc: Location, autoplay: bool)
    requires '?' !in id && PlainLocation(loc)
    ensures forall p | p in SearchParams(YoutubeVideoSrcAsWritten(id, loc, autoplay)) ::
      p.key != "autoplay" && p.key != "mute"
  {
    YoutubeVideoSrcIsGeneral(id, loc, autoplay);
    YoutubeSrcAsWrittenLosesFlags(id, loc, autoplay, false);
  }

  lemma EscapedApi()
    ensures "&amp;enablejsapi=1" == "&" + "amp;" + "enablejsapi=1"
  {
  }

  lemma EscapedOrigin()
    ensures "&amp;origin=" == "&" + "amp;" + "origin="
  {
  }

  lemma EscapedFlags()
    ensures "&amp;autoplay=1&amp;mute=1" == ("&" + "amp;" + "autoplay=1") + ("&" + "amp;" + "mute=1")
  {
  }

  /** The Vimeo address is its path followed by its parameters written out. */
  lemma VimeoSrcIsQuery(id: string, autoplay: bool, justConfirmed: bool)
    ensures VimeoSrc(id, autoplay, justConfirmed)
      == "https://player.vimeo.com/video/" + id + "?" + QueryString(VimeoParams(autoplay, justConfirmed))
  {
    if autoplay {
      VimeoBackgroundQuery();
    } else if justConfirmed {
      assert Encode(Param("autoplay", "1")) == "autoplay=1";
    }
  }

  lemma VimeoBackgroundQuery()
    ensures QueryString(VimeoParams(true, false)) == "autoplay=1" + "&background=1"
    ensures QueryString(VimeoParams(true, true)) == "autoplay=1" + "&background=1"
  {
    var play, background := Param("autoplay", "1"), Param("background", "1");
    assert VimeoParams(true, false) == VimeoParams(true, true) == [play] + [background];
    QueryStringCons(play, [background]);
    assert Encode(play) + "&" + Encode(background) == "autoplay=1" + "&background=1";
  }

  /** A player reads from the Vimeo address the id's path, `autoplay=1`
      exactly when autoplay is on or consent was just given, and
      `background=1` exactly when autoplay is on. */
  lemma VimeoSrcParams(id: string, autoplay: bool, justConfirmed: bool)
    requires '?' !in id
    ensures PathOf(VimeoSrc(id, autoplay, justConfirmed)) == "https://player.vimeo.com/video/" + id
    ensures SearchParams(VimeoSrc(id, autoplay, justConfirmed)) ==
      (if autoplay || justConfirmed then [Param("autoplay", "1")] else [])
        + (if autoplay then [Param("background", "1")] else [])
  {
    VimeoSrcIsQuery(id, autoplay, justConfirmed);
    TemplateKeys();
    assert '?' !in "https://player.vimeo.com/video/";
    UrlRoundTrip("https://player.vimeo.com/video/" + id, VimeoParams(autoplay, justConfirmed));
  }

}
