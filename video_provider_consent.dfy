/** The `video-provider-consent` element (video-provider-consent.js): one
    instance's state and the operations that change it. The element keeps
    `#id` and `#justConfirmed`, reads and writes the consent cookie through
    the browser's cookie store, may hide itself, and `render` replaces its
    markup. The current time, `window.location` and the tag name of the
    clicked element are parameters. */
module VideoProviderConsentElement {
  import opened Wrappers
  import opened Strings
  import opened UrlPatterns
  import opened Cookies
  import opened Embed
  import opened Attributes
  import opened Markup

  /** The cookie the element reads and writes: that of the provider its
      current `src` attribute shows. */
  function ConsentName(attrs: Attrs): (name: string)
    ensures NameOk(name)
  {
    CookieName(VideoProvider(Src(attrs)))
  }

  /** The `src` that `render` gives the iframe for a non-empty id, the
      YouTube address written with `escape` after each `&`; for an
      unrecognised source the `switch` sets nothing. */
  function EmbedSrc(escape: string, p: Provider, id: string, loc: Location, autoplay: bool, justConfirmed: bool): string {
    match p
    case YouTube => YoutubeTemplate(escape, id, loc, autoplay, justConfirmed)
    case Vimeo => VimeoSrc(id, autoplay, justConfirmed)
    case Unrecognised => ""
  }

  /** The markup `render` leaves for the given state, `header` being
      `document.cookie`: the stylesheet, then the prompt with the `text`
      attribute when `getCookie` yields `false`, and otherwise the iframe with
      the template's attributes and the seven properties assigned in order.
      `render` itself writes the YouTube address with `WrittenEscape`; the
      view with `BareEscape` is the one the template evidently means. */
  function View(escape: string, attrs: Attrs, id: string, justConfirmed: bool, header: string, loc: Location): Markup {
    var style := ConsentStyleOf(attrs);
    if GetCookie(header, ConsentName(attrs)).None? then
      Rendered(style, Prompt(Text(attrs)))
    else
      var src := EmbedSrc(escape, VideoProvider(Src(attrs)), id, loc, Autoplay(attrs), justConfirmed);
      Rendered(style, Player(Assigned(IframeTemplate, IframeProps(id, src))))
  }

  /** An id taken from a source never holds a delimiter of the YouTube
      expression; a Vimeo id is digits. */
  lemma ExtractedIdPlain(src: string)
    ensures ExtractId(src).Some? ==> AllInClass(ExtractId(src).value, NotIdDelimiter)
  {
    YoutubeIdSpec(src);
    if VideoProvider(src) == Vimeo {
      VimeoIdSpec(src);
    }
  }

  lemma PlainIdHasNoQuery(id: string)
    requires AllInClass(id, NotIdDelimiter)
    ensures '?' !in id
  {
  }

  /** Over a well-formed store, the prompt (with the `text` attribute) is
      shown exactly when no unexpired cookie carries the element's consent
      name; a cookie of that name shows the player whatever its value. */
  lemma PromptIffNoConsent(escape: string, attrs: Attrs, id: string, justConfirmed: bool, jar: seq<Cookie>, now: int, loc: Location)
    requires WellFormedJar(jar)
    ensures View(escape, attrs, id, justConfirmed, Header(jar, now), loc).body.Prompt? <==>
      Lookup(Visible(jar, now), ConsentName(attrs)).None?
    ensures View(escape, attrs, id, justConfirmed, Header(jar, now), loc).body.Prompt? ==>
      View(escape, attrs, id, justConfirmed, Header(jar, now), loc).body.text == Text(attrs)
  {
    HeaderLookup(jar, now, ConsentName(attrs));
  }

  /** Writing `false` (or any other value) as consent still shows the
      player: only a missing cookie shows the prompt. */
  lemma ConsentFalseShowsPlayer(escape: string, attrs: Attrs, id: string, justConfirmed: bool, jar: seq<Cookie>, now: int, loc: Location)
    requires WellFormedJar(jar)
    ensures View(escape, attrs, id, justConfirmed, Header(Cookies.SetCookie(jar, ConsentName(attrs), "false", now), now), loc).body.Player?
  {
    SetCookieThenGet(jar, ConsentName(attrs), "false", now, now);
  }

  /** After consent is written at `now`, a render at `t` shows the player
      for 14 days and the prompt from then on. */
  lemma PlayerFor14Days(escape: string, attrs: Attrs, id: string, justConfirmed: bool, jar: seq<Cookie>, now: int, t: int, loc: Location)
    requires WellFormedJar(jar)
    ensures View(escape, attrs, id, justConfirmed, Header(Cookies.SetCookie(jar, ConsentName(attrs), "true", now), t), loc).body.Player?
      <==> t < now + ConsentLifetime
  {
    SetCookieThenGet(jar, ConsentName(attrs), "true", now, t);
  }

  /** The player's iframe is the template with the seven properties
      assigned, `src` being the provider's address for the id. */
  lemma PlayerIs(escape: string, attrs: Attrs, id: string, justConfirmed: bool, header: string, loc: Location)
    requires View(escape, attrs, id, justConfirmed, header, loc).body.Player?
    ensures View(escape, attrs, id, justConfirmed, header, loc).body.iframe ==
      Assigned(IframeTemplate, IframeProps(id, EmbedSrc(escape, VideoProvider(Src(attrs)), id, loc, Autoplay(attrs), justConfirmed)))
  {
  }

  /** The iframe `render` leaves: its fixed attributes, and `id` and `src`
      empty for an empty id, `player-<id>` otherwise; `src` is also empty for
      an unrecognised source. */
  lemma PlayerIframe(escape: string, attrs: Attrs, id: string, justConfirmed: bool, header: string, loc: Location)
    requires View(escape, attrs, id, justConfirmed, header, loc).body.Player?
    ensures var m := View(escape, attrs, id, justConfirmed, header, loc).body.iframe;
      m.Keys == {"width", "height", "allow", "allowfullscreen", "frameborder", "id", "src",
                 "webkitallowfullscreen", "mozallowfullscreen"}
    ensures var m := View(escape, attrs, id, justConfirmed, header, loc).body.iframe;
      && m["width"] == "560" && m["height"] == "315" && m["allow"] == AllowList && m["frameborder"] == "0"
      && m["allowfullscreen"] == "" && m["webkitallowfullscreen"] == "" && m["mozallowfullscreen"] == ""
      && m["id"] == (if id == "" then "" else "player-" + id)
    ensures var m := View(escape, attrs, id, justConfirmed, header, loc).body.iframe;
      m["src"] == "" <==> id == "" || VideoProvider(Src(attrs)) == Unrecognised
  {
    var p := VideoProvider(Src(attrs));
    var src := EmbedSrc(escape, p, id, loc, Autoplay(attrs), justConfirmed);
    PlayerIs(escape, attrs, id, justConfirmed, header, loc);
    IframeAttributes(id, src);
    if p != Unrecognised {
      assert |src| > 0;
    }
  }

  /** For a non-empty id, the iframe's `src` is the provider's address. */
  lemma PlayerSrc(escape: string, attrs: Attrs, id: string, justConfirmed: bool, header: string, loc: Location)
    requires View(escape, attrs, id, justConfirmed, header, loc).body.Player? && id != ""
    ensures "src" in View(escape, attrs, id, justConfirmed, header, loc).body.iframe
    ensures View(escape, attrs, id, justConfirmed, header, loc).body.iframe["src"] ==
      EmbedSrc(escape, VideoProvider(Src(attrs)), id, loc, Autoplay(attrs), justConfirmed)
  {
    PlayerIs(escape, attrs, id, justConfirmed, header, loc);
    IframeAttributes(id, EmbedSrc(escape, VideoProvider(Src(attrs)), id, loc, Autoplay(attrs), justConfirmed));
  }

  /** The flags a Vimeo player reads from the iframe's `src`, as rendered:
      `autoplay=1` exactly when autoplay is on or consent was just given,
      and `background=1` exactly when autoplay is on. */
  lemma VimeoPlayerFlags(escape: string, attrs: Attrs, id: string, justConfirmed: bool, header: string, loc: Location)
    requires View(escape, attrs, id, justConfirmed, header, loc).body.Player?
    requires id != "" && AllInClass(id, NotIdDelimiter) && VideoProvider(Src(attrs)) == Vimeo
    ensures "src" in View(escape, attrs, id, justConfirmed, header, loc).body.iframe
    ensures var src := View(escape, attrs, id, justConfirmed, header, loc).body.iframe["src"];
      && PathOf(src) == "https://player.vimeo.com/video/" + id
      && (Param("autoplay", "1") in SearchParams(src) <==> Autoplay(attrs) || justConfirmed)
      && (Param("background", "1") in SearchParams(src) <==> Autoplay(attrs))
  {
    PlayerSrc(escape, attrs, id, justConfirmed, header, loc);
    PlainIdHasNoQuery(id);
    VimeoSrcParams(id, Autoplay(attrs), justConfirmed);
  }

  /** The YouTube player as rendered: the nocookie embed path, but no
      parameter a player acts on besides `rel`, so neither `autoplay` nor
      `mute` ever reaches it, whatever the attributes and `#justConfirmed`. */
  lemma YoutubePlayerLosesFlags(attrs: Attrs, id: string, justConfirmed: bool, header: string, loc: Location)
    requires View(WrittenEscape, attrs, id, justConfirmed, header, loc).body.Player?
    requires id != "" && AllInClass(id, NotIdDelimiter) && PlainLocation(loc) && VideoProvider(Src(attrs)) == YouTube
    ensures "src" in View(WrittenEscape, attrs, id, justConfirmed, header, loc).body.iframe
    ensures var src := View(WrittenEscape, attrs, id, justConfirmed, header, loc).body.iframe["src"];
      && PathOf(src) == "https://www.youtube-nocookie.com/embed/" + id
      && forall p | p in SearchParams(src) ::
           p.key != "enablejsapi" && p.key != "origin" && p.key != "autoplay" && p.key != "mute"
  {
    PlayerSrc(WrittenEscape, attrs, id, justConfirmed, header, loc);
    PlainIdHasNoQuery(id);
    YoutubeSrcAsWrittenParams(id, loc, Autoplay(attrs), justConfirmed);
    YoutubeSrcAsWrittenLosesFlags(id, loc, Autoplay(attrs), justConfirmed);
  }

  /** The YouTube player with the address the template evidently means:
      `autoplay=1` exactly when autoplay is on or consent was just given,
      and `mute=1` exactly when autoplay is on. */
  lemma YoutubePlayerFlags(attrs: Attrs, id: string, justConfirmed: bool, header: string, loc: Location)
    requires View(BareEscape, attrs, id, justConfirmed, header, loc).body.Player?
    requires id != "" && AllInClass(id, NotIdDelimiter) && PlainLocation(loc) && VideoProvider(Src(attrs)) == YouTube
    ensures "src" in View(BareEscape, attrs, id, justConfirmed, header, loc).body.iframe
    ensures var src := View(BareEscape, attrs, id, justConfirmed, header, loc).body.iframe["src"];
      && PathOf(src) == "https://www.youtube-nocookie.com/embed/" + id
      && (Param("autoplay", "1") in SearchParams(src) <==> Autoplay(attrs) || justConfirmed)
      && (Param("mute", "1") in SearchParams(src) <==> Autoplay(attrs))
  {
    PlayerSrc(BareEscape, attrs, id, justConfirmed, header, loc);
    PlainIdHasNoQuery(id);
    YoutubeSrcParams(id, loc, Autoplay(attrs), justConfirmed);
    YoutubeSrcFlags(id, loc, Autoplay(attrs), justConfirmed);
  }

  /** A click that gives consent on a recognised source with an id, while
      `autoplayOnConfirm` is on, renders a player. As rendered, a Vimeo
      player is told to autoplay and a YouTube player is not. */
  lemma ConfirmedPlayerAsWritten(attrs: Attrs, id: string, jar: seq<Cookie>, now: int, loc: Location)
    requires WellFormedJar(jar) && AllInClass(id, NotIdDelimiter) && PlainLocation(loc)
    requires id != "" && VideoProvider(Src(attrs)) != Unrecognised && AutoplayOnConfirm(attrs)
    ensures var v := View(WrittenEscape, attrs, id, true, Header(Cookies.SetCookie(jar, ConsentName(attrs), "true", now), now), loc);
      && v.body.Player? && "src" in v.body.iframe
      && (VideoProvider(Src(attrs)) == Vimeo ==> Param("autoplay", "1") in SearchParams(v.body.iframe["src"]))
      && (VideoProvider(Src(attrs)) == YouTube ==> forall p | p in SearchParams(v.body.iframe["src"]) :: p.key != "autoplay")
  {
    var header := Header(Cookies.SetCookie(jar, ConsentName(attrs), "true", now), now);
    PlayerFor14Days(WrittenEscape, attrs, id, true, jar, now, now, loc);
    if VideoProvider(Src(attrs)) == Vimeo {
      VimeoPlayerFlags(WrittenEscape, attrs, id, true, header, loc);
    } else {
      YoutubePlayerLosesFlags(attrs, id, true, header, loc);
    }
  }

  /** With the address the template evidently means, that player is told
      to autoplay for either provider. */
  lemma ConfirmedPlayerAutoplays(attrs: Attrs, id: string, jar: seq<Cookie>, now: int, loc: Location)
    requires WellFormedJar(jar) && AllInClass(id, NotIdDelimiter) && PlainLocation(loc)
    requires id != "" && VideoProvider(Src(attrs)) != Unrecognised && AutoplayOnConfirm(attrs)
    ensures var v := View(BareEscape, attrs, id, true, Header(Cookies.SetCookie(jar, ConsentName(attrs), "true", now), now), loc);
      v.body.Player? && "src" in v.body.iframe && Param("autoplay", "1") in SearchParams(v.body.iframe["src"])
  {
    var header := Header(Cookies.SetCookie(jar, ConsentName(attrs), "true", now), now);
    PlayerFor14Days(BareEscape, attrs, id, true, jar, now, now, loc);
    if VideoProvider(Src(attrs)) == Vimeo {
      VimeoPlayerFlags(BareEscape, attrs, id, true, header, loc);
    } else {
      YoutubePlayerFlags(attrs, id, true, header, loc);
    }
  }

  class VideoProviderConsent {
    /** The element's attributes. */
    var attributes: Attrs
    /** `#id`. */
    var id: string
    /** `#justConfirmed`. */
    var justConfirmed: bool
    /** The browser's cookie store, which `document.cookie` reads and writes. */
    var jar: seq<Cookie>
    /** `style.display` is `none`. */
    var hidden: bool
    /** `innerHTML`. */
    var markup: Markup

    /** The store holds one well-formed cookie per name, and `#id` holds no
        delimiter of the YouTube expression. */
    predicate Valid()
      reads this
    {
      WellFormedJar(jar) && AllInClass(id, NotIdDelimiter)
    }

    constructor (attrs: Attrs, cookies: seq<Cookie>)
      requires WellFormedJar(cookies)
      ensures Valid()
      ensures attributes == attrs && id == "" && !justConfirmed && jar == cookies && !hidden && markup == Unrendered
    {
      attributes := attrs;
      id := "";
      justConfirmed := false;
      jar := cookies;
      hidden := false;
      markup := Unrendered;
    }

    /** `setAttribute`, which stores the name in ASCII lower case: there is
        no `attributeChangedCallback`, so nothing else changes, `#id` included. */
    method SetAttribute(name: string, value: string)
      requires Valid()
      modifies this
      ensures Valid()
      ensures attributes == Attributes.SetAttribute(old(attributes), name, value)
      ensures id == old(id) && justConfirmed == old(justConfirmed) && jar == old(jar)
      ensures hidden == old(hidden) && markup == old(markup)
    {
      attributes := Attributes.SetAttribute(attributes, name, value);
    }

    /** `onSrcChanged`: `#id` becomes the id extracted from `src`; for an
        unrecognised source the player is hidden and `#id` is left as it was. */
    method OnSrcChanged()
      requires Valid()
      modifies this
      ensures Valid()
      ensures ExtractId(Src(attributes)).Some? ==> id == ExtractId(Src(attributes)).value && hidden == old(hidden)
      ensures ExtractId(Src(attributes)).None? ==> id == old(id) && hidden
      ensures attributes == old(attributes) && justConfirmed == old(justConfirmed)
      ensures jar == old(jar) && markup == old(markup)
    {
      var src := Src(attributes);
      ExtractedIdPlain(src);
      match VideoProvider(src)
      case YouTube =>
        id := YoutubeId(src);
      case Vimeo =>
        var digits := VimeoMatch(src).value.id;
        id := if |digits| > 0 then digits else "";
      case Unrecognised =>
        hidden := true;
    }

    /** `hasConsent`, read at `now`: the value of the unexpired consent
        cookie, None standing for `false`. */
    method HasConsent(now: int) returns (r: Option<string>)
      requires Valid()
      ensures r == Lookup(Visible(jar, now), ConsentName(attributes))
    {
      r := GetCookie(Header(jar, now), ConsentName(attributes));
      HeaderLookup(jar, now, ConsentName(attributes));
    }

    /** `setCookie(value)` at `now`: the consent cookie is written for 14 days. */
    method SetCookie(value: string, now: int)
      requires Valid()
      modifies this
      ensures Valid()
      ensures jar == Cookies.SetCookie(old(jar), ConsentName(attributes), value, now)
      ensures attributes == old(attributes) && id == old(id) && justConfirmed == old(justConfirmed)
      ensures hidden == old(hidden) && markup == old(markup)
    {
      SetCookieWellFormed(jar, ConsentName(attributes), value, now);
      jar := Cookies.SetCookie(jar, ConsentName(attributes), value, now);
    }

    /** `render` at `now`: the markup is the view of the state alone, so a
        second render of the same state leaves the same markup. */
    method Render(now: int, loc: Location)
      requires Valid()
      modifies this
      ensures Valid()
      ensures markup == View(WrittenEscape, attributes, id, justConfirmed, Header(jar, now), loc)
      ensures attributes == old(attributes) && id == old(id) && justConfirmed == old(justConfirmed)
      ensures jar == old(jar) && hidden == old(hidden)
    {
      var m := Compose(now, loc);
      markup := m;
    }

    /** The markup `render` writes into the element at `now`. */
    method Compose(now: int, loc: Location) returns (m: Markup)
      requires Valid()
      ensures m == View(WrittenEscape, attributes, id, justConfirmed, Header(jar, now), loc)
    {
      var style := ConsentStyleOf(attributes);
      var consent := HasConsent(now);
      HeaderLookup(jar, now, ConsentName(attributes));
      if consent.None? {
        m := Rendered(style, Prompt(Text(attributes)));
        return;
      }
      var src := "";
      if id != "" {
        src := EmbedSrc(WrittenEscape, VideoProvider(Src(attributes)), id, loc, Autoplay(attributes), justConfirmed);
      }
      var iframe := SetAttributes(IframeTemplate, IframeProps(id, src));
      m := Rendered(style, Player(iframe));
    }

    /** `confirmConsent` for a click on an element with tag `targetTag`: a
        click on a link changes nothing; any other writes consent `true`,
        sets `#justConfirmed` when `autoplayOnConfirm` is on (nothing clears
        it) and renders, which then shows the player. */
    method ConfirmConsent(targetTag: string, now: int, loc: Location)
      requires Valid()
      modifies this
      ensures Valid()
      ensures AsciiLower(targetTag) == "a" ==> unchanged(this)
      ensures AsciiLower(targetTag) != "a" ==>
        && jar == Cookies.SetCookie(old(jar), ConsentName(attributes), "true", now)
        && justConfirmed == (old(justConfirmed) || AutoplayOnConfirm(attributes))
        && markup == View(WrittenEscape, attributes, id, justConfirmed, Header(jar, now), loc)
        && markup.body.Player?
      ensures attributes == old(attributes) && id == old(id) && hidden == old(hidden)
    {
      if AsciiLower(targetTag) == "a" {
        return;
      }
      SetCookie("true", now);
      if AutoplayOnConfirm(attributes) {
        justConfirmed := true;
      }
      Render(now, loc);
      PlayerFor14Days(WrittenEscape, attributes, id, justConfirmed, old(jar), now, now, loc);
    }

    /** `connectedCallback`: `onSrcChanged`, then `render`. */
    method ConnectedCallback(now: int, loc: Location)
      requires Valid()
      modifies this
      ensures Valid()
      ensures id == (if ExtractId(Src(attributes)).Some? then ExtractId(Src(attributes)).value else old(id))
      ensures hidden == (old(hidden) || ExtractId(Src(attributes)).None?)
      ensures markup == View(WrittenEscape, attributes, id, justConfirmed, Header(jar, now), loc)
      ensures attributes == old(attributes) && justConfirmed == old(justConfirmed) && jar == old(jar)
    {
      OnSrcChanged();
      Render(now, loc);
    }
  }
}
