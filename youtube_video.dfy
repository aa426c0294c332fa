/** The `youtube-video` element (youtube-video.js): the YouTube-only
    variant. It keeps `#id` only, always uses the YouTube consent cookie, has a
    fixed stylesheet and prompt label, and reads `autoplay` as any non-empty
    attribute value. */
module YoutubeVideoElement {
  import opened Wrappers
  import opened Strings
  import opened UrlPatterns
  import opened Cookies
  import opened Embed
  import opened Attributes
  import opened Markup

  /** `cookieName` of youtube-video.js:8-10. */
  const ConsentName: string := "youtube-video-consent"

  /** The same cookie as the general element's for a YouTube source. */
  lemma SharesYoutubeCookie()
    ensures ConsentName == CookieName(YouTube) && NameOk(ConsentName)
  {
  }

  /** The label of the prompt is fixed text. */
  const PromptText: string := "Text"

  /** The markup `render` leaves for the given state, `header` being
      `document.cookie`: the fixed stylesheet, then the prompt when
      `getCookie` yields `false`, and otherwise the iframe with the
      template's attributes and the seven properties assigned in order, the
      address written with `escape` after each `&`. `render` itself writes
      `WrittenEscape`; `BareEscape` is what the template evidently means. */
  function View(escape: string, attrs: Attrs, id: string, header: string, loc: Location): Markup {
    if GetCookie(header, ConsentName).None? then
      Rendered(FixedStyle, Prompt(PromptText))
    else
      var src := YoutubeTemplate(escape, id, loc, YoutubeVideoAutoplay(attrs), false);
      Rendered(FixedStyle, Player(Assigned(IframeTemplate, IframeProps(id, src))))
  }

  /** Over a well-formed store, the prompt labelled `Text` is shown exactly
      when no unexpired YouTube consent cookie is stored. */
  lemma PromptIffNoConsent(escape: string, attrs: Attrs, id: string, jar: seq<Cookie>, now: int, loc: Location)
    requires WellFormedJar(jar)
    ensures View(escape, attrs, id, Header(jar, now), loc).body.Prompt? <==> Lookup(Visible(jar, now), ConsentName).None?
    ensures View(escape, attrs, id, Header(jar, now), loc).body.Prompt? ==>
      View(escape, attrs, id, Header(jar, now), loc).body.text == "Text"
  {
    HeaderLookup(jar, now, ConsentName);
  }

  /** After consent is written at `now`, a render at `t` shows the player
      for 14 days and the prompt from then on. */
  lemma PlayerFor14Days(escape: string, attrs: Attrs, id: string, jar: seq<Cookie>, now: int, t: int, loc: Location)
    requires WellFormedJar(jar)
    ensures View(escape, attrs, id, Header(Cookies.SetCookie(jar, ConsentName, "true", now), t), loc).body.Player?
      <==> t < now + ConsentLifetime
  {
    SharesYoutubeCookie();
    SetCookieThenGet(jar, ConsentName, "true", now, t);
    var h := Header(Cookies.SetCookie(jar, ConsentName, "true", now), t);
    assert GetCookie(h, ConsentName).Some? <==> t < now + ConsentLifetime;
  }

  lemma PlayerIs(escape: string, attrs: Attrs, id: string, header: string, loc: Location)
    requires View(escape, attrs, id, header, loc).body.Player?
    ensures View(escape, attrs, id, header, loc).body.iframe ==
      Assigned(IframeTemplate, IframeProps(id, YoutubeTemplate(escape, id, loc, YoutubeVideoAutoplay(attrs), false)))
  {
  }

  /** The iframe `render` leaves: its fixed attributes, and `id` and `src`
      empty exactly for an empty id, `player-<id>` otherwise. */
  lemma PlayerIframe(escape: string, attrs: Attrs, id: string, header: string, loc: Location)
    requires View(escape, attrs, id, header, loc).body.Player?
    ensures var m := View(escape, attrs, id, header, loc).body.iframe;
      m.Keys == {"width", "height", "allow", "allowfullscreen", "frameborder", "id", "src",
                 "webkitallowfullscreen", "mozallowfullscreen"}
    ensures var m := View(escape, attrs, id, header, loc).body.iframe;
      && m["width"] == "560" && m["height"] == "315" && m["allow"] == AllowList && m["frameborder"] == "0"
      && m["allowfullscreen"] == "" && m["webkitallowfullscreen"] == "" && m["mozallowfullscreen"] == ""
      && m["id"] == (if id == "" then "" else "player-" + id)
      && (m["src"] == "" <==> id == "")
  {
    var src := YoutubeTemplate(escape, id, loc, YoutubeVideoAutoplay(attrs), false);
    PlayerIs(escape, attrs, id, header, loc);
    IframeAttributes(id, src);
    assert |src| > 0;
  }

  /** For a non-empty id, the iframe's `src` is the template's address. */
  lemma PlayerSrc(escape: string, attrs: Attrs, id: string, header: string, loc: Location)
    requires View(escape, attrs, id, header, loc).body.Player? && id != ""
    ensures "src" in View(escape, attrs, id, header, loc).body.iframe
    ensures View(escape, attrs, id, header, loc).body.iframe["src"] ==
      YoutubeTemplate(escape, id, loc, YoutubeVideoAutoplay(attrs), false)
  {
    PlayerIs(escape, attrs, id, header, loc);
    IframeAttributes(id, YoutubeTemplate(escape, id, loc, YoutubeVideoAutoplay(attrs), false));
  }

  /** The player as rendered: the address is youtube-video.js:87's, with
      the nocookie embed path but with neither `autoplay` nor `mute` among
      the parameters a player reads, whatever the `autoplay` attribute says. */
  lemma PlayerLosesFlags(attrs: Attrs, id: string, header: string, loc: Location)
    requires View(WrittenEscape, attrs, id, header, loc).body.Player?
    requires id != "" && AllInClass(id, NotIdDelimiter) && PlainLocation(loc)
    ensures "src" in View(WrittenEscape, attrs, id, header, loc).body.iframe
    ensures var src := View(WrittenEscape, attrs, id, header, loc).body.iframe["src"];
      && src == YoutubeVideoSrcAsWritten(id, loc, YoutubeVideoAutoplay(attrs))
      && PathOf(src) == "https://www.youtube-nocookie.com/embed/" + id
      && forall p | p in SearchParams(src) :: p.key != "autoplay" && p.key != "mute"
  {
    PlayerSrc(WrittenEscape, attrs, id, header, loc);
    YoutubeVideoSrcIsGeneral(id, loc, YoutubeVideoAutoplay(attrs));
    assert '?' !in id;
    YoutubeSrcAsWrittenParams(id, loc, YoutubeVideoAutoplay(attrs), false);
    YoutubeVideoSrcLosesFlags(id, loc, YoutubeVideoAutoplay(attrs));
  }

  /** With the address the template evidently means: `autoplay=1` and
      `mute=1` together, exactly when the `autoplay` attribute is set to a
      non-empty value (`false` included). */
  lemma PlayerSrcFlags(attrs: Attrs, id: string, header: string, loc: Location)
    requires View(BareEscape, attrs, id, header, loc).body.Player?
    requires id != "" && AllInClass(id, NotIdDelimiter) && PlainLocation(loc)
    ensures "src" in View(BareEscape, attrs, id, header, loc).body.iframe
    ensures var src := View(BareEscape, attrs, id, header, loc).body.iframe["src"];
      && PathOf(src) == "https://www.youtube-nocookie.com/embed/" + id
      && (Param("autoplay", "1") in SearchParams(src) <==> "autoplay" in attrs && attrs["autoplay"] != "")
      && (Param("mute", "1") in SearchParams(src) <==> Param("autoplay", "1") in SearchParams(src))
  {
    PlayerSrc(BareEscape, attrs, id, header, loc);
    assert '?' !in id;
    AutoplayReadings(attrs);
    YoutubeSrcParams(id, loc, YoutubeVideoAutoplay(attrs), false);
    YoutubeSrcFlags(id, loc, YoutubeVideoAutoplay(attrs), false);
  }

  class YoutubeVideo {
    /** The element's attributes. */
    var attributes: Attrs
    /** `#id`. */
    var id: string
    /** The browser's cookie store, which `document.cookie` reads and writes. */
    var jar: seq<Cookie>
    /** `innerHTML`. */
    var markup: Markup

    /** The store holds one well-formed cookie per name, and `#id` is empty
        or eleven UTF-16 code units long without a delimiter of the expression. */
    predicate Valid()
      reads this
    {
      WellFormedJar(jar) && (id == "" || (Utf16Length(id) == 11 && AllInClass(id, NotIdDelimiter)))
    }

    constructor (attrs: Attrs, cookies: seq<Cookie>)
      requires WellFormedJar(cookies)
      ensures Valid()
      ensures attributes == attrs && id == "" && jar == cookies && markup == Unrendered
    {
      attributes := attrs;
      id := "";
      jar := cookies;
      markup := Unrendered;
    }

    /** `setAttribute`, which stores the name in ASCII lower case: nothing
        else changes, `#id` included. */
    method SetAttribute(name: string, value: string)
      requires Valid()
      modifies this
      ensures Valid()
      ensures attributes == Attributes.SetAttribute(old(attributes), name, value)
      ensures id == old(id) && jar == old(jar) && markup == old(markup)
    {
      attributes := Attributes.SetAttribute(attributes, name, value);
    }

    /** `onSrcChanged`: `#id` becomes group 2 of the match when its `length`
        is eleven, and empty otherwise. */
    method OnSrcChanged()
      requires Valid()
      modifies this
      ensures Valid()
      ensures id == YoutubeId(Src(attributes))
      ensures attributes == old(attributes) && jar == old(jar) && markup == old(markup)
    {
      YoutubeIdSpec(Src(attributes));
      id := YoutubeId(Src(attributes));
    }

    /** `hasConsent`, read at `now`: the value of the unexpired YouTube
        consent cookie, None standing for `false`. */
    method HasConsent(now: int) returns (r: Option<string>)
      requires Valid()
      ensures r == Lookup(Visible(jar, now), ConsentName)
    {
      r := GetCookie(Header(jar, now), ConsentName);
      HeaderLookup(jar, now, ConsentName);
    }

    /** `setCookie(value)` at `now`: the consent cookie is written for 14 days. */
    method SetCookie(value: string, now: int)
      requires Valid()
      modifies this
      ensures Valid()
      ensures jar == Cookies.SetCookie(old(jar), ConsentName, value, now)
      ensures attributes == old(attributes) && id == old(id) && markup == old(markup)
    {
      SetCookieWellFormed(jar, ConsentName, value, now);
      jar := Cookies.SetCookie(jar, ConsentName, value, now);
    }

    /** `render` at `now`: the markup is the view of the state alone, so a
        second render of the same state leaves the same markup. */
    method Render(now: int, loc: Location)
      requires Valid()
      modifies this
      ensures Valid()
      ensures markup == View(WrittenEscape, attributes, id, Header(jar, now), loc)
      ensures attributes == old(attributes) && id == old(id) && jar == old(jar)
    {
      var m := Compose(now, loc);
      markup := m;
    }

    /** The markup `render` writes into the element at `now`. */
    method Compose(now: int, loc: Location) returns (m: Markup)
      requires Valid()
      ensures m == View(WrittenEscape, attributes, id, Header(jar, now), loc)
    {
      var consent := HasConsent(now);
      HeaderLookup(jar, now, ConsentName);
      if consent.None? {
        m := Rendered(FixedStyle, Prompt(PromptText));
      } else {
        var src := "";
        if id != "" {
          src := YoutubeTemplate(WrittenEscape, id, loc, YoutubeVideoAutoplay(attributes), false);
        }
        var iframe := SetAttributes(IframeTemplate, IframeProps(id, src));
        m := Rendered(FixedStyle, Player(iframe));
      }
    }

    /** `confirmConsent` for a click on an element with tag `targetTag`: a
        click on a link changes nothing; any other writes consent `true` and
        renders, which then shows the player. */
    method ConfirmConsent(targetTag: string, now: int, loc: Location)
      requires Valid()
      modifies this
      ensures Valid()
      ensures AsciiLower(targetTag) == "a" ==> unchanged(this)
      ensures AsciiLower(targetTag) != "a" ==>
        && jar == Cookies.SetCookie(old(jar), ConsentName, "true", now)
        && markup == View(WrittenEscape, attributes, id, Header(jar, now), loc)
        && markup.body.Player?
      ensures attributes == old(attributes) && id == old(id)
    {
      if AsciiLower(targetTag) == "a" {
        return;
      }
      SetCookie("true", now);
      Render(now, loc);
      PlayerFor14Days(WrittenEscape, attributes, id, old(jar), now, now, loc);
    }

    /** `connectedCallback`: `onSrcChanged`, then `render`. */
    method ConnectedCallback(now: int, loc: Location)
      requires Valid()
      modifies this
      ensures Valid()
      ensures id == YoutubeId(Src(attributes))
      ensures markup == View(WrittenEscape, attributes, id, Header(jar, now), loc)
      ensures attributes == old(attributes) && jar == old(jar)
    {
      OnSrcChanged();
      Render(now, loc);
    }
  }
}
