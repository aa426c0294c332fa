# Video consent elements in Dafny

This project models the two custom elements of a browser widget. Each element
holds back a YouTube or Vimeo player until the visitor consents, and records
that consent in a cookie:

- `video-provider-consent` (video-provider-consent.js) serves both providers.
- `youtube-video` (youtube-video.js) is its YouTube-only predecessor.

The model has these parts:

- **URL patterns** (`UrlPatterns`). The two regular expressions are
  hand-written matchers. Each is proved to return the match that JavaScript's
  backtracking picks. For YouTube this is the last alternative within the
  first line, with group 2 the longest run of characters other than `#&?/`.
  For Vimeo it is the last `vimeo.com/` within the first line that is followed
  by an optional prefix and digits, where `[A-z]` also admits `[\]^_` and the
  backtick. On top of the matchers sit the provider classification and the id
  that `onSrcChanged` keeps.
- **Consent cookie** (`Cookies`). `getCookie` is modelled as the string parse
  it is. The browser's cookie store is a sequence of cookies, in creation order
  with expiry times, and `document.cookie` serialises its unexpired entries.
  `setCookie` stores a cookie that lasts 14 days (1 209 600 000 ms).
- **Embed addresses** (`Embed`). These are the iframe `src` templates, plus
  the reading of a query string that a player applies, as `URLSearchParams`
  does.
- **Attributes and markup** (`Attributes`, `Markup`). These cover the
  attribute getters and the markup `render` leaves: the stylesheet's settings,
  then either the prompt or the iframe with its attributes. The iframe's
  attributes are set one by one by a loop.
- **The elements** (`VideoProviderConsentElement`, `YoutubeVideoElement`).
  Each element is a class whose fields are the instance's state: attributes,
  `#id`, `#justConfirmed`, the cookie store, whether the player is hidden, and
  the markup. The methods are `onSrcChanged`, `setCookie`, `hasConsent`,
  `render`, `confirmConsent` and `connectedCallback`. Each method is specified
  against a `View` function, and the lemmas about `View` state what the
  elements promise.

The current time, `window.location` (protocol and host) and the tag name of
the clicked element are parameters.

The model follows the code as written, also where that differs from what the
code evidently means or from a description of the widget:

- The YouTube address is rendered as written, with `&amp;` between its
  parameters (video-provider-consent.js:180, youtube-video.js:87). The text
  goes to `setAttribute`, which stores it verbatim, so a player reads the names
  `amp;enablejsapi`, `amp;origin`, `amp;autoplay` and `amp;mute`. The lemmas
  about the rendered elements state this. The address with a bare `&`, which
  the template evidently means, is a second view, and its lemmas are proved
  separately (see Findings).
- The id check `match[2].length === 11` counts UTF-16 code units, so a
  character above U+FFFF counts twice (`Strings.Utf16Length`).
- In an HTML document, `getAttribute` and `setAttribute` lower-case the name
  in ASCII. The getter `aspectRatio` therefore reads the stored attribute
  `aspectratio`.
- Nothing ever clears `#justConfirmed` (video-provider-consent.js:3, 139). After
  one confirmation with `autoplayOnConfirm` on, every later render of that
  instance asks the player to autoplay; the flag is not one-shot.
- An unrecognised source hides the player (`style.display = 'none'`), but
  `render` still writes the prompt or an iframe with an empty `src`.
- For an unrecognised source, `cookieName` is `undefined`. The string
  concatenations spell it `undefined`, so the element then reads and writes a
  cookie called `undefined`.
- `#id` is recomputed only by `connectedCallback`: there is no
  `attributeChangedCallback`. `render` nevertheless classifies the current
  `src` attribute again, so a changed `src` can pair an old id with a new
  provider.

## Model

| member | source | states |
|---|---|---|
| UrlPatterns.YoutubeMatchIsPreferredParse | video-provider-consent.js:30 | `YoutubeMatch` finds a match exactly when the expression has a parse; the match is a parse, no parse starts later in the first line, and its group 2 is the longest run of `[^#&?/]` after the alternative |
| UrlPatterns.YoutubeMatchUnique | video-provider-consent.js:30 | the match the expression reports (start, alternative and group 2) is unique |
| UrlPatterns.VimeoMatchIsPreferredParse | video-provider-consent.js:34 | `VimeoMatch` finds a match exactly when the expression has a parse; the match is a parse starting at the last possible `vimeo.com/`, with the first matching prefix alternative and the longest digit run |
| UrlPatterns.LastVimeoIsLast | video-provider-consent.js:34 | no position between the found start and the end of the first line lets the rest of the Vimeo expression match, and none at all when nothing is found |
| UrlPatterns.ProviderByPatterns | video-provider-consent.js:94-102 | `VideoProvider` is YouTube iff the YouTube expression can match, Vimeo iff only the Vimeo one can, and none iff neither can |
| UrlPatterns.YoutubeId | video-provider-consent.js:118 | a non-empty YouTube id is 11 UTF-16 code units long and holds none of `#&?/` |
| UrlPatterns.YoutubeIdSpec | youtube-video.js:41-44 | the YouTube id is group 2 of the match the expression reports when that has `length` 11 in UTF-16 code units, and empty otherwise, also when nothing matches |
| UrlPatterns.VimeoIdSpec | video-provider-consent.js:120-122 | for a Vimeo source `ExtractId` gives the digit run of the reported match: never empty, all digits |
| UrlPatterns.ExtractIdByPatterns | video-provider-consent.js:113-126 | `ExtractId` gives no id (the `default` branch) exactly when neither expression can match, the YouTube id whenever the YouTube one can, and otherwise the digits of the reported Vimeo match |
| UrlPatterns.WatchLinkExample | video-provider-consent.js:118 | `https://www.youtube.com/watch?v=dQw4w9WgXcQ` yields the id `dQw4w9WgXcQ` |
| UrlPatterns.AstralIdExample | video-provider-consent.js:118 | `https://youtu.be/abcdefghi` followed by one emoji yields that ten-character group as the id, since its `length` is 11 |
| UrlPatterns.ShortIdExample | video-provider-consent.js:118 | `https://youtu.be/abc` is YouTube with the empty id, because group 2 is not 11 code units long |
| UrlPatterns.PlainVimeoExample | video-provider-consent.js:121 | `https://vimeo.com/76979871` yields the id `76979871` |
| UrlPatterns.VimeoChannelExample | video-provider-consent.js:34 | `https://vimeo.com/channels/staff/76979871` yields the digits after the channel name |
| UrlPatterns.YoutubeWinsExample | video-provider-consent.js:94-102 | a Vimeo link carrying a YouTube short link is classified YouTube, since the YouTube expression is tried first |
| UrlPatterns.UnrecognisedWithoutMarkers | video-provider-consent.js:94-102 | a text where no YouTube alternative can begin and without a `v` is not classified |
| UrlPatterns.FileNameExample | video-provider-consent.js:123-124 | `clip.mp4` takes the `default` branch |
| Strings.Utf16LengthOfBmp | video-provider-consent.js:118 | `length` equals the number of characters exactly when none lies above U+FFFF |
| Strings.Utf16LengthConcat | video-provider-consent.js:118 | the `length` of a concatenation is the sum of the parts' lengths |
| Strings.SplitJoin | video-provider-consent.js:154 | joining the pieces of `split` with the separator gives back the string, and no piece contains the separator |
| Strings.LowersToA | video-provider-consent.js:133 | a tag lower-cases to `a` exactly when it is `a` or `A` |
| Cookies.CookieName | video-provider-consent.js:9-17 | the name is `youtube-video-consent` exactly for YouTube and `vimeo-video-consent` exactly for Vimeo, and is always a valid cookie name |
| Cookies.GetCookieSpec | video-provider-consent.js:152-156 | `GetCookie` answers exactly when `; <name>=` occurs once in `; ` + the header, and then gives the text after it up to the next `;` or the end |
| Cookies.GetCookieOfHeader | video-provider-consent.js:152-156 | over the `Header` serialised from cookies with distinct names, `GetCookie` gives the value of the cookie of that name when one is present, and `false` otherwise |
| Cookies.LongerNameNotMatched | video-provider-consent.js:153-154 | a cookie whose name only ends in the consent name is not read |
| Cookies.HeaderLookup | video-provider-consent.js:152-156 | over a store with one cookie per name, `getCookie` gives the value of the unexpired cookie of that name, or `false` |
| Cookies.StoreWellFormed | video-provider-consent.js:149 | writing a cookie keeps one cookie per name, and every cookie afterwards is the new one or an old one |
| Cookies.StoreVisibleNamed | video-provider-consent.js:149 | after the write, exactly one unexpired cookie carries the name while the new one lasts, and it holds the new value |
| Cookies.StoreVisibleOther | video-provider-consent.js:149 | the write leaves the unexpired cookies of every other name as they were |
| Cookies.ConsentLasts14Days | video-provider-consent.js:145-150 | after a cookie is written at `now`, `getCookie` at `t` gives its value when `t < now + 1209600000` and `false` from then on |
| Cookies.OtherCookiesUnaffected | video-provider-consent.js:149 | writing one cookie does not change what `getCookie` reads for another name |
| Cookies.SetCookieThenGet | video-provider-consent.js:145-156 | `SetCookie` with a value without `;` keeps the store well formed, `GetCookie` reads the value back for 14 days, and every other name reads as before |
| Cookies.SetCookieWellFormed | video-provider-consent.js:149 | `setCookie` keeps the store well formed whatever the value |
| Embed.UrlRoundTrip | video-provider-consent.js:180-183 | an address built from a path without `?` and parameters with non-empty names, no `&` or `=` in a name and no `&` in a value reads back as that path and exactly those parameters |
| Embed.YoutubeTemplateParams | video-provider-consent.js:180 | `YoutubeTemplate`, whatever text stands between `&` and each name, has the nocookie embed path and reads back as `rel`, then the names with that text in front, with `autoplay` iff autoplay or just confirmed and `mute` iff autoplay |
| Embed.YoutubeSrcParams | video-provider-consent.js:180 | the corrected YouTube address reads back as `rel=0`, `enablejsapi=1`, `origin`, then `autoplay=1` iff autoplay or just confirmed and `mute=1` iff autoplay |
| Embed.YoutubeSrcFlags | video-provider-consent.js:180 | with the corrected address a player is told to autoplay iff autoplay is on or consent was just given, and to mute iff autoplay is on |
| Embed.YoutubeSrcAsWrittenParams | video-provider-consent.js:180 | the address as written has the embed path and reads back with every name after `rel` starting with `amp;` |
| Embed.YoutubeSrcAsWrittenLosesFlags | video-provider-consent.js:180 | so, as written, a player never sees `enablejsapi`, `origin`, `autoplay` or `mute` |
| Embed.YoutubeVideoSrcIsGeneral | youtube-video.js:87 | the YouTube-only element's address, as written there, is the general template with `&amp;` and consent not just given |
| Embed.YoutubeVideoSrcLosesFlags | youtube-video.js:87 | as written, the YouTube-only element's address never shows a player an `autoplay` or `mute` parameter |
| Embed.VimeoSrcIsQuery | video-provider-consent.js:183 | `VimeoSrc` is its path, `?` and its parameters written out |
| Embed.VimeoSrcParams | video-provider-consent.js:183 | a player reads from `VimeoSrc` the id's path, `autoplay=1` iff autoplay or just confirmed, and `background=1` iff autoplay |
| Attributes.GetAfterSet | video-provider-consent.js:37-39 | after `setAttribute`, `getAttribute` of a name equal up to ASCII case gives the written value, and every other name reads as before |
| Attributes.GetAttributeIgnoresCase | video-provider-consent.js:37-39 | `getAttribute` gives the same reading for two names that agree up to the case of ASCII letters |
| Attributes.SameNameIsLower | video-provider-consent.js:37-39 | two names reach the same attribute exactly when they agree up to the case of ASCII letters |
| Attributes.StoredNames | video-provider-consent.js:61-92 | the camel-case names the getters pass reach the stored attributes `aspectratio`, `textorientation`, `showicon`, `darkmode` and `autoplayonconfirm` |
| Attributes.FlagDecodings | video-provider-consent.js:74-88 | the two boolean decodings agree on every set attribute and differ only when it is missing |
| Attributes.TextDefaults | video-provider-consent.js:37-67 | the text getters give the stored attribute when it is set (even to the empty text) and their default (`''`, `16/9`, `row`) only when it is missing |
| Attributes.FlagGetters | video-provider-consent.js:49-92 | `autoplay` and `darkMode` hold for the exact stored text `true` only; `showIcon` and `autoplayOnConfirm` also hold when the attribute is missing |
| Attributes.GettersReadOwnAttribute | video-provider-consent.js:37-92 | a write to any attribute other than a getter's own leaves that getter's reading unchanged |
| Attributes.AutoplayReadings | youtube-video.js:20-22 | the YouTube-only element's `autoplay` holds iff the attribute is set and non-empty, so `false` turns it on there but not in the general element |
| Markup.StyleFromAttributes | video-provider-consent.js:196-239 | the stylesheet has the grey background iff no non-empty picture is set, otherwise `url(<picture>)`; black text iff `darkmode` is `true`; the icon hidden iff `showicon` is set to other than `true`; and the stored aspect ratio and direction or `16/9` and `row` |
| Markup.SetAttributes | video-provider-consent.js:190-193 | the loop leaves the attributes obtained by assigning each property in order |
| Markup.AssignedLookup | video-provider-consent.js:190-193 | after the assignments, a name holds the value of its last assignment, or keeps its earlier value when it was not assigned |
| Markup.IframeAttributes | video-provider-consent.js:165-186 | the iframe built from `IframeProps` has exactly the template's two attributes and the seven properties; `id` and `src` are empty for an empty id, and `id` is `player-<id>` otherwise |
| VideoProviderConsentElement.ConsentName | video-provider-consent.js:9-17 | the element's cookie name, from its current `src`, is a valid cookie name |
| VideoProviderConsentElement.ExtractedIdPlain | video-provider-consent.js:118-121 | an id taken from a source never holds `#&?/` |
| VideoProviderConsentElement.PromptIffNoConsent | video-provider-consent.js:158-164 | in the `View`, over a well-formed store, the prompt with the `text` attribute is shown exactly when no unexpired consent cookie exists; any stored value shows the player |
| VideoProviderConsentElement.ConsentFalseShowsPlayer | video-provider-consent.js:161 | storing `false` as consent still shows the player |
| VideoProviderConsentElement.PlayerFor14Days | video-provider-consent.js:145-164 | after consent is written at `now`, a render at `t` shows the player iff `t < now + 14 days` |
| VideoProviderConsentElement.PlayerIframe | video-provider-consent.js:165-186 | the player's iframe has the fixed attributes, `id` empty or `player-<id>`, and a `src` that is empty iff the id is empty or the source is unrecognised |
| VideoProviderConsentElement.PlayerSrc | video-provider-consent.js:175-186 | for a non-empty id the iframe's `src` is the provider's address |
| VideoProviderConsentElement.VimeoPlayerFlags | video-provider-consent.js:183 | for a Vimeo source with an id, the rendered `src` has the Vimeo path, and a player reads `autoplay=1` iff autoplay or just confirmed and `background=1` iff autoplay |
| VideoProviderConsentElement.YoutubePlayerLosesFlags | video-provider-consent.js:180 | for a YouTube source with an id, the rendered `src` has the embed path, but a player reads no `enablejsapi`, `origin`, `autoplay` or `mute` parameter, whatever the attributes |
| VideoProviderConsentElement.YoutubePlayerFlags | video-provider-consent.js:180 | with the corrected address, a YouTube player reads `autoplay=1` iff autoplay or just confirmed and `mute=1` iff autoplay |
| VideoProviderConsentElement.ConfirmedPlayerAsWritten | video-provider-consent.js:132-143 | consent given by a click, with `autoplayOnConfirm` on, on a recognised source with an id shows a player; as rendered, a Vimeo player is told to autoplay and a YouTube player is not |
| VideoProviderConsentElement.ConfirmedPlayerAutoplays | video-provider-consent.js:132-143 | with the corrected address, that player is told to autoplay for either provider |
| VideoProviderConsentElement.VideoProviderConsent.constructor | video-provider-consent.js:2-7 | a new element has the empty id, is not just confirmed, is shown and has no markup |
| VideoProviderConsentElement.VideoProviderConsent.SetAttribute | video-provider-consent.js:104-111 | changing an attribute stores it under its lower-cased name and changes nothing else, `#id` included |
| VideoProviderConsentElement.VideoProviderConsent.OnSrcChanged | video-provider-consent.js:113-130 | `#id` becomes the extracted id for a recognised source; otherwise the player is hidden and `#id` is kept |
| VideoProviderConsentElement.VideoProviderConsent.HasConsent | video-provider-consent.js:53-55 | `hasConsent` is the value of the unexpired consent cookie, or `false` |
| VideoProviderConsentElement.VideoProviderConsent.SetCookie | video-provider-consent.js:145-150 | the consent cookie is written for 14 days; the store stays well formed |
| VideoProviderConsentElement.VideoProviderConsent.Compose | video-provider-consent.js:158-194 | the markup `render` builds is the `View` of the state, with the YouTube address as written |
| VideoProviderConsentElement.VideoProviderConsent.Render | video-provider-consent.js:158-194 | the markup becomes the `View` of the current state alone, with the YouTube address as written, so rendering twice leaves the same markup; nothing else changes |
| VideoProviderConsentElement.VideoProviderConsent.ConfirmConsent | video-provider-consent.js:132-143 | a click on a link changes nothing; any other click writes consent `true`, sets `#justConfirmed` iff `autoplayOnConfirm` (never clearing it), and renders the player |
| VideoProviderConsentElement.VideoProviderConsent.ConnectedCallback | video-provider-consent.js:108-111 | connecting runs `onSrcChanged`, then `render` |
| YoutubeVideoElement.SharesYoutubeCookie | youtube-video.js:8-10 | the cookie name is always `youtube-video-consent`, the general element's YouTube name |
| YoutubeVideoElement.PromptIffNoConsent | youtube-video.js:68-74 | in the `View`, the prompt labelled `Text` is shown exactly when no unexpired consent cookie exists |
| YoutubeVideoElement.PlayerFor14Days | youtube-video.js:55-74 | after consent is written at `now`, a render at `t` shows the player iff `t < now + 14 days` |
| YoutubeVideoElement.PlayerIframe | youtube-video.js:75-95 | the player's iframe has the fixed attributes, `id` empty or `player-<id>`, and a `src` that is empty iff the id is |
| YoutubeVideoElement.PlayerSrc | youtube-video.js:85-88 | for a non-empty id the iframe's `src` is the YouTube template's address |
| YoutubeVideoElement.PlayerLosesFlags | youtube-video.js:87 | the rendered `src` is the address as written at line 87, with the embed path, and a player reads neither `autoplay` nor `mute` from it, whatever the `autoplay` attribute |
| YoutubeVideoElement.PlayerSrcFlags | youtube-video.js:85-88 | with the corrected address, `autoplay=1` and `mute=1` appear together, exactly when the `autoplay` attribute is set and non-empty, `false` included |
| YoutubeVideoElement.YoutubeVideo.constructor | youtube-video.js:2-6 | a new element has the empty id and no markup |
| YoutubeVideoElement.YoutubeVideo.SetAttribute | youtube-video.js:32-39 | changing an attribute stores it under its lower-cased name and changes nothing else, `#id` included |
| YoutubeVideoElement.YoutubeVideo.OnSrcChanged | youtube-video.js:41-44 | `#id` becomes the YouTube id of the `src` attribute |
| YoutubeVideoElement.YoutubeVideo.HasConsent | youtube-video.js:24-26 | `hasConsent` is the value of the unexpired consent cookie, or `false` |
| YoutubeVideoElement.YoutubeVideo.SetCookie | youtube-video.js:55-60 | the consent cookie is written for 14 days; the store stays well formed |
| YoutubeVideoElement.YoutubeVideo.Compose | youtube-video.js:68-96 | the markup `render` builds is the `View` of the state, with the address as written |
| YoutubeVideoElement.YoutubeVideo.Render | youtube-video.js:68-96 | the markup becomes the `View` of the current state alone, with the address as written; nothing else changes |
| YoutubeVideoElement.YoutubeVideo.ConfirmConsent | youtube-video.js:46-53 | a click on a link changes nothing; any other click writes consent `true` and renders the player |
| YoutubeVideoElement.YoutubeVideo.ConnectedCallback | youtube-video.js:36-39 | connecting runs `onSrcChanged`, then `render` |

## Left out

- `textSize` (video-provider-consent.js:69-72) is floating-point parsing, so it is not modelled; the stylesheet model omits the font size.
- The CSS and SVG text of the stylesheets and templates is not modelled. The markup keeps only the stylesheet's interpolated settings, the prompt label and the iframe's attributes.
- The cookie's date text and `path=/` are not modelled. The store keeps one cookie per name with an integer expiry time, and ignores paths and domains. `Cookies.Store` also replaces an expired cookie of the same name in place, where a browser has already evicted it and appends the new one (section 5.3 of RFC 6265). So `document.cookie` may list that cookie earlier than a browser would; which value `getCookie` reads does not change.
- VideoProviderConsentElement.YoutubePlayerFlags and the flag lemmas `VideoProviderConsentElement.YoutubePlayerLosesFlags`, `VideoProviderConsentElement.ConfirmedPlayerAsWritten`, `VideoProviderConsentElement.ConfirmedPlayerAutoplays`, `YoutubeVideoElement.PlayerLosesFlags` and `YoutubeVideoElement.PlayerSrcFlags` assume a page location whose protocol and host hold no `&` (`Embed.PlainLocation`). A DNS host name never holds one, but a URL host in general may, and then the `origin` entry would split.
- Cookies.SetCookie keeps the value up to its first `;`, which is what a browser stores. It does not trim whitespace around the name and the value, which a browser does (section 5.2 of RFC 6265), and it does not parse cookie attributes.
- Strings.AsciiLower lower-cases the ASCII letters only. JavaScript's `toLowerCase` also maps letters of other scripts, but no character other than `A` maps to `a`, so the comparison with `'a'` comes out the same. HTML lower-cases attribute names in ASCII only, as the model does.
- Embed.SearchParams does not percent-decode names and values, and does not cut a `#` fragment. The names in the templates hold neither.
- Embed.YoutubeSrcParams and Embed.YoutubeTemplateParams state the `origin` parameter as the written text `<protocol>%2F%2F<host>`. A player's `URLSearchParams` decodes it to `<protocol>//<host>`, so `Param("origin", Origin(loc))` is not the value a player reads.
- The DOM is not modelled beyond attributes: `innerHTML`, `querySelector`, element registration, the global `event`, and `style.display`. `style.display` is the `hidden` field. An element in an XML document, whose attribute names keep their case, is not modelled.
- The consent-platform events, the global configuration object and the rerender broadcasts are not part of this model, because neither element's code implements them.

## Findings

| source | as written | input that shows it | evidently intended | confidence | as-written member | corrected member |
|---|---|---|---|---|---|---|
| video-provider-consent.js:180 | the parameters of the YouTube `src` are joined by `&amp;`, in a string passed to `setAttribute`, which does not decode entities | any id, with `autoplay="true"`: the `src` is `…?rel=0&amp;enablejsapi=1&amp;origin=…&amp;autoplay=1&amp;mute=1`, whose parameter names read `amp;enablejsapi`, `amp;origin`, `amp;autoplay`, `amp;mute` | parameters joined by `&`, so the player reads `enablejsapi`, `origin`, `autoplay` and `mute` | high, not executed | Embed.YoutubeSrcAsWrittenLosesFlags | Embed.YoutubeSrcFlags |
| video-provider-consent.js:180 | the rendered YouTube player therefore never autoplays or mutes | a YouTube `src` with an id and `autoplay="true"`: the rendered iframe's `src` carries no `autoplay` or `mute` parameter | the player autoplays iff autoplay or just confirmed, and mutes iff autoplay | high, not executed | VideoProviderConsentElement.YoutubePlayerLosesFlags | VideoProviderConsentElement.YoutubePlayerFlags |
| video-provider-consent.js:132-143 | a click with `autoplayOnConfirm` on does not start a YouTube player | a click on the prompt of a YouTube source with an id: the player rendered next reads no `autoplay` | the player rendered after the click autoplays | high, not executed | VideoProviderConsentElement.ConfirmedPlayerAsWritten | VideoProviderConsentElement.ConfirmedPlayerAutoplays |
| youtube-video.js:87 | the same `&amp;` joins in the YouTube-only element's `src` | any id with the `autoplay` attribute set: the rendered player reads no `autoplay` or `mute` parameter | parameters joined by `&` | high, not executed | YoutubeVideoElement.PlayerLosesFlags | YoutubeVideoElement.PlayerSrcFlags |
