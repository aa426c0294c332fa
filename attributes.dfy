/** The attribute getters of the two elements (video-provider-consent.js:37-92,
    youtube-video.js:16-22). An element's attributes are a map from name to
    value. In an HTML document the element stores every attribute name in
    ASCII lower case, and `getAttribute` and `setAttribute` lower-case the
    name they are given, so `getAttribute("aspectRatio")` reads the attribute
    `aspectratio`. `getAttribute` yields None (`null`) for a name that is not
    set. */
module Attributes {
  import opened Wrappers
  import opened Strings

  /** Attribute values by their stored, lower-cased, names. */
  type Attrs = map<string, string>

  /** `getAttribute(name)`. */
  function GetAttribute(attrs: Attrs, name: string): (r: Option<string>)
    ensures r.Some? ==> r.value in attrs.Values
  {
    if AsciiLower(name) in attrs then Some(attrs[AsciiLower(name)]) else None
  }

  /** `setAttribute(name, value)`. */
  function SetAttribute(attrs: Attrs, name: string, value: string): Attrs {
    attrs[AsciiLower(name) := value]
  }

  /** Reading after a write: the written value for any spelling of the same
      name, in whatever case, and the old reading for every other name. */
  lemma GetAfterSet(attrs: Attrs, name: string, value: string, other: string)
    ensures GetAttribute(SetAttribute(attrs, name, value), other) ==
      if SameName(name, other) then Some(value) else GetAttribute(attrs, other)
  {
    SameNameIsLower(name, other);
  }

  /** `getAttribute` does not see the case of ASCII letters in the name. */
  lemma GetAttributeIgnoresCase(attrs: Attrs, a: string, b: string)
    requires SameName(a, b)
    ensures GetAttribute(attrs, a) == GetAttribute(attrs, b)
  {
    SameNameIsLower(a, b);
  }

  /** Two spellings name the same attribute when they agree up to the case
      of their ASCII letters. */
  predicate SameName(a: string, b: string) {
    |a| == |b| && forall i :: 0 <= i < |a| ==> LowerChar(a[i]) == LowerChar(b[i])
  }

  lemma SameNameIsLower(a: string, b: string)
    ensures SameName(a, b) <==> AsciiLower(a) == AsciiLower(b)
  {
    if AsciiLower(a) == AsciiLower(b) {
      assert |a| == |b|;
      forall i | 0 <= i < |a| ensures LowerChar(a[i]) == LowerChar(b[i]) {
        assert AsciiLower(a)[i] == AsciiLower(b)[i];
      }
    }
  }

  /** The stored names of the attributes the getters read. */
  lemma StoredNames()
    ensures AsciiLower("src") == "src" && AsciiLower("text") == "text"
    ensures AsciiLower("picture") == "picture" && AsciiLower("autoplay") == "autoplay"
    ensures AsciiLower("aspectRatio") == "aspectratio"
    ensures AsciiLower("textOrientation") == "textorientation"
    ensures AsciiLower("showIcon") == "showicon" && AsciiLower("darkMode") == "darkmode"
    ensures AsciiLower("autoplayOnConfirm") == "autoplayonconfirm"
  {
    LowerName("src", "src");
    LowerName("text", "text");
    LowerName("picture", "picture");
    LowerName("autoplay", "autoplay");
    LowerName("aspectRatio", "aspectratio");
    LowerName("textOrientation", "textorientation");
    LowerName("showIcon", "showicon");
    LowerName("darkMode", "darkmode");
    LowerName("autoplayOnConfirm", "autoplayonconfirm");
  }

  lemma LowerName(name: string, stored: string)
    requires |name| == |stored| && forall i :: 0 <= i < |name| ==> LowerChar(name[i]) == stored[i]
    ensures AsciiLower(name) == stored
  {
  }

  /** `getAttribute(name) ?? fallback`: the text getters with a default. */
  function TextOr(attrs: Attrs, name: string, fallback: string): string {
    GetAttribute(attrs, name).GetOr(fallback)
  }

  /** `getAttribute(name) === 'true'`. */
  function ExactlyTrue(v: Option<string>): bool {
    v == Some("true")
  }

  /** A flag that is on unless it is set to something other than `true`
      (`showIcon`, `autoplayOnConfirm`). */
  function TrueUnlessSet(v: Option<string>): bool {
    v.None? || v.value == "true"
  }

  /** The two decodings agree on every set attribute and differ only when
      the attribute is missing; neither accepts any text but `true`. */
  lemma FlagDecodings(v: Option<string>)
    ensures v.Some? ==> (ExactlyTrue(v) <==> TrueUnlessSet(v))
    ensures v.None? ==> !ExactlyTrue(v) && TrueUnlessSet(v)
    ensures v.Some? && v.value != "true" ==> !ExactlyTrue(v) && !TrueUnlessSet(v)
  {
  }

  // video-provider-consent.js

  function Src(attrs: Attrs): string { TextOr(attrs, "src", "") }
  function Text(attrs: Attrs): string { TextOr(attrs, "text", "") }
  function Picture(attrs: Attrs): string { TextOr(attrs, "picture", "") }
  function AspectRatio(attrs: Attrs): string { TextOr(attrs, "aspectRatio", "16/9") }
  function TextOrientation(attrs: Attrs): string { TextOr(attrs, "textOrientation", "row") }

  function Autoplay(attrs: Attrs): bool { ExactlyTrue(GetAttribute(attrs, "autoplay")) }
  function DarkMode(attrs: Attrs): bool { ExactlyTrue(GetAttribute(attrs, "darkMode")) }
  function ShowIcon(attrs: Attrs): bool { TrueUnlessSet(GetAttribute(attrs, "showIcon")) }
  function AutoplayOnConfirm(attrs: Attrs): bool { TrueUnlessSet(GetAttribute(attrs, "autoplayOnConfirm")) }

  /** The text getters return the stored attribute when it is set (even to
      the empty text) and their default only when it is missing; the
      camel-case names read their lower-cased attribute. */
  lemma TextDefaults(attrs: Attrs)
    ensures Src(attrs) == (if "src" in attrs then attrs["src"] else "")
    ensures Text(attrs) == (if "text" in attrs then attrs["text"] else "")
    ensures Picture(attrs) == (if "picture" in attrs then attrs["picture"] else "")
    ensures AspectRatio(attrs) == (if "aspectratio" in attrs then attrs["aspectratio"] else "16/9")
    ensures TextOrientation(attrs) == (if "textorientation" in attrs then attrs["textorientation"] else "row")
  {
    StoredNames();
  }

  /** `autoplay` and `darkMode` are on for the exact text `true` only;
      `showIcon` and `autoplayOnConfirm` also when missing. */
  lemma FlagGetters(attrs: Attrs)
    ensures Autoplay(attrs) <==> "autoplay" in attrs && attrs["autoplay"] == "true"
    ensures DarkMode(attrs) <==> "darkmode" in attrs && attrs["darkmode"] == "true"
    ensures ShowIcon(attrs) <==> "showicon" !in attrs || attrs["showicon"] == "true"
    ensures AutoplayOnConfirm(attrs) <==> "autoplayonconfirm" !in attrs || attrs["autoplayonconfirm"] == "true"
  {
    StoredNames();
  }

  /** Each getter reads its own attribute only: a write to any other name
      leaves its reading as it was. */
  lemma GettersReadOwnAttribute(attrs: Attrs, name: string, value: string)
    ensures var after := SetAttribute(attrs, name, value);
      && (AsciiLower(name) != "src" ==> Src(after) == Src(attrs))
      && (AsciiLower(name) != "text" ==> Text(after) == Text(attrs))
      && (AsciiLower(name) != "picture" ==> Picture(after) == Picture(attrs))
      && (AsciiLower(name) != "aspectratio" ==> AspectRatio(after) == AspectRatio(attrs))
      && (AsciiLower(name) != "textorientation" ==> TextOrientation(after) == TextOrientation(attrs))
      && (AsciiLower(name) != "autoplay" ==> Autoplay(after) == Autoplay(attrs))
      && (AsciiLower(name) != "darkmode" ==> DarkMode(after) == DarkMode(attrs))
      && (AsciiLower(name) != "showicon" ==> ShowIcon(after) == ShowIcon(attrs))
      && (AsciiLower(name) != "autoplayonconfirm" ==> AutoplayOnConfirm(after) == AutoplayOnConfirm(attrs))
  {
    var after := SetAttribute(attrs, name, value);
    TextDefaults(attrs);
    TextDefaults(after);
    FlagGetters(attrs);
    FlagGetters(after);
  }

  // youtube-video.js

  /** `getAttribute("autoplay") ?? false` of youtube-video.js:20-22, as the
      template at line 87 uses it: truthy exactly when the attribute is set
      to a non-empty text. */
  function YoutubeVideoAutoplay(attrs: Attrs): bool {
    match GetAttribute(attrs, "autoplay")
    case None => false
    case Some(v) => v != ""
  }

  /** The two elements read `autoplay` differently: for the YouTube-only one
      any non-empty text turns it on, `false` included; for the general one
      only `true` does. */
  lemma AutoplayReadings(attrs: Attrs)
    ensures YoutubeVideoAutoplay(attrs) <==> "autoplay" in attrs && attrs["autoplay"] != ""
    ensures Autoplay(attrs) ==> YoutubeVideoAutoplay(attrs)
    ensures ("autoplay" in attrs && attrs["autoplay"] == "false") ==> YoutubeVideoAutoplay(attrs) && !Autoplay(attrs)
  {
    StoredNames();
  }
}
