/** What `render` leaves in the element, as values: the stylesheet's
    interpolated settings, and either the consent prompt or the player iframe
    with its attributes. The iframe's attributes are set one by one by the
    `forEach` loop at the end of `render` (video-provider-consent.js:190-193,
    youtube-video.js:92-95). */
module Markup {
  import opened Wrappers
  import opened Attributes

  /** The settings the stylesheet interpolates (video-provider-consent.js:196-239);
      the YouTube-only element's stylesheet is fixed text (youtube-video.js:98-116). */
  datatype Style =
    | ConsentStyle(background: string, aspectRatio: string, direction: string, color: string, iconDisplay: string)
    | FixedStyle

  /** The stylesheet of video-provider-consent.js for the given attributes. */
  function ConsentStyleOf(attrs: Attrs): (s: Style)
    ensures s.ConsentStyle? && s.background != ""
    ensures s.color == "#000" || s.color == "#fff"
    ensures s.iconDisplay == "block" || s.iconDisplay == "none"
  {
    ConsentStyle(
      if Picture(attrs) != "" then "url(" + Picture(attrs) + ")" else "#666",
      AspectRatio(attrs),
      TextOrientation(attrs),
      if DarkMode(attrs) then "#000" else "#fff",
      if ShowIcon(attrs) then "block" else "none")
  }

  /** What the stylesheet shows in terms of the stored attributes: the grey
      background exactly when no picture is set (or it is empty), the
      black text exactly for `darkMode="true"`, the icon hidden exactly when
      `showIcon` is set to anything but `true`, and the aspect ratio and
      direction as set, or `16/9` and `row`. */
  lemma StyleFromAttributes(attrs: Attrs)
    ensures var s := ConsentStyleOf(attrs);
      && (s.background == "#666" <==> "picture" !in attrs || attrs["picture"] == "")
      && (s.background != "#666" ==> s.background == "url(" + attrs["picture"] + ")")
      && (s.color == "#000" <==> "darkmode" in attrs && attrs["darkmode"] == "true")
      && (s.iconDisplay == "none" <==> "showicon" in attrs && attrs["showicon"] != "true")
      && s.aspectRatio == (if "aspectratio" in attrs then attrs["aspectratio"] else "16/9")
      && s.direction == (if "textorientation" in attrs then attrs["textorientation"] else "row")
  {
    TextDefaults(attrs);
    FlagGetters(attrs);
    if Picture(attrs) != "" {
      assert ("url(" + Picture(attrs) + ")")[0] == 'u';
    }
  }

  /** The prompt (`notConfirmedHtml`, with its text) or the player
      (`confirmedHtml`, with the iframe's attributes). */
  datatype Body = Prompt(text: string) | Player(iframe: Attrs)

  /** `innerHTML`: nothing rendered yet, or a stylesheet and a body. */
  datatype Markup = Unrendered | Rendered(style: Style, body: Body)

  /** The attributes the iframe of `confirmedHtml` is written with. */
  const IframeTemplate: Attrs := map["width" := "560", "height" := "315"]

  const AllowList: string := "accelerometer; autoplay; encrypted-media; gyroscope; picture-in-picture"

  /** A property assignment of `props`: attribute name and value. */
  datatype Prop = Prop(name: string, value: string)

  /** `props` of `render` in declaration order, for an id and the address
      chosen for it: `id` and `src` stay empty when the id is empty. */
  function IframeProps(id: string, src: string): (ps: seq<Prop>)
    ensures |ps| == 7
  {
    [ Prop("allow", AllowList),
      Prop("allowfullscreen", ""),
      Prop("frameborder", "0"),
      Prop("id", if id == "" then "" else "player-" + id),
      Prop("src", if id == "" then "" else src),
      Prop("webkitallowfullscreen", ""),
      Prop("mozallowfullscreen", "") ]
  }

  /** The attributes after `setAttribute` of each of `props` in order. */
  function Assigned(attrs: Attrs, props: seq<Prop>): Attrs
    decreases |props|
  {
    if props == [] then attrs
    else
      var last := props[|props| - 1];
      Assigned(attrs, props[..|props| - 1])[last.name := last.value]
  }

  /** The `forEach` of `render`: `setAttribute` for each property in turn. */
  method SetAttributes(attrs: Attrs, props: seq<Prop>) returns (r: Attrs)
    ensures r == Assigned(attrs, props)
  {
    r := attrs;
    var i := 0;
    while i < |props|
      invariant 0 <= i <= |props|
      invariant r == Assigned(attrs, props[..i])
    {
      assert props[..i + 1][..i] == props[..i];
      r := r[props[i].name := props[i].value];
      i := i + 1;
    }
    assert props[..|props|] == props;
  }

  /** The value of the last assignment of `props` to `name`, if any. */
  function LastValue(props: seq<Prop>, name: string): Option<string>
    decreases |props|
  {
    if props == [] then None
    else if props[|props| - 1].name == name then Some(props[|props| - 1].value)
    else LastValue(props[..|props| - 1], name)
  }

  /** After the assignments, a name holds the value of its last assignment,
      or keeps its earlier value when it was not assigned. */
  lemma {:induction false} AssignedLookup(attrs: Attrs, props: seq<Prop>, name: string)
    ensures name in Assigned(attrs, props) <==> name in attrs || LastValue(props, name).Some?
    ensures LastValue(props, name).Some? ==> Assigned(attrs, props)[name] == LastValue(props, name).value
    ensures LastValue(props, name).None? && name in attrs ==> Assigned(attrs, props)[name] == attrs[name]
    decreases |props|
  {
    if props != [] {
      AssignedLookup(attrs, props[..|props| - 1], name);
    }
  }

  lemma AssignedSnoc(attrs: Attrs, props: seq<Prop>, p: Prop)
    ensures Assigned(attrs, props + [p]) == Assigned(attrs, props)[p.name := p.value]
  {
    assert (props + [p])[..|props|] == props;
  }

  /** The iframe after the loop: the template's attributes updated by the
      seven properties. */
  lemma IframeMap(id: string, src: string)
    ensures Assigned(IframeTemplate, IframeProps(id, src)) ==
      IframeTemplate["allow" := AllowList]["allowfullscreen" := ""]["frameborder" := "0"]
        ["id" := if id == "" then "" else "player-" + id]["src" := if id == "" then "" else src]
        ["webkitallowfullscreen" := ""]["mozallowfullscreen" := ""]
  {
    var ps := IframeProps(id, src);
    var t := IframeTemplate;
    assert ps == [ps[0]] + [ps[1]] + [ps[2]] + [ps[3]] + [ps[4]] + [ps[5]] + [ps[6]];
    assert Assigned(t, []) == t;
    AssignedSnoc(t, [], ps[0]);
    assert [] + [ps[0]] == [ps[0]];
    AssignedSnoc(t, [ps[0]], ps[1]);
    AssignedSnoc(t, [ps[0]] + [ps[1]], ps[2]);
    AssignedSnoc(t, [ps[0]] + [ps[1]] + [ps[2]], ps[3]);
    AssignedSnoc(t, [ps[0]] + [ps[1]] + [ps[2]] + [ps[3]], ps[4]);
    AssignedSnoc(t, [ps[0]] + [ps[1]] + [ps[2]] + [ps[3]] + [ps[4]], ps[5]);
    AssignedSnoc(t, [ps[0]] + [ps[1]] + [ps[2]] + [ps[3]] + [ps[4]] + [ps[5]], ps[6]);
  }

  /** The iframe `render` leaves: its two template attributes and the seven
      properties, `id` and `src` empty exactly when the id is. */
  lemma IframeAttributes(id: string, src: string)
    ensures var m := Assigned(IframeTemplate, IframeProps(id, src));
      && m.Keys == {"width", "height", "allow", "allowfullscreen", "frameborder", "id", "src",
                    "webkitallowfullscreen", "mozallowfullscreen"}
      && m["width"] == "560" && m["height"] == "315"
      && m["allow"] == AllowList && m["frameborder"] == "0"
      && m["allowfullscreen"] == "" && m["webkitallowfullscreen"] == "" && m["mozallowfullscreen"] == ""
      && m["id"] == (if id == "" then "" else "player-" + id)
      && m["src"] == (if id == "" then "" else src)
  {
    IframeMap(id, src);
  }
}
