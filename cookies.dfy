/** The consent cookie: its name per provider, the `getCookie` parse of the
    `document.cookie` header, and the write of `setCookie`. The browser's
    cookie store is modelled as a sequence of cookies kept in creation order,
    one per name; reading `document.cookie` serialises the unexpired ones as
    `name=value` entries joined by `; `. */
module Cookies {
  import opened Wrappers
  import opened Strings
  import opened UrlPatterns

  /** A name the header can carry: not empty, without `;` or `=`. */
  predicate NameOk(n: string) {
    n != [] && ';' !in n && '=' !in n
  }

  /** A value the header can carry: without `;`. */
  predicate ValueOk(v: string) {
    ';' !in v
  }

  /** `cookieName` of video-provider-consent.js. For an unrecognised source
      the getter yields `undefined`, which the concatenations in `setCookie`
      and `getCookie` spell "undefined". */
  function CookieName(p: Provider): (name: string)
    ensures NameOk(name)
    ensures p == YouTube <==> name == "youtube-video-consent"
    ensures p == Vimeo <==> name == "vimeo-video-consent"
  {
    match p
    case YouTube => "youtube-video-consent"
    case Vimeo => "vimeo-video-consent"
    case Unrecognised => "undefined"
  }

  /** What `getCookie` splits on. */
  function Separator(n: string): string {
    "; " + n + "="
  }

  lemma SeparatorUnbordered(n: string)
    requires ';' !in n
    ensures Unbordered(Separator(n))
  {
    var sep := Separator(n);
    forall j | 0 < j < |sep| ensures sep[j] != sep[0] {
      if 2 <= j < 2 + |n| {
        assert sep[j] == n[j - 2];
      }
    }
  }

  /** `getCookie`: None stands for `false`. */
  function GetCookie(header: string, n: string): Option<string> {
    var parts := Split("; " + header, Separator(n));
    if |parts| == 2 then Some(Split(parts[1], ";")[0]) else None
  }

  /** `getCookie` answers exactly when `; <name>=` occurs once in `; ` + the
      header, with the text from there up to the next `;` or the end. */
  lemma GetCookieSpec(header: string, n: string)
    requires ';' !in n
    ensures GetCookie(header, n).Some? <==> exists i: nat :: OccursOnlyAt("; " + header, Separator(n), i)
    ensures forall i: nat :: OccursOnlyAt("; " + header, Separator(n), i) ==>
      var rest := ("; " + header)[i + |Separator(n)|..];
      var v := GetCookie(header, n).value;
      |v| <= |rest| && v == rest[..|v|] && ';' !in v && (|v| == |rest| || rest[|v|] == ';')
  {
    SeparatorUnbordered(n);
    SplitInTwo("; " + header, Separator(n));
    forall i: nat | OccursOnlyAt("; " + header, Separator(n), i)
      ensures var rest := ("; " + header)[i + |Separator(n)|..];
        var v := GetCookie(header, n).value;
        |v| <= |rest| && v == rest[..|v|] && ';' !in v && (|v| == |rest| || rest[|v|] == ';')
    {
      GetCookieAt(header, n, i);
    }
  }

  /** The value found after the single occurrence at `i`. */
  lemma GetCookieAt(header: string, n: string, i: nat)
    requires ';' !in n && OccursOnlyAt("; " + header, Separator(n), i)
    ensures GetCookie(header, n).Some?
    ensures var rest := ("; " + header)[i + |Separator(n)|..];
      var v := GetCookie(header, n).value;
      |v| <= |rest| && v == rest[..|v|] && ';' !in v && (|v| == |rest| || rest[|v|] == ';')
  {
    var s := "; " + header;
    var rest := s[i + |Separator(n)|..];
    SeparatorUnbordered(n);
    SplitSingleOccurrence(s, Separator(n), i);
    assert GetCookie(header, n) == Some(Split(rest, ";")[0]);
    SplitHead(rest, ';');
  }

  // ---------------------------------------------------------------------
  // The cookie store and the header it serialises to
  // ---------------------------------------------------------------------

  /** A stored cookie; `expires` is a time in milliseconds. */
  datatype Cookie = Cookie(name: string, value: string, expires: int)

  predicate CookieOk(c: Cookie) {
    NameOk(c.name) && ValueOk(c.value)
  }

  predicate AllOk(cs: seq<Cookie>) {
    forall i :: 0 <= i < |cs| ==> CookieOk(cs[i])
  }

  /** At most one cookie per name. */
  predicate NamesUnique(cs: seq<Cookie>) {
    forall i, j :: 0 <= i < j < |cs| ==> cs[i].name != cs[j].name
  }

  predicate WellFormedJar(jar: seq<Cookie>) {
    AllOk(jar) && NamesUnique(jar)
  }

  /** The cookies that have not expired at `now`, in order. */
  function Visible(jar: seq<Cookie>, now: int): (vs: seq<Cookie>)
    ensures forall i :: 0 <= i < |vs| ==> vs[i] in jar && now < vs[i].expires
    ensures forall c :: c in jar && now < c.expires ==> c in vs
  {
    if jar == [] then []
    else (if now < jar[0].expires then [jar[0]] else []) + Visible(jar[1..], now)
  }

  /** How many cookies are called `n`. */
  function Count(cs: seq<Cookie>, n: string): nat {
    if cs == [] then 0
    else (if cs[0].name == n then 1 else 0) + Count(cs[1..], n)
  }

  /** The value of the first cookie called `n`. */
  function Lookup(cs: seq<Cookie>, n: string): (r: Option<string>)
    ensures r.Some? <==> Count(cs, n) > 0
    ensures r.Some? ==> exists i :: 0 <= i < |cs| && cs[i].name == n && cs[i].value == r.value
  {
    if cs == [] then None
    else if cs[0].name == n then Some(cs[0].value)
    else Lookup(cs[1..], n)
  }

  /** `name=value`. */
  function Entry(c: Cookie): string {
    c.name + "=" + c.value
  }

  function Entries(cs: seq<Cookie>): seq<string> {
    if cs == [] then [] else [Entry(cs[0])] + Entries(cs[1..])
  }

  /** `document.cookie` as read at `now`. */
  function Header(jar: seq<Cookie>, now: int): string {
    Join(Entries(Visible(jar, now)), "; ")
  }

  /** `; ` + the serialisation of a non-empty sequence, built entry by entry. */
  function Prefixed(cs: seq<Cookie>): string {
    if cs == [] then "" else "; " + Entry(cs[0]) + Prefixed(cs[1..])
  }

  lemma {:induction false} PrefixedIsJoin(cs: seq<Cookie>)
    requires cs != []
    ensures "; " + Join(Entries(cs), "; ") == Prefixed(cs)
  {
    if |cs| > 1 {
      PrefixedIsJoin(cs[1..]);
      assert Entries(cs)[1..] == Entries(cs[1..]);
    }
  }

  /** The `;` of each entry is its first character. */
  lemma EntryHasNoSemicolon(c: Cookie, tail: string, n: string)
    requires CookieOk(c)
    ensures forall i: nat :: 0 < i < |"; " + Entry(c)| ==> !OccursAt("; " + Entry(c) + tail, Separator(n), i)
  {
    var e := "; " + Entry(c);
    var s := e + tail;
    forall i: nat | 0 < i < |e| ensures !OccursAt(s, Separator(n), i) {
      OccursAtFirst(s, Separator(n), i);
      assert s[i] == e[i];
      if 2 <= i < 2 + |c.name| {
        assert e[i] == c.name[i - 2];
      } else if 3 + |c.name| <= i {
        assert e[i] == c.value[i - 3 - |c.name|];
      }
    }
  }

  /** An entry for another name does not start with `; <n>=`: names hold no `=`,
      so the shorter of the two names would have to be followed by the other's
      next character. */
  lemma EntryOfOtherName(c: Cookie, tail: string, n: string)
    requires '=' !in c.name && '=' !in n && c.name != n
    ensures !OccursAt("; " + Entry(c) + tail, Separator(n), 0)
  {
    var t := c.name + "=" + (c.value + tail);
    var s := "; " + Entry(c) + tail;
    assert s == "; " + t;
    assert Separator(n) == "; " + (n + "=");
    OccursAtConcat(s, "; ", n + "=", 0);
    OccursAtSuffix(s, 2, n + "=", 0);
    assert s[2..] == t;
    OtherNameThenEquals(c.name, n, c.value + tail);
  }

  /** `a=...` does not start with `b=` for another `=`-free name `b`. */
  lemma OtherNameThenEquals(a: string, b: string, rest: string)
    requires '=' !in a && '=' !in b && a != b
    ensures !OccursAt(a + "=" + rest, b + "=", 0)
  {
    var s := a + "=" + rest;
    var sep := b + "=";
    OccursAtIff(s, sep, 0);
    assert forall j :: 0 <= j < |a| ==> s[j] == a[j];
    assert s[|a|] == '=';
    assert forall j :: 0 <= j < |b| ==> sep[j] == b[j];
    assert sep[|b|] == '=';
    if |b| == |a| {
      var j :| 0 <= j < |b| && b[j] != a[j];
      assert s[j] != sep[j];
    } else if |b| < |a| {
      assert s[|b|] == a[|b|] != '=';
    } else {
      assert sep[|a|] == b[|a|] != '=';
    }
  }

  /** Text that begins with `;` (or is empty) has a first split piece that does too. */
  predicate StartsAtSemicolon(t: string) {
    t == [] || t[0] == ';'
  }

  /** `v` followed by nothing or by `;`. */
  predicate ValueThenRest(piece: string, v: string) {
    |v| <= |piece| && piece[..|v|] == v && (|piece| == |v| || piece[|v|] == ';')
  }

  /** Splitting `; ` + the header on `; <n>=`: one piece more than there are
      cookies called `n`, the second piece starting with the first such
      cookie's value. */
  lemma {:induction false} SplitPrefixed(cs: seq<Cookie>, n: string)
    requires AllOk(cs) && ';' !in n && '=' !in n
    decreases |cs|
    ensures |Split(Prefixed(cs), Separator(n))| == 1 + Count(cs, n)
    ensures StartsAtSemicolon(Split(Prefixed(cs), Separator(n))[0])
    ensures Count(cs, n) > 0 ==> ValueThenRest(Split(Prefixed(cs), Separator(n))[1], Lookup(cs, n).value)
  {
    var sep := Separator(n);
    if cs == [] {
      assert Split("", sep) == [""];
    } else {
      var c := cs[0];
      var rest := Prefixed(cs[1..]);
      var parts := Split(rest, sep);
      assert AllOk(cs[1..]) by {
        assert forall i :: 0 <= i < |cs[1..]| ==> cs[1..][i] == cs[i + 1];
      }
      assert CookieOk(c);
      SplitPrefixed(cs[1..], n);
      assert Prefixed(cs) == "; " + Entry(c) + rest;
      if c.name == n {
        SplitNamedEntry(c, rest, n);
      } else {
        SplitOtherEntry(c, rest, n);
      }
    }
  }

  /** The entry of the cookie called `n` ends the first piece and starts the second. */
  lemma SplitNamedEntry(c: Cookie, rest: string, n: string)
    requires CookieOk(c) && c.name == n && ';' !in n && '=' !in n
    ensures var parts := Split(rest, Separator(n));
      Split("; " + Entry(c) + rest, Separator(n)) == [""] + ([c.value + parts[0]] + parts[1..])
  {
    var sep := Separator(n);
    assert "; " + Entry(c) + rest == sep + (c.value + rest);
    SplitAtSeparator(sep, c.value + rest);
    forall i: nat | i < |c.value| ensures !OccursAt(c.value + rest, sep, i) {
      OccursAtFirst(c.value + rest, sep, i);
      assert (c.value + rest)[i] == c.value[i];
    }
    SplitSkip(c.value, rest, sep);
  }

  /** The entry of a cookie with another name joins the first piece. */
  lemma SplitOtherEntry(c: Cookie, rest: string, n: string)
    requires CookieOk(c) && c.name != n && ';' !in n && '=' !in n
    ensures var parts := Split(rest, Separator(n));
      Split("; " + Entry(c) + rest, Separator(n)) == ["; " + Entry(c) + parts[0]] + parts[1..]
  {
    EntryOfOtherName(c, rest, n);
    EntryHasNoSemicolon(c, rest, n);
    SplitSkip("; " + Entry(c), rest, Separator(n));
  }

  /** `getCookie` on the header: the value of the cookie called `n` when there
      is exactly one, and `false` when there is none or there are several. */
  lemma GetCookieOfHeader(cs: seq<Cookie>, n: string)
    requires AllOk(cs) && ';' !in n && '=' !in n
    ensures GetCookie(Join(Entries(cs), "; "), n) == if Count(cs, n) == 1 then Lookup(cs, n) else None
  {
    if cs == [] {
      assert Split("; ", Separator(n)) == ["; "];
    } else {
      PrefixedIsJoin(cs);
      SplitPrefixed(cs, n);
      if Count(cs, n) == 1 {
        var piece := Split(Prefixed(cs), Separator(n))[1];
        var v := Lookup(cs, n).value;
        assert ';' !in v by {
          var i :| 0 <= i < |cs| && cs[i].name == n && cs[i].value == v;
          assert CookieOk(cs[i]);
        }
        assert piece == v + piece[|v|..];
        SplitHeadOf(v, piece[|v|..], ';');
      }
    }
  }

  /** A cookie whose name merely ends in `n` is not read as `n`. */
  lemma LongerNameNotMatched(p: string, n: string, v: string, e: int)
    requires p != [] && NameOk(p + n) && ValueOk(v) && ';' !in n && '=' !in n
    ensures GetCookie(Join(Entries([Cookie(p + n, v, e)]), "; "), n) == None
  {
    var cs := [Cookie(p + n, v, e)];
    assert Count(cs[1..], n) == 0;
    GetCookieOfHeader(cs, n);
  }

  lemma {:induction false} CountAbsent(cs: seq<Cookie>, n: string)
    requires forall i :: 0 <= i < |cs| ==> cs[i].name != n
    ensures Count(cs, n) == 0
  {
    if cs != [] {
      CountAbsent(cs[1..], n);
    }
  }

  lemma {:induction false} UniqueCountAtMostOne(cs: seq<Cookie>, n: string)
    requires NamesUnique(cs)
    ensures Count(cs, n) <= 1
  {
    if cs != [] {
      UniqueCountAtMostOne(cs[1..], n);
      if cs[0].name == n {
        CountAbsent(cs[1..], n);
      }
    }
  }

  /** Dropping expired cookies keeps the store well formed. */
  lemma {:induction false} VisibleWellFormed(jar: seq<Cookie>, now: int)
    requires WellFormedJar(jar)
    ensures WellFormedJar(Visible(jar, now))
  {
    if jar != [] {
      VisibleWellFormed(jar[1..], now);
      var tail := Visible(jar[1..], now);
      assert forall i :: 0 <= i < |tail| ==> tail[i].name != jar[0].name;
    }
  }

  /** Reading a well-formed store: `getCookie` returns the value of the
      unexpired cookie called `n`, and `false` when there is none. */
  lemma HeaderLookup(jar: seq<Cookie>, now: int, n: string)
    requires WellFormedJar(jar) && ';' !in n && '=' !in n
    ensures GetCookie(Header(jar, now), n) == Lookup(Visible(jar, now), n)
  {
    VisibleWellFormed(jar, now);
    UniqueCountAtMostOne(Visible(jar, now), n);
    GetCookieOfHeader(Visible(jar, now), n);
  }

  /** `document.cookie = ...`: the written cookie replaces the one of the same
      name where it stands, or is added last. */
  function Store(jar: seq<Cookie>, c: Cookie): seq<Cookie> {
    if jar == [] then [c]
    else if jar[0].name == c.name then [c] + jar[1..]
    else [jar[0]] + Store(jar[1..], c)
  }

  lemma {:induction false} StoreWellFormed(jar: seq<Cookie>, c: Cookie)
    requires WellFormedJar(jar) && CookieOk(c)
    ensures WellFormedJar(Store(jar, c))
    ensures forall i :: 0 <= i < |Store(jar, c)| ==> Store(jar, c)[i] == c || Store(jar, c)[i] in jar
  {
    if jar != [] && jar[0].name != c.name {
      StoreWellFormed(jar[1..], c);
      var tail := Store(jar[1..], c);
      assert forall i :: 0 <= i < |tail| ==> tail[i].name != jar[0].name;
    }
  }

  /** One cookie in front, for each of the functions over sequences of cookies. */
  lemma VisibleCons(d: Cookie, rest: seq<Cookie>, now: int)
    ensures Visible([d] + rest, now) == (if now < d.expires then [d] + Visible(rest, now) else Visible(rest, now))
  {
    assert ([d] + rest)[1..] == rest;
  }

  lemma CountCons(d: Cookie, rest: seq<Cookie>, n: string)
    ensures Count([d] + rest, n) == (if d.name == n then 1 else 0) + Count(rest, n)
  {
    assert ([d] + rest)[1..] == rest;
  }

  lemma LookupCons(d: Cookie, rest: seq<Cookie>, n: string)
    ensures Lookup([d] + rest, n) == if d.name == n then Some(d.value) else Lookup(rest, n)
  {
    assert ([d] + rest)[1..] == rest;
  }

  /** After the write, while it has not expired, the written cookie is the
      only one of its name that can be read. */
  lemma {:induction false} StoreVisibleNamed(jar: seq<Cookie>, c: Cookie, now: int)
    requires NamesUnique(jar)
    ensures Count(Visible(Store(jar, c), now), c.name) == (if now < c.expires then 1 else 0)
    ensures now < c.expires ==> Lookup(Visible(Store(jar, c), now), c.name) == Some(c.value)
  {
    if jar == [] || jar[0].name == c.name {
      StoreVisibleReplaced(jar, c, now);
    } else {
      var rest := jar[1..];
      var d := jar[0];
      StoreVisibleNamed(rest, c, now);
      var stail := Visible(Store(rest, c), now);
      VisibleCons(d, Store(rest, c), now);
      if now < d.expires {
        CountCons(d, stail, c.name);
        LookupCons(d, stail, c.name);
      }
    }
  }

  /** The same when the write replaces the first cookie or starts the store. */
  lemma StoreVisibleReplaced(jar: seq<Cookie>, c: Cookie, now: int)
    requires NamesUnique(jar) && (jar == [] || jar[0].name == c.name)
    ensures Count(Visible(Store(jar, c), now), c.name) == (if now < c.expires then 1 else 0)
    ensures now < c.expires ==> Lookup(Visible(Store(jar, c), now), c.name) == Some(c.value)
  {
    var rest := if jar == [] then [] else jar[1..];
    var tail := Visible(rest, now);
    assert Store(jar, c) == [c] + rest;
    if jar != [] {
      assert forall i :: 0 <= i < |tail| ==> tail[i].name != c.name;
    }
    CountAbsent(tail, c.name);
    VisibleCons(c, rest, now);
    if now < c.expires {
      CountCons(c, tail, c.name);
      LookupCons(c, tail, c.name);
    }
  }

  /** Replacing the first cookie by `c` changes nothing for another name. */
  lemma StoreReplacedOther(jar: seq<Cookie>, c: Cookie, now: int, n: string)
    requires jar != [] && jar[0].name == c.name && n != c.name
    ensures Count(Visible(Store(jar, c), now), n) == Count(Visible(jar, now), n)
    ensures Lookup(Visible(Store(jar, c), now), n) == Lookup(Visible(jar, now), n)
  {
    var d := jar[0];
    var rest := jar[1..];
    var tail := Visible(rest, now);
    assert jar == [d] + rest;
    assert Store(jar, c) == [c] + rest;
    VisibleCons(d, rest, now);
    CountCons(d, tail, n);
    LookupCons(d, tail, n);
    VisibleCons(c, rest, now);
    CountCons(c, tail, n);
    LookupCons(c, tail, n);
  }


  /** The write leaves every other name as it was. */
  lemma {:induction false} StoreVisibleOther(jar: seq<Cookie>, c: Cookie, now: int, n: string)
    requires n != c.name
    ensures Count(Visible(Store(jar, c), now), n) == Count(Visible(jar, now), n)
    ensures Lookup(Visible(Store(jar, c), now), n) == Lookup(Visible(jar, now), n)
  {
    if jar == [] {
      VisibleCons(c, [], now);
      CountCons(c, [], n);
      LookupCons(c, [], n);
    } else if jar[0].name == c.name {
      StoreReplacedOther(jar, c, now, n);
    } else {
      StoreVisibleOther(jar[1..], c, now, n);
      StoreKeptOther(jar, c, now, n);
    }
  }

  /** Keeping the first cookie in front keeps the reading of another name
      that the rest of the write keeps. */
  lemma StoreKeptOther(jar: seq<Cookie>, c: Cookie, now: int, n: string)
    requires jar != [] && jar[0].name != c.name && n != c.name
    requires Count(Visible(Store(jar[1..], c), now), n) == Count(Visible(jar[1..], now), n)
    requires Lookup(Visible(Store(jar[1..], c), now), n) == Lookup(Visible(jar[1..], now), n)
    ensures Count(Visible(Store(jar, c), now), n) == Count(Visible(jar, now), n)
    ensures Lookup(Visible(Store(jar, c), now), n) == Lookup(Visible(jar, now), n)
  {
    StoreKeepsFirst(jar, c);
    ConsKeepsReading(jar[0], Store(jar[1..], c), jar[1..], now, n);
  }

  lemma StoreKeepsFirst(jar: seq<Cookie>, c: Cookie)
    requires jar != [] && jar[0].name != c.name
    ensures jar == [jar[0]] + jar[1..] && Store(jar, c) == [jar[0]] + Store(jar[1..], c)
  {
  }

  /** The same cookie in front of two stores that read alike for `n` keeps
      them reading alike. */
  lemma ConsKeepsReading(d: Cookie, a: seq<Cookie>, b: seq<Cookie>, now: int, n: string)
    requires Count(Visible(a, now), n) == Count(Visible(b, now), n)
    requires Lookup(Visible(a, now), n) == Lookup(Visible(b, now), n)
    ensures Count(Visible([d] + a, now), n) == Count(Visible([d] + b, now), n)
    ensures Lookup(Visible([d] + a, now), n) == Lookup(Visible([d] + b, now), n)
  {
    VisibleCons(d, a, now);
    VisibleCons(d, b, now);
    CountCons(d, Visible(a, now), n);
    CountCons(d, Visible(b, now), n);
    LookupCons(d, Visible(a, now), n);
    LookupCons(d, Visible(b, now), n);
  }


  /** The 14 days of `setCookie`, in milliseconds. */
  const ConsentLifetime: int := 14 * 24 * 60 * 60 * 1000

  /** `setCookie(value)` at time `now` (video-provider-consent.js:145-150):
      the cookie it writes. The date text and `path=/` are not modelled. */
  function ConsentCookie(name: string, value: string, now: int): Cookie {
    Cookie(name, value, now + ConsentLifetime)
  }

  /** After `setCookie(value)` at `now`, `getCookie` read at `t` returns the
      value for 14 days and `false` from then on. */
  lemma ConsentLasts14Days(jar: seq<Cookie>, name: string, value: string, now: int, t: int)
    requires WellFormedJar(jar) && NameOk(name) && ValueOk(value)
    ensures var jar' := Store(jar, ConsentCookie(name, value, now));
      GetCookie(Header(jar', t), name) ==
        if t < now + 1209600000 then Some(value) else None
  {
    var c := ConsentCookie(name, value, now);
    StoreWellFormed(jar, c);
    HeaderLookup(Store(jar, c), t, name);
    StoreVisibleNamed(jar, c, t);
  }

  /** Writing one cookie does not change what `getCookie` reads for another name. */
  lemma OtherCookiesUnaffected(jar: seq<Cookie>, c: Cookie, now: int, n: string)
    requires WellFormedJar(jar) && CookieOk(c) && NameOk(n) && n != c.name
    ensures GetCookie(Header(Store(jar, c), now), n) == GetCookie(Header(jar, now), n)
  {
    StoreWellFormed(jar, c);
    HeaderLookup(Store(jar, c), now, n);
    HeaderLookup(jar, now, n);
    StoreVisibleOther(jar, c, now, n);
  }

  /** `setCookie(value)` at `now`: `document.cookie = <name>=<value>;expires=...;path=/`.
      The browser keeps the value up to the first `;` and files the cookie
      under `name`, replacing an earlier one of that name. */
  function SetCookie(jar: seq<Cookie>, name: string, value: string, now: int): seq<Cookie> {
    Store(jar, ConsentCookie(name, Split(value, ";")[0], now))
  }

  /** After `setCookie(value)`, for a value without `;`: the store stays well
      formed, `getCookie` reads the value back for 14 days and `false` after,
      and every other name reads as before. */
  lemma SetCookieThenGet(jar: seq<Cookie>, name: string, value: string, now: int, t: int)
    requires WellFormedJar(jar) && NameOk(name) && ';' !in value
    ensures WellFormedJar(SetCookie(jar, name, value, now))
    ensures GetCookie(Header(SetCookie(jar, name, value, now), t), name) ==
      if t < now + 1209600000 then Some(value) else None
    ensures forall n :: NameOk(n) && n != name ==>
      GetCookie(Header(SetCookie(jar, name, value, now), t), n) == GetCookie(Header(jar, t), n)
  {
    SplitWithoutChar(value, ';');
    assert Split(value, ";")[0] == value;
    StoreWellFormed(jar, ConsentCookie(name, value, now));
    ConsentLasts14Days(jar, name, value, now, t);
    forall n | NameOk(n) && n != name
      ensures GetCookie(Header(SetCookie(jar, name, value, now), t), n) == GetCookie(Header(jar, t), n)
    {
      OtherCookiesUnaffected(jar, ConsentCookie(name, value, now), t, n);
    }
  }

  /** Whatever the value, the store stays well formed. */
  lemma SetCookieWellFormed(jar: seq<Cookie>, name: string, value: string, now: int)
    requires WellFormedJar(jar) && NameOk(name)
    ensures WellFormedJar(SetCookie(jar, name, value, now))
  {
    SplitHead(value, ';');
    StoreWellFormed(jar, ConsentCookie(name, Split(value, ";")[0], now));
  }
}
