// URLs (RFC 3986): taken apart, put together, resolved against a base, and
// percent-encoded.
module Url {

  datatype Url = Url(scheme: string, authority: string, path: string, query: string, fragment: string)

  predicate IsSchemeChar(c: char) {
    'a' <= c <= 'z' || 'A' <= c <= 'Z' || '0' <= c <= '9' || c == '+' || c == '-' || c == '.'
  }

  const SMALL: set<char> :=
    {'a', 'b', 'c', 'd', 'e', 'f', 'g', 'h', 'i', 'j', 'k', 'l', 'm', 'n', 'o', 'p', 'q', 'r', 's', 't',
     'u', 'v', 'w', 'x', 'y', 'z'}
  const LARGE: set<char> :=
    {'A', 'B', 'C', 'D', 'E', 'F', 'G', 'H', 'I', 'J', 'K', 'L', 'M', 'N', 'O', 'P', 'Q', 'R', 'S', 'T',
     'U', 'V', 'W', 'X', 'Y', 'Z'}
  const OTHERS: set<char> :=
    {'0', '1', '2', '3', '4', '5', '6', '7', '8', '9', '+', '-', '.'}

  // Letters, digits and three marks.
  lemma SchemeChars(c: char)
    ensures IsSchemeChar(c) <==> c in SMALL || c in LARGE || c in OTHERS
  {
  }

  // The first place one of the characters stands, or the length.
  function IndexOf(s: string, stops: set<char>): (i: nat)
    ensures i <= |s| && (forall k | 0 <= k < i :: s[k] !in stops) && (i < |s| ==> s[i] in stops)
  {
    if s == [] || s[0] in stops then 0 else 1 + IndexOf(s[1..], stops)
  }

  // What stands before and after the first `c`, if it occurs.
  function Before(s: string, c: char): string { s[..IndexOf(s, {c})] }

  function After(s: string, c: char): string {
    var i := IndexOf(s, {c});
    if i < |s| then s[i + 1..] else ""
  }

  predicate AllScheme(s: string) {
    forall k | 0 <= k < |s| :: IsSchemeChar(s[k])
  }

  // The text before the first colon is taken for a scheme, even when it is empty.
  predicate StartsWithScheme(s: string) {
    var i := IndexOf(s, {':'});
    i < |s| && AllScheme(s[..i])
  }

  predicate StartsWithSlashes(s: string) {
    |s| >= 2 && s[0] == '/' && s[1] == '/'
  }

  // ------------------------------------------------------------------------ parsing

  function Parse(s: string): Url {
    var scheme := if StartsWithScheme(s) then Before(s, ':') else "";
    ParseRest(scheme, if StartsWithScheme(s) then After(s, ':') else s)
  }

  // After the scheme.
  function ParseRest(scheme: string, s: string): Url {
    if StartsWithSlashes(s) then
      var t := s[2..];
      var i := IndexOf(t, {'/', '?', '#'});
      ParsePath(scheme, t[..i], t[i..])
    else ParsePath(scheme, "", s)
  }

  // After the authority.
  function ParsePath(scheme: string, authority: string, s: string): Url {
    var t := Before(s, '#');
    Url(scheme, authority, Before(t, '?'), After(t, '?'), After(s, '#'))
  }

  // ----------------------------------------------------------------------- printing

  function Print(u: Url): string {
    (if u.scheme == "" then "" else u.scheme + ":") + PrintRest(u)
  }

  function PrintRest(u: Url): string {
    (if u.authority == "" then "" else "//" + u.authority) + PrintPath(u)
  }

  function PrintPath(u: Url): string {
    u.path + PrintQuery(u) + (if u.fragment == "" then "" else "#" + u.fragment)
  }

  function PrintQuery(u: Url): string {
    if u.query == "" then "" else "?" + u.query
  }

  // What the components must be for a printed url to be read back: no component
  // holds a delimiter that would end it, and none is taken for the one before it.
  predicate Printable(u: Url) {
    && AllScheme(u.scheme)
    && (forall c | c in u.authority :: c !in {'/', '?', '#'})
    && (forall c | c in u.path :: c !in {'?', '#'})
    && '#' !in u.query
    && (u.authority != "" ==> u.path == "" || u.path[0] == '/')
    && (u.authority == "" ==> !StartsWithSlashes(u.path))
    && (u.scheme == "" && u.authority == "" ==> !StartsWithScheme(u.path))
  }

  // --------------------------------------------------------------------- round trip

  lemma {:induction false} IndexOfConcat(a: string, b: string, stops: set<char>)
    ensures IndexOf(a + b, stops) == if IndexOf(a, stops) < |a| then IndexOf(a, stops) else |a| + IndexOf(b, stops)
  {
    if a == [] {
      assert a + b == b;
    } else {
      IndexOfConcat(a[1..], b, stops);
      assert (a + b)[1..] == a[1..] + b;
    }
  }

  lemma NoStop(a: string, stops: set<char>)
    requires forall c | c in a :: c !in stops
    ensures IndexOf(a, stops) == |a|
  {
    assert forall k | 0 <= k < |a| :: a[k] in a;
  }

  // A part without the delimiter, then the delimiter and the rest, or nothing.
  lemma Cut(a: string, c: char, b: string)
    requires c !in a
    ensures Before(a, c) == a && After(a, c) == ""
    ensures Before(a + [c] + b, c) == a && After(a + [c] + b, c) == b
  {
    NoStop(a, {c});
    IndexOfConcat(a, [c] + b, {c});
    assert a + [c] + b == a + ([c] + b);
    assert (a + ([c] + b))[|a| + 1..] == b;
  }

  // ... where the delimiter is left out with an empty rest.
  lemma CutMaybe(a: string, c: char, b: string)
    requires c !in a
    ensures var s := a + (if b == "" then "" else [c] + b); Before(s, c) == a && After(s, c) == b
  {
    hide Before, After;
    Cut(a, c, b);
    assert a + [c] + b == a + ([c] + b);
    assert a + "" == a;
  }

  lemma PathRoundTrip(u: Url)
    requires (forall c | c in u.path :: c !in {'?', '#'}) && '#' !in u.query
    ensures ParsePath(u.scheme, u.authority, PrintPath(u)) == u
  {
    hide Before, After;
    CutMaybe(u.path, '?', u.query);
    CutMaybe(u.path + PrintQuery(u), '#', u.fragment);
  }

  lemma RestRoundTrip(u: Url)
    requires Printable(u)
    ensures ParseRest(u.scheme, PrintRest(u)) == u
  {
    hide IndexOf, ParsePath, PrintPath;
    PathRoundTrip(u);
    PathFirst(u);
    var p := PrintPath(u);
    if u.authority == "" {
      assert "" + p == p;
      NoSlashes(u.path, p);
    } else {
      AuthorityEnds(u.authority, p);
      SlashesFirst(u.authority, p);
    }
  }

  lemma NoSlashes(path: string, p: string)
    requires !StartsWithSlashes(path) && |p| >= |path| && p[..|path|] == path
    requires |p| > |path| ==> p[|path|] == '?' || p[|path|] == '#'
    ensures !StartsWithSlashes(p)
  {
    if |path| >= 2 { assert p[0] == path[0] && p[1] == path[1]; }
    if |path| == 1 { assert p[0] == path[0]; }
  }

  lemma SlashesFirst(a: string, p: string)
    ensures StartsWithSlashes("//" + a + p) && ("//" + a + p)[2..] == a + p
  {
  }

  lemma AuthorityEnds(a: string, p: string)
    requires (forall c | c in a :: c !in {'/', '?', '#'}) && (p == "" || p[0] in {'/', '?', '#'})
    ensures var i := IndexOf(a + p, {'/', '?', '#'}); (a + p)[..i] == a && (a + p)[i..] == p
  {
    NoStop(a, {'/', '?', '#'});
    IndexOfConcat(a, p, {'/', '?', '#'});
    assert (a + p)[..|a|] == a && (a + p)[|a|..] == p;
  }

  // How a printed path begins.
  lemma PathFirst(u: Url)
    ensures var p := PrintPath(u);
            && |p| >= |u.path| && p == u.path + p[|u.path|..] && p[..|u.path|] == u.path
            && (forall k | 0 <= k < |u.path| :: p[k] == u.path[k])
            && (|p| > |u.path| ==> p[|u.path|] == '?' || p[|u.path|] == '#')
  {
  }

  // A character that is no scheme character, before any colon.
  lemma NotScheme(s: string, k: nat)
    requires k < |s| && !IsSchemeChar(s[k]) && s[k] != ':' && forall j | 0 <= j < k :: s[j] != ':'
    ensures !StartsWithScheme(s)
  {
    var i := IndexOf(s, {':'});
    if i < |s| { assert s[..i][k] == s[k]; }
  }

  lemma SlashIsNoScheme(c: char)
    requires c == '/'
    ensures !IsSchemeChar(c)
  {
  }

  lemma SchemeOfPrinted(u: Url)
    requires Printable(u) && u.scheme == ""
    ensures !StartsWithScheme(Print(u))
  {
    assert Print(u) == "" + PrintRest(u) == PrintRest(u);
    PathFirst(u);
    if u.authority != "" {
      SlashesFirst(u.authority, PrintPath(u));
      assert Print(u) == "//" + u.authority + PrintPath(u);
      SlashIsNoScheme(Print(u)[0]);
      NotScheme(Print(u), 0);
    } else {
      assert Print(u) == PrintPath(u);
      PathScheme(u.path, PrintPath(u)[|u.path|..]);
    }
  }

  lemma PathScheme(path: string, more: string)
    requires !StartsWithScheme(path) && (more == "" || more[0] == '?' || more[0] == '#')
    ensures !StartsWithScheme(path + more)
  {
    var s, i := path + more, IndexOf(path, {':'});
    IndexOfConcat(path, more, {':'});
    if i < |path| {
      assert s[..i] == path[..i];
    } else if more != "" {
      NotScheme(s, |path|);
    } else {
      assert s == path;
    }
  }

  // A printed url is read back as it was exactly when its components allow it.
  lemma PrintedIsReadBack(u: Url)
    ensures Parse(Print(u)) == u <==> Printable(u)
  {
    if Printable(u) {
      RestRoundTrip(u);
      if u.scheme == "" {
        SchemeOfPrinted(u);
        assert Print(u) == PrintRest(u);
      } else {
        assert ':' !in u.scheme;
        Cut(u.scheme, ':', PrintRest(u));
        assert Print(u) == u.scheme + [':'] + PrintRest(u);
        NoStop(u.scheme, {':'});
        IndexOfConcat(u.scheme, [':'] + PrintRest(u), {':'});
        assert Print(u)[..|u.scheme|] == u.scheme;
      }
    }
    if Parse(Print(u)) == u {
      ReadBackIsPrintable(u);
    }
  }

  // What parsing guarantees of any text.
  lemma ParsedParts(s: string)
    ensures var u := Parse(s);
            && AllScheme(u.scheme)
            && (forall c | c in u.authority :: c !in {'/', '?', '#'})
            && (forall c | c in u.path :: c !in {'?', '#'})
            && '#' !in u.query
            && (u.authority != "" ==> u.path == "" || u.path[0] == '/')
  {
    var rest := if StartsWithScheme(s) then After(s, ':') else s;
    if StartsWithSlashes(rest) {
      var t := rest[2..];
      PathParts(t[IndexOf(t, {'/', '?', '#'})..]);
    } else {
      PathParts(rest);
    }
  }

  lemma PathParts(s: string)
    ensures var t := Before(s, '#');
            && (forall c | c in Before(t, '?') :: c !in {'?', '#'})
            && '#' !in After(t, '?')
            && (s != "" && s[0] == '/' ==> Before(t, '?') != "" && Before(t, '?')[0] == '/')
            && (s == "" || s[0] == '?' || s[0] == '#' ==> Before(t, '?') == "")
  {
  }

  lemma ReadBackIsPrintable(u: Url)
    requires Parse(Print(u)) == u
    ensures Printable(u)
  {
    ParsedParts(Print(u));
    if u.authority == "" && StartsWithSlashes(u.path) {
      // The printed path would be read as an authority.
      SlashesAreRead(u);
      assert false;
    }
    if u.scheme == "" && u.authority == "" && StartsWithScheme(u.path) {
      SchemeIsRead(u);
      assert false;
    }
  }

  lemma SlashesAreRead(u: Url)
    requires u.authority == "" && StartsWithSlashes(u.path) && AllScheme(u.scheme)
    requires forall c | c in u.path :: c !in {'?', '#'}
    ensures Parse(Print(u)) != u
  {
    PathFirst(u);
    var s, rest := Print(u), PrintRest(u);
    assert rest == PrintPath(u) && StartsWithSlashes(rest);
    if u.scheme == "" {
      assert s == rest;
      var i := IndexOf(s, {':'});
      assert i < |s| && i > 0 ==> s[..i][0] == '/';
      assert !StartsWithScheme(s);
    } else {
      assert ':' !in u.scheme;
      Cut(u.scheme, ':', rest);
      assert s == u.scheme + [':'] + rest;
      NoStop(u.scheme, {':'});
      IndexOfConcat(u.scheme, [':'] + rest, {':'});
      assert s[..|u.scheme|] == u.scheme;
    }
    LessPath(u, rest);
  }

  // Reading the slashes as the mark of an authority leaves less for the path.
  lemma LessPath(u: Url, rest: string)
    requires rest == PrintPath(u) && StartsWithSlashes(rest) && StartsWithSlashes(u.path)
    requires forall c | c in u.path :: c !in {'?', '#'}
    ensures ParseRest(u.scheme, rest) != u
  {
    var t := rest[2..];
    var i := IndexOf(t, {'/', '?', '#'});
    var p := ParseRest(u.scheme, rest);
    if p.authority == "" {
      assert i == 0;
      assert t == u.path[2..] + (PrintQuery(u) + (if u.fragment == "" then "" else "#" + u.fragment));
      PathRoundTripShort(u, t);
    }
  }

  lemma PathRoundTripShort(u: Url, t: string)
    requires StartsWithSlashes(u.path) && (forall c | c in u.path :: c !in {'?', '#'})
    requires t == u.path[2..] + (PrintQuery(u) + (if u.fragment == "" then "" else "#" + u.fragment))
    ensures |ParsePath(u.scheme, "", t).path| < |u.path|
  {
    var p := u.path[2..];
    var q := PrintQuery(u) + (if u.fragment == "" then "" else "#" + u.fragment);
    assert forall c | c in p :: c in u.path;
    NoStop(p, {'#'});
    NoStop(p, {'?'});
    IndexOfConcat(p, q, {'#'});
    var b := Before(t, '#');
    var k := IndexOf(q, {'#'});
    assert b == p + q[..k];
    IndexOfConcat(p, q[..k], {'?'});
    assert q != "" ==> q[0] == '?' || q[0] == '#';
    assert IndexOf(q[..k], {'?'}) == 0;
  }

  lemma SchemeIsRead(u: Url)
    requires u.scheme == "" && u.authority == "" && StartsWithScheme(u.path)
    ensures Parse(Print(u)) != u
  {
    PathFirst(u);
    var s := PrintPath(u);
    assert Print(u) == s;
    ColonIsRead(u, s, IndexOf(u.path, {':'}));
  }

  lemma ColonIsRead(u: Url, s: string, i: nat)
    requires i == IndexOf(u.path, {':'}) < |u.path| <= |s| && AllScheme(u.path[..i])
    requires s == PrintPath(u) == u.path + s[|u.path|..]
    ensures Parse(s) != u
  {
    hide ParseRest, PrintPath;
    IndexOfConcat(u.path, s[|u.path|..], {':'});
    assert s[..i] == u.path[..i];
    assert StartsWithScheme(s) && |After(s, ':')| < |s|;
    PartsAreShorter(Before(s, ':'), After(s, ':'));
  }

  // The components are no longer than the text they were read from.
  lemma PartsAreShorter(scheme: string, s: string)
    ensures var v := ParseRest(scheme, s); |PrintPath(v)| <= |s| && v.scheme == scheme
  {
  }

  // ------------------------------------------------------------ the other way round

  // A delimiter with nothing behind it.
  predicate Dangling(s: string, c: char) { IndexOf(s, {c}) + 1 == |s| }

  predicate PathIsKept(s: string) {
    !Dangling(s, '#') && !Dangling(Before(s, '#'), '?')
  }

  predicate RestIsKept(s: string) {
    if StartsWithSlashes(s) then
      var t := s[2..];
      var i := IndexOf(t, {'/', '?', '#'});
      i > 0 && PathIsKept(t[i..])
    else PathIsKept(s)
  }

  // No component is there and empty: no scheme of no characters before a colon, no
  // authority of none after two slashes, and something after a question mark or hash.
  predicate NothingEmpty(s: string) {
    if StartsWithScheme(s) then s[0] != ':' && RestIsKept(After(s, ':')) else RestIsKept(s)
  }

  lemma SplitAt(s: string, c: char)
    ensures After(s, c) == "" ==> s == Before(s, c) + (if Dangling(s, c) then [c] else "")
    ensures After(s, c) != "" ==> s == Before(s, c) + [c] + After(s, c) && !Dangling(s, c)
  {
    var i := IndexOf(s, {c});
    if i < |s| { assert s == s[..i] + [c] + s[i + 1..]; }
  }

  lemma PathPrintsBack(scheme: string, authority: string, s: string)
    ensures var r := PrintPath(ParsePath(scheme, authority, s)); |r| <= |s| && (r == s <==> PathIsKept(s))
  {
    hide Before, After, Dangling;
    SplitAt(s, '#');
    SplitAt(Before(s, '#'), '?');
  }

  lemma RestPrintsBack(scheme: string, s: string)
    ensures var r := PrintRest(ParseRest(scheme, s)); |r| <= |s| && (r == s <==> RestIsKept(s))
  {
    hide ParsePath, PrintPath, PathIsKept;
    if StartsWithSlashes(s) {
      var t := s[2..];
      var i := IndexOf(t, {'/', '?', '#'});
      PathPrintsBack(scheme, t[..i], t[i..]);
      Rejoined(s, t[..i], t[i..], PrintPath(ParsePath(scheme, t[..i], t[i..])));
      SameAuthority(scheme, t[..i], t[i..]);
    } else {
      PathPrintsBack(scheme, "", s);
      SameAuthority(scheme, "", s);
    }
  }

  lemma SameAuthority(scheme: string, authority: string, s: string)
    ensures ParsePath(scheme, authority, s).authority == authority && ParsePath(scheme, authority, s).scheme == scheme
  {
  }

  lemma Rejoined(s: string, a: string, b: string, b': string)
    requires StartsWithSlashes(s) && s[2..] == a + b && |b'| <= |b|
    ensures |"//" + a + b'| <= |s| && ("//" + a + b' == s <==> b' == b)
    ensures |b'| < |s|
  {
    assert s == "//" + s[2..];
    assert "//" + a + b' == "//" + (a + b');
    if "//" + a + b' == s {
      assert (a + b')[|a|..] == b' && (a + b)[|a|..] == b;
      assert ("//" + (a + b'))[2..] == a + b';
    }
  }

  // A text is printed back as it was exactly when no component in it is there and
  // empty: its colon, slashes, question mark or hash would be lost.
  lemma ParsedPrintsBack(s: string)
    ensures |Print(Parse(s))| <= |s|
    ensures Print(Parse(s)) == s <==> NothingEmpty(s)
  {
    hide ParseRest, PrintRest, RestIsKept;
    if StartsWithScheme(s) {
      var scheme, rest := Before(s, ':'), After(s, ':');
      RestPrintsBack(scheme, rest);
      SameScheme(scheme, rest);
      var back := PrintRest(ParseRest(scheme, rest));
      var i := IndexOf(s, {':'});
      assert s == scheme + [':'] + rest && |scheme| == i;
      if i > 0 && scheme + ":" + back == s {
        assert (scheme + ":" + back)[i + 1..] == back && s[i + 1..] == rest;
      }
    } else {
      RestPrintsBack("", s);
      SameScheme("", s);
    }
  }

  // ":a" is printed back as "a": an empty scheme is found, and not printed.
  lemma ColonIsLost()
    ensures Parse(":a") == Url("", "", "a", "", "") && Print(Parse(":a")) == "a"
  {
    hide IndexOf;
    NoStop("a", {'#'});
    NoStop("a", {'?'});
    assert ":a"[0] == ':' && IndexOf(":a", {':'}) == 0;
    assert ":a"[1..] == "a" && Before("a", '#') == "a";
  }

  lemma SameScheme(scheme: string, s: string)
    ensures ParseRest(scheme, s).scheme == scheme
  {
  }
}
