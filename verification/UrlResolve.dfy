// Resolving a reference against a base url, without normalizing the path.
module UrlResolve {
  import opened Url

  predicate IsAbsolute(path: string) { path != "" && path[0] == '/' }

  // The path up to its last slash, or "." if it has none.
  function DirectoryName(path: string): string {
    if path == "" then "."
    else if path[|path| - 1] == '/' then path
    else if '/' in path then DirectoryName(path[..|path| - 1])
    else "."
  }

  function Append(base: string, path: string): string {
    if base != "" && path != "" && base[|base| - 1] != '/' then base + "/" + path else base + path
  }

  function PathResolve(base: string, path: string): string {
    if IsAbsolute(path) then path else Append(DirectoryName(base), path)
  }

  function Resolve(b: Url, r: Url): Url {
    if r.scheme != "" then r
    else if r.authority != "" then r.(scheme := b.scheme)
    else if r.path != "" then
      r.(scheme := b.scheme, authority := b.authority,
         path := if IsAbsolute(r.path) then r.path else PathResolve(b.path, r.path))
    else if r.query != "" then r.(scheme := b.scheme, authority := b.authority, path := b.path)
    else b.(fragment := r.fragment)
  }

  // A relative path against a base with an authority and no path: the directory of
  // the empty path is ".", and the result runs into the authority.
  predicate RunsTogether(b: Url, r: Url) {
    r.scheme == "" && r.authority == "" && r.path != "" && !IsAbsolute(r.path) && b.authority != "" && b.path == ""
  }

  lemma {:induction false} DirectoryParts(path: string)
    ensures var d := DirectoryName(path);
            && d != ""
            && (forall c | c in d :: c in path || c == '.')
            && ('/' in path ==> d <= path && d[|d| - 1] == '/')
            && ('/' in path ==> '/' !in path[|d|..])
            && ('/' !in path ==> d == ".")
  {
    if path != "" && path[|path| - 1] != '/' && '/' in path {
      DirectoryParts(path[..|path| - 1]);
    }
  }

  // Where each component comes from (section 5.2.2 of RFC 3986): the reference, or the
  // base if the reference has neither it nor any before it.
  lemma ResolvedFrom(b: Url, r: Url)
    ensures var u := Resolve(b, r);
            && u.scheme == (if r.scheme != "" then r.scheme else b.scheme)
            && u.authority == (if r.scheme != "" || r.authority != "" then r.authority else b.authority)
            && (r.scheme != "" || r.authority != "" || IsAbsolute(r.path) ==> u.path == r.path)
            && (r.scheme == "" && r.authority == "" && r.path == "" ==> u.path == b.path)
            && (HasRelativePath(r) ==> u.path == PathResolve(b.path, r.path))
            && u.query == (if r.scheme == "" && r.authority == "" && r.path == "" && r.query == "" then b.query
                           else r.query)
            && u.fragment == r.fragment
  {
  }

  // A relative path resolved against a path.
  lemma ResolvedPath(base: string, path: string)
    requires path != "" && !IsAbsolute(path)
    ensures var p := PathResolve(base, path); var d := DirectoryName(base);
            && p == (if '/' in base then d + path else "./" + path)
            && ('/' in base ==> d <= base && d != "" && d[|d| - 1] == '/' && '/' !in base[|d|..])
            && (base != "" && base[0] == '/' ==> p[0] == '/')
            && (base == "" ==> p[0] == '.')
            && (!StartsWithSlashes(base) ==> !StartsWithSlashes(p))
  {
    DirectoryParts(base);
    var d := DirectoryName(base);
    if '/' in base {
      assert d[0] == base[0];
      assert |d| >= 2 ==> d[1] == base[1];
    }
  }

  // A path that is not taken for a scheme does not become one.
  lemma ResolvedScheme(base: string, path: string)
    requires path != "" && !IsAbsolute(path) && !StartsWithScheme(base)
    ensures !StartsWithScheme(PathResolve(base, path))
  {
    hide DirectoryName, Append, IndexOf;
    DirectoryParts(base);
    ResolvedPath(base, path);
    if '/' in base {
      var d := DirectoryName(base);
      assert base == d + base[|d|..];
      DirectoryScheme(d, base[|d|..], path);
    } else {
      NotScheme("./" + path, 1);
    }
  }

  // Up to its first slash the text stays the same.
  lemma DirectoryScheme(d: string, was: string, path: string)
    requires '/' in d && !StartsWithScheme(d + was)
    ensures !StartsWithScheme(d + path)
  {
    hide IndexOf;
    IndexOfConcat(d, was, {':'});
    IndexOfConcat(d, path, {':'});
    var j := IndexOf(d, {':'});
    if j < |d| {
      assert (d + was)[..j] == d[..j] == (d + path)[..j];
    } else {
      NoSlash(d);
      NotScheme(d + path, IndexOf(d, {'/'}));
    }
  }

  lemma NoSlash(d: string)
    requires '/' in d
    ensures IndexOf(d, {'/'}) < |d|
  {
    var k :| 0 <= k < |d| && d[k] == '/';
  }

  predicate HasRelativePath(r: Url) {
    r.scheme == "" && r.authority == "" && r.path != "" && !IsAbsolute(r.path)
  }

  lemma RelativePrintable(b: Url, r: Url)
    requires Printable(b) && Printable(r) && HasRelativePath(r)
    ensures Printable(Resolve(b, r)) <==> !(b.authority != "" && b.path == "")
  {
    hide DirectoryName, Append, StartsWithScheme;
    var u := Resolve(b, r);
    assert u.path == PathResolve(b.path, r.path);
    ResolvedPath(b.path, r.path);
    ResolvedChars(b.path, r.path);
    if b.scheme == "" && b.authority == "" { ResolvedScheme(b.path, r.path); }
  }

  lemma ResolvedChars(base: string, path: string)
    requires path != "" && !IsAbsolute(path)
    ensures forall c | c in PathResolve(base, path) :: c in base || c in path || c == '.' || c == '/'
  {
    DirectoryParts(base);
    ResolvedPath(base, path);
  }

  lemma OtherPrintable(b: Url, r: Url)
    requires Printable(b) && Printable(r) && !HasRelativePath(r)
    ensures Printable(Resolve(b, r))
  {
    if IsAbsolute(r.path) { NotScheme(r.path, 0); }
  }

  // Resolving keeps urls printable, so the result reads back from its text, exactly
  // when the path does not run together with the authority.
  lemma ResolvedIsReadBack(b: Url, r: Url)
    requires Printable(b) && Printable(r)
    ensures Parse(Print(Resolve(b, r))) == Resolve(b, r) <==> !RunsTogether(b, r)
  {
    hide Parse, Print, Printable, Resolve;
    PrintedIsReadBack(Resolve(b, r));
    if HasRelativePath(r) { RelativePrintable(b, r); } else { OtherPrintable(b, r); }
  }

  // So with "http://host" as base, "page" does not resolve to a page of the host.
  lemma HostAndPage()
    ensures var b := Url("http", "host", "", "", "");
            var r := Url("", "", "page", "", "");
            && Printable(b) && Printable(r)
            && Print(Resolve(b, r)) == "http://host./page"
            && Parse(Print(Resolve(b, r))) != Resolve(b, r)
  {
    hide IndexOf, Parse;
    var b, r := Url("http", "host", "", "", ""), Url("", "", "page", "", "");
    NoStop("page", {':'});
    ResolvedIsReadBack(b, r);
    assert DirectoryName("") == ".";
    assert Resolve(b, r).path == "./page";
  }
}
