/**
 Link scoping of the crawler: which raw `href` values found on a page are
 followed, and under what string.

 Two foreign pieces appear here. `Url::parse` is a parameter of type `Parser`
 (the crawler only reads the host and the serialized form of a parsed URL).
 `Path::extension`, applied to the raw href as if it were a Unix file path,
 is modelled concretely by `FileName` and `HasExtension`.
 */
module Url {

  datatype Option<T> = None | Some(value: T)

  /** What the crawler reads from a parsed URL: `host_str()` and the `Display` serialization. */
  datatype ParsedUrl = ParsedUrl(host: Option<string>, serialization: string)

  /** `Url::parse`: `Some` for an absolute URL, `None` when parsing fails (every relative reference). */
  type Parser = string -> Option<ParsedUrl>

  predicate StartsWith(s: string, prefix: string)
  {
    |prefix| <= |s| && s[..|prefix|] == prefix
  }

  // ---------------------------------------------------------------------------
  // Path::extension on a Unix path
  // ---------------------------------------------------------------------------

  /** The index of the last '/' of `s`, or -1 when it has none. */
  function LastSlash(s: string): (i: int)
    ensures -1 <= i < |s|
    ensures i >= 0 ==> s[i] == '/'
    ensures forall j :: i < j < |s| ==> s[j] != '/'
    decreases |s|
  {
    if s == [] then -1
    else if s[|s| - 1] == '/' then |s| - 1
    else
      var i := LastSlash(s[..|s| - 1]);
      assert forall j :: i < j < |s| - 1 ==> s[j] == s[..|s| - 1][j];
      i
  }

  /** An index holding a '/' with none after it is the last '/'. */
  lemma LastSlashUnique(s: string, k: int)
    requires -1 <= k < |s|
    requires k >= 0 ==> s[k] == '/'
    requires forall j :: k < j < |s| ==> s[j] != '/'
    ensures LastSlash(s) == k
  {
    var i := LastSlash(s);
    assert i <= k by {
      assert i >= 0 ==> s[i] == '/';
    }
    assert k <= i by {
      assert k >= 0 ==> s[k] == '/';
    }
  }

  /** The text after the last '/' of `s` (all of `s` when it has no '/'). */
  function AfterLastSlash(s: string): (seg: string)
    ensures |seg| <= |s| && seg == s[|s| - |seg|..]
    ensures '/' !in seg
    ensures |seg| < |s| ==> s[|s| - |seg| - 1] == '/'
  {
    s[LastSlash(s) + 1..]
  }

  /** A component `Path::file_name` can return: not empty, not `.` or `..`, and without a separator. */
  predicate NormalComponent(c: string)
  {
    c != [] && c != "." && c != ".." && '/' !in c
  }

  /**
   `Path::file_name`: the last component of the path, where empty components
   (repeated or trailing separators) and `.` are skipped; `None` when there is
   no component left or the last one is `..`.
   */
  function FileName(path: string): (name: Option<string>)
    ensures name.Some? ==> NormalComponent(name.value)
    decreases |path|
  {
    var seg := AfterLastSlash(path);
    if seg == ".." then None
    else if seg != [] && seg != "." then Some(seg)
    else if |seg| == |path| then None
    else FileName(path[..|path| - |seg| - 1])
  }

  /**
   A file name has an extension when it splits at its last '.' into a
   non-empty stem and the text after it; that is, when some '.' stands after
   the first character.
   */
  predicate DotAfterStart(name: string)
  {
    exists i :: 1 <= i < |name| && name[i] == '.'
  }

  /** `Path::new(href).extension().is_some()`. */
  predicate HasExtension(href: string)
  {
    match FileName(href)
    case None => false
    case Some(name) => DotAfterStart(name)
  }

  /** `name` stands in `path` at index `a`, at the start of a component. */
  predicate ComponentAt(path: string, a: nat, name: string)
  {
    a + |name| <= |path| && path[a..a + |name|] == name && (a == 0 || path[a - 1] == '/')
  }

  /** The file name is one of the path's components. */
  lemma {:induction false} FileNameIsComponent(path: string)
    ensures FileName(path).Some? ==> exists a: nat :: ComponentAt(path, a, FileName(path).value)
    decreases |path|
  {
    var seg := AfterLastSlash(path);
    if seg == ".." {
    } else if seg != [] && seg != "." {
      assert ComponentAt(path, |path| - |seg|, seg);
    } else if |seg| == |path| {
    } else {
      var k := |path| - |seg| - 1;
      var prefix := path[..k];
      assert FileName(path) == FileName(prefix);
      FileNameIsComponent(prefix);
      if FileName(prefix).Some? {
        var name := FileName(prefix).value;
        var a: nat :| ComponentAt(prefix, a, name);
        ComponentInPrefix(path, k, a, name);
      }
    }
  }

  lemma ComponentInPrefix(path: string, k: nat, a: nat, name: string)
    requires k <= |path| && ComponentAt(path[..k], a, name)
    ensures ComponentAt(path, a, name)
  {
    assert path[a..a + |name|] == path[..k][a..a + |name|];
  }

  /** An href with an extension holds a '.' that does not begin a path component (so `/.hidden` has none). */
  lemma ExtensionNeedsInnerDot(href: string)
    requires HasExtension(href)
    ensures exists i :: 0 < i < |href| && href[i] == '.' && href[i - 1] != '/'
  {
    FileNameIsComponent(href);
    var name := FileName(href).value;
    var a: nat :| ComponentAt(href, a, name);
    var j :| 1 <= j < |name| && name[j] == '.';
    assert href[a + j] == name[j] && href[a + j - 1] == name[j - 1];
  }

  /** The contract of `AfterLastSlash` determines its result: no other segment meets it. */
  lemma AfterLastSlashUnique(s: string, seg: string)
    requires |seg| <= |s| && seg == s[|s| - |seg|..]
    requires '/' !in seg
    requires |seg| < |s| ==> s[|s| - |seg| - 1] == '/'
    ensures AfterLastSlash(s) == seg
  {
    SuffixWithoutSlash(s, seg);
    LastSlashUnique(s, |s| - |seg| - 1);
  }

  /** No '/' stands inside a slash-free suffix. */
  lemma SuffixWithoutSlash(s: string, seg: string)
    requires |seg| <= |s| && seg == s[|s| - |seg|..]
    requires '/' !in seg
    ensures forall j :: |s| - |seg| <= j < |s| ==> s[j] != '/'
  {
    forall j | |s| - |seg| <= j < |s|
      ensures s[j] != '/'
    {
      assert s[j] == seg[j - (|s| - |seg|)];
    }
  }

  lemma AfterLastSlashOfComponent(dir: string, name: string)
    requires dir == [] || dir[|dir| - 1] == '/'
    requires '/' !in name
    ensures AfterLastSlash(dir + name) == name
  {
    var path := dir + name;
    assert path[|path| - |name|..] == name;
    if |name| < |path| {
      assert path[|path| - |name| - 1] == dir[|dir| - 1];
    }
    AfterLastSlashUnique(path, name);
  }

  /** The file name of a path ending in a normal component is that component. */
  lemma FileNameOfComponent(dir: string, name: string)
    requires dir == [] || dir[|dir| - 1] == '/'
    requires NormalComponent(name)
    ensures FileName(dir + name) == Some(name)
  {
    AfterLastSlashOfComponent(dir, name);
  }

  /** Trailing separators and trailing `.` components do not change the file name. */
  lemma FileNameIgnoresTrailing(path: string)
    ensures FileName(path + "/") == FileName(path)
    ensures FileName(path + "/.") == FileName(path)
  {
    assert (path + "/")[..|path|] == path;
    AfterLastSlashOfComponent(path + "/", ".");
    assert path + "/" + "." == path + "/.";
    assert (path + "/.")[..|path|] == path;
  }

  /** The extension test looks only at the last component of the href. */
  lemma ExtensionOfLastComponent(dir: string, name: string)
    requires dir == [] || dir[|dir| - 1] == '/'
    requires NormalComponent(name)
    ensures HasExtension(dir + name) <==> DotAfterStart(name)
  {
    FileNameOfComponent(dir, name);
  }

  /**
   A path whose last component is `..` (`..`, `/docs/..`) has no file name,
   so no extension, although `..` holds a '.' after its first character: the
   extension filter lets such an href through.
   */
  lemma ParentHasNoExtension(dir: string)
    requires dir == [] || dir[|dir| - 1] == '/'
    ensures FileName(dir + "..") == None
    ensures !HasExtension(dir + "..") && DotAfterStart("..")
  {
    ParentHasNoFileName(dir, "..");
    assert ".."[1] == '.';
  }

  /** The `..` case of `FileName`, with the component held in a variable. */
  lemma ParentHasNoFileName(dir: string, up: string)
    requires dir == [] || dir[|dir| - 1] == '/'
    requires up == ".."
    ensures FileName(dir + up) == None
  {
    AfterLastSlashOfComponent(dir, up);
  }

  /**
   An absolute URL with no path, such as `http://a.com`, is read as the path
   `http:` / `a.com`, whose file name `a.com` has the extension `com`: such
   an href never gets past the extension filter.
   */
  lemma BareHostHasExtension(scheme: string, host: string)
    requires '/' !in host && host != ".."
    requires DotAfterStart(host)
    ensures HasExtension(scheme + "//" + host)
  {
    var dir := scheme + "//";
    assert dir[|dir| - 1] == '/';
    assert dir + host == scheme + "//" + host;
    ExtensionOfLastComponent(dir, host);
  }

  /** `/doc.pdf` is dropped by the extension filter; `/about` and `/about/` are not. */
  lemma ExtensionExamples()
    ensures HasExtension("/doc.pdf")
    ensures !HasExtension("/about")
    ensures !HasExtension("/about/")
  {
    PdfHasExtension();
    AboutHasNoExtension();
    AboutSlashHasNoExtension();
  }

  lemma AboutSlashHasNoExtension()
    ensures !HasExtension("/about/")
  {
    var about := "/about";
    AboutHasNoExtension();
    TrailingSlashKeepsExtension(about);
    assert about + "/" == "/about/";
  }

  lemma AboutHasNoExtension()
    ensures !HasExtension("/about")
  {
    NoDotInAbout();
    assert "/about" == "/" + "about";
    ExtensionOfLastComponent("/", "about");
  }

  lemma PdfHasExtension()
    ensures HasExtension("/doc.pdf")
  {
    var name := "doc.pdf";
    assert name[3] == '.';
    assert "/doc.pdf" == "/" + name;
    ExtensionOfLastComponent("/", name);
  }

  lemma NoDotInAbout()
    ensures !DotAfterStart("about")
  {
    var s := "about";
    assert s[1] == 'b' && s[2] == 'o' && s[3] == 'u' && s[4] == 't';
  }

  /** A dot-file such as `/.hidden` has no extension; the bare host `http://a.com` has one. */
  lemma DotFileAndHostExamples()
    ensures !HasExtension("/.hidden")
    ensures HasExtension("http://a.com")
  {
    DotFileHasNoExtension();
    BareSeedHasExtension();
  }

  lemma DotFileHasNoExtension()
    ensures !HasExtension("/.hidden")
  {
    var hidden := ".hidden";
    assert forall i :: 1 <= i < |hidden| ==> hidden[i] != '.';
    assert "/.hidden" == "/" + hidden;
    ExtensionOfLastComponent("/", hidden);
  }

  lemma BareSeedHasExtension()
    ensures HasExtension("http://a.com")
  {
    assert "a.com"[1] == '.';
    BareHostHasExtension("http:", "a.com");
    assert "http:" + "//" + "a.com" == "http://a.com";
  }

  // ---------------------------------------------------------------------------
  // normalize_url and get_links
  // ---------------------------------------------------------------------------

  predicate SameHost(u: ParsedUrl, given: ParsedUrl)
  {
    u.host.Some? && u.host == given.host
  }

  /**
   `normalize_url(url, given_url)`: an href that parses is kept verbatim when
   it names the seed's host; one that does not parse is kept, prefixed by the
   seed's serialization, when it starts with '/'. Everything else is dropped.
   The seed must parse (the source unwraps its parse).
   */
  function NormalizeUrl(parse: Parser, url: string, givenUrl: string): (r: Option<string>)
    requires parse(givenUrl).Some?
    ensures r.Some? ==> r.value == url || r.value == parse(givenUrl).value.serialization + url
  {
    var given := parse(givenUrl).value;
    match parse(url)
    case Some(newUrl) =>
      if SameHost(newUrl, given) then Some(url) else None
    case None =>
      if StartsWith(url, "/") then Some(given.serialization + url) else None
  }

  /** An absolute href is kept exactly when its host is the seed's host, and then unchanged. */
  lemma NormalizeAbsolute(parse: Parser, url: string, givenUrl: string)
    requires parse(givenUrl).Some? && parse(url).Some?
    ensures NormalizeUrl(parse, url, givenUrl).Some?
            <==> parse(url).value.host.Some? && parse(url).value.host == parse(givenUrl).value.host
    ensures NormalizeUrl(parse, url, givenUrl).Some? ==> NormalizeUrl(parse, url, givenUrl).value == url
  {
  }

  /**
   An href that does not parse is kept exactly when it starts with '/', and
   then resolved against the seed's serialization, whatever page it came from.
   */
  lemma NormalizeRelative(parse: Parser, url: string, givenUrl: string)
    requires parse(givenUrl).Some? && parse(url).None?
    ensures NormalizeUrl(parse, url, givenUrl).Some? <==> |url| > 0 && url[0] == '/'
    ensures NormalizeUrl(parse, url, givenUrl).Some?
            ==> NormalizeUrl(parse, url, givenUrl).value == parse(givenUrl).value.serialization + url
  {
    if |url| > 0 && url[0] == '/' {
      assert url[..1] == "/";
    }
  }

  /** `Url::parse` on the handful of strings the examples below use. */
  function ExampleParse(s: string): Option<ParsedUrl>
  {
    if s == "http://a.com" then Some(ParsedUrl(Some("a.com"), "http://a.com/"))
    else if s == "http://a.com/c" then Some(ParsedUrl(Some("a.com"), "http://a.com/c"))
    else if s == "http://b.com/x" then Some(ParsedUrl(Some("b.com"), "http://b.com/x"))
    else if s == "mailto:me@a.com" then Some(ParsedUrl(None, "mailto:me@a.com"))
    else None
  }

  /**
   With seed `http://a.com` (serialized `http://a.com/`): `/about` becomes
   `http://a.com//about`; a cross-host link and a link without a host are
   dropped; a same-host absolute link is kept as written; `./page` is dropped.
   */
  lemma NormalizeExamples()
    ensures NormalizeUrl(ExampleParse, "/about", "http://a.com") == Some("http://a.com//about")
    ensures NormalizeUrl(ExampleParse, "http://b.com/x", "http://a.com") == None
    ensures NormalizeUrl(ExampleParse, "mailto:me@a.com", "http://a.com") == None
    ensures NormalizeUrl(ExampleParse, "http://a.com/c", "http://a.com") == Some("http://a.com/c")
    ensures NormalizeUrl(ExampleParse, "./page", "http://a.com") == None
  {
    assert "/about"[..1] == "/";
    assert "http://a.com/" + "/about" == "http://a.com//about";
    assert "./page"[0] == '.';
  }

  /**
   The filter looks at the href, not at the URL it becomes: the href `/` has
   no extension, but on seed `http://a.com` it becomes `http://a.com//`,
   whose file name `a.com` has one.
   */
  lemma SlashHrefBecomesExtension()
    ensures !HasExtension("/")
    ensures NormalizeUrl(ExampleParse, "/", "http://a.com") == Some("http://a.com//")
    ensures HasExtension("http://a.com//")
  {
    SlashHasNoExtension();
    SlashHrefNormalized();
    SeedWithSlashesHasExtension();
  }

  lemma SlashHrefNormalized()
    ensures NormalizeUrl(ExampleParse, "/", "http://a.com") == Some("http://a.com//")
  {
    assert ExampleParse("/") == None;
    assert "/"[..1] == "/";
    assert "http://a.com/" + "/" == "http://a.com//";
  }

  lemma SlashHasNoExtension()
    ensures !HasExtension("/")
  {
    var root := "/";
    assert root[0] == '/';
    SeparatorsOnly(root);
  }

  /** A path made only of separators has no file name. */
  lemma {:induction false} SeparatorsOnly(path: string)
    requires forall i :: 0 <= i < |path| ==> path[i] == '/'
    ensures FileName(path) == None
    decreases |path|
  {
    if path == [] {
      LastSlashUnique(path, -1);
    } else {
      LastSlashUnique(path, |path| - 1);
      SeparatorsOnly(path[..|path| - 1]);
    }
  }

  lemma SeedWithSlashesHasExtension()
    ensures HasExtension("http://a.com//")
  {
    var p := "http://a.com";
    BareSeedHasExtension();
    TrailingSlashKeepsExtension(p);
    TrailingSlashKeepsExtension(p + "/");
    assert p + "/" + "/" == "http://a.com//";
  }

  lemma TrailingSlashKeepsExtension(path: string)
    ensures HasExtension(path + "/") == HasExtension(path)
  {
    FileNameIgnoresTrailing(path);
  }

  /**
   What `normalize_url` needs of one raw href: when the href passes the
   extension filter, the seed must parse (`normalize_url` unwraps it).
   */
  predicate Followable(parse: Parser, h: string, givenUrl: string)
  {
    !HasExtension(h) ==> parse(givenUrl).Some?
  }

  predicate SeedParsesWhenNeeded(parse: Parser, hrefs: seq<string>, givenUrl: string)
  {
    forall h :: h in hrefs ==> Followable(parse, h, givenUrl)
  }

  /**
   The link one raw href contributes: none when it has an extension, else its
   normalized form. It contributes one exactly when it has no extension and
   either parses with the seed's host or does not parse and starts with '/';
   the link is then the href itself or the seed's serialization followed by it.
   */
  function LinkOf(parse: Parser, h: string, givenUrl: string): (r: Option<string>)
    requires Followable(parse, h, givenUrl)
    ensures r.Some? <==>
      && !HasExtension(h)
      && (|| (parse(h).Some? && SameHost(parse(h).value, parse(givenUrl).value))
          || (parse(h).None? && StartsWith(h, "/")))
    ensures r.Some? && parse(h).Some? ==> r.value == h
    ensures r.Some? && parse(h).None? ==> r.value == parse(givenUrl).value.serialization + h
  {
    if HasExtension(h) then None
    else if parse(h).Some? then
      NormalizeUrl(parse, h, givenUrl)
    else
      NormalizeRelative(parse, h, givenUrl);
      NormalizeUrl(parse, h, givenUrl)
  }

  /**
   A URL the crawler may follow from seed `givenUrl`: the seed parses, and
   the URL either parses with the seed's host or is the seed's serialization
   followed by an href that does not parse and starts with '/'.
   */
  ghost predicate OnSeedSite(parse: Parser, givenUrl: string, v: string)
  {
    && parse(givenUrl).Some?
    && (|| (parse(v).Some? && SameHost(parse(v).value, parse(givenUrl).value))
        || exists h :: parse(h).None? && StartsWith(h, "/") && v == parse(givenUrl).value.serialization + h)
  }

  /**
   `get_links`: the set of normalized forms of the raw hrefs of one page that
   have no extension and are in scope. The extension filter comes before
   normalization, and the base is always the seed `givenUrl`.
   */
  function GetLinks(parse: Parser, hrefs: seq<string>, givenUrl: string): (r: set<string>)
    requires SeedParsesWhenNeeded(parse, hrefs, givenUrl)
    ensures forall v :: v in r <==> exists h :: h in hrefs && LinkOf(parse, h, givenUrl) == Some(v)
    ensures |r| <= |hrefs|
  {
    if hrefs == [] then {}
    else
      var rest := GetLinks(parse, hrefs[1..], givenUrl);
      match LinkOf(parse, hrefs[0], givenUrl)
      case Some(v) => {v} + rest
      case None => rest
  }

  /** A URL is a link of the page exactly when some href with no extension normalizes to it. */
  lemma GetLinksMembership(parse: Parser, hrefs: seq<string>, givenUrl: string, v: string)
    requires SeedParsesWhenNeeded(parse, hrefs, givenUrl)
    ensures v in GetLinks(parse, hrefs, givenUrl) <==>
      exists h :: h in hrefs && !HasExtension(h) && NormalizeUrl(parse, h, givenUrl) == Some(v)
  {
    if v in GetLinks(parse, hrefs, givenUrl) {
      var h :| h in hrefs && LinkOf(parse, h, givenUrl) == Some(v);
      assert !HasExtension(h) && NormalizeUrl(parse, h, givenUrl) == Some(v);
    }
    if exists h :: h in hrefs && !HasExtension(h) && NormalizeUrl(parse, h, givenUrl) == Some(v) {
      var h :| h in hrefs && !HasExtension(h) && NormalizeUrl(parse, h, givenUrl) == Some(v);
      assert LinkOf(parse, h, givenUrl) == Some(v);
    }
  }

  /** The result depends only on which hrefs occur: the page's links are a union over its hrefs. */
  lemma {:induction false} GetLinksAppend(parse: Parser, a: seq<string>, b: seq<string>, givenUrl: string)
    requires SeedParsesWhenNeeded(parse, a + b, givenUrl)
    ensures SeedParsesWhenNeeded(parse, a, givenUrl) && SeedParsesWhenNeeded(parse, b, givenUrl)
    ensures GetLinks(parse, a + b, givenUrl) == GetLinks(parse, a, givenUrl) + GetLinks(parse, b, givenUrl)
    decreases |a|
  {
    if a == [] {
      assert a + b == b;
    } else {
      assert (a + b)[1..] == a[1..] + b;
      GetLinksAppend(parse, a[1..], b, givenUrl);
    }
  }

  /** An href with an extension contributes nothing, even one `normalize_url` would accept. */
  lemma ExtensionFilteredFirst(parse: Parser, hrefs: seq<string>, h: string, givenUrl: string)
    requires HasExtension(h)
    requires SeedParsesWhenNeeded(parse, hrefs, givenUrl)
    ensures SeedParsesWhenNeeded(parse, hrefs + [h], givenUrl)
    ensures GetLinks(parse, hrefs + [h], givenUrl) == GetLinks(parse, hrefs, givenUrl)
  {
    GetLinksAppend(parse, hrefs, [h], givenUrl);
  }

  /** Every link of a page is on the seed's site: no other host enters the frontier. */
  lemma GetLinksOnSite(parse: Parser, givenUrl: string)
    requires parse(givenUrl).Some?
    ensures forall hrefs, v :: v in GetLinks(parse, hrefs, givenUrl) ==> OnSeedSite(parse, givenUrl, v)
  {
    forall hrefs, v | v in GetLinks(parse, hrefs, givenUrl)
      ensures OnSeedSite(parse, givenUrl, v)
    {
      var h :| h in hrefs && LinkOf(parse, h, givenUrl) == Some(v);
      if parse(h).Some? {
        assert v == h;
      }
    }
  }
}
