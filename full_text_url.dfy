/** Finding the full-text page of a Justice Laws index page
    (`resolve_justice_laws_fulltext_url`), and the tests on the source URL
    that `parse_by_jurisdiction` makes before resolving. */
module FullTextUrl {
  import opened Wrappers
  import opened Strings

  // ---------------------------------------------------------------------
  // Which links name the full text
  // ---------------------------------------------------------------------

  /** The href names a full-text page: the case-sensitive search for
      `(TexteComplet|textecomplet|FullText)\.html` finds it. */
  predicate IsFullTextLink(href: string)
    ensures IsFullTextLink(href) ==> IsFullTextUrl(href)
  {
    KeyLowered(href, "textecomplet.html", "textecomplet.html");
    Contains(href, "TexteComplet.html") || Contains(href, "textecomplet.html") || Contains(href, "FullText.html")
  }

  /** The hrefs of the page's links that name a full-text page, in document
      order (the `candidates` list); the first of them is the first such
      link of the page. */
  function FullTextLinks(links: seq<string>): (r: seq<string>)
    ensures |r| <= |links|
    ensures forall h :: h in r <==> h in links && IsFullTextLink(h)
    ensures r != [] ==> exists i :: 0 <= i < |links| && links[i] == r[0] && IsFullTextLink(links[i])
                                    && forall j :: 0 <= j < i ==> !IsFullTextLink(links[j])
  {
    if links == [] then []
    else
      var init, last := links[..|links| - 1], links[|links| - 1];
      assert links == init + [last];
      FullTextLinks(init) + if IsFullTextLink(last) then [last] else []
  }

  // ---------------------------------------------------------------------
  // The authority part of a URL, as `urlparse(url).netloc` reads it
  // ---------------------------------------------------------------------

  /** The characters `urlsplit` strips from the left of a URL: the C0
      controls and the space. */
  predicate IsC0OrSpace(c: char) {
    c <= ' '
  }

  /** The characters `urlsplit` deletes anywhere in a URL. */
  predicate IsUnsafeUrlChar(c: char) {
    c == '\t' || c == '\r' || c == '\n'
  }

  /** The characters a URL scheme is made of. */
  predicate IsSchemeChar(c: char) {
    IsAsciiLetter(c) || IsDigit(c) || c == '+' || c == '-' || c == '.'
  }

  /** The characters that end the authority part. */
  predicate EndsAuthority(c: char) {
    c == '/' || c == '?' || c == '#'
  }

  predicate InAuthority(c: char) {
    !EndsAuthority(c)
  }

  /** The URL once its leading controls and spaces are stripped and its
      tabs and line breaks deleted. */
  function CleanUrl(url: string): (u: string)
    ensures forall c :: c in u ==> !IsUnsafeUrlChar(c)
  {
    RemoveMembers(url[RunLength(url, 0, IsC0OrSpace)..], IsUnsafeUrlChar);
    Remove(url[RunLength(url, 0, IsC0OrSpace)..], IsUnsafeUrlChar)
  }

  /** What follows the scheme: the text before the first `:` is a scheme
      when it is not empty, starts with an ASCII letter and is made of
      scheme characters only; then it and the `:` are cut off. */
  function AfterScheme(u: string): (rest: string)
    ensures rest == u || (exists n :: 0 < n < |u| && u[n] == ':' && rest == u[n + 1..])
  {
    var n := RunLength(u, 0, IsSchemeChar);
    if 0 < n < |u| && u[n] == ':' && IsAsciiLetter(u[0]) then u[n + 1..] else u
  }

  /** `urlparse(url).netloc`: after the scheme, when the rest starts with
      `//`, everything up to the first `/`, `?` or `#`; otherwise empty. */
  function Netloc(url: string): (r: string)
    ensures forall c :: c in r ==> !EndsAuthority(c) && !IsUnsafeUrlChar(c)
  {
    var u := AfterScheme(CleanUrl(url));
    if StartsWith(u, "//") then u[2..2 + RunLength(u, 2, InAuthority)] else []
  }

  /** A URL that starts with a visible character and holds no tab or line
      break is already clean. */
  lemma CleanUrlOfClean(url: string)
    requires url != [] && !IsC0OrSpace(url[0])
    requires forall c :: c in url ==> !IsUnsafeUrlChar(c)
    ensures CleanUrl(url) == url
  {
    assert RunLength(url, 0, IsC0OrSpace) == 0;
    assert url[0..] == url;
    RemoveMembers(url, IsUnsafeUrlChar);
  }

  /** The authority part of an `https` URL is its host: the text between
      `https://` and the path, query or fragment. */
  lemma NetlocOfHttps(host: string, rest: string)
    requires forall c :: c in host ==> InAuthority(c) && !IsUnsafeUrlChar(c)
    requires forall c :: c in rest ==> !IsUnsafeUrlChar(c)
    requires rest == [] || EndsAuthority(rest[0])
    ensures Netloc("https://" + host + rest) == host
  {
    var url := "https://" + host + rest;
    forall c | c in url
      ensures !IsUnsafeUrlChar(c)
    {
      assert c in "https://" || c in host || c in rest;
    }
    CleanUrlOfClean(url);
    SchemeOfHttps(url);
    var u := url[6..];
    assert u == "//" + host + rest;
    AuthorityRun(u, host, rest);
  }

  /** An `https:` URL loses exactly its scheme and colon. */
  lemma SchemeOfHttps(url: string)
    requires StartsWith(url, "https:")
    ensures AfterScheme(url) == url[6..]
  {
    assert url[5] == ':';
    assert forall k :: 0 <= k < 5 ==> IsSchemeChar(url[k]);
    RunLengthIs(url, 0, IsSchemeChar, 5);
  }

  /** After `//`, the authority part runs to the end of the host. */
  lemma AuthorityRun(u: string, host: string, rest: string)
    requires u == "//" + host + rest
    requires forall c :: c in host ==> InAuthority(c)
    requires rest == [] || EndsAuthority(rest[0])
    ensures StartsWith(u, "//") && RunLength(u, 2, InAuthority) == |host| && u[2..2 + |host|] == host
  {
    forall k | 2 <= k < 2 + |host|
      ensures InAuthority(u[k])
    {
      assert u[k] == host[k - 2];
    }
    RunLengthIs(u, 2, InAuthority, |host|);
    assert u[2..2 + |host|] == host;
  }

  /** A run is as long as its first character that breaks it says. */
  lemma RunLengthIs(s: string, i: nat, p: char -> bool, n: nat)
    requires i + n <= |s|
    requires forall k :: i <= k < i + n ==> p(s[k])
    requires i + n == |s| || !p(s[i + n])
    ensures RunLength(s, i, p) == n
    decreases n
  {
    if n > 0 {
      RunLengthIs(s, i + 1, p, n - 1);
    }
  }

  // ---------------------------------------------------------------------
  // Resolving the full-text URL
  // ---------------------------------------------------------------------

  /** The absolute URL of `href` read on the page at `current`: an href
      starting with `http` is already absolute; a root-relative one is put
      after `https://` and the page's authority part; any other one after
      the page URL with its trailing slashes removed and one slash. */
  function Absolutize(href: string, current: string): (r: string)
    ensures EndsWith(r, href)
    ensures StartsWith(href, "http") ==> r == href
    ensures !StartsWith(href, "http") && StartsWith(href, "/") ==> r == "https://" + Netloc(current) + href
    ensures !StartsWith(href, "http") && !StartsWith(href, "/") ==>
              exists base :: r == base + "/" + href && base == TrimEnd(current, c => c == '/')
  {
    if StartsWith(href, "http") then href
    else if StartsWith(href, "/") then "https://" + Netloc(current) + href
    else
      var base := TrimEnd(current, c => c == '/');
      base + "/" + href
  }

  /** What `resolve_justice_laws_fulltext_url` returns for a page whose
      links are `links`: nothing when no link names the full text, else the
      first such link made absolute. */
  function ResolvedUrl(links: seq<string>, current: string): (r: Option<string>)
    ensures r.Some? ==> r.value != [] && IsFullTextUrl(r.value) && !NeedsResolve(r.value)
  {
    var cands := FullTextLinks(links);
    if cands == [] then None
    else
      assert cands[0] in cands;
      EndsWithFullTextLink(Absolutize(cands[0], current), cands[0]);
      Some(Absolutize(cands[0], current))
  }

  /** The resolver finds the first full-text link of the page, and only
      such a link: it returns nothing exactly when the page has none. */
  lemma ResolvedUrlSpec(links: seq<string>, current: string)
    ensures var r := ResolvedUrl(links, current);
            && (r.None? <==> forall i :: 0 <= i < |links| ==> !IsFullTextLink(links[i]))
            && (r.Some? ==> exists i :: 0 <= i < |links| && IsFullTextLink(links[i])
                                        && (forall j :: 0 <= j < i ==> !IsFullTextLink(links[j]))
                                        && r.value == Absolutize(links[i], current))
  {
    if ResolvedUrl(links, current).None? {
      forall i | 0 <= i < |links|
        ensures !IsFullTextLink(links[i])
      {
        assert links[i] in links;
      }
    }
  }

  /** `resolve_justice_laws_fulltext_url`, on the hrefs of the index page's
      links: collect the full-text links, then make the first absolute. */
  method ResolveFullTextUrl(links: seq<string>, current: string) returns (r: Option<string>)
    ensures r == ResolvedUrl(links, current)
  {
    var candidates: seq<string> := [];
    for i := 0 to |links|
      invariant candidates == FullTextLinks(links[..i])
    {
      assert links[..i + 1][..i] == links[..i];
      if IsFullTextLink(links[i]) {
        candidates := candidates + [links[i]];
      }
    }
    assert links[..|links|] == links;
    if candidates == [] {
      return None;
    }
    var href := candidates[0];
    if StartsWith(href, "http") {
      return Some(href);
    }
    if StartsWith(href, "/") {
      return Some("https://" + Netloc(current) + href);
    }
    var base := TrimEnd(current, c => c == '/');
    return Some(base + "/" + href);
  }

  // ---------------------------------------------------------------------
  // The dispatcher's tests on the source URL
  // ---------------------------------------------------------------------

  /** The URL's lower-cased authority part contains the Justice Laws host. */
  predicate IsJusticeLawsUrl(url: string)
    ensures IsJusticeLawsUrl(url) ==>
              StartsWith(AfterScheme(CleanUrl(url)), "//") && |Netloc(url)| >= |"laws-lois.justice.gc.ca"|
  {
    ContainsAt(Lower(Netloc(url)), "laws-lois.justice.gc.ca");
    Contains(Lower(Netloc(url)), "laws-lois.justice.gc.ca")
  }

  /** The lower-cased URL already names a full-text page or one page of it
      (`is_full`). */
  predicate IsFullTextUrl(url: string)
    ensures Contains(url, "TexteComplet.html") || Contains(url, "FullText.html") ==> IsFullTextUrl(url)
  {
    KeyLowered(url, "TexteComplet.html", "textecomplet.html");
    KeyLowered(url, "FullText.html", "fulltext.html");
    var low := Lower(url);
    Contains(low, "textecomplet.html") || Contains(low, "fulltext.html") || Contains(low, "page-")
  }

  /** The dispatcher resolves an index page only on the Justice Laws host
      and only when the URL is not already a full-text one. */
  predicate NeedsResolve(url: string)
    ensures NeedsResolve(url) ==> !IsFullTextLink(url) && StartsWith(AfterScheme(CleanUrl(url)), "//")
  {
    IsJusticeLawsUrl(url) && !IsFullTextUrl(url)
  }

  /** A key found in a URL is found, lower-cased, in the URL lower-cased. */
  lemma KeyLowered(url: string, key: string, low: string)
    requires Lower(key) == low
    ensures Contains(url, key) ==> Contains(Lower(url), low)
  {
    if Contains(url, key) {
      ContainsLower(url, key);
    }
  }

  /** A URL that ends with a full-text link is a non-empty full-text URL. */
  lemma EndsWithFullTextLink(r: string, href: string)
    requires EndsWith(r, href) && IsFullTextLink(href)
    ensures r != [] && IsFullTextUrl(r)
  {
    if Contains(href, "TexteComplet.html") {
      KeyInUrl(r, href, "TexteComplet.html", "textecomplet.html");
    } else if Contains(href, "textecomplet.html") {
      KeyInUrl(r, href, "textecomplet.html", "textecomplet.html");
    } else {
      KeyInUrl(r, href, "FullText.html", "fulltext.html");
    }
  }

  /** A key the href contains is in the lower-cased URL, lower-cased. */
  lemma KeyInUrl(r: string, href: string, key: string, low: string)
    requires EndsWith(r, href) && Contains(href, key)
    requires Lower(key) == low && low != []
    ensures r != [] && Contains(Lower(r), low)
  {
    ContainsInSuffix(r, href, key);
    ContainsLower(r, key);
    ContainsAt(Lower(r), low);
  }
}
