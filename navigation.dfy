/** The path and anchor rules of `initAnchors` (script.js:130-177) and
    `initActiveMenu` (script.js:180-211): which page counts as the homepage,
    how in-page `#section` links are rewritten on other pages, which anchor
    clicks scroll to a section, and which navigation links are marked active. */
module Navigation {
  import opened Text
  import opened Wrappers

  /** `window.location.pathname` names the homepage: the root, or any path
      ending in `/index.html` (the test for `/index.html` itself is covered
      by the suffix test). */
  predicate IsHomepage(path: string): (b: bool)
    ensures b <==> path == "/" || EndsWith(path, "/index.html")
  {
    path == "/" || path == "/index.html" || EndsWith(path, "/index.html")
  }

  /** A link `initAnchors` rewrites off the homepage: one selected by
      `a[href^="#"]` that is not a bare `#` or `#!` and does not already
      start with `/#`. */
  predicate Rewritable(href: string) {
    StartsWith(href, "#") && href != "" && href != "#" && href != "#!" && !StartsWith(href, "/#")
  }

  /** The href a section link has after `initAnchors` ran on the page `path`:
      either unchanged or prefixed with `/`, and changed exactly off the
      homepage for `#` followed by at least one character other than `#!`. */
  function RewriteHref(path: string, href: string): (r: string)
    ensures r == href || r == "/" + href
    ensures r != href <==> !IsHomepage(path) && |href| >= 2 && href[0] == '#' && href != "#!"
  {
    if !IsHomepage(path) && Rewritable(href) then "/" + href else href
  }

  /** The `/#` test never fires: every selected link starts with `#`. */
  lemma RewritableIff(href: string)
    ensures Rewritable(href) <==> |href| >= 2 && href[0] == '#' && href != "#!"
  {
  }

  /** A rewritten link points at the same section of the homepage, and is
      left alone when the rule meets it again. */
  lemma RewriteIdempotent(path: string, href: string)
    ensures StartsWith(RewriteHref(path, href), "/#") || RewriteHref(path, href) == href
    ensures RewriteHref(path, RewriteHref(path, href)) == RewriteHref(path, href)
  {
    var r := RewriteHref(path, href);
    if r != href {
      assert r[0] == '/' && r[1] == '#';
      assert r[..2] == "/#";
    }
  }

  /** The loop over the selected links: off the homepage, each link that
      the rule admits gets `'/' + href`; on the homepage nothing changes. */
  method RewriteSectionLinks(path: string, hrefs: array<string>)
    modifies hrefs
    ensures forall i :: 0 <= i < hrefs.Length ==> hrefs[i] == RewriteHref(path, old(hrefs[i]))
  {
    if IsHomepage(path) {
      return;
    }
    var i := 0;
    while i < hrefs.Length
      invariant 0 <= i <= hrefs.Length
      invariant forall j :: 0 <= j < i ==> hrefs[j] == RewriteHref(path, old(hrefs[j]))
      invariant forall j :: i <= j < hrefs.Length ==> hrefs[j] == old(hrefs[j])
    {
      var href := hrefs[i];
      if StartsWith(href, "#") && href != "" && href != "#" && href != "#!" && !StartsWith(href, "/#") {
        hrefs[i] := "/" + href;
      }
      i := i + 1;
    }
  }

  /** The click handler's choice: the id of the section an anchor click
      scrolls to, or None when the href is missing, `#`, `#!` or not an
      in-page link (the browser then follows it). */
  function ScrollTarget(href: string): (r: Option<string>)
    ensures r.Some? <==> |href| >= 2 && href[0] == '#' && href != "#!"
    ensures r.Some? ==> href == "#" + r.value
  {
    if href == "" || href == "#" || href == "#!" then None
    else if StartsWith(href, "#") then Some(href[1..])
    else None
  }

  /** Off the homepage no `#` link scrolls the page: the rewrite turns each
      one that names a section into a link to the homepage. */
  lemma NoScrollOffHomepage(path: string, href: string)
    requires !IsHomepage(path) && StartsWith(href, "#")
    ensures ScrollTarget(RewriteHref(path, href)).None?
  {
  }

  /** The `replace` of script.js:198-199, read as its evident intent: one
      leading slash dropped. */
  function StripSlash(p: string): (r: string)
    ensures StartsWith(p, "/") ==> p == "/" + r
    ensures !StartsWith(p, "/") ==> r == p
  {
    if StartsWith(p, "/") then p[1..] else p
  }

  /** Whether the link to `linkPath` is marked active on the page
      `currentPath`. A link is always active on the page it names. */
  predicate IsActive(linkPath: string, currentPath: string): (b: bool)
    ensures linkPath == currentPath ==> b
  {
    if linkPath == "/" || linkPath == "/index.html" then IsHomepage(currentPath)
    else
      var link, current := StripSlash(linkPath), StripSlash(currentPath);
      current == link || StartsWith(current, link)
  }

  /** A root link is active exactly on the homepage; any other link exactly
      when the current path, without its leading slash, starts with the link
      path without its leading slash (equality is the empty-rest case). */
  lemma ActiveIff(linkPath: string, currentPath: string)
    ensures linkPath == "/" || linkPath == "/index.html" ==>
      (IsActive(linkPath, currentPath) <==> IsHomepage(currentPath))
    ensures linkPath != "/" && linkPath != "/index.html" ==>
      (IsActive(linkPath, currentPath) <==>
        exists rest :: StripSlash(currentPath) == StripSlash(linkPath) + rest)
  {
    if linkPath != "/" && linkPath != "/index.html" {
      var link, current := StripSlash(linkPath), StripSlash(currentPath);
      if StartsWith(current, link) {
        assert current == link + current[|link|..];
      }
      if exists rest :: current == link + rest {
        var rest :| current == link + rest;
        assert current[..|link|] == link;
      }
    }
  }

  /** The match is by prefix, not by path segment: a link to `/over` is also
      active on `/overzicht`, and a page link is active on its sub-pages. */
  lemma PrefixNotSegment()
    ensures IsActive("/over", "/overzicht")
    ensures IsActive("/diensten", "/diensten/advies")
    ensures !IsActive("/diensten", "/")
  {
    assert StripSlash("/overzicht")[..4] == "over";
    assert StripSlash("/diensten/advies")[..8] == "diensten";
  }

  /** The loop of `initActiveMenu`: every link with an href gets the verdict
      of `IsActive` (set as `aria-current` and the `active` class); a link
      without an href is skipped and keeps what it had. */
  method MarkActiveLinks(currentPath: string, hrefs: seq<string>, active: array<bool>)
    requires active.Length == |hrefs|
    modifies active
    ensures forall i :: 0 <= i < |hrefs| ==>
      active[i] == if hrefs[i] == "" then old(active[i]) else IsActive(hrefs[i], currentPath)
  {
    var i := 0;
    while i < |hrefs|
      invariant 0 <= i <= |hrefs|
      invariant forall j :: 0 <= j < i ==>
        active[j] == if hrefs[j] == "" then old(active[j]) else IsActive(hrefs[j], currentPath)
      invariant forall j :: i <= j < |hrefs| ==> active[j] == old(active[j])
    {
      var linkPath := hrefs[i];
      if linkPath != "" {
        var isActive := false;
        if linkPath == "/" || linkPath == "/index.html" {
          isActive := currentPath == "/" || currentPath == "/index.html" || EndsWith(currentPath, "/index.html");
        } else {
          var cleanLinkPath := StripSlash(linkPath);
          var cleanCurrentPath := StripSlash(currentPath);
          isActive := cleanCurrentPath == cleanLinkPath || StartsWith(cleanCurrentPath, cleanLinkPath);
        }
        active[i] := isActive;
      }
      i := i + 1;
    }
  }
}
