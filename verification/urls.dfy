/**
 * `resolve_url` (app.py:27-34): turns the `paper_pdf` or `supplemental_pdf`
 * cell of a row into the link the page shows, given the base URL typed in
 * the sidebar.
 */
module Urls {
  import opened Wrappers
  import opened Text
  import opened Cells

  /** The prefix that marks a path as already absolute. */
  const AbsolutePrefix: string := "http"

  /**
   * `urljoin(base, ref)` for a base that ends in "/" and a reference with no
   * leading "/": the reference is appended to the base.
   */
  function Join(base: string, ref: string): string {
    base + ref
  }

  /**
   * `resolve_url(base, path)`: `None` for a missing or blank path; an
   * absolute path unchanged; otherwise the path joined onto a non-blank
   * string base with exactly one "/" between them, or the path unchanged
   * when there is no usable base.
   */
  function ResolveUrl(base: Cell, path: Cell): (r: Option<string>)
    ensures r.None? <==> !path.Str? || IsBlank(path.s)
    ensures r.Some? ==> !IsBlank(r.value)
    ensures r.Some? && StartsWith(path.s, AbsolutePrefix) ==> r.value == path.s
    ensures r.Some? && (!base.Str? || IsBlank(base.s)) ==> r.value == path.s
    ensures r.Some? && !StartsWith(path.s, AbsolutePrefix) && base.Str? && !IsBlank(base.s) ==>
      r.value == Join(RStrip(base.s, IsSlash) + "/", LStrip(path.s, IsSlash))
  {
    if !path.Str? || IsBlank(path.s) then None
    else if StartsWith(path.s, AbsolutePrefix) then Some(path.s)
    else if base.Str? && !IsBlank(base.s) then
      var head := RStrip(base.s, IsSlash) + "/";
      var joined := Join(head, LStrip(path.s, IsSlash));
      assert joined[|head| - 1] == '/';
      Some(joined)
    else Some(path.s)
  }

  /** `n` slashes. */
  function Slashes(n: nat): (r: string)
    ensures |r| == n && forall i | 0 <= i < n :: IsSlash(r[i])
  {
    seq(n, _ => '/')
  }

  /** `rstrip("/")` removes exactly the trailing slashes after a site that does not end in one. */
  lemma RStripSlashes(site: string, k: nat)
    requires site != [] && !IsSlash(site[|site| - 1])
    ensures RStrip(site + Slashes(k), IsSlash) == site
  {
    var s := site + Slashes(k);
    var r := RStrip(s, IsSlash);
    assert r == s[..|site|] == site;
  }

  /** `lstrip("/")` removes exactly the leading slashes before a path that does not start with one. */
  lemma LStripSlashes(m: nat, rel: string)
    requires rel != [] && !IsSlash(rel[0])
    ensures LStrip(Slashes(m) + rel, IsSlash) == rel
  {
    var s := Slashes(m) + rel;
    var r := LStrip(s, IsSlash);
    assert r == s[m..] == rel;
  }

  /** A usable base and a relative path are joined with exactly one "/" between them. */
  lemma ResolveJoins(base: string, path: string)
    requires !IsBlank(base) && !IsBlank(path) && !StartsWith(path, AbsolutePrefix)
    ensures ResolveUrl(Str(base), Str(path)) == Some(RStrip(base, IsSlash) + "/" + LStrip(path, IsSlash))
  {
  }

  /** Slashes after a non-blank text leave it non-blank. */
  lemma NotBlankWithSlashes(site: string, k: nat)
    requires !IsBlank(site)
    ensures !IsBlank(site + Slashes(k))
  {
    var i :| 0 <= i < |site| && !IsSpace(site[i]);
    assert (site + Slashes(k))[i] == site[i];
  }

  /** Slashes before a non-blank text leave it non-blank. */
  lemma NotBlankAfterSlashes(m: nat, rel: string)
    requires !IsBlank(rel)
    ensures !IsBlank(Slashes(m) + rel)
  {
    var i :| 0 <= i < |rel| && !IsSpace(rel[i]);
    assert (Slashes(m) + rel)[m + i] == rel[i];
  }

  /** A path that starts with "/" does not start with "http". */
  lemma SlashedNotAbsolute(m: nat, rel: string)
    requires m > 0 || !StartsWith(rel, AbsolutePrefix)
    ensures !StartsWith(Slashes(m) + rel, AbsolutePrefix)
  {
    var path := Slashes(m) + rel;
    if m > 0 {
      assert path[0] == '/';
    } else {
      assert path == rel;
    }
  }

  /**
   * Slash normalisation: however many "/" end the base and however many
   * start the path, the result has exactly one "/" between them. A path with
   * a leading "/" is joined even when the rest starts with "http"
   * (`"/httpdocs/a.pdf"`), since only the path as given is compared with "http".
   */
  lemma ResolveNormalisesSlashes(site: string, k: nat, m: nat, rel: string)
    requires !IsBlank(site) && !IsSlash(site[|site| - 1])
    requires !IsBlank(rel) && !IsSlash(rel[0]) && (m > 0 || !StartsWith(rel, AbsolutePrefix))
    ensures ResolveUrl(Str(site + Slashes(k)), Str(Slashes(m) + rel)) == Some(site + "/" + rel)
  {
    NotBlankWithSlashes(site, k);
    NotBlankAfterSlashes(m, rel);
    SlashedNotAbsolute(m, rel);
    ResolveJoins(site + Slashes(k), Slashes(m) + rel);
    RStripSlashes(site, k);
    LStripSlashes(m, rel);
  }

  /**
   * The base's trailing "/" and the path's leading "/" are interchangeable:
   * `("https://a.com/", "b/c")` and `("https://a.com", "/b/c")` give the same link.
   */
  lemma ResolveSlashEitherSide(site: string, rel: string)
    requires !IsBlank(site) && !IsSlash(site[|site| - 1])
    requires !IsBlank(rel) && !IsSlash(rel[0])
    ensures !StartsWith(rel, AbsolutePrefix) ==>
      ResolveUrl(Str(site + "/"), Str(rel)) == Some(site + "/" + rel)
    ensures ResolveUrl(Str(site), Str("/" + rel)) == Some(site + "/" + rel)
  {
    assert Slashes(0) == "" && Slashes(1) == "/";
    assert site + "" == site && "" + rel == rel;
    if !StartsWith(rel, AbsolutePrefix) {
      ResolveNormalisesSlashes(site, 1, 0, rel);
    }
    ResolveNormalisesSlashes(site, 0, 1, rel);
  }
}
