/**
 * The title and abstract search of app.py:112-128: each active query masks
 * the rows of `filtered_df` in turn, and an empty result stops the page with
 * a warning.
 */
module Filters {
  import opened Cells
  import opened Schema

  /** Boolean-mask indexing: the elements `keep` accepts, in their original order. */
  function Filter<T>(s: seq<T>, keep: T -> bool): (r: seq<T>)
    ensures |r| <= |s|
    ensures forall x | x in r :: x in s && keep(x)
  {
    if s == [] then []
    else (if keep(s[0]) then [s[0]] else []) + Filter(s[1..], keep)
  }

  /** `r` is `s` with some elements left out and the rest in their original order. */
  predicate IsSubsequence<T(==)>(r: seq<T>, s: seq<T>)
    decreases |s|
  {
    r == [] ||
    (s != [] && ((r[0] == s[0] && IsSubsequence(r[1..], s[1..])) || IsSubsequence(r, s[1..])))
  }

  /**
   * A mask keeps exactly the accepted elements: it is a subsequence of its
   * input, and each value occurs in it as often as in the input when
   * accepted and not at all otherwise.
   */
  lemma {:induction false} FilterExact<T>(s: seq<T>, keep: T -> bool)
    ensures IsSubsequence(Filter(s, keep), s)
    ensures forall x :: multiset(Filter(s, keep))[x] == if keep(x) then multiset(s)[x] else 0
  {
    if s != [] {
      FilterExact(s[1..], keep);
      var rest := Filter(s[1..], keep);
      assert s == [s[0]] + s[1..];
      if keep(s[0]) {
        assert Filter(s, keep) == [s[0]] + rest;
        assert (Filter(s, keep))[1..] == rest;
      } else {
        assert Filter(s, keep) == rest;
      }
    }
  }

  /** An element is kept exactly when it occurs in the input and is accepted. */
  lemma FilterMembership<T>(s: seq<T>, keep: T -> bool)
    ensures forall x :: x in Filter(s, keep) <==> x in s && keep(x)
  {
    FilterExact(s, keep);
    forall x | x in s && keep(x) ensures x in Filter(s, keep) {
      assert x in multiset(s);
    }
  }

  /** A mask that accepts every element keeps the input as it is. */
  lemma {:induction false} FilterKeepsAll<T>(s: seq<T>, keep: T -> bool)
    requires forall x | x in s :: keep(x)
    ensures Filter(s, keep) == s
  {
    if s != [] {
      FilterKeepsAll(s[1..], keep);
    }
  }

  /** Two masks in a row are one mask by the conjunction of their tests. */
  lemma {:induction false} FilterTwice<T>(s: seq<T>, first: T -> bool, second: T -> bool, both: T -> bool)
    requires forall x :: both(x) == (first(x) && second(x))
    ensures Filter(Filter(s, first), second) == Filter(s, both)
  {
    if s != [] {
      FilterTwice(s[1..], first, second, both);
      var rest := Filter(s[1..], first);
      if first(s[0]) {
        assert Filter(s, first) == [s[0]] + rest;
        assert (Filter(s, first))[1..] == rest;
        assert Filter(Filter(s, first), second)
            == (if second(s[0]) then [s[0]] else []) + Filter(rest, second);
      } else {
        assert Filter(s, first) == rest;
      }
    }
  }

  /** Masks by tests that agree on every element keep the same elements. */
  lemma {:induction false} FilterSameTest<T>(s: seq<T>, keep: T -> bool, same: T -> bool)
    requires forall x :: keep(x) == same(x)
    ensures Filter(s, keep) == Filter(s, same)
  {
    if s != [] {
      FilterSameTest(s[1..], keep, same);
    }
  }

  /**
   * Whether a paper survives both searches: an empty query tests nothing, an
   * active one needs a string cell containing it, case ignored.
   */
  function Admits(p: Paper, titleQuery: string, abstractQuery: string): (b: bool)
    ensures titleQuery == "" && abstractQuery == "" ==> b
    ensures b ==> (titleQuery == "" || p.title.Str?) && (abstractQuery == "" || p.abstractText.Str?)
  {
    (titleQuery == "" || ContainsIgnoringCase(p.title, titleQuery))
    && (abstractQuery == "" || ContainsIgnoringCase(p.abstractText, abstractQuery))
  }

  /** What the overview shows: no match (the warning and stop of app.py:126-128) or the matching papers. */
  datatype Listing = NoMatches | Matches(papers: seq<Paper>)

  /**
   * App.py:112-128: start from a copy of the table, mask by the title query
   * when it is set, then by the abstract query when it is set, and stop when
   * nothing is left. The result is one mask by both tests together.
   */
  method Search(papers: seq<Paper>, titleQuery: string, abstractQuery: string) returns (listing: Listing)
    ensures listing.NoMatches? <==> forall p | p in papers :: !Admits(p, titleQuery, abstractQuery)
    ensures listing.Matches? ==> listing.papers != []
    ensures listing.Matches? ==>
      listing.papers == Filter(papers, p => Admits(p, titleQuery, abstractQuery))
  {
    var filtered := papers;
    var byTitle := (p: Paper) => ContainsIgnoringCase(p.title, titleQuery);
    var byAbstract := (p: Paper) => ContainsIgnoringCase(p.abstractText, abstractQuery);
    var admits := (p: Paper) => Admits(p, titleQuery, abstractQuery);
    if titleQuery != "" {
      filtered := Filter(filtered, byTitle);
    }
    if abstractQuery != "" {
      filtered := Filter(filtered, byAbstract);
    }
    if titleQuery != "" && abstractQuery != "" {
      FilterTwice(papers, byTitle, byAbstract, admits);
    } else if titleQuery != "" {
      FilterSameTest(papers, byTitle, admits);
    } else if abstractQuery != "" {
      FilterSameTest(papers, byAbstract, admits);
    } else {
      FilterKeepsAll(papers, admits);
    }
    assert filtered == Filter(papers, admits);
    FilterMembership(papers, admits);
    if filtered != [] {
      assert filtered[0] in filtered;
    }
    if filtered == [] {
      listing := NoMatches;
    } else {
      listing := Matches(filtered);
    }
  }

  /**
   * The search result is exactly the admitted papers in table order; with
   * both queries empty it is the whole table, unchanged.
   */
  lemma SearchResult(papers: seq<Paper>, titleQuery: string, abstractQuery: string)
    ensures var r := Filter(papers, p => Admits(p, titleQuery, abstractQuery));
      && IsSubsequence(r, papers)
      && (forall p :: p in r <==> p in papers && Admits(p, titleQuery, abstractQuery))
      && (forall p :: multiset(r)[p] == if Admits(p, titleQuery, abstractQuery) then multiset(papers)[p] else 0)
      && (titleQuery == "" && abstractQuery == "" ==> r == papers)
  {
    var admits := (p: Paper) => Admits(p, titleQuery, abstractQuery);
    FilterExact(papers, admits);
    FilterMembership(papers, admits);
    if titleQuery == "" && abstractQuery == "" {
      FilterKeepsAll(papers, admits);
    }
  }

  /** A paper whose searched cell is not a string never survives an active query. */
  lemma NonTextNeverMatches(p: Paper, titleQuery: string, abstractQuery: string)
    requires (titleQuery != "" && !p.title.Str?) || (abstractQuery != "" && !p.abstractText.Str?)
    ensures !Admits(p, titleQuery, abstractQuery)
  {
  }
}
