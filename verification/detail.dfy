/**
 * The detail view and the Markdown export (app.py:148-189): the paper picked
 * by title from the search result, the links panel beside it, and the text of
 * `paper.md`.
 */
module Detail {
  import opened Wrappers
  import opened Text
  import opened Cells
  import opened Urls
  import opened Frames
  import opened Schema
  import opened Filters

  /** `filtered_df["title"].tolist()`: the options of the paper picker, in table order. */
  function Titles(papers: seq<Paper>): (t: seq<Cell>)
    ensures |t| == |papers|
    ensures forall i | 0 <= i < |papers| :: t[i] == papers[i].title
  {
    seq(|papers|, i requires 0 <= i < |papers| => papers[i].title)
  }

  /**
   * App.py:153 as written: the index of the first paper whose title compares
   * equal (`==`) to the picked title, or `None` where `.iloc[0]` raises
   * IndexError because no title compares equal.
   */
  function FirstMatchAsWritten(papers: seq<Paper>, picked: Cell): (r: Option<nat>)
    ensures r.None? <==> forall i | 0 <= i < |papers| :: !EqualsValue(papers[i].title, picked)
    ensures r.Some? ==> r.value < |papers| && EqualsValue(papers[r.value].title, picked)
    ensures r.Some? ==> forall j | 0 <= j < r.value :: !EqualsValue(papers[j].title, picked)
  {
    if papers == [] then None
    else if EqualsValue(papers[0].title, picked) then Some(0)
    else match FirstMatchAsWritten(papers[1..], picked)
      case None => None
      case Some(i) => Some(i + 1)
  }

  /**
   * A title NaN (an empty title field in the CSV file) is offered by the
   * picker but matches no row, so the page fails on it; for instance on a
   * one-paper table whose title is empty.
   */
  lemma PickedBlankTitleFindsNothing(papers: seq<Paper>, picked: Cell)
    requires picked in Titles(papers) && !picked.Str?
    ensures FirstMatchAsWritten(papers, picked).None?
  {
  }

  lemma PickedBlankTitleExample()
    ensures var papers := [Paper(NaN, Str("abstract"), Null, Null, Null)];
      NaN in Titles(papers) && FirstMatchAsWritten(papers, NaN).None?
  {
    var papers := [Paper(NaN, Str("abstract"), Null, Null, Null)];
    assert Titles(papers)[0] == NaN;
  }

  /**
   * The selection the detail view intends: the index of the first paper
   * whose title is the picked one, which exists because the picker only
   * offers titles of the search result.
   */
  function FirstWithTitle(papers: seq<Paper>, picked: Cell): (i: nat)
    requires picked in Titles(papers)
    ensures i < |papers| && papers[i].title == picked
    ensures forall j | 0 <= j < i :: papers[j].title != picked
  {
    if papers[0].title == picked then 0
    else
      assert picked in Titles(papers[1..]) by {
        var k :| 0 <= k < |papers| && Titles(papers)[k] == picked;
        assert k > 0 && Titles(papers[1..])[k - 1] == picked;
      }
      FirstWithTitle(papers[1..], picked) + 1
  }

  /** For every string title both selections pick the same paper. */
  lemma {:induction false} SelectionsAgreeOnText(papers: seq<Paper>, picked: Cell)
    requires picked in Titles(papers) && picked.Str?
    ensures FirstMatchAsWritten(papers, picked) == Some(FirstWithTitle(papers, picked))
  {
    var i := FirstWithTitle(papers, picked);
    var r := FirstMatchAsWritten(papers, picked);
    assert EqualsValue(papers[i].title, picked);
    assert r.Some?;
  }

  /** The paper the detail view and the export show for the picked title. */
  function Selected(papers: seq<Paper>, picked: Cell): (p: Paper)
    requires picked in Titles(papers)
    ensures p in papers && p.title == picked
  {
    papers[FirstWithTitle(papers, picked)]
  }

  /**
   * The detail shown after a search is a paper of the table that passes both
   * queries.
   */
  lemma SelectedPassesSearch(papers: seq<Paper>, titleQuery: string, abstractQuery: string, picked: Cell)
    requires var found := Filter(papers, p => Admits(p, titleQuery, abstractQuery));
      picked in Titles(found)
    ensures var p := Selected(Filter(papers, p => Admits(p, titleQuery, abstractQuery)), picked);
      p in papers && Admits(p, titleQuery, abstractQuery) && p.title == picked
  {
  }

  /** The links panel: each of its three entries shown (with its target) or left out. */
  datatype Panel = Panel(paperPdf: Option<string>, supplementalPdf: Option<string>, arxiv: Option<string>)

  /**
   * App.py:163-172: the paper and supplemental links when their cell is
   * truthy, the arXiv link when it is a string starting with "http"; no
   * shown entry has an empty target.
   */
  function LinksPanel(p: Paper): (panel: Panel)
    ensures panel.paperPdf.Some? <==> Truthy(p.paperPdfUrl)
    ensures panel.supplementalPdf.Some? <==> Truthy(p.supplementalPdfUrl)
    ensures panel.arxiv.Some? <==> p.arxivUrl.Str? && StartsWith(p.arxivUrl.s, AbsolutePrefix)
    ensures panel.paperPdf.Some? ==> panel.paperPdf.value == Format(p.paperPdfUrl) != ""
    ensures panel.supplementalPdf.Some? ==>
      panel.supplementalPdf.value == Format(p.supplementalPdfUrl) != ""
    ensures panel.arxiv.Some? ==> panel.arxiv.value == p.arxivUrl.s != ""
  {
    var arxiv := p.arxivUrl;
    Panel(
      if Truthy(p.paperPdfUrl) then Some(Format(p.paperPdfUrl)) else None,
      if Truthy(p.supplementalPdfUrl) then Some(Format(p.supplementalPdfUrl)) else None,
      if arxiv.Str? && StartsWith(arxiv.s, AbsolutePrefix) then Some(arxiv.s) else None)
  }

  /**
   * For a prepared row the panel shows the paper and supplemental links
   * exactly when `resolve_url` gave a link, and then that link.
   */
  lemma PanelShowsResolvedLinks(row: Row, baseUrl: string)
    requires Required <= row.Keys
    ensures Readable(PreparedRow(row, baseUrl))
    ensures var panel := LinksPanel(ToPaper(PreparedRow(row, baseUrl)));
      && panel.paperPdf == ResolveUrl(Str(baseUrl), row[PaperPdf])
      && panel.supplementalPdf == ResolveUrl(Str(baseUrl), row[SupplementalPdf])
  {
    PreparedPaper(row, baseUrl);
  }

  /** `paper['arxiv_url'] if paper['arxiv_url'] else 'N/A'`, as printed. */
  function ArxivText(c: Cell): (t: string)
    ensures t == "N/A" <==> !Truthy(c) || c == Str("N/A")
    ensures Truthy(c) ==> t == Format(c)
  {
    if Truthy(c) then Format(c) else "N/A"
  }

  /** Each line ended by a line break, concatenated, and then `end`. */
  function Joined(lines: seq<string>, end: string): string {
    if lines == [] then end else lines[0] + "\n" + Joined(lines[1..], end)
  }

  /** Joined lines with nothing after them end with a line break. */
  lemma {:induction false} JoinedEndsWithBreak(lines: seq<string>)
    requires lines != []
    ensures var text := Joined(lines, ""); |text| > 0 && text[|text| - 1] == '\n'
  {
    if lines[1..] != [] {
      JoinedEndsWithBreak(lines[1..]);
    }
  }

  /** Joining two runs of lines is joining the first in front of the joined second. */
  lemma {:induction false} JoinedAppend(a: seq<string>, b: seq<string>, end: string)
    ensures Joined(a + b, end) == Joined(a, Joined(b, end))
  {
    if a != [] {
      JoinedAppend(a[1..], b, end);
      assert (a + b)[1..] == a[1..] + b;
    } else {
      assert a + b == b;
    }
  }

  /** Single-line strings joined in front of a text split off as its first lines. */
  lemma {:induction false} LinesOfJoined(lines: seq<string>, end: string)
    requires forall k | 0 <= k < |lines| :: OneLine(lines[k])
    ensures Lines(Joined(lines, end)) == lines + Lines(end)
  {
    if lines != [] {
      var tail := lines[1..];
      LinesOfJoined(tail, end);
      LinesCons(lines[0], Joined(tail, end));
      assert lines == [lines[0]] + tail;
    }
  }

  /**
   * Splitting single-line strings joined around one text gives them back
   * with the lines of that text in its place.
   */
  lemma LinesAround(before: seq<string>, middle: string, after: seq<string>)
    requires forall k | 0 <= k < |before| :: OneLine(before[k])
    requires forall k | 0 <= k < |after| :: OneLine(after[k])
    ensures Lines(Joined(before + ([middle] + after), "")) == before + (Lines(middle) + (after + [""]))
  {
    var rest := Joined(after, "");
    JoinedAppend(before, [middle] + after, "");
    assert ([middle] + after)[1..] == after;
    assert Joined([middle] + after, "") == middle + "\n" + rest;
    LinesOfJoined(before, middle + "\n" + rest);
    LinesAppend(middle, rest);
    LinesOfJoined(after, "");
  }

  /** The template's lines above the abstract. */
  function ExportHead(p: Paper): seq<string> {
    ["# " + Format(p.title), "", "## Abstract"]
  }

  /** The template's lines below the abstract. */
  function ExportLinks(p: Paper): seq<string> {
    ["", "## Links",
     "- Paper PDF: " + Format(p.paperPdfUrl),
     "- Supplemental PDF: " + Format(p.supplementalPdfUrl),
     "- arXiv: " + ArxivText(p.arxivUrl)]
  }

  /** The nine lines of the export template of app.py:180-189. */
  function ExportLines(p: Paper): (lines: seq<string>)
    ensures |lines| == 9
    ensures lines[8] == "- arXiv: N/A" <==> !Truthy(p.arxivUrl) || p.arxivUrl == Str("N/A")
  {
    var arxiv := ArxivText(p.arxivUrl);
    assert "- arXiv: " + arxiv == "- arXiv: N/A" ==> arxiv == ("- arXiv: " + arxiv)[9..];
    ExportHead(p) + ([Format(p.abstractText)] + ExportLinks(p))
  }

  /** `md_text`: the Markdown offered for download as `paper.md`, a heading first and a line break last. */
  function Export(p: Paper): (md: string)
    ensures StartsWith(md, "# " + Format(p.title) + "\n")
    ensures md[|md| - 1] == '\n'
  {
    var lines := ExportLines(p);
    JoinedEndsWithBreak(lines);
    Joined(lines, "")
  }

  /**
   * Read line by line, the export is the heading `# <title>`, a blank line,
   * `## Abstract`, the lines of the abstract (a CSV field may hold several),
   * a blank line, `## Links`, and the paper, supplemental and arXiv lines,
   * followed by the empty text after the final break. An abstract of one
   * line makes ten lines in all.
   */
  lemma ExportShape(p: Paper)
    requires OneLine(Format(p.title)) && OneLine(Format(p.paperPdfUrl))
    requires OneLine(Format(p.supplementalPdfUrl)) && OneLine(Format(p.arxivUrl))
    ensures Lines(Export(p))
      == ["# " + Format(p.title), "", "## Abstract"]
       + (Lines(Format(p.abstractText))
       + (["", "## Links",
           "- Paper PDF: " + Format(p.paperPdfUrl),
           "- Supplemental PDF: " + Format(p.supplementalPdfUrl),
           "- arXiv: " + ArxivText(p.arxivUrl)] + [""]))
    ensures OneLine(Format(p.abstractText)) ==> |Lines(Export(p))| == 10
  {
    var head, links := ExportHead(p), ExportLinks(p);
    assert OneLine(ArxivText(p.arxivUrl));
    LinesAround(head, Format(p.abstractText), links);
    if OneLine(Format(p.abstractText)) {
      LinesSingle(Format(p.abstractText));
    }
  }

  /**
   * The stages composed: after a search over the prepared table, the paper
   * shown for a picked title is the prepared form of one loaded row that
   * passes both queries, and its panel links are `resolve_url` of that row's
   * PDF cells.
   */
  lemma ShownPaperFromTable(rows: seq<Row>, baseUrl: string, titleQuery: string, abstractQuery: string, picked: Cell)
    requires forall i | 0 <= i < |rows| :: Required <= rows[i].Keys
    requires picked in Titles(Filter(Papers(PreparedRows(rows, baseUrl)),
                                     p => Admits(p, titleQuery, abstractQuery)))
    ensures var p := Selected(Filter(Papers(PreparedRows(rows, baseUrl)),
                                     p => Admits(p, titleQuery, abstractQuery)), picked);
      && Admits(p, titleQuery, abstractQuery) && p.title == picked
      && exists i | 0 <= i < |rows| ::
           && p == ToPaper(PreparedRow(rows[i], baseUrl))
           && LinksPanel(p).paperPdf == ResolveUrl(Str(baseUrl), rows[i][PaperPdf])
           && LinksPanel(p).supplementalPdf == ResolveUrl(Str(baseUrl), rows[i][SupplementalPdf])
  {
    var papers := Papers(PreparedRows(rows, baseUrl));
    var p := Selected(Filter(papers, p => Admits(p, titleQuery, abstractQuery)), picked);
    SelectedPassesSearch(papers, titleQuery, abstractQuery, picked);
    var i :| 0 <= i < |papers| && papers[i] == p;
    PanelShowsResolvedLinks(rows[i], baseUrl);
  }
}
