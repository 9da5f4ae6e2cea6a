/**
 * Column validation and the derived link columns (app.py:77-102), and the
 * paper record the later stages read from a prepared row.
 */
module Schema {
  import opened Wrappers
  import opened Cells
  import opened Urls
  import opened Frames

  const Title := "title"
  const Abstract := "abstract"
  const PaperPdf := "paper_pdf"
  const SupplementalPdf := "supplemental_pdf"
  const ArxivUrl := "arxiv_url"
  const PaperPdfUrl := "paper_pdf_url"
  const SupplementalPdfUrl := "supplemental_pdf_url"

  /** The columns the page cannot work without. */
  const Required: set<string> := {Title, Abstract, PaperPdf, SupplementalPdf}

  /** The columns a prepared table has on top of the loaded ones. */
  const Derived: set<string> := {ArxivUrl, PaperPdfUrl, SupplementalPdfUrl}

  /** Outcome of validation: halt naming the missing columns, or go on. */
  datatype Status = MissingColumns(missing: set<string>) | Ready

  /** The check of app.py:84-87 on the loaded table's column set. */
  function Validate(columns: set<string>): (s: Status)
    ensures s.Ready? <==> Required <= columns
    ensures s.MissingColumns? ==> s.missing != {}
    ensures s.MissingColumns? ==>
      forall c :: c in s.missing <==> c in Required && c !in columns
  {
    var missing := Required - columns;
    if missing != {} then
      assert !(Required <= columns) by {
        var c :| c in missing;
      }
      MissingColumns(missing)
    else
      assert Required <= columns by {
        forall c | c in Required ensures c in columns {
          assert c !in missing;
        }
      }
      Ready
  }

  /** How `Series.apply` stores `resolve_url`'s result: `None` stays `None`. */
  function ToCell(link: Option<string>): (c: Cell)
    ensures c.Null? <==> link.None?
    ensures link.Some? ==> c == Str(link.value)
  {
    match link
    case None => Null
    case Some(s) => Str(s)
  }

  /** `column.apply(lambda p: resolve_url(base_url, p))`. */
  function ResolveColumn(column: seq<Cell>, baseUrl: string): (r: seq<Cell>)
    ensures |r| == |column|
    ensures forall i | 0 <= i < |column| :: r[i] == ToCell(ResolveUrl(Str(baseUrl), column[i]))
  {
    seq(|column|, i requires 0 <= i < |column| => ToCell(ResolveUrl(Str(baseUrl), column[i])))
  }

  /**
   * One row after app.py:90-102: `arxiv_url` added as `None` when the table
   * lacks it, both link columns set from `resolve_url`, everything else as
   * loaded.
   */
  function PreparedRow(row: Row, baseUrl: string): (r: Row)
    requires Required <= row.Keys
    ensures r.Keys == row.Keys + Derived
    ensures forall c | c in row && c != PaperPdfUrl && c != SupplementalPdfUrl :: r[c] == row[c]
    ensures ArxivUrl !in row ==> r[ArxivUrl] == Null
    ensures r[PaperPdfUrl] == ToCell(ResolveUrl(Str(baseUrl), row[PaperPdf]))
    ensures r[SupplementalPdfUrl] == ToCell(ResolveUrl(Str(baseUrl), row[SupplementalPdf]))
  {
    var withArxiv := if ArxivUrl in row then row else row[ArxivUrl := Null];
    withArxiv[PaperPdfUrl := ToCell(ResolveUrl(Str(baseUrl), row[PaperPdf]))]
             [SupplementalPdfUrl := ToCell(ResolveUrl(Str(baseUrl), row[SupplementalPdf]))]
  }

  /** Every row of the table after app.py:90-102. */
  function PreparedRows(rows: seq<Row>, baseUrl: string): (r: seq<Row>)
    requires forall i | 0 <= i < |rows| :: Required <= rows[i].Keys
    ensures |r| == |rows|
    ensures forall i | 0 <= i < |rows| :: r[i] == PreparedRow(rows[i], baseUrl)
    ensures forall i | 0 <= i < |rows| :: Readable(r[i])
  {
    seq(|rows|, i requires 0 <= i < |rows| => PreparedRow(rows[i], baseUrl))
  }

  /**
   * App.py:84-102 on `df` in place: halt with the missing required columns
   * and leave `df` as it is, or add the optional and derived columns.
   */
  method Prepare(df: DataFrame, baseUrl: string) returns (status: Status)
    requires df.Valid()
    modifies df
    ensures df.Valid()
    ensures status == Validate(old(df.columns))
    ensures status.MissingColumns? ==> df.columns == old(df.columns) && df.rows == old(df.rows)
    ensures status.Ready? ==> df.columns == old(df.columns) + Derived
    ensures status.Ready? ==> df.rows == PreparedRows(old(df.rows), baseUrl)
  {
    status := Validate(df.columns);
    if status.MissingColumns? {
      return;
    }
    if ArxivUrl !in df.columns {
      df.SetColumn(ArxivUrl, seq(|df.rows|, _ => Null));
    }
    df.SetColumn(PaperPdfUrl, ResolveColumn(df.Column(PaperPdf), baseUrl));
    df.SetColumn(SupplementalPdfUrl, ResolveColumn(df.Column(SupplementalPdf), baseUrl));
  }

  /** The record the filter, the detail view and the export read from a prepared row. */
  datatype Paper = Paper(title: Cell, abstractText: Cell, paperPdfUrl: Cell, supplementalPdfUrl: Cell, arxivUrl: Cell)

  /** The columns a prepared row is read through. */
  predicate Readable(row: Row) {
    {Title, Abstract, PaperPdfUrl, SupplementalPdfUrl, ArxivUrl} <= row.Keys
  }

  function ToPaper(row: Row): Paper
    requires Readable(row)
  {
    Paper(row[Title], row[Abstract], row[PaperPdfUrl], row[SupplementalPdfUrl], row[ArxivUrl])
  }

  /** The rows of a prepared table, read as papers in table order. */
  function Papers(rows: seq<Row>): (papers: seq<Paper>)
    requires forall i | 0 <= i < |rows| :: Readable(rows[i])
    ensures |papers| == |rows|
    ensures forall i | 0 <= i < |rows| :: papers[i] == ToPaper(rows[i])
  {
    seq(|rows|, i requires 0 <= i < |rows| => ToPaper(rows[i]))
  }

  /**
   * The paper read from a prepared row carries the row's title, abstract and
   * arXiv cell, and link cells that are `None` exactly when `resolve_url`
   * gave `None` and otherwise a non-empty string.
   */
  lemma PreparedPaper(row: Row, baseUrl: string)
    requires Required <= row.Keys
    ensures Readable(PreparedRow(row, baseUrl))
    ensures var p := ToPaper(PreparedRow(row, baseUrl));
      && p.title == row[Title] && p.abstractText == row[Abstract]
      && p.arxivUrl == (if ArxivUrl in row then row[ArxivUrl] else Null)
      && (p.paperPdfUrl.Null? <==> ResolveUrl(Str(baseUrl), row[PaperPdf]).None?)
      && (p.supplementalPdfUrl.Null? <==> ResolveUrl(Str(baseUrl), row[SupplementalPdf]).None?)
      && (p.paperPdfUrl.Str? || p.paperPdfUrl.Null?)
      && (p.supplementalPdfUrl.Str? || p.supplementalPdfUrl.Null?)
      && (Truthy(p.paperPdfUrl) <==> ResolveUrl(Str(baseUrl), row[PaperPdf]).Some?)
      && (Truthy(p.supplementalPdfUrl) <==> ResolveUrl(Str(baseUrl), row[SupplementalPdf]).Some?)
  {
    var p := ToPaper(PreparedRow(row, baseUrl));
    var pdf := ResolveUrl(Str(baseUrl), row[PaperPdf]);
    var supplemental := ResolveUrl(Str(baseUrl), row[SupplementalPdf]);
    if pdf.Some? {
      assert pdf.value != "";
    }
    if supplemental.Some? {
      assert supplemental.value != "";
    }
  }
}
