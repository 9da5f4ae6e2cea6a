# Research Paper Browser: record pipeline

This is a Dafny model of the record pipeline in the Streamlit paper browser `app.py`. The page loads a CSV table of research papers with the columns `title`, `abstract`, `paper_pdf`, `supplemental_pdf` and an optional `arxiv_url`. The pipeline then runs these stages:

1. It validates the column set. It halts and names the missing columns when a required one is absent. It adds `arxiv_url` as an all-`None` column when the table lacks it.
2. It derives `paper_pdf_url` and `supplemental_pdf_url` by running `resolve_url` on each row against the base URL typed in the sidebar.
3. It narrows the table by a case-insensitive title query and then by an abstract query. An empty query is skipped. An empty result stops the page with a warning.
4. It picks one paper by its title. It shows a links panel for that paper and builds the Markdown text offered as `paper.md`.

Modules, one per stage:

- `Text` (text.dfy) holds the Python string operations the pipeline uses: `strip`, `lstrip`, `rstrip`, `startswith`, lower-casing and substring search. It also defines the lines of a text, which the program never computes; they serve only to state the layout of the exported Markdown.
- `Cells` (cells.dfy) holds the cell value domain. A cell is a string, Python's `None` (what the script stores for an absent value) or pandas' NaN (what the CSV reader stores for an empty field). The module also gives Python truthiness, f-string formatting, and the per-cell `str.contains(..., case=False, na=False)` and `==` tests.
- `Urls` (urls.dfy) models `resolve_url`.
- `Frames` (frames.dfy) models the DataFrame `df` as a class whose column assignments update it in place.
- `Schema` (schema.dfy) covers validation and the derived columns. It includes the in-place `Prepare` method and the paper record the later stages read.
- `Filters` (filters.dfy) covers boolean-mask filtering and the two-stage search.
- `Detail` (detail.dfy) covers selection by title, the links panel and the Markdown export.

The value domain is kept as pandas has it, and the model shows these quirks:

- A NaN cell is truthy and prints as `nan`. An empty arXiv field in the CSV file therefore exports as `- arXiv: nan`.
- A `None` link prints as `None`.
- A NaN title never compares equal to anything.

The export writes `N/A` whenever the arXiv cell is falsy (`None` or `""`). A NaN cell prints `nan`, and the text `N/A` also prints as `N/A`.

## Model

| member | source | states |
|---|---|---|
| `Text.LStrip` | app.py:33 | `lstrip("/")` returns a suffix of its input. Every character it removed is a dropped character, and its first remaining character is not one. |
| `Text.RStrip` | app.py:33 | `rstrip("/")` returns a prefix of its input. Every character it removed is a dropped character, and its last remaining character is not one. |
| `Text.StripEmptyIff` | app.py:28 | `not s.strip()` holds exactly when `s` is empty or made only of Python whitespace. |
| `Text.ContainsIff` | app.py:116 | The substring search succeeds exactly when the needle occurs at some index of the text. |
| `Text.LinesSingle` | app.py:180-189 | A text without a line break reads as one line. |
| `Text.LinesAppend` | app.py:180-189 | Two texts joined by a line break read as the lines of the first followed by the lines of the second. |
| `Text.StartLineAppend` | app.py:180-189 | A character in front of a text changes only the first of its lines, whatever lines follow them. |
| `Text.LinesCons` | app.py:180-189 | A line without a break, then a break, then any text, reads as that line followed by the lines of the text. |
| `Cells.Truthy` | app.py:165-168 | A cell is truthy exactly when it is not `None` and does not print as the empty text, so NaN is truthy. |
| `Cells.Format` | app.py:180-189 | A string cell prints as itself. `None` and NaN print as non-empty text, and only a string cell can bring a line break into the output. |
| `Cells.ContainsIgnoringCase` | app.py:116 | A match needs a string cell at least as long as the query. An empty query matches exactly the string cells. |
| `Cells.EqualsValue` | app.py:153 | `column == value` holds exactly when the cell is a string equal to the value. A NaN on either side never compares equal. |
| `Cells.ContainsIgnoringCaseIff` | app.py:116 | A cell matches an active query only if it is a string whose lower-cased text contains the lower-cased query at some index. `None` and NaN never match (`na=False`). |
| `Cells.ContainsIgnoringCaseFolds` | app.py:116 | The test ignores case (`case=False`). Lower-casing the text or the query does not change the outcome. |
| `Urls.ResolveUrl` | app.py:27-34 | The result is `None` exactly when the path is not a string or is blank, for every base. A result is never blank. A path starting with `http` comes back unchanged. A non-blank path with a non-string or blank base comes back unchanged. Any other path is joined onto the base: the base without its trailing `/`, then one `/`, then the path without its leading `/`. |
| `Urls.RStripSlashes` | app.py:33 | `rstrip("/")` removes exactly the run of trailing `/` after a base that does not end in `/`. |
| `Urls.LStripSlashes` | app.py:33 | `lstrip("/")` removes exactly the run of leading `/` before a path that does not start with `/`. |
| `Urls.ResolveJoins` | app.py:28-33 | A non-blank base and a non-blank path that does not start with `http` give the base without its trailing `/`, one `/`, and the path without its leading `/`. |
| `Urls.SlashedNotAbsolute` | app.py:30 | A path with at least one leading `/` never counts as starting with `http`. |
| `Urls.ResolveNormalisesSlashes` | app.py:30-33 | A non-blank base followed by any number of `/`, joined with any number of `/` before a relative path, gives the base, then exactly one `/`, then the path. With at least one leading `/` this holds even when the rest starts with `http`, as in `/httpdocs/a.pdf`, because only the path as given is compared with `http`. |
| `Urls.ResolveSlashEitherSide` | app.py:30-33 | A trailing `/` on the base and a leading `/` on the path give the same link, as `("https://a.com/", "b/c")` and `("https://a.com", "/b/c")` do. A path with a leading `/` is joined even when the rest starts with `http`. |
| `Frames.DataFrame.Column` | app.py:96-102 | `df[name]` holds one cell per row, in row order, each the row's cell in that column. |
| `Frames.DataFrame.SetColumn` | app.py:91 | `df[name] = values` adds `name` to the column set and sets that column in every row. All other cells stay as they were, and the table remains well formed. |
| `Schema.Validate` | app.py:77-87 | The page halts exactly when some required column is absent. It reports a non-empty set that holds exactly the required columns missing from the table. |
| `Schema.ToCell` | app.py:96-102 | A `None` from `resolve_url` is stored as `None` and a link as that string. |
| `Schema.ResolveColumn` | app.py:96-102 | `apply` gives one resolved cell per input cell, in order. |
| `Schema.PreparedRow` | app.py:89-102 | A prepared row has the loaded columns plus `arxiv_url` and the two link columns. `arxiv_url` is `None` only where the table lacked it. The link cells hold `resolve_url` of the PDF cells. Every other loaded cell is unchanged. |
| `Schema.PreparedRows` | app.py:89-102 | Every row is replaced by its prepared row, in order, and each prepared row has the columns the later stages read. |
| `Schema.Prepare` | app.py:84-102 | On a table missing a required column, `df` is left unchanged and the halt names those columns. Otherwise `df` gains exactly the three columns, and each row becomes its prepared row. |
| `Schema.PreparedPaper` | app.py:96-102 | A paper read from a prepared row keeps the row's title, abstract and arXiv cell. Each link cell is `None` exactly when `resolve_url` gave `None`, and it is truthy exactly when `resolve_url` gave a link. |
| `Schema.Papers` | app.py:112-189 | The prepared rows are read as papers, one per row, in table order. |
| `Filters.Filter` | app.py:115-122 | A mask keeps no more elements than its input, and it keeps only accepted elements of the input. |
| `Filters.FilterExact` | app.py:115-122 | A mask's result is an order-preserving subsequence of its input. Each accepted value occurs in it as often as in the input, and a rejected value does not occur. |
| `Filters.FilterMembership` | app.py:115-122 | An element is in the mask's result exactly when it is in the input and accepted. |
| `Filters.FilterKeepsAll` | app.py:112 | A mask that accepts everything returns its input unchanged. |
| `Filters.FilterTwice` | app.py:114-122 | The title mask followed by the abstract mask equals one mask by the conjunction of both tests. |
| `Filters.Admits` | app.py:114-122 | With both queries empty every paper passes. A paper that passes an active query has a string cell in the searched column. |
| `Filters.Search` | app.py:112-128 | The staged search halts with a warning exactly when no paper passes both active queries. Otherwise it gives a non-empty result equal to the single mask by both tests. |
| `Filters.SearchResult` | app.py:112-122 | The search result is an order-preserving subsequence that holds exactly the papers passing both queries, each as often as in the table. With both queries empty, the result is the whole table in its original order. |
| `Filters.NonTextNeverMatches` | app.py:114-122 | A paper whose searched cell is `None` or NaN never survives an active query. |
| `Detail.Titles` | app.py:148-151 | The picker offers one title per paper in the result, in table order. |
| `Detail.FirstMatchAsWritten` | app.py:153 | As written, the selection gives the first row whose title compares equal to the picked title. When none does (where `.iloc[0]` fails), it gives nothing. |
| `Detail.PickedBlankTitleFindsNothing` | app.py:148-153 | As written, a picked title that is not a string matches no row, although the picker offered it. |
| `Detail.PickedBlankTitleExample` | app.py:153 | On a one-paper table whose title is NaN, the offered title finds no row. |
| `Detail.FirstWithTitle` | app.py:148-153 | The corrected selection always finds the picked title, because the picker offers only the result's titles. It gives the first index that carries that title. |
| `Detail.SelectionsAgreeOnText` | app.py:153 | For every string title, the as-written and corrected selections pick the same row. |
| `Detail.Selected` | app.py:153 | The detail paper belongs to the search result and carries the picked title. |
| `Detail.SelectedPassesSearch` | app.py:112-153 | The paper shown after a search is in the table and passes both queries. |
| `Detail.LinksPanel` | app.py:162-172 | The paper and supplemental entries are shown exactly when their cell is truthy. The arXiv entry is shown exactly when its cell is a string starting with `http`. No shown entry has an empty target. |
| `Detail.PanelShowsResolvedLinks` | app.py:165-169 | For a prepared row, the panel's paper and supplemental entries are exactly what `resolve_url` gave for the row's PDF cells. |
| `Detail.ArxivText` | app.py:188 | The arXiv value reads `N/A` exactly when the cell is falsy (`None` or `""`) or is the text `N/A`. Otherwise it is the cell as printed. |
| `Detail.JoinedEndsWithBreak` | app.py:180-189 | Text built from one or more template lines ends with a line break, as the triple-quoted template does. |
| `Detail.JoinedAppend` | app.py:180-189 | Joining two runs of template lines is joining the first in front of the joined second. |
| `Detail.LinesOfJoined` | app.py:180-189 | Single-line strings joined in front of a text split off again as its first lines, unchanged. |
| `Detail.LinesAround` | app.py:180-189 | Single-line strings joined around one text split back into themselves, with the lines of that text in its place. |
| `Detail.ExportLines` | app.py:180-189 | The template has nine lines. Its arXiv line is `- arXiv: N/A` exactly when the cell is falsy or is `N/A`. |
| `Detail.Export` | app.py:180-189 | `md_text` starts with the `# <title>` heading line and ends with a line break. |
| `Detail.ExportShape` | app.py:180-189 | Read line by line, the export is `# <title>`, a blank line, `## Abstract`, every line of the abstract, a blank line, `## Links`, the paper, supplemental and arXiv lines, and the empty text after the last break. This holds for an abstract of any number of lines. A one-line abstract gives ten lines. |
| `Detail.ShownPaperFromTable` | app.py:89-172 | After preparation and search, the paper shown for a picked title is the prepared form of a loaded row that passes both queries. Its panel links are `resolve_url` of that row's PDF cells. |

## Findings

| source | as written | input that shows it | evidently intended | confidence | as-written member | corrected member |
|---|---|---|---|---|---|---|
| app.py:153 | The detail row is chosen with `filtered_df[filtered_df["title"] == selected_title].iloc[0]`. NaN never compares equal, so a NaN title selects no row and `.iloc[0]` raises IndexError. | A CSV row with an empty title field (read as NaN) that passes the search, picked in the selector. When it is the first row it is picked by default, so the page fails on load. | Show the first row of the result that carries the picked title. | medium, not executed | `Detail.FirstMatchAsWritten` (with `Detail.PickedBlankTitleExample`) | `Detail.FirstWithTitle` (used by `Detail.Selected`) |

## Left out

- Loading is file I/O and library memoisation, so it is not modelled. This covers the upload widget, `pd.read_csv`, `@st.cache_data` and the `data/papers.csv` existence check (app.py:23-25, 59-72). `Frames.DataFrame.constructor` stands for the table the reader returns.
- The Streamlit calls are user interface and are not modelled. This covers the page config, sidebar widgets, captions, `st.dataframe` for the overview table, the detail columns and the `download_button`. The download is named `paper.md` with MIME type `text/markdown`.
- The base URL, both queries and the picked title arrive as parameters.
- `st.stop()` becomes the `Schema.Status` and `Filters.Listing` outcomes.
- Urls.Join: `urllib.parse.urljoin` is not part of this model. It is replaced by plain concatenation of the slash-normalised base and path. The program's links differ from the model's in these cases:
  - a path with `.` or `..` segments, or a base with such segments (the library resolves them);
  - a path with empty inner segments such as `a//b.pdf` (the library collapses them to `a/b.pdf`);
  - a path with `?`, `#` or its own scheme, and a base with a query or fragment;
  - a base whose text before its first `:` reads as a scheme that does not take relative references, such as `s3://bucket/` or `localhost:8000` (read as scheme `localhost`); the library then returns the path alone;
  - a base with an upper-case scheme, which the library lowers (`HTTPS://a.com/` gives `https://a.com/b.pdf`);
  - a base with leading spaces or control characters, or with tabs or line breaks inside (the library strips or deletes them);
  - a base path with empty inner segments such as `https://a.com/x//y/` (the library collapses them to `x/y/`);
  - a path with leading spaces or control characters, or with tabs or line breaks inside (the library strips or deletes them).
- Detail.ExportShape: the line layout is stated for a title and link cells without line breaks. A multi-line title or link would split its own template line. The model states that case only through `Text.LinesAppend`.
- Cells.ContainsIgnoringCase: `Series.str.contains` treats the query as a regular expression, and `case=False` folds case over all of Unicode. The model reads the query as a literal substring and folds ASCII letters only. A query with regex metacharacters such as `(` or `.` can therefore behave differently in the program.
- Numeric cells (a column pandas parses as numbers) are outside the cell domain, which is string, `None` or NaN. The `AttributeError` that `.str` raises on a column with no string at all is not modelled either.
- The commented-out earlier versions of the page (app.py:199-707) are dead code and are not modelled.
