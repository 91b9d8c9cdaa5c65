# pptx-converter: weekly status deck generator, modelled in Dafny

`ok.py` reads the notes of a given date range from a sqlite table. It collects them into
project groups and flat lists, then writes them into the tables of a PowerPoint
template:

- slide 3 takes the first three projects and a random sample of learnings;
- slide 4 takes the remaining projects three per page, each page with a slice
  of "teach" (support) items;
- slide 5 takes the plans three per page.

This project models that core as pure functions over immutable values:

- a note row is a `Record` of six strings;
- a table is a sequence of rows of cell texts;
- a slide is the sequence of its tables;
- a deck is the sequence of its slides.

Every `IndexError` the source can raise is modelled: a missing slide, a table
with no rows, or a cell outside its row. Each becomes the `IndexError` case of
`Result`, and it aborts the whole run, so nothing is saved.

Modules:

- `Results`: `Option` and `Result`.
- `Text`: Python's `str.strip()`, `split(":", 1)`, `in`, `startswith` and
  `lower()` (on the header words the code tests), and the status cell
  `"\n- ".join([""] + statuses)`.
- `Groups`: the insertion-ordered `defaultdict(list)`, as a sequence of
  (key, details) pairs.
- `Aggregation`: the loop that turns records into the six collections.
- `Paging`: Python slices, the `range(0, n, 3)` pages and the teach slice.
- `Tables`:
  - `safe_append_rows`;
  - the `table.cell(r, c)` lookup, including negative column indices;
  - writing cells;
  - the two ways a table is filled: one column of items, or project ids with
    status cells.
- `Report`:
  - filling every table of a slide according to its header;
  - the page loop, where page 0 fills the template slide and every later page
    fills a `duplicate_slide` copy of it appended at the end of the deck;
  - the whole generator, `BuildReport`.

Several behaviours of the code are reproduced as written and stated as lemmas:

- Each page of slide 4 takes `teach_items[i*10 : i*10 + 10]` where `i` is the
  project offset 0, 3, 6, …, not the page number. So the teach items written to
  page `p` are items 30p to 30p+9, and items 10–29, 40–59, … are written to no
  page (`Paging.TeachItemPage`). A later page can still show some of page 0's
  items in the rows past its own slice (next point).
- Later pages duplicate the already-filled first page, and a table never loses
  rows. So a short last page keeps the first page's row count, and its rows
  past its own projects, up to the first page's project count, still show the
  first page's projects (`Report.StaleProjectRows`). A
  page whose teach slice is empty shows the first page's teach items again
  (`Report.TeachTableRepeats`).
- With seven projects, slide 4's second page keeps page 0's row count (4 rows
  when the template table has at most 4): one new project row, two rows left
  over from page 0, and any further template rows (`Report.StaleProjectRows`).
- With at most three projects, slide 4 has no page at all, so its teach table
  is never filled, however many support notes there are (`Report.NoProjectPages`).
- `prs.slides[4]` and `prs.slides[5]` are looked up after slide 4's pages have
  been appended. With a four-slide template, "slide 5" is therefore the first
  duplicate of slide 4, and slide 5's first page is filled into it
  (`Report.ReportShape`).

## Model

| member | source | states |
|---|---|---|
| Tables.SafeAppendRows | ok.py:11-18 | A table without rows is returned unchanged. Otherwise it ends with max(existing, needed) rows. The existing rows are kept as they were, and every added row is a copy of row 1 (row 0 when it is the only one). |
| Tables.GrowRows | ok.py:17-18 | The `while len(rows) < needed` loop that appends template copies one at a time computes exactly `SafeAppendRows`. |
| Tables.GrowTwice | ok.py:11-18 | Growing to `a` rows and then to `b` rows equals growing once to max(a, b). So growth is monotone, and repeating it changes nothing. |
| Tables.PyIndex | ok.py:119-120 | A Python list index resolves exactly for -n ≤ i < n, with negative indices counted from the end. |
| Tables.CellText | ok.py:120 | `table.cell(r, c)` succeeds exactly when row r exists and c is a valid (possibly negative) index into that row; a non-negative c reads that cell. |
| Tables.WriteCells | ok.py:123-124 | A sequence of cell writes succeeds exactly when every written cell exists. The table keeps its shape, and each cell holds the last text written to it, or its old text if never written. |
| Tables.ColumnWrites | ok.py:123-124 | Item j is written to row j+1 of the given column. |
| Tables.FillColumnSpec | ok.py:122-124 | Filling a column with items succeeds exactly when every grown row 1..n has that column. The result has max(rows, n+1) rows of unchanged widths: item j is in row j+1 of the column, and every other cell is the grown table's. |
| Tables.FillProjectsSpec | ok.py:147-150 | Filling projects succeeds exactly when every grown row 1..n has two cells. Row j+1 then holds project j's id in cell 0 and its status cell in cell 1, and every other cell is the grown table's. |
| Tables.FillKeepsHeader | ok.py:128-131 | Neither fill ever changes the header row. |
| Tables.FillNoRows | ok.py:13-15 | On a table with no rows, `safe_append_rows` returns early. The fill then succeeds only when there is nothing to write; otherwise the first write is out of range. |
| Text.StripSpec | ok.py:73-78 | `strip()` yields an infix of the input with only whitespace around it, no whitespace at either end, and is empty exactly when the input is all whitespace. |
| Text.StripEdges | ok.py:73-78 | For any non-empty trimmed infix surrounded only by whitespace, everything before and after it is whitespace, and its first and last characters are not. |
| Text.StripUnique | ok.py:73-78 | Any trimmed infix surrounded only by whitespace is the result of `strip()`: this pins down the function. |
| Text.StripIdempotent | ok.py:73-78 | `strip()` is idempotent: stripping a stripped string changes nothing. |
| Text.SplitOnce | ok.py:80-81 | The result is absent exactly when the `":" in` guard fails, that is when there is no colon. Otherwise the two parts joined with the colon give back the input, and the first part has no colon. |
| Text.SplitOnceUnique | ok.py:81 | Any decomposition before + ":" + after with no colon in `before` is the one the split returns. |
| Text.Contains | ok.py:126 | `needle in s` holds exactly when the needle occurs at some position. |
| Text.AsciiLower | ok.py:120 | `lower()` on ASCII: the result has the input's length and no capitals, each character is the same letter up to case, and every character that is not an ASCII capital is kept. |
| Text.AsciiLowerUnique | ok.py:120 | Any capital-free string matching the input letter for letter up to case is the lowered string. |
| Text.AsciiLowerIdempotent | ok.py:120 | Lowering twice is lowering once. |
| Text.ContainsIgnoringCase | ok.py:126 | For a word without capitals, `word in header.lower()` holds exactly when the word occurs in the header up to ASCII case. |
| Text.StartsWithIgnoringCase | ok.py:120 | For a prefix without capitals, `header.lower().startswith(prefix)` holds exactly when the header starts with the prefix up to ASCII case. |
| Text.StatusCellIsBullets | ok.py:131 | The status cell is each status on its own "\n- " line, and it is empty exactly when there are no statuses. |
| Groups.AppendKeys | ok.py:82 | Appending to a key adds it at the end of the key order only when it is new. |
| Groups.AppendLookup | ok.py:82 | Appending a detail to a key adds it at the end of that key's list and changes no other key. |
| Groups.GroupPairsKeys | ok.py:80-82 | The grouped keys are the distinct keys in the order of their first appearance. |
| Groups.GroupPairsLookup | ok.py:80-82 | Each key's list holds exactly that key's details, in input order. |
| Groups.GroupsNeverEmpty | ok.py:80-82 | No key exists without at least one detail. |
| Groups.GroupingKeepsEveryDetail | ok.py:80-82 | The groups together hold every detail exactly once: no detail is dropped or duplicated. |
| Groups.LookupFindsGroup | ok.py:112 | With distinct keys, looking up a group's key gives that group's list. |
| Groups.FirstSeen | ok.py:112 | The key order has no repeats and the same members as the key sequence. |
| Aggregation.Entry | ok.py:80-82 | A note counts exactly when its stripped text contains a colon. Its key and detail are then the stripped halves around the first colon, and the key has no colon. |
| Aggregation.EntrySplitsAtFirstColon | ok.py:80-82 | For a stripped note `id:status` with a colon-free id, the entry is exactly (strip(id), strip(status)). |
| Aggregation.NonEmptyMembers | ok.py:84-95 | A string is in learnings/support/insights exactly when it is non-empty and is the stripped text of some note. |
| Aggregation.LinkMembers | ok.py:97-98 | A string is in the blog list exactly when it starts with "http" and is the stripped text of some note. |
| Aggregation.NonEmpty | ok.py:84-85 | The list is no longer than the notes and holds no empty string. |
| Aggregation.Links | ok.py:97-98 | The list is no longer than the notes and every entry starts with "http". |
| Aggregation.Organize | ok.py:72-98 | After the loop over all records, each collection is the column-wise specification. Work and plans are the colon entries grouped by key. Learnings, support and insights are the non-empty stripped notes. Blogs are the stripped notes starting with "http". |
| Paging.PySliceAt | ok.py:141 | `s[a:b]` has length min(b, len) - a when a < b and a < len, otherwise 0, and element j is s[a+j]. |
| Paging.PySliceSplit | ok.py:127-135 | `s[:k] + s[k:] == s`. |
| Paging.OffsetIsProduct | ok.py:140 | The p-th value of `range(0, n, k)` is p·k. |
| Paging.NumPagesSpec | ok.py:140 | Page p exists exactly when its offset is below the list length. |
| Paging.PagesUnfold | ok.py:140-141 | The pages of a non-empty list, one per value of `range(0, len, k)`, are its first k items followed by the pages of the rest. |
| Paging.PagesPartition | ok.py:163-164 | The pages concatenate back to the list, each page holds 1 to 3 items, every page but the last holds exactly 3, and an empty list has no pages. |
| Paging.ProjectsRoundTrip | ok.py:127-141 | The first three projects followed by slide 4's pages are all the projects, in order, each once. |
| Paging.TeachPage | ok.py:153-155 | Page p's teach slice is `teach[30p : 30p + 10]` and holds at most 10 items. |
| Paging.TeachItemPage | ok.py:153-155 | Teach item t is in page p's teach slice exactly when p = t div 30 and t mod 30 < 10. So, for a page p that exists (Report.WorkPage: 3p < number of remaining projects), it is written to page p exactly then. |
| Report.FillOverviewTable | ok.py:119-120 | A slide-3 table without rows makes the run fail. |
| Report.OverviewTableSpec | ok.py:116-131 | A slide-3 table first gets the learnings in its last column when that header starts with "learn". Then it gets the first projects when its first header mentions "project", tested on the unchanged header, so a table can receive both. |
| Report.FillWorkTable | ok.py:146 | A slide-4 table whose header cell is missing makes the run fail. |
| Report.EachTableSpec | ok.py:143-145 | A slide fills exactly when each of its tables does, and then holds the filled tables in order. |
| Report.FillSlideSpec | ok.py:143-158 | The same, for the per-section table fill. |
| Report.Paginate | ok.py:140-142 | The page loop never removes slides. |
| Report.PaginateShape | ok.py:20-27 | The other slides are unchanged, page 0 fills the template slide in place, and page p ≥ 1 is a fill of the already-filled page 0, appended at the end (one slide per page). The loop fails exactly when some fill fails. |
| Report.WorkSections | ok.py:140-141 | Slide 4 has one section per page of the remaining projects. |
| Report.PlanSections | ok.py:163-164 | Slide 5 has one section per page of plans. |
| Report.WorkPage | ok.py:140-155 | Slide-4 page p exists exactly when 3p < number of remaining projects, and writes `rest[3p:3p+3]` with `teach[30p:30p+10]`. |
| Report.PlanPage | ok.py:162-164 | Slide-5 page p exists exactly when 3p < number of plans, and writes `plans[3p:3p+3]`. |
| Report.StaleProjectRows | ok.py:142-150 | A later page with no more projects than page 0 keeps page 0's row count, and its rows past its own projects, up to page 0's project count, still hold page 0's ids and status cells. |
| Report.TeachTableRepeats | ok.py:152-158 | A page whose teach slice lies past the end leaves the teach table as it was: on a duplicate, that is page 0's items again. |
| Report.PaginateResult | ok.py:140-142 | A page loop that succeeds adds one slide per page after the first. It replaces the template by the first page's fill, or leaves it when there are no pages. Every later page is a fill of that slide, at its place at the end, and nothing else changes. |
| Report.NoProjectPages | ok.py:134-140 | Slide 4's loop has no page exactly when there are at most three projects. |
| Report.ReportShape | ok.py:113-175 | A successful run keeps the tables of slides 1, 2 and 6 onwards as in the template, and fills slide 3 once. Slide 4 is filled by its first page, or is untouched when it has none. Each later slide-4 page is a fill of the filled slide 4, at the end of the deck. Index 4 gets the first plan page filled into what sits there after slide 4's pages: the template's slide 5, or slide 4's second page in a four-slide template. Each later plan page is a fill of that slide, after slide 4's pages. The deck gains one slide per page after the first of each loop. |

## Left out

- Date prompt and validation (ok.py:32-44): console input and `strptime`. The records are a parameter.
- The sqlite query (ok.py:47-62): the records are given as a sequence of six strings each. A NULL column, on which `.strip()` would raise, is not modelled.
- The slide-1 cover rewrite (ok.py:104-109): text-frame and paragraph editing outside the tables.
- Slide 6 (ok.py:174-215): only its `prs.slides[5]` lookup is modelled. The search for an empty text frame, the "Target shape not found" exception, the insight sample and the fonts and XML styling are not.
- `random.sample` (ok.py:121): the sampled learnings are a parameter of `BuildReport`, required to be min(8, len) learnings drawn from different positions of the list. Which ones are drawn is not modelled. The source draws a fresh sample for each learn table on slide 3; the model hands every learn table the same one.
- Report.BuildReport: has no contract of its own. It is Report.Generate with the sections of the collected notes and Report.FillSlide as the fill. Report.ReportShape states what Generate guarantees for any fill, and Report.FillSlideSpec states what FillSlide writes.
- Report.FillOverviewTable: its own contract only states the failure on a row-less table; Report.OverviewTableSpec states the rest.
- Report.FillWorkTable: its own contract only states the failure on a missing header cell; Tables.FillProjectsSpec and Tables.FillColumnSpec state what its fills write.
- Report.Paginate: its own contract only states that slides are never removed; Report.PaginateShape states the rest.
- Tables.CellText: the column count `len(table.columns)` is taken as the number of cells in the header row. A table's grid and its rows can differ in python-pptx; this model assumes they agree.
- Slides are modelled as their tables only. Non-table shapes, layouts, XML and cell formatting are not modelled, and `duplicate_slide` is modelled as a copy of the tables. Writing a cell replaces its text; paragraph runs and styling are not kept.
- Text.AsciiLower: lowers ASCII letters only. The only non-ASCII characters whose lower case holds an ASCII letter are U+0130 and U+212A, and neither letter occurs in "learn", "project" or "teach". So the header tests get Python's answer, but `lower()` in general is not modelled.
- Saving the file and the console messages (ok.py:14, 217-218).
