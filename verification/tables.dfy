/** PowerPoint tables as the generator sees them: rows of cell texts.
    Row growth (`safe_append_rows`) clones a template row at the end;
    `table.cell(r, c)` reads or writes one cell and raises IndexError
    outside the table, which ends the run.
 */
module Tables {
  import opened Results
  import opened Text

  type Row = seq<string>
  type Table = seq<Row>

  function Max(a: int, b: int): int {
    if a >= b then a else b
  }

  /** The row `safe_append_rows` clones: row 1 when there is one, else
      the header row. */
  function TemplateRow(t: Table): Row
    requires |t| > 0
  {
    if |t| > 1 then t[1] else t[0]
  }

  /** `safe_append_rows(table, needed)`: a table without rows is left
      alone; otherwise copies of the template row are appended until the
      table has `needed` rows.  Rows are never removed. */
  function SafeAppendRows(t: Table, needed: int): (r: Table)
    ensures |t| == 0 ==> r == t
    ensures |t| > 0 ==> |r| == Max(|t|, needed)
    ensures |r| >= |t| && r[..|t|] == t
    ensures |t| > 0 ==> forall i :: |t| <= i < |r| ==> r[i] == TemplateRow(t)
  {
    if |t| == 0 || needed <= |t| then t
    else t + seq(needed - |t|, _ => TemplateRow(t))
  }

  /** The `while len(table.rows) < needed_count` loop itself, one deep
      copy of the template row per pass. */
  method GrowRows(t: Table, needed: int) returns (r: Table)
    ensures r == SafeAppendRows(t, needed)
  {
    r := t;
    if |t| == 0 {
      return;
    }
    var base := TemplateRow(t);
    while |r| < needed
      invariant |t| <= |r| && (|r| > |t| ==> |r| <= needed)
      invariant r[..|t|] == t
      invariant forall i :: |t| <= i < |r| ==> r[i] == base
      decreases needed - |r|
    {
      r := r + [base];
    }
    assert r == SafeAppendRows(t, needed);
  }

  /** Growing is monotone and idempotent: growing twice is growing once
      to the larger count, and the template row stays the same. */
  lemma GrowTwice(t: Table, a: int, b: int)
    ensures SafeAppendRows(SafeAppendRows(t, a), b) == SafeAppendRows(t, Max(a, b))
  {
    var g := SafeAppendRows(t, a);
    if |t| > 0 {
      assert TemplateRow(g) == TemplateRow(t);
    }
  }

  /** Python's index `i` into a list of `n` items: negative indices count
      from the end; anything else outside the list is an IndexError. */
  function PyIndex(n: nat, i: int): (r: Option<nat>)
    ensures r.Some? <==> -(n as int) <= i < n
    ensures r.Some? ==> r.value < n && (r.value == i || r.value == n + i)
  {
    if 0 <= i < n then Some(i)
    else if -(n as int) <= i < 0 then Some(n + i)
    else None
  }

  /** `table.cell(r, c).text`. */
  function CellText(t: Table, r: nat, c: int): (res: Result<string>)
    ensures res.Ok? <==> r < |t| && -(|t[r]| as int) <= c < |t[r]|
    ensures res.Ok? && 0 <= c ==> res.value == t[r][c]
  {
    if r < |t| then
      match PyIndex(|t[r]|, c)
      case Some(j) => Ok(t[r][j])
      case None => IndexError
    else IndexError
  }

  /** `table.cell(row, col)` exists for a non-negative column. */
  predicate Fits(t: Table, row: nat, col: nat) {
    row < |t| && col < |t[row]|
  }

  /** Two tables with the same number of rows and of cells per row. */
  predicate SameShape(a: Table, b: Table) {
    |a| == |b| && forall i :: 0 <= i < |a| ==> |a[i]| == |b[i]|
  }

  /** One assignment `table.cell(row, col).text = text`. */
  datatype Write = Write(row: nat, col: nat, text: string)

  /** The text a cell holds after the writes: that of the last write to
      it, or `prior` when none touches it. */
  function LastWrite(ws: seq<Write>, row: nat, col: nat, prior: string): string
  {
    if |ws| == 0 then prior
    else
      var w := ws[|ws| - 1];
      if w.row == row && w.col == col then w.text
      else LastWrite(ws[..|ws| - 1], row, col, prior)
  }

  /** The writes in order; the first one outside the table raises
      IndexError. */
  function WriteCells(t: Table, ws: seq<Write>): (r: Result<Table>)
    ensures r.Ok? <==> forall k :: 0 <= k < |ws| ==> Fits(t, ws[k].row, ws[k].col)
    ensures r.Ok? ==> SameShape(r.value, t)
    ensures r.Ok? ==> forall i: nat, c: nat :: Fits(t, i, c) ==> r.value[i][c] == LastWrite(ws, i, c, t[i][c])
  {
    if |ws| == 0 then Ok(t)
    else
      var n := |ws| - 1;
      var w := ws[n];
      var pre := ws[..n];
      assert forall k :: 0 <= k < n ==> pre[k] == ws[k];
      match WriteCells(t, pre)
      case IndexError => IndexError
      case Ok(u) =>
        if Fits(u, w.row, w.col) then
          var v := u[w.row := u[w.row][w.col := w.text]];
          assert forall i: nat, c: nat :: Fits(t, i, c) ==> v[i][c] == LastWrite(ws, i, c, t[i][c]) by {
            forall i: nat, c: nat | Fits(t, i, c)
              ensures v[i][c] == LastWrite(ws, i, c, t[i][c])
            {
              assert LastWrite(ws, i, c, t[i][c])
                  == if w.row == i && w.col == c then w.text else LastWrite(pre, i, c, t[i][c]);
            }
          }
          Ok(v)
        else IndexError
  }

  /** `for j, item in enumerate(items): table.cell(j + 1, col).text = item` */
  function ColumnWrites(col: nat, items: seq<string>): (ws: seq<Write>)
    ensures |ws| == |items|
    ensures forall j :: 0 <= j < |items| ==> ws[j] == Write(j + 1, col, items[j])
  {
    if |items| == 0 then []
    else
      var n := |items| - 1;
      ColumnWrites(col, items[..n]) + [Write(n + 1, col, items[n])]
  }

  /** After the column writes, row `j + 1` of the column holds item `j`
      and every other cell is untouched. */
  lemma {:induction false} ColumnWritesLast(col: nat, items: seq<string>, row: nat, c: nat, prior: string)
    ensures LastWrite(ColumnWrites(col, items), row, c, prior)
         == if c == col && 1 <= row <= |items| then items[row - 1] else prior
  {
    if |items| > 0 {
      var n := |items| - 1;
      var ws := ColumnWrites(col, items);
      assert ws[..n] == ColumnWrites(col, items[..n]);
      ColumnWritesLast(col, items[..n], row, c, prior);
    }
  }

  /** One row per project: the id in the first cell, the bullet list of
      its statuses in the second. */
  function ProjectWrites(chunk: seq<(string, seq<string>)>): (ws: seq<Write>)
    ensures |ws| == 2 * |chunk|
  {
    if |chunk| == 0 then []
    else
      var n := |chunk| - 1;
      ProjectWrites(chunk[..n]) + [Write(n + 1, 0, chunk[n].0), Write(n + 1, 1, StatusCell(chunk[n].1))]
  }

  /** After the project writes, row `j + 1` holds project `j`'s id and
      status cell and every other cell is untouched. */
  lemma {:induction false} ProjectWritesLast(chunk: seq<(string, seq<string>)>, row: nat, c: nat, prior: string)
    ensures LastWrite(ProjectWrites(chunk), row, c, prior)
         == if 1 <= row <= |chunk| && c == 0 then chunk[row - 1].0
            else if 1 <= row <= |chunk| && c == 1 then StatusCell(chunk[row - 1].1)
            else prior
  {
    if |chunk| > 0 {
      var n := |chunk| - 1;
      var ws := ProjectWrites(chunk);
      var pre := ProjectWrites(chunk[..n]);
      assert ws[..2 * n + 1][..2 * n] == pre;
      assert ws[..2 * n + 1][2 * n] == Write(n + 1, 0, chunk[n].0);
      ProjectWritesLast(chunk[..n], row, c, prior);
    }
  }

  /** Grow the table to one row per item plus the header, then write the
      items down column `col` from row 1 (the learning and teach tables). */
  function FillColumn(t: Table, col: nat, items: seq<string>): Result<Table>
  {
    WriteCells(SafeAppendRows(t, |items| + 1), ColumnWrites(col, items))
  }

  /** Grow the table to one row per project plus the header, then write
      each project's id and status cell (the project and plan tables). */
  function FillProjects(t: Table, chunk: seq<(string, seq<string>)>): Result<Table>
  {
    WriteCells(SafeAppendRows(t, |chunk| + 1), ProjectWrites(chunk))
  }

  /** Row `i` of a non-empty table once grown: its own row, or a copy of
      the template row past its end. */
  function GrownRow(t: Table, i: nat): Row
    requires |t| > 0
  {
    if i < |t| then t[i] else TemplateRow(t)
  }

  lemma GrownRows(t: Table, needed: int)
    requires |t| > 0
    ensures forall i :: 0 <= i < |SafeAppendRows(t, needed)| ==> SafeAppendRows(t, needed)[i] == GrownRow(t, i)
  {
    var g := SafeAppendRows(t, needed);
    forall i | 0 <= i < |g| ensures g[i] == GrownRow(t, i) {
      if i < |t| { assert g[i] == g[..|t|][i]; }
    }
  }

  /** Filling a column of a table with rows: it fails exactly when some
      written row is too short for the column; otherwise the table has a
      row per item plus the header, row `j + 1` holds item `j` in the
      column, and every other cell keeps the text of the grown table, so
      rows past the items keep whatever they held before. */
  lemma FillColumnSpec(t: Table, col: nat, items: seq<string>)
    requires |t| > 0
    ensures FillColumn(t, col, items).Ok? <==> forall j :: 1 <= j <= |items| ==> col < |GrownRow(t, j)|
    ensures FillColumn(t, col, items).Ok? ==>
      var r := FillColumn(t, col, items).value;
      && |r| == Max(|t|, |items| + 1)
      && (forall i :: 0 <= i < |r| ==> |r[i]| == |GrownRow(t, i)|)
      && (forall i: nat, c: nat :: i < |r| && c < |r[i]| ==>
            r[i][c] == if c == col && 1 <= i <= |items| then items[i - 1] else GrownRow(t, i)[c])
  {
    var g := SafeAppendRows(t, |items| + 1);
    var ws := ColumnWrites(col, items);
    GrownRows(t, |items| + 1);
    assert (forall k :: 0 <= k < |ws| ==> Fits(g, ws[k].row, ws[k].col))
       <==> (forall j :: 1 <= j <= |items| ==> col < |GrownRow(t, j)|) by {
      if forall j :: 1 <= j <= |items| ==> col < |GrownRow(t, j)| {
        forall k | 0 <= k < |ws| ensures Fits(g, ws[k].row, ws[k].col) {
          assert ws[k] == Write(k + 1, col, items[k]);
        }
      }
      if forall k :: 0 <= k < |ws| ==> Fits(g, ws[k].row, ws[k].col) {
        forall j | 1 <= j <= |items| ensures col < |GrownRow(t, j)| {
          assert ws[j - 1] == Write(j, col, items[j - 1]);
        }
      }
    }
    if FillColumn(t, col, items).Ok? {
      var r := FillColumn(t, col, items).value;
      forall i: nat, c: nat | i < |r| && c < |r[i]|
        ensures r[i][c] == if c == col && 1 <= i <= |items| then items[i - 1] else GrownRow(t, i)[c]
      {
        assert Fits(g, i, c);
        ColumnWritesLast(col, items, i, c, g[i][c]);
      }
    }
  }

  /** Every write lands inside `g`. */
  predicate AllFit(g: Table, ws: seq<Write>) {
    forall k :: 0 <= k < |ws| ==> Fits(g, ws[k].row, ws[k].col)
  }

  lemma AllFitAppend(g: Table, a: seq<Write>, b: seq<Write>)
    ensures AllFit(g, a + b) <==> AllFit(g, a) && AllFit(g, b)
  {
    if AllFit(g, a) && AllFit(g, b) {
      forall k | 0 <= k < |a + b| ensures Fits(g, (a + b)[k].row, (a + b)[k].col) {
        if k >= |a| { assert (a + b)[k] == b[k - |a|]; }
      }
    }
    if AllFit(g, a + b) {
      forall k | 0 <= k < |a| ensures Fits(g, a[k].row, a[k].col) {
        assert (a + b)[k] == a[k];
      }
      forall k | 0 <= k < |b| ensures Fits(g, b[k].row, b[k].col) {
        assert (a + b)[|a| + k] == b[k];
      }
    }
  }

  /** The project writes land inside `g` exactly when every written row
      exists and has at least two cells. */
  lemma {:induction false} ProjectWritesFit(g: Table, chunk: seq<(string, seq<string>)>)
    ensures AllFit(g, ProjectWrites(chunk)) <==> forall j :: 1 <= j <= |chunk| ==> j < |g| && 2 <= |g[j]|
  {
    if |chunk| > 0 {
      var n := |chunk| - 1;
      var pair := [Write(n + 1, 0, chunk[n].0), Write(n + 1, 1, StatusCell(chunk[n].1))];
      ProjectWritesFit(g, chunk[..n]);
      AllFitAppend(g, ProjectWrites(chunk[..n]), pair);
      assert AllFit(g, pair) <==> n + 1 < |g| && 2 <= |g[n + 1]| by {
        assert pair[1] == Write(n + 1, 1, StatusCell(chunk[n].1));
      }
    }
  }

  /** Filling the rows of a project or plan table: it fails exactly when
      some written row has fewer than two cells; otherwise the table has
      a row per project plus the header, row `j + 1` holds project `j`'s
      id and status cell, and every other cell keeps the text of the
      grown table. */
  lemma FillProjectsSpec(t: Table, chunk: seq<(string, seq<string>)>)
    requires |t| > 0
    ensures FillProjects(t, chunk).Ok? <==> forall j :: 1 <= j <= |chunk| ==> 2 <= |GrownRow(t, j)|
    ensures FillProjects(t, chunk).Ok? ==>
      var r := FillProjects(t, chunk).value;
      && |r| == Max(|t|, |chunk| + 1)
      && (forall i :: 0 <= i < |r| ==> |r[i]| == |GrownRow(t, i)|)
      && (forall i: nat, c: nat :: i < |r| && c < |r[i]| ==>
            r[i][c] == if 1 <= i <= |chunk| && c == 0 then chunk[i - 1].0
                       else if 1 <= i <= |chunk| && c == 1 then StatusCell(chunk[i - 1].1)
                       else GrownRow(t, i)[c])
  {
    var g := SafeAppendRows(t, |chunk| + 1);
    GrownRows(t, |chunk| + 1);
    ProjectWritesFit(g, chunk);
    if FillProjects(t, chunk).Ok? {
      var r := FillProjects(t, chunk).value;
      forall i: nat, c: nat | i < |r| && c < |r[i]|
        ensures r[i][c] == if 1 <= i <= |chunk| && c == 0 then chunk[i - 1].0
                           else if 1 <= i <= |chunk| && c == 1 then StatusCell(chunk[i - 1].1)
                           else GrownRow(t, i)[c]
      {
        assert Fits(g, i, c);
        ProjectWritesLast(chunk, i, c, g[i][c]);
      }
    }
  }

  /** Both fills write below the header only: row 0 comes out as it was. */
  lemma FillKeepsHeader(t: Table, col: nat, items: seq<string>, chunk: seq<(string, seq<string>)>)
    requires |t| > 0
    ensures FillColumn(t, col, items).Ok? ==> 0 < |FillColumn(t, col, items).value| && FillColumn(t, col, items).value[0] == t[0]
    ensures FillProjects(t, chunk).Ok? ==> 0 < |FillProjects(t, chunk).value| && FillProjects(t, chunk).value[0] == t[0]
  {
    if FillColumn(t, col, items).Ok? {
      FillColumnSpec(t, col, items);
      var r := FillColumn(t, col, items).value;
      assert GrownRow(t, 0) == t[0];
      assert |r[0]| == |t[0]|;
      forall c: nat | c < |t[0]| ensures r[0][c] == t[0][c] { }
    }
    if FillProjects(t, chunk).Ok? {
      FillProjectsSpec(t, chunk);
      var r := FillProjects(t, chunk).value;
      assert GrownRow(t, 0) == t[0];
      assert |r[0]| == |t[0]|;
      forall c: nat | c < |t[0]| ensures r[0][c] == t[0][c] { }
    }
  }

  /** A table without rows cannot be written to: filling it fails unless
      there is nothing to write. */
  lemma FillNoRows(t: Table, col: nat, items: seq<string>, chunk: seq<(string, seq<string>)>)
    requires |t| == 0
    ensures FillColumn(t, col, items).Ok? <==> items == []
    ensures FillProjects(t, chunk).Ok? <==> chunk == []
  {
    if items != [] {
      assert ColumnWrites(col, items)[0].row == 1;
    }
    ProjectWritesFit(t, chunk);
  }
}
