/**
 * The table scanner of contentScript.js: which `<table>` elements are listed and under which
 * id, the two-row preview sent to the popup, grid extraction, and the highlight outline.
 *
 * A table's rendered size (`offsetWidth`, `offsetHeight`), its number of `th`/`td` cells and the
 * trimmed `innerText` of its cells are given; only the outline style is changed by the scanner.
 */
module Scanner {
  import opened Wrappers

  /** A `<table>` element as the scanner sees it. */
  class TableElement {
    const width: nat
    const height: nat
    /** `querySelectorAll('th, td').length`, which also counts cells of nested tables. */
    const cellCount: nat
    /** `table.rows`, each row the trimmed texts of its cells. */
    const rows: seq<seq<string>>
    /** `style.outline`. */
    var outline: string

    constructor (width: nat, height: nat, cellCount: nat, rows: seq<seq<string>>)
      ensures this.width == width && this.height == height && this.cellCount == cellCount
      ensures this.rows == rows && outline == ""
    {
      this.width := width;
      this.height := height;
      this.cellCount := cellCount;
      this.rows := rows;
      outline := "";
    }
  }

  /** The outline `highlightTable` draws. */
  const HighlightOutline := "2px solid orange"

  /** A table is listed when it is rendered (or hidden tables are wanted) and has two cells or more. */
  predicate IsListed(t: TableElement, showHidden: bool) {
    (showHidden || (t.width > 0 && t.height > 0)) && t.cellCount >= 2
  }

  /** The listed tables of the document, in document order. */
  function Listed(doc: seq<TableElement>, showHidden: bool): (r: seq<TableElement>)
    ensures |r| <= |doc|
  {
    if doc == [] then []
    else
      var last := doc[|doc| - 1];
      Listed(doc[..|doc| - 1], showHidden) + (if IsListed(last, showHidden) then [last] else [])
  }

  /** Listing a concatenated document lists each part in turn: the order of the page is kept. */
  lemma {:induction false} ListedAppend(a: seq<TableElement>, b: seq<TableElement>, showHidden: bool)
    ensures Listed(a + b, showHidden) == Listed(a, showHidden) + Listed(b, showHidden)
    decreases |b|
  {
    if b == [] {
      assert a + b == a;
    } else {
      var b' := b[..|b| - 1];
      assert (a + b)[..|a + b| - 1] == a + b';
      ListedAppend(a, b', showHidden);
    }
  }

  /** A table is listed exactly when it is in the document and passes the filter. */
  lemma {:induction false} ListedMembership(doc: seq<TableElement>, showHidden: bool, t: TableElement)
    ensures t in Listed(doc, showHidden) <==> t in doc && IsListed(t, showHidden)
  {
    if doc != [] {
      var init := doc[..|doc| - 1];
      ListedMembership(init, showHidden, t);
      assert doc == init + [doc[|doc| - 1]];
    }
  }

  /** Listing hidden tables too only adds tables: every table listed without them is still listed. */
  lemma ShowHiddenOnlyAdds(doc: seq<TableElement>, t: TableElement)
    ensures t in Listed(doc, false) ==> t in Listed(doc, true)
  {
    ListedMembership(doc, false, t);
    ListedMembership(doc, true, t);
  }

  /** When every table is rendered, hidden-table mode lists the same tables. */
  lemma {:induction false} AllRenderedSameListing(doc: seq<TableElement>)
    requires forall i :: 0 <= i < |doc| ==> doc[i].width > 0 && doc[i].height > 0
    ensures Listed(doc, false) == Listed(doc, true)
  {
    if doc != [] {
      AllRenderedSameListing(doc[..|doc| - 1]);
    }
  }

  /** `table.rows[0] ? table.rows[0].cells.length : 0`. */
  function Cols(rows: seq<seq<string>>): nat {
    if |rows| > 0 then |rows[0]| else 0
  }

  function Min(a: int, b: int): int {
    if a < b then a else b
  }

  /** One preview row: `cols` entries, a missing cell shown as the empty string. */
  function PreviewRow(row: seq<string>, cols: nat): (r: seq<string>)
    ensures |r| == cols
  {
    seq(cols, c requires 0 <= c < cols => if c < |row| then row[c] else "")
  }

  /** The preview of a table: its first two rows, each cut or padded to the width of the first row. */
  function Preview(rows: seq<seq<string>>): (p: seq<seq<string>>)
    ensures |p| == Min(2, |rows|)
  {
    seq(Min(2, |rows|), r requires 0 <= r < Min(2, |rows|) => PreviewRow(rows[r], Cols(rows)))
  }

  /** A row of `n` empty strings. */
  function Blanks(n: nat): (r: seq<string>)
    ensures |r| == n && forall i :: 0 <= i < n ==> r[i] == ""
  {
    seq(n, i => "")
  }

  /**
   * Each preview row is the table row cut to the first row's width, or padded with empty strings
   * up to it; the first preview row is the first table row itself.
   */
  lemma PreviewCutsOrPads(rows: seq<seq<string>>)
    ensures forall r :: 0 <= r < |Preview(rows)| ==>
      Preview(rows)[r] ==
        if |rows[r]| >= Cols(rows) then rows[r][..Cols(rows)]
        else rows[r] + Blanks(Cols(rows) - |rows[r]|)
    ensures |rows| > 0 ==> Preview(rows)[0] == rows[0]
  {
    var p := Preview(rows);
    var cols := Cols(rows);
    forall r | 0 <= r < |p|
      ensures p[r] == if |rows[r]| >= cols then rows[r][..cols] else rows[r] + Blanks(cols - |rows[r]|)
    {
      if |rows[r]| >= cols {
        assert p[r] == rows[r][..cols];
      } else {
        assert p[r] == rows[r] + Blanks(cols - |rows[r]|);
      }
    }
    if |rows| > 0 {
      assert p[0] == rows[0][..cols];
    }
  }

  /** For a rectangular table the preview is exactly its first `min(2, rows)` rows. */
  lemma RectangularPreview(rows: seq<seq<string>>)
    requires forall r :: 0 <= r < |rows| ==> |rows[r]| == Cols(rows)
    ensures Preview(rows) == rows[..Min(2, |rows|)]
  {
    PreviewCutsOrPads(rows);
    assert forall r :: 0 <= r < |rows| ==> rows[r][..Cols(rows)] == rows[r];
  }

  /** The preview loops of `detectTables`. */
  method BuildPreview(rows: seq<seq<string>>) returns (preview: seq<seq<string>>)
    ensures preview == Preview(rows)
  {
    var cols := if |rows| > 0 then |rows[0]| else 0;
    var n := Min(2, |rows|);
    preview := [];
    var r := 0;
    while r < n
      invariant 0 <= r <= n
      invariant preview == Preview(rows)[..r]
    {
      var row: seq<string> := [];
      var c := 0;
      while c < cols
        invariant 0 <= c <= cols
        invariant row == PreviewRow(rows[r], cols)[..c]
      {
        var cell := if c < |rows[r]| then rows[r][c] else "";
        row := row + [cell];
        c := c + 1;
      }
      assert row == Preview(rows)[r];
      assert Preview(rows)[..r + 1] == Preview(rows)[..r] + [Preview(rows)[r]];
      preview := preview + [row];
      r := r + 1;
    }
  }

  /** What `detectTables` reports for one listed table. */
  datatype TableInfo = TableInfo(id: nat, rows: nat, cols: nat, preview: seq<seq<string>>)

  function Summary(t: TableElement, id: nat): TableInfo {
    TableInfo(id, |t.rows|, Cols(t.rows), Preview(t.rows))
  }

  /** The nested loops of `getTableData` and `getTableDataByElement`: every row's cells, in order. */
  method ExtractGrid(t: TableElement) returns (data: seq<seq<string>>)
    ensures data == t.rows
  {
    data := [];
    var r := 0;
    assert t.rows[..r] == [];
    while r < |t.rows|
      invariant 0 <= r <= |t.rows|
      invariant data == t.rows[..r]
    {
      var rowData: seq<string> := [];
      var c := 0;
      while c < |t.rows[r]|
        invariant 0 <= c <= |t.rows[r]|
        invariant rowData == t.rows[r][..c]
      {
        rowData := rowData + [t.rows[r][c]];
        c := c + 1;
      }
      assert rowData == t.rows[r];
      assert t.rows[..r + 1] == t.rows[..r] + [t.rows[r]];
      data := data + [rowData];
      r := r + 1;
    }
  }

  /** `getTableDataByElement(table)`: no grid for a missing table, otherwise its full grid. */
  method GetTableDataByElement(t: TableElement?) returns (data: Option<seq<seq<string>>>)
    ensures data.None? <==> t == null
    ensures data.Some? ==> data.value == t.rows
  {
    if t == null {
      return None;
    }
    var grid := ExtractGrid(t);
    return Some(grid);
  }

  /** The content script's state: the tables listed by the last scan and the highlighted table. */
  class TableSniffer {
    var detectedTables: seq<TableElement>
    var highlightEl: TableElement?

    constructor ()
      ensures detectedTables == [] && highlightEl == null
    {
      detectedTables := [];
      highlightEl := null;
    }

    /**
     * `detectTables(showHidden)` over the document's tables in order: the previous list is
     * replaced by the listed tables, numbered 0, 1, 2, ... in document order.
     */
    method DetectTables(doc: seq<TableElement>, showHidden: bool) returns (infos: seq<TableInfo>)
      modifies this
      ensures detectedTables == Listed(doc, showHidden)
      ensures highlightEl == old(highlightEl)
      ensures |infos| == |detectedTables|
      ensures forall i :: 0 <= i < |infos| ==> infos[i] == Summary(detectedTables[i], i)
    {
      detectedTables := [];
      var id := 0;
      infos := [];
      var i := 0;
      assert doc[..i] == [];
      while i < |doc|
        invariant 0 <= i <= |doc|
        invariant detectedTables == Listed(doc[..i], showHidden)
        invariant id == |detectedTables| == |infos|
        invariant forall k :: 0 <= k < |infos| ==> infos[k] == Summary(detectedTables[k], k)
        invariant highlightEl == old(highlightEl)
      {
        var table := doc[i];
        assert doc[..i + 1][..i] == doc[..i];
        var visible := showHidden || (table.width > 0 && table.height > 0);
        if visible && table.cellCount >= 2 {
          detectedTables := detectedTables + [table];
          var rows := |table.rows|;
          var cols := if |table.rows| > 0 then |table.rows[0]| else 0;
          var preview := BuildPreview(table.rows);
          infos := infos + [TableInfo(id, rows, cols, preview)];
          id := id + 1;
        }
        i := i + 1;
      }
      assert doc[..i] == doc;
    }

    /** `getTableData(id)`: no grid unless `id` indexes the last scan's list, otherwise that table's grid. */
    method GetTableData(id: int) returns (data: Option<seq<seq<string>>>)
      ensures data.None? <==> !(0 <= id < |detectedTables|)
      ensures data.Some? ==> data.value == detectedTables[id].rows
    {
      if !(0 <= id < |detectedTables|) {
        return None;
      }
      var grid := ExtractGrid(detectedTables[id]);
      return Some(grid);
    }

    /**
     * `highlightTable(id)`: the previous highlight loses its outline; when `id` resolves, that
     * table is outlined and becomes the highlight, otherwise the old reference is kept.
     */
    method HighlightTable(id: int)
      modifies this, detectedTables, if highlightEl == null then {} else {highlightEl}
      ensures detectedTables == old(detectedTables)
      ensures 0 <= id < |detectedTables| ==>
        highlightEl == detectedTables[id] && highlightEl.outline == HighlightOutline
      ensures !(0 <= id < |detectedTables|) ==> highlightEl == old(highlightEl)
      ensures old(highlightEl) != null && !(0 <= id < |detectedTables| && detectedTables[id] == old(highlightEl)) ==>
        old(highlightEl).outline == ""
      ensures forall t :: t in detectedTables && t != old(highlightEl) && !(0 <= id < |detectedTables| && t == detectedTables[id]) ==>
        t.outline == old(t.outline)
    {
      if highlightEl != null {
        highlightEl.outline := "";
      }
      if 0 <= id < |detectedTables| {
        var table := detectedTables[id];
        highlightEl := table;
        table.outline := HighlightOutline;
      }
    }
  }
}
