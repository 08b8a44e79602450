/**
 * The BOM viewer's upload (`POST /upload_bom`): the bill-of-materials table
 * is emptied, then every row of the uploaded CSV is unrolled into one line
 * per reference designator named in its comma-joined `Reference` cell, each
 * with quantity 1.  Everything happens in one transaction: a file that cannot
 * be read leaves the previous lines in place.
 */
module BomViewer {
  import opened Wrappers
  import opened Text

  /** One BOM line; its integer key is not modelled. */
  datatype BomLine = BomLine(
    reference: string,
    value: Option<string>,
    footprint: Option<string>,
    mpn: Option<string>,
    quantity: int)

  /** A CSV row, column name to cell. */
  type Row = map<string, string>

  function Cell(row: Row, column: string): Option<string> {
    if column in row then Some(row[column]) else None
  }

  /** `str(row.get("Reference", "")).strip()`. */
  function ReferenceCell(row: Row): string {
    Strip(if "Reference" in row then row["Reference"] else "")
  }

  /** The references of a row; a row whose cell is blank is skipped. */
  function References(row: Row): (refs: seq<string>)
    ensures forall x :: x in refs ==> x != "" && IsTrimmed(x) && ',' !in x
  {
    if ReferenceCell(row) == "" then [] else Pieces(ReferenceCell(row))
  }

  /** What the loop reads from one row: its references and the cells copied to each line. */
  datatype Entry = Entry(
    references: seq<string>,
    value: Option<string>,
    footprint: Option<string>,
    mpn: Option<string>)

  function ReadBomRow(row: Row): (e: Entry)
    ensures e.references == References(row)
  {
    Entry(References(row), Cell(row, "Value"), Cell(row, "Footprint"), Cell(row, "MPN"))
  }

  /** The rows as the loop reads them. */
  function ReadBomRows(rows: seq<Row>): (r: seq<Entry>)
    ensures |r| == |rows| && forall i :: 0 <= i < |rows| ==> r[i] == ReadBomRow(rows[i])
  {
    seq(|rows|, i requires 0 <= i < |rows| => ReadBomRow(rows[i]))
  }

  /** The line made for reference `ref` of a row. */
  function Line(ref: string, e: Entry): BomLine {
    BomLine(ref, e.value, e.footprint, e.mpn, 1)
  }

  /** The lines of one row, one per reference, in order. */
  function RowLines(e: Entry): (r: seq<BomLine>)
    ensures |r| == |e.references|
    ensures forall k :: 0 <= k < |r| ==> r[k] == Line(e.references[k], e)
  {
    seq(|e.references|, k requires 0 <= k < |e.references| => Line(e.references[k], e))
  }

  /** The lines of all rows, row after row. */
  function Unroll(rows: seq<Entry>): seq<BomLine> {
    if rows == [] then [] else Unroll(rows[..|rows| - 1]) + RowLines(rows[|rows| - 1])
  }

  /** The number of references over all rows. */
  function ReferenceCount(rows: seq<Entry>): nat {
    if rows == [] then 0 else ReferenceCount(rows[..|rows| - 1]) + |rows[|rows| - 1].references|
  }

  /** Skipping a blank cell is only a shortcut: splitting it yields no reference either. */
  lemma BlankCellHasNoPieces()
    ensures Pieces("") == []
  {
    assert Split("", ',') == [""];
    var t := Trimmed(Split("", ','));
    assert t == [""];
    assert forall x :: x in Pieces("") ==> x == "" && x != "";
  }

  /** A line is made for each reference of each row and for nothing else. */
  lemma {:induction false} UnrollCount(rows: seq<Entry>)
    ensures |Unroll(rows)| == ReferenceCount(rows)
  {
    if rows != [] { UnrollCount(rows[..|rows| - 1]); }
  }

  /** Rows unroll one after the other: the lines keep the order of the file. */
  lemma {:induction false} UnrollAppend(a: seq<Entry>, b: seq<Entry>)
    ensures Unroll(a + b) == Unroll(a) + Unroll(b)
    decreases |b|
  {
    if b == [] {
      assert a + b == a;
    } else {
      var front, last := b[..|b| - 1], b[|b| - 1];
      assert (a + b)[..|a + b| - 1] == a + front;
      assert (a + b)[|a + b| - 1] == last;
      calc {
        Unroll(a + b);
        Unroll(a + front) + RowLines(last);
        { UnrollAppend(a, front); }
        (Unroll(a) + Unroll(front)) + RowLines(last);
        Unroll(a) + (Unroll(front) + RowLines(last));
        Unroll(a) + Unroll(b);
      }
    }
  }

  /** Every line comes from a row that names its reference, and carries that row's cells. */
  lemma {:induction false} UnrollSound(rows: seq<Entry>, l: BomLine)
    requires l in Unroll(rows)
    ensures exists i :: 0 <= i < |rows| && l.reference in rows[i].references && l == Line(l.reference, rows[i])
  {
    var front := rows[..|rows| - 1];
    if l in Unroll(front) {
      UnrollSound(front, l);
      var i :| 0 <= i < |front| && l.reference in front[i].references && l == Line(l.reference, front[i]);
      assert front[i] == rows[i];
    } else {
      var e := rows[|rows| - 1];
      var k :| 0 <= k < |RowLines(e)| && RowLines(e)[k] == l;
      assert e.references[k] in e.references;
    }
  }

  /** Every reference of every row gets its line. */
  lemma {:induction false} UnrollComplete(rows: seq<Entry>, i: nat, ref: string)
    requires i < |rows| && ref in rows[i].references
    ensures Line(ref, rows[i]) in Unroll(rows)
  {
    var front := rows[..|rows| - 1];
    if i < |rows| - 1 {
      assert front[i] == rows[i];
      UnrollComplete(front, i, ref);
    } else {
      var refs := rows[i].references;
      var k :| 0 <= k < |refs| && refs[k] == ref;
      assert RowLines(rows[i])[k] == Line(ref, rows[i]);
    }
  }

  /**
   * The uploaded lines, stated on the CSV rows: each has quantity 1, a
   * trimmed non-empty reference without commas taken from some row's
   * Reference cell, and that row's Value, Footprint and MPN; and each
   * reference of each row has its line.
   */
  lemma UnrolledRows(rows: seq<Row>)
    ensures forall l :: l in Unroll(ReadBomRows(rows)) ==>
              && l.quantity == 1 && l.reference != "" && IsTrimmed(l.reference) && ',' !in l.reference
              && exists i :: 0 <= i < |rows| && l.reference in References(rows[i])
                             && l.value == Cell(rows[i], "Value") && l.footprint == Cell(rows[i], "Footprint")
                             && l.mpn == Cell(rows[i], "MPN")
    ensures forall i, ref :: 0 <= i < |rows| && ref in References(rows[i]) ==>
              BomLine(ref, Cell(rows[i], "Value"), Cell(rows[i], "Footprint"), Cell(rows[i], "MPN"), 1)
                in Unroll(ReadBomRows(rows))
  {
    var entries := ReadBomRows(rows);
    forall l | l in Unroll(entries)
      ensures && l.quantity == 1 && l.reference != "" && IsTrimmed(l.reference) && ',' !in l.reference
              && exists i :: 0 <= i < |rows| && l.reference in References(rows[i])
                             && l.value == Cell(rows[i], "Value") && l.footprint == Cell(rows[i], "Footprint")
                             && l.mpn == Cell(rows[i], "MPN")
    {
      UnrollSound(entries, l);
      var i :| 0 <= i < |entries| && l.reference in entries[i].references && l == Line(l.reference, entries[i]);
      assert l.reference in References(rows[i]);
    }
    forall i, ref | 0 <= i < |rows| && ref in References(rows[i])
      ensures BomLine(ref, Cell(rows[i], "Value"), Cell(rows[i], "Footprint"), Cell(rows[i], "MPN"), 1)
                in Unroll(entries)
    {
      UnrollComplete(entries, i, ref);
    }
  }

  /** The uploaded `file` field: its name and its rows, `None` when pandas cannot read it. */
  datatype BomFile = BomFile(filename: string, rows: Option<seq<Row>>)

  /** Where the upload answers: back to the form, to the BOM page, or 400. */
  datatype Outcome = ToIndex | ToBom | BadRequest

  /** The `bom_line` table. */
  class BomTable {
    var lines: seq<BomLine>

    constructor ()
      ensures lines == []
    {
      lines := [];
    }

    /** POST /upload_bom. */
    method UploadBom(file: Option<BomFile>) returns (o: Outcome)
      modifies this
      ensures file.None? || file.value.filename == "" ==> o == ToIndex && lines == old(lines)
      ensures file.Some? && file.value.filename != "" && file.value.rows.None? ==>
                o == BadRequest && lines == old(lines)
      ensures file.Some? && file.value.filename != "" && file.value.rows.Some? ==>
                o == ToBom && lines == Unroll(ReadBomRows(file.value.rows.value))
    {
      if file.None? || file.value.filename == "" {
        return ToIndex;
      }
      var session: seq<BomLine> := [];        // the table cleared, not yet committed
      if file.value.rows.None? {
        return BadRequest;                      // rolled back: the clearing is undone too
      }
      var rows := file.value.rows.value;
      ghost var entries := ReadBomRows(rows);
      var i := 0;
      while i < |rows|
        invariant 0 <= i <= |rows|
        invariant session == Unroll(entries[..i])
      {
        assert entries[..i + 1][..i] == entries[..i];
        session := AddRowLines(session, ReadBomRow(rows[i]));
        i := i + 1;
      }
      assert entries[..i] == entries;
      lines := session;                         // the commit
      o := ToBom;
    }
  }

  /** The loop over one row's references: a line for each, appended to the session. */
  method AddRowLines(session: seq<BomLine>, e: Entry) returns (r: seq<BomLine>)
    ensures r == session + RowLines(e)
  {
    r := session;
    var j := 0;
    while j < |e.references|
      invariant 0 <= j <= |e.references|
      invariant r == session + RowLines(e)[..j]
    {
      assert RowLines(e)[..j + 1] == RowLines(e)[..j] + [Line(e.references[j], e)];
      r := r + [Line(e.references[j], e)];
      j := j + 1;
    }
    assert RowLines(e)[..j] == RowLines(e);
  }
}
