/**
 * POST /parts/upload: bulk import of parts from a CSV file.
 *
 * Each data row becomes one part.  Its `tags` cell is split on ',', each
 * piece trimmed, and each non-empty name is linked to the tag of exactly that
 * name, which is created when there is none.  The route commits after adding
 * each part and after creating each tag, and once more at the end; an error
 * rolls back to the last commit.  So the parts of the rows before a failing
 * row stay, but links appended since the last commit are lost with the
 * failure.
 *
 * The request's session is the `session` value; `committed` is what the
 * database holds.  Rows arrive already parsed by the CSV reader, one map from
 * column name to cell per data row.
 */
module CsvImport {
  import opened Wrappers
  import opened Text
  import opened Models
  import opened Database
  import opened Responses
  import PartsRoutes

  type Row = map<string, string>

  /** `row.get(column)`. */
  function Cell(row: Row, column: string): Option<string> {
    if column in row then Some(row[column]) else None
  }

  /** `int(row.get('quantity', 0))`; `None` is the exception `int()` raises. */
  function RowQuantity(row: Row): Option<int> {
    PartsRoutes.CreateQuantity(Cell(row, "quantity"))
  }

  /**
   * What the loop body reads from one row: the cells `row.get` returns, the
   * quantity `int()` makes of its cell, and the tag names of the row.
   */
  datatype Record = Record(
    name: Option<string>,
    category: Option<string>,
    package: Option<string>,
    quantity: Option<int>,
    location: Option<string>,
    note: Option<string>,
    tagNames: seq<string>)

  function ReadRow(row: Row): (r: Record)
    ensures r.name.Some? <==> "name" in row
    ensures r.quantity.Some? <==> !("quantity" in row && ParseInt(row["quantity"]).None?)
    ensures "quantity" !in row ==> r.quantity == Some(0)
    ensures "quantity" in row && IsDigits(row["quantity"]) ==> r.quantity == Some(DigitsValue(row["quantity"]))
  {
    Record(Cell(row, "name"), Cell(row, "category"), Cell(row, "package"), RowQuantity(row),
           Cell(row, "location"), Cell(row, "note"), RowTagNames(row))
  }

  /** The rows as the loop reads them, one record per row. */
  function ReadRows(rows: seq<Row>): (r: seq<Record>)
    ensures |r| == |rows| && forall i :: 0 <= i < |rows| ==> r[i] == ReadRow(rows[i])
  {
    seq(|rows|, i requires 0 <= i < |rows| => ReadRow(rows[i]))
  }

  /**
   * A row that raises: its quantity is not an integer, or it has no name,
   * which the NOT NULL constraint refuses at the commit after the add, or
   * its quantity is outside SQLite's INTEGER range, which that commit
   * cannot bind.
   */
  predicate Fails(r: Record) {
    r.quantity.None? || r.name.None? || !FitsInteger(r.quantity.value)
  }

  /** The part a row describes, before any tag is linked. */
  function NewPart(id: int, r: Record): (p: Part)
    requires !Fails(r)
    ensures p.id == id && p.tags == [] && p.imagePath.None?
    ensures Some(p.name) == r.name && Some(p.quantity) == r.quantity
    ensures p.category == r.category && p.package == r.package
    ensures p.location == r.location && p.note == r.note
  {
    Part(id, r.name.value, r.category, r.package, r.quantity.value, r.location, r.note, None, [])
  }

  /**
   * `[tag.strip() for tag in row['tags'].split(',')]` when the cell is there
   * and non-empty; the loop skips the empty names.
   */
  function RowTagNames(row: Row): seq<string> {
    if "tags" in row && row["tags"] != "" then Trimmed(Split(row["tags"], ',')) else []
  }

  /**
   * The names the tag loop links are the non-empty trimmed comma-separated
   * pieces of the `tags` cell: trimmed, free of commas, and none missing.
   */
  lemma RowTagNamesArePieces(row: Row)
    ensures forall n :: n in RowTagNames(row) && n != ""
              <==> "tags" in row && row["tags"] != "" && n in Pieces(row["tags"])
    ensures forall n :: n in RowTagNames(row) && n != "" ==> IsTrimmed(n) && ',' !in n
  {
  }

  /**
   * The tag loop of one row for the part `pid`: reuse the tag with the name or
   * create it (a commit), then append the link (pending until the next commit).
   */
  function LinkNames(committed: Tables, session: Tables, pid: int, names: seq<string>): (Tables, Tables)
    requires pid in session.parts
    decreases |names|
  {
    if names == [] then (committed, session)
    else if names[0] == "" then LinkNames(committed, session, pid, names[1..])
    else
      match FindTag(session.tags, names[0], {}, session.nextTag)
      case Some(x) => LinkNames(committed, Link(session, pid, x), pid, names[1..])
      case None =>
        var created := AddTag(session, names[0]);
        LinkNames(created, Link(created, pid, session.nextTag), pid, names[1..])
  }

  /**
   * The row loop: the committed database and whether every row went in.
   * A failing row rolls the session back to the last commit.
   */
  function ImportRows(committed: Tables, session: Tables, rows: seq<Record>): (Tables, bool)
    decreases |rows|
  {
    if rows == [] then (session, true)
    else if Fails(rows[0]) then (committed, false)
    else
      var next := Step(session, rows[0]);
      ImportRows(next.0, next.1, rows[1..])
  }

  /**
   * One row: add its part and commit, then run the tag loop; the committed
   * state and the session afterwards.
   */
  function Step(session: Tables, row: Record): (Tables, Tables)
    requires !Fails(row)
  {
    var added := AddPart(session, NewPart(session.nextPart, row));
    LinkNames(added, added, session.nextPart, row.tagNames)
  }

  /** The index of the first row that raises, or the number of rows. */
  function FirstFailure(rows: seq<Record>): (f: nat)
    ensures f <= |rows|
    ensures forall k :: 0 <= k < f ==> !Fails(rows[k])
    ensures f < |rows| ==> Fails(rows[f])
  {
    if rows == [] || Fails(rows[0]) then 0 else 1 + FirstFailure(rows[1..])
  }

  // ------------------------------------------------------- relations

  ghost predicate MapExtends(a: map<int, string>, b: map<int, string>) {
    forall k :: k in a ==> k in b && b[k] == a[k]
  }

  ghost predicate KeysBelow(t: Tables) {
    && (forall k :: k in t.parts ==> k < t.nextPart)
    && (forall k :: k in t.tags ==> k < t.nextTag)
  }

  /** `p` and `q` agree on every column; only their links may differ. */
  ghost predicate SameFields(p: Part, q: Part) {
    Columns(p) == Columns(q)
  }

  /** A part row without its links. */
  function Columns(p: Part): Part {
    p.(tags := [])
  }

  /** `v` is `w` with links appended to part `pid` and tags added, nothing else. */
  ghost predicate Touches(w: Tables, v: Tables, pid: int) {
    && pid in w.parts
    && v.parts.Keys == w.parts.Keys && v.nextPart == w.nextPart
    && (forall k :: k in w.parts && k != pid ==> v.parts[k] == w.parts[k])
    && SameFields(v.parts[pid], w.parts[pid])
    && w.parts[pid].tags <= v.parts[pid].tags
    && MapExtends(w.tags, v.tags) && w.nextTag <= v.nextTag
  }

  /** Part `pid` is linked to a tag named `name`. */
  ghost predicate Tagged(t: Tables, pid: int, name: string) {
    pid in t.parts && exists x :: x in t.parts[pid].tags && x in t.tags && t.tags[x] == name
  }

  /** The committed state trails the session: same rows, same columns, fewer tags. */
  ghost predicate Behind(c: Tables, w: Tables) {
    && c.parts.Keys == w.parts.Keys && c.nextPart == w.nextPart
    && (forall k :: k in c.parts ==> SameFields(c.parts[k], w.parts[k]))
    && MapExtends(c.tags, w.tags)
    && KeysBelow(w)
  }

  lemma SameFieldsTransitive(p: Part, q: Part, o: Part)
    requires SameFields(p, q) && SameFields(q, o)
    ensures SameFields(p, o)
  {
  }

  lemma TouchesTransitive(a: Tables, b: Tables, c: Tables, pid: int)
    requires Touches(a, b, pid) && Touches(b, c, pid)
    ensures Touches(a, c, pid)
  {
  }

  lemma TaggedKept(w: Tables, v: Tables, pid: int, k: int, name: string)
    requires Touches(w, v, pid) && Tagged(w, k, name)
    ensures Tagged(v, k, name)
  {
    var x :| x in w.parts[k].tags && x in w.tags && w.tags[x] == name;
    if k == pid {
      assert x in v.parts[pid].tags;
    }
  }

  // -------------------------------------------------------- tag loop

  /**
   * The tag loop touches only part `pid` and the tag table; every committed
   * state it passes through is a state of the session; and afterwards the
   * part is linked to a tag of every non-empty name.
   */
  lemma {:induction false} LinkNamesFrame(c: Tables, w: Tables, pid: int, names: seq<string>)
    requires pid in w.parts && KeysBelow(w)
    ensures var r := LinkNames(c, w, pid, names);
            && Touches(w, r.1, pid) && KeysBelow(r.1)
            && (r.0 == c || (Touches(w, r.0, pid) && Touches(r.0, r.1, pid)))
            && (forall n :: n in names && n != "" ==> Tagged(r.1, pid, n))
    decreases |names|
  {
    var r := LinkNames(c, w, pid, names);
    if names == [] {
    } else if names[0] == "" {
      LinkNamesFrame(c, w, pid, names[1..]);
    } else {
      var n := names[0];
      match FindTag(w.tags, n, {}, w.nextTag)
      case Some(x) =>
        var w1 := Link(w, pid, x);
        assert Tagged(w1, pid, n) by { assert x in w1.parts[pid].tags; }
        LinkNamesFrame(c, w1, pid, names[1..]);
        TouchesTransitive(w, w1, r.1, pid);
        if r.0 != c { TouchesTransitive(w, w1, r.0, pid); }
        TaggedKept(w1, r.1, pid, pid, n);
      case None =>
        var created := AddTag(w, n);
        var w1 := Link(created, pid, w.nextTag);
        assert Touches(w, created, pid);
        assert Tagged(w1, pid, n) by { assert w.nextTag in w1.parts[pid].tags; }
        LinkNamesFrame(created, w1, pid, names[1..]);
        TouchesTransitive(w, w1, r.1, pid);
        if r.0 != created { TouchesTransitive(w, w1, r.0, pid); }
        else { TouchesTransitive(created, w1, r.1, pid); }
        TaggedKept(w1, r.1, pid, pid, n);
    }
  }

  /**
   * From position `from` on, the links of part `pid` point to tags named
   * exactly `names`, one link per name, in order.
   */
  ghost predicate LinksNamed(t: Tables, pid: int, from: nat, names: seq<string>) {
    && pid in t.parts && |t.parts[pid].tags| == from + |names|
    && forall i :: from <= i < |t.parts[pid].tags| ==>
         t.parts[pid].tags[i] in t.tags && t.tags[t.parts[pid].tags[i]] == names[i - from]
  }

  /** Every tag of `v` that `w` does not have carries one of the non-empty `names`. */
  ghost predicate NewTagsNamedIn(w: map<int, string>, v: map<int, string>, names: seq<string>) {
    forall k :: k in v && k !in w ==> v[k] in NonEmpty(names)
  }

  /**
   * The converse of the frame lemma: the tag loop appends one link per
   * non-empty name, in order, each to a tag of that name, and creates no tag
   * whose name is not in the cell.
   */
  lemma {:induction false} LinkNamesExact(c: Tables, w: Tables, pid: int, names: seq<string>)
    requires pid in w.parts && KeysBelow(w)
    ensures var r := LinkNames(c, w, pid, names);
            && LinksNamed(r.1, pid, |w.parts[pid].tags|, NonEmpty(names))
            && NewTagsNamedIn(w.tags, r.1.tags, names)
    decreases |names|
  {
    var r := LinkNames(c, w, pid, names);
    if names == [] {
    } else if names[0] == "" {
      assert NonEmpty(names) == NonEmpty(names[1..]);
      assert r == LinkNames(c, w, pid, names[1..]);
      LinkNamesExact(c, w, pid, names[1..]);
    } else {
      var n := names[0];
      var found := FindTag(w.tags, n, {}, w.nextTag);
      var x := if found.Some? then found.value else w.nextTag;
      var c1 := if found.Some? then c else AddTag(w, n);
      var w1 := Link(if found.Some? then w else c1, pid, x);
      assert r == LinkNames(c1, w1, pid, names[1..]);
      assert forall k :: k in w1.tags && k !in w.tags ==> w1.tags[k] == n;
      assert KeysBelow(w1);
      LinkNamesExact(c1, w1, pid, names[1..]);
      LinkNamesFrame(c1, w1, pid, names[1..]);
      LinkNamesExactCons(w, w1, r.1, pid, x, names);
    }
  }

  /** The step of the converse for a non-empty first name linked to the tag `x`. */
  lemma LinkNamesExactCons(w: Tables, w1: Tables, v: Tables, pid: int, x: int, names: seq<string>)
    requires names != [] && names[0] != "" && pid in w.parts && pid in w1.parts
    requires w1.parts[pid].tags == w.parts[pid].tags + [x] && x in w1.tags && w1.tags[x] == names[0]
    requires forall k :: k in w1.tags && k !in w.tags ==> w1.tags[k] == names[0]
    requires Touches(w1, v, pid)
    requires LinksNamed(v, pid, |w1.parts[pid].tags|, NonEmpty(names[1..]))
    requires NewTagsNamedIn(w1.tags, v.tags, names[1..])
    ensures LinksNamed(v, pid, |w.parts[pid].tags|, NonEmpty(names))
    ensures NewTagsNamedIn(w.tags, v.tags, names)
  {
    var n := names[0];
    assert names == [n] + names[1..];
    assert NonEmpty(names) == [n] + NonEmpty(names[1..]);
    LinksNamedCons(w1, v, pid, |w.parts[pid].tags|, x, n, NonEmpty(names[1..]));
    NewTagsCons(w.tags, w1.tags, v.tags, n, names[1..]);
  }

  /** One more link in front, to a tag named `n`, that later steps keep. */
  lemma LinksNamedCons(w1: Tables, v: Tables, pid: int, from: nat, x: int, n: string, rest: seq<string>)
    requires pid in w1.parts && |w1.parts[pid].tags| == from + 1 && w1.parts[pid].tags[from] == x
    requires x in w1.tags && w1.tags[x] == n
    requires Touches(w1, v, pid) && LinksNamed(v, pid, from + 1, rest)
    ensures LinksNamed(v, pid, from, [n] + rest)
  {
    assert v.parts[pid].tags[from] == w1.parts[pid].tags[from];
  }

  /** A step that adds at most a tag named `n` keeps the created tags named in the cell. */
  lemma NewTagsCons(w: map<int, string>, w1: map<int, string>, v: map<int, string>, n: string, rest: seq<string>)
    requires n != ""
    requires forall k :: k in w1 && k !in w ==> w1[k] == n
    requires MapExtends(w1, v) && NewTagsNamedIn(w1, v, rest)
    ensures NewTagsNamedIn(w, v, [n] + rest)
  {
    assert NonEmpty([n] + rest) == [n] + NonEmpty(rest) by {
      assert ([n] + rest)[1..] == rest;
    }
  }

  /** The tag loop keeps both the committed state and the session valid. */
  lemma {:induction false} LinkNamesValid(c: Tables, w: Tables, pid: int, names: seq<string>)
    requires Valid(c) && Valid(w) && pid in w.parts
    ensures Valid(LinkNames(c, w, pid, names).0) && Valid(LinkNames(c, w, pid, names).1)
    decreases |names|
  {
    if names == [] {
    } else if names[0] == "" {
      LinkNamesValid(c, w, pid, names[1..]);
    } else {
      match FindTag(w.tags, names[0], {}, w.nextTag)
      case Some(x) =>
        LinkValid(w, pid, x);
        LinkNamesValid(c, Link(w, pid, x), pid, names[1..]);
      case None =>
        var created := AddTag(w, names[0]);
        AddTagValid(w, names[0]);
        LinkValid(created, pid, w.nextTag);
        LinkNamesValid(created, Link(created, pid, w.nextTag), pid, names[1..]);
    }
  }

  // -------------------------------------------------------- row loop

  /** After a row the committed state again trails the session. */
  lemma StepBehind(w: Tables, row: Record)
    requires KeysBelow(w) && !Fails(row)
    ensures var pid := w.nextPart;
            var s := Step(w, row);
            && Behind(s.0, s.1) && s.1.nextPart == pid + 1
            && s.1.parts.Keys == w.parts.Keys + {pid}
            && (forall k :: k in w.parts ==> s.0.parts[k] == w.parts[k] && s.1.parts[k] == w.parts[k])
            && SameFields(s.1.parts[pid], NewPart(pid, row))
            && MapExtends(w.tags, s.0.tags)
  {
    var pid := w.nextPart;
    var added := AddPart(w, NewPart(pid, row));
    assert KeysBelow(added);
    LinkNamesFrame(added, added, pid, row.tagNames);
  }

  /** A successful import went through its first row; a row that does not fail is stepped over. */
  lemma ImportRowsUnfold(c: Tables, w: Tables, rows: seq<Record>)
    requires rows != []
    ensures ImportRows(c, w, rows).1 ==> !Fails(rows[0])
    ensures !Fails(rows[0]) ==>
            ImportRows(c, w, rows) == ImportRows(Step(w, rows[0]).0, Step(w, rows[0]).1, rows[1..])
  {
  }

  /** After a row the session's keys are still below its counters, which moved by one part. */
  lemma StepKeys(w: Tables, row: Record)
    requires KeysBelow(w) && !Fails(row)
    ensures KeysBelow(Step(w, row).1) && Step(w, row).1.nextPart == w.nextPart + 1
  {
    StepBehind(w, row);
  }

  /** After a row its part is linked to a tag of every non-empty name in the row. */
  lemma StepLinks(w: Tables, row: Record)
    requires KeysBelow(w) && !Fails(row)
    ensures var s := Step(w, row);
            && Touches(AddPart(w, NewPart(w.nextPart, row)), s.1, w.nextPart)
            && (forall n :: n in row.tagNames && n != "" ==> Tagged(s.1, w.nextPart, n))
  {
    var added := AddPart(w, NewPart(w.nextPart, row));
    assert KeysBelow(added);
    LinkNamesFrame(added, added, w.nextPart, row.tagNames);
  }

  /**
   * The converse: the row's part is linked to nothing else, one link per
   * non-empty name, in the order of the cell, and every tag the row created
   * carries one of those names.
   */
  lemma StepLinksExactly(w: Tables, row: Record)
    requires KeysBelow(w) && !Fails(row)
    ensures var s := Step(w, row);
            && LinksNamed(s.1, w.nextPart, 0, NonEmpty(row.tagNames))
            && NewTagsNamedIn(w.tags, s.1.tags, row.tagNames)
  {
    var added := AddPart(w, NewPart(w.nextPart, row));
    assert KeysBelow(added);
    LinkNamesExact(added, added, w.nextPart, row.tagNames);
  }

  /** The tags the committed state of a row has beyond the session's were created by the row. */
  lemma StepNewTags(w: Tables, row: Record)
    requires KeysBelow(w) && !Fails(row)
    ensures var s := Step(w, row);
            && MapExtends(w.tags, s.0.tags) && MapExtends(s.0.tags, s.1.tags)
            && NewTagsNamedIn(w.tags, s.0.tags, row.tagNames)
  {
    var added := AddPart(w, NewPart(w.nextPart, row));
    assert KeysBelow(added);
    LinkNamesFrame(added, added, w.nextPart, row.tagNames);
    StepLinksExactly(w, row);
  }

  lemma StepValid(w: Tables, row: Record)
    requires Valid(w) && !Fails(row)
    ensures Valid(Step(w, row).0) && Valid(Step(w, row).1)
  {
    var added := AddPart(w, NewPart(w.nextPart, row));
    AddPartValid(w, NewPart(w.nextPart, row));
    LinkNamesValid(added, added, w.nextPart, row.tagNames);
  }

  lemma {:induction false} ImportRowsValid(c: Tables, w: Tables, rows: seq<Record>)
    requires Valid(c) && Valid(w)
    ensures Valid(ImportRows(c, w, rows).0)
    decreases |rows|
  {
    if rows != [] && !Fails(rows[0]) {
      StepValid(w, rows[0]);
      var s := Step(w, rows[0]);
      ImportRowsValid(s.0, s.1, rows[1..]);
    }
  }

  /** The import reports success exactly when no row raises. */
  lemma {:induction false} ImportRowsOutcome(c: Tables, w: Tables, rows: seq<Record>)
    ensures ImportRows(c, w, rows).1 <==> FirstFailure(rows) == |rows|
    decreases |rows|
  {
    if rows != [] && !Fails(rows[0]) {
      var s := Step(w, rows[0]);
      ImportRowsOutcome(s.0, s.1, rows[1..]);
    }
  }

  /**
   * The rows before the first failing one stay committed, under consecutive
   * new keys; no other key appears and no tag is lost.
   */
  lemma {:induction false} ImportRowsKeys(c: Tables, w: Tables, rows: seq<Record>)
    requires Behind(c, w)
    ensures var r := ImportRows(c, w, rows);
            var f := FirstFailure(rows);
            && r.0.nextPart == w.nextPart + f
            && (forall k :: k in r.0.parts <==> k in w.parts || w.nextPart <= k < w.nextPart + f)
            && MapExtends(c.tags, r.0.tags)
    decreases |rows|
  {
    if rows != [] && !Fails(rows[0]) {
      StepBehind(w, rows[0]);
      var s := Step(w, rows[0]);
      ImportRowsKeys(s.0, s.1, rows[1..]);
    }
  }

  /**
   * The parts that were there keep their columns; one that was committed as
   * the session had it is not changed at all.
   */
  lemma {:induction false} ImportRowsKeepsOld(c: Tables, w: Tables, rows: seq<Record>)
    requires Behind(c, w)
    ensures var r := ImportRows(c, w, rows);
            && (forall k :: k in w.parts ==> k in r.0.parts && SameFields(r.0.parts[k], w.parts[k]))
            && (forall k :: k in w.parts && c.parts[k] == w.parts[k] ==> r.0.parts[k] == w.parts[k])
    decreases |rows|
  {
    if rows != [] && !Fails(rows[0]) {
      StepBehind(w, rows[0]);
      var s := Step(w, rows[0]);
      ImportRowsKeepsOld(s.0, s.1, rows[1..]);
    }
  }

  /** The `i`th row's part, when it went in, carries the row's columns. */
  lemma {:induction false} ImportRowsNewColumns(c: Tables, w: Tables, rows: seq<Record>, i: nat)
    requires Behind(c, w) && i < FirstFailure(rows)
    ensures var r := ImportRows(c, w, rows);
            w.nextPart + i in r.0.parts
            && SameFields(r.0.parts[w.nextPart + i], NewPart(w.nextPart + i, rows[i]))
    decreases |rows|
  {
    var s := Step(w, rows[0]);
    ImportRowsUnfold(c, w, rows);
    StepBehind(w, rows[0]);
    if i == 0 {
      ImportRowsKeepsOld(s.0, s.1, rows[1..]);
    } else {
      assert rows[1..][i - 1] == rows[i];
      ImportRowsNewColumns(s.0, s.1, rows[1..], i - 1);
    }
  }

  /** On success a link the session already had is still there. */
  lemma {:induction false} ImportRowsKeepsTagged(c: Tables, w: Tables, rows: seq<Record>, k: int, n: string)
    requires KeysBelow(w) && Tagged(w, k, n) && ImportRows(c, w, rows).1
    ensures Tagged(ImportRows(c, w, rows).0, k, n)
    decreases |rows|
  {
    if rows != [] {
      var pid := w.nextPart;
      var added := AddPart(w, NewPart(pid, rows[0]));
      StepBehind(w, rows[0]);
      StepLinks(w, rows[0]);
      var s := Step(w, rows[0]);
      assert Tagged(added, k, n) by {
        var x :| x in w.parts[k].tags && x in w.tags && w.tags[x] == n;
        assert x in added.parts[k].tags;
      }
      TaggedKept(added, s.1, pid, k, n);
      ImportRowsKeepsTagged(s.0, s.1, rows[1..], k, n);
    }
  }

  /**
   * On success the part of the `i`th row is linked to a tag of each
   * non-empty name in its `tags` cell.
   */
  lemma {:induction false} ImportRowsLinksRow(c: Tables, w: Tables, rows: seq<Record>, i: nat, n: string)
    requires KeysBelow(w) && ImportRows(c, w, rows).1
    requires i < |rows| && n in rows[i].tagNames && n != ""
    ensures Tagged(ImportRows(c, w, rows).0, w.nextPart + i, n)
    decreases |rows|
  {
    if i == 0 {
      ImportRowsTagsFirst(c, w, rows, n);
    } else {
      var s := Step(w, rows[0]);
      ImportRowsUnfold(c, w, rows);
      StepKeys(w, rows[0]);
      assert rows[1..][i - 1] == rows[i];
      ImportRowsLinksRow(s.0, s.1, rows[1..], i - 1, n);
    }
  }

  lemma ImportRowsTagsFirst(c: Tables, w: Tables, rows: seq<Record>, n: string)
    requires KeysBelow(w) && ImportRows(c, w, rows).1
    requires rows != [] && n in rows[0].tagNames && n != ""
    ensures Tagged(ImportRows(c, w, rows).0, w.nextPart, n)
  {
    var s := Step(w, rows[0]);
    ImportRowsUnfold(c, w, rows);
    StepKeys(w, rows[0]);
    StepLinks(w, rows[0]);
    ImportRowsKeepsTagged(s.0, s.1, rows[1..], w.nextPart, n);
  }

  /** Links to the same tags name the same names once the tag table has only grown. */
  lemma LinksNamedKept(v: Tables, u: Tables, pid: int, names: seq<string>)
    requires LinksNamed(v, pid, 0, names)
    requires pid in u.parts && u.parts[pid] == v.parts[pid] && MapExtends(v.tags, u.tags)
    ensures LinksNamed(u, pid, 0, names)
  {
    var links := v.parts[pid].tags;
    assert u.parts[pid].tags == links;
    forall i | 0 <= i < |links| ensures links[i] in u.tags && u.tags[links[i]] == names[i] {
      var k := links[i];
      assert k in v.tags && v.tags[k] == names[i - 0];
      assert k in u.tags;
    }
  }

  /** On success a part of the session comes out as the session had it, and no tag is lost. */
  lemma {:induction false} ImportRowsKeepsSession(c: Tables, w: Tables, rows: seq<Record>, k: int)
    requires KeysBelow(w) && ImportRows(c, w, rows).1 && k in w.parts
    ensures var r := ImportRows(c, w, rows).0;
            && k in r.parts && r.parts[k] == w.parts[k]
            && MapExtends(w.tags, r.tags)
    decreases |rows|
  {
    if rows != [] {
      ImportRowsUnfold(c, w, rows);
      StepLinks(w, rows[0]);
      StepKeys(w, rows[0]);
      var s := Step(w, rows[0]);
      ImportRowsKeepsSession(s.0, s.1, rows[1..], k);
    }
  }

  /**
   * On success the part of the `i`th row has exactly one link per non-empty
   * name of its `tags` cell, in order, each to the tag of that name.
   */
  lemma {:induction false} ImportRowsLinksExactly(c: Tables, w: Tables, rows: seq<Record>, i: nat)
    requires KeysBelow(w) && ImportRows(c, w, rows).1 && i < |rows|
    ensures LinksNamed(ImportRows(c, w, rows).0, w.nextPart + i, 0, NonEmpty(rows[i].tagNames))
    decreases |rows|
  {
    if i == 0 {
      ImportRowsLinksFirst(c, w, rows);
    } else {
      var s := Step(w, rows[0]);
      ImportRowsUnfold(c, w, rows);
      StepKeys(w, rows[0]);
      assert rows[1..][i - 1] == rows[i];
      ImportRowsLinksExactly(s.0, s.1, rows[1..], i - 1);
    }
  }

  lemma ImportRowsLinksFirst(c: Tables, w: Tables, rows: seq<Record>)
    requires KeysBelow(w) && ImportRows(c, w, rows).1 && rows != []
    ensures LinksNamed(ImportRows(c, w, rows).0, w.nextPart, 0, NonEmpty(rows[0].tagNames))
  {
    var s := Step(w, rows[0]);
    ImportRowsUnfold(c, w, rows);
    StepKeys(w, rows[0]);
    StepLinksExactly(w, rows[0]);
    ImportRowsKeepsSession(s.0, s.1, rows[1..], w.nextPart);
    LinksNamedKept(s.1, ImportRows(c, w, rows).0, w.nextPart, NonEmpty(rows[0].tagNames));
  }

  /**
   * Whatever the outcome, every tag the import left committed that the
   * session did not have carries a non-empty name from some row's cell, and
   * the tags the session had keep their names.
   */
  lemma {:induction false} ImportRowsCreatedTags(c: Tables, w: Tables, rows: seq<Record>)
    requires Behind(c, w)
    ensures var r := ImportRows(c, w, rows).0;
            && (forall k :: k in r.tags && k in w.tags ==> r.tags[k] == w.tags[k])
            && (forall k :: k in r.tags && k !in w.tags ==>
                  exists i :: 0 <= i < |rows| && r.tags[k] in NonEmpty(rows[i].tagNames))
    decreases |rows|
  {
    if rows != [] && !Fails(rows[0]) {
      var s := Step(w, rows[0]);
      var r := ImportRows(c, w, rows).0;
      StepBehind(w, rows[0]);
      StepLinks(w, rows[0]);
      StepLinksExactly(w, rows[0]);
      ImportRowsCreatedTags(s.0, s.1, rows[1..]);
      forall k | k in r.tags && k !in w.tags
        ensures exists i :: 0 <= i < |rows| && r.tags[k] in NonEmpty(rows[i].tagNames)
      {
        if k in s.1.tags {
          assert r.tags[k] in NonEmpty(rows[0].tagNames);
        } else {
          var i :| 0 <= i < |rows[1..]| && r.tags[k] in NonEmpty(rows[1..][i].tagNames);
          assert rows[1..][i] == rows[i + 1];
        }
      }
    }
  }

  // ------------------------------------------------- what it promises

  /**
   * Starting from a valid database, the import commits every row before the
   * first failing one as a new part under consecutive keys, with its columns,
   * and leaves the parts that were there as they were.
   */
  lemma ImportCommitsPrefix(t: Tables, rows: seq<Record>)
    requires Valid(t)
    ensures var r := ImportRows(t, t, rows);
            var f := FirstFailure(rows);
            && (r.1 <==> f == |rows|)
            && r.0.nextPart == t.nextPart + f
            && (forall k :: k in r.0.parts <==> k in t.parts || t.nextPart <= k < t.nextPart + f)
            && (forall k :: k in t.parts ==> r.0.parts[k] == t.parts[k])
            && (forall i :: 0 <= i < f ==> SameFields(r.0.parts[t.nextPart + i], NewPart(t.nextPart + i, rows[i])))
            && MapExtends(t.tags, r.0.tags)
  {
    ImportRowsOutcome(t, t, rows);
    ImportRowsKeys(t, t, rows);
    ImportRowsKeepsOld(t, t, rows);
    forall i | 0 <= i < FirstFailure(rows)
      ensures SameFields(ImportRows(t, t, rows).0.parts[t.nextPart + i], NewPart(t.nextPart + i, rows[i]))
    {
      ImportRowsNewColumns(t, t, rows, i);
    }
  }

  /**
   * A successful import links two rows that name the same tag to one and the
   * same tag row: the second row reuses the tag the first one created.
   */
  lemma ImportSharesTags(t: Tables, rows: seq<Record>, i: nat, j: nat, n: string)
    requires Valid(t) && ImportRows(t, t, rows).1
    requires i < |rows| && j < |rows| && n != "" && n in rows[i].tagNames && n in rows[j].tagNames
    ensures var r := ImportRows(t, t, rows).0;
            && t.nextPart + i in r.parts && t.nextPart + j in r.parts
            && exists x :: x in r.tags && r.tags[x] == n
                           && x in r.parts[t.nextPart + i].tags && x in r.parts[t.nextPart + j].tags
  {
    var r := ImportRows(t, t, rows).0;
    ImportRowsValid(t, t, rows);
    ImportRowsLinksRow(t, t, rows, i, n);
    ImportRowsLinksRow(t, t, rows, j, n);
    var x :| x in r.parts[t.nextPart + i].tags && x in r.tags && r.tags[x] == n;
    var y :| y in r.parts[t.nextPart + j].tags && y in r.tags && r.tags[y] == n;
    assert x == y;
  }

  /**
   * A successful import gives the part of the `i`th row one link per
   * non-empty name of its cell and no other: as many links as names, the
   * `j`th to the tag named by the `j`th name.  Every tag it created is named
   * in some row.
   */
  lemma ImportLinksCell(t: Tables, rows: seq<Record>, i: nat)
    requires Valid(t) && ImportRows(t, t, rows).1 && i < |rows|
    ensures var r := ImportRows(t, t, rows).0;
            var names := NonEmpty(rows[i].tagNames);
            && t.nextPart + i in r.parts
            && |r.parts[t.nextPart + i].tags| == |names|
            && (forall j :: 0 <= j < |names| ==>
                  r.parts[t.nextPart + i].tags[j] in r.tags && r.tags[r.parts[t.nextPart + i].tags[j]] == names[j])
            && (forall k :: k in r.tags && k !in t.tags ==>
                  exists h :: 0 <= h < |rows| && r.tags[k] in NonEmpty(rows[h].tagNames))
  {
    ImportRowsLinksExactly(t, t, rows, i);
    ImportRowsCreatedTags(t, t, rows);
  }

  /**
   * Two good rows whose cells read `a,b` and `b,c`: both go in, each part
   * gets exactly two links, and every tag created carries one of the three
   * names.
   */
  lemma TwoRowsTwoLinksEach(t: Tables, rows: seq<Record>, a: string, b: string, c: string)
    requires Valid(t) && |rows| == 2 && !Fails(rows[0]) && !Fails(rows[1])
    requires a != "" && b != "" && c != ""
    requires rows[0].tagNames == [a, b] && rows[1].tagNames == [b, c]
    ensures var r := ImportRows(t, t, rows);
            && r.1
            && t.nextPart in r.0.parts && |r.0.parts[t.nextPart].tags| == 2
            && t.nextPart + 1 in r.0.parts && |r.0.parts[t.nextPart + 1].tags| == 2
            && forall k :: k in r.0.tags && k !in t.tags ==> r.0.tags[k] in [a, b, c]
  {
    TwoGoodRowsGoIn(t, rows);
    NonEmptyPair(a, b);
    NonEmptyPair(b, c);
    ImportLinkCount(t, rows, 0);
    ImportLinkCount(t, rows, 1);
    TwoRowsNewTags(t, rows, a, b, c);
  }

  lemma TwoGoodRowsGoIn(t: Tables, rows: seq<Record>)
    requires |rows| == 2 && !Fails(rows[0]) && !Fails(rows[1])
    ensures ImportRows(t, t, rows).1
  {
    assert FirstFailure(rows) == 2 by {
      assert FirstFailure(rows[1..]) == 1 by { assert rows[1..][0] == rows[1] && rows[1..][1..] == []; }
    }
    ImportRowsOutcome(t, t, rows);
  }

  lemma NonEmptyPair(a: string, b: string)
    requires a != "" && b != ""
    ensures NonEmpty([a, b]) == [a, b]
  {
    assert [a, b][1..] == [b];
    assert [b][1..] == [];
  }

  lemma TwoRowsNewTags(t: Tables, rows: seq<Record>, a: string, b: string, c: string)
    requires Valid(t) && |rows| == 2 && a != "" && b != "" && c != ""
    requires rows[0].tagNames == [a, b] && rows[1].tagNames == [b, c]
    ensures var r := ImportRows(t, t, rows).0;
            forall k :: k in r.tags && k !in t.tags ==> r.tags[k] in [a, b, c]
  {
    NonEmptyPair(a, b);
    NonEmptyPair(b, c);
    ImportRowsCreatedTags(t, t, rows);
    var r := ImportRows(t, t, rows).0;
    forall k | k in r.tags && k !in t.tags ensures r.tags[k] in [a, b, c] {
      var h :| 0 <= h < |rows| && r.tags[k] in NonEmpty(rows[h].tagNames);
      assert h == 0 || h == 1;
    }
  }

  lemma ImportLinkCount(t: Tables, rows: seq<Record>, i: nat)
    requires Valid(t) && ImportRows(t, t, rows).1 && i < |rows|
    ensures var r := ImportRows(t, t, rows).0;
            t.nextPart + i in r.parts && |r.parts[t.nextPart + i].tags| == |NonEmpty(rows[i].tagNames)|
  {
    ImportRowsLinksExactly(t, t, rows, i);
  }

  /**
   * The per-row commits in action: the first row's new tag is committed, but
   * its link, still pending, is rolled back when the second row fails.
   */
  lemma FailedRowDropsPendingLink()
    ensures var rows := [Record(Some("R1"), None, None, Some(5), None, None, ["resistor"]),
                         Record(Some("C1"), None, None, None, None, None, [])];
            var r := ImportRows(Empty(), Empty(), rows);
            && !r.1
            && r.0.tags == map[1 := "resistor"]
            && r.0.parts.Keys == {1} && r.0.parts[1].tags == []
  {
    var rows := [Record(Some("R1"), None, None, Some(5), None, None, ["resistor"]),
                 Record(Some("C1"), None, None, None, None, None, [])];
    var added := AddPart(Empty(), NewPart(1, rows[0]));
    assert FindTag(added.tags, "resistor", {}, 1).None?;
    var created := AddTag(added, "resistor");
    assert Step(Empty(), rows[0]).0 == created;
    assert rows[1..][0] == rows[1];
  }

  /**
   * A quantity beyond SQLite's INTEGER range, such as 10^20, parses but the
   * commit after the add refuses it: the import reports failure and keeps
   * at most the parts of the rows before it.
   */
  lemma OversizedQuantityStops(t: Tables, rows: seq<Record>, i: nat)
    requires Valid(t) && i < |rows| && rows[i].quantity.Some? && !FitsInteger(rows[i].quantity.value)
    ensures !ImportRows(t, t, rows).1
    ensures ImportRows(t, t, rows).0.nextPart <= t.nextPart + i
    ensures forall k :: k in ImportRows(t, t, rows).0.parts ==> k in t.parts || t.nextPart <= k < t.nextPart + i
  {
    ImportCommitsPrefix(t, rows);
    assert Fails(rows[i]);
  }

  // ------------------------------------------------------------ route

  /** The uploaded file: its name and its rows, `None` when it cannot be decoded. */
  datatype Upload = Upload(filename: string, rows: Option<seq<Row>>)

  /**
   * The tag loop of one row, on the session `session` and the database; the
   * new session.
   */
  method LinkRowTags(db: Store, session: Tables, pid: int, names: seq<string>) returns (linked: Tables)
    requires pid in session.parts
    modifies db
    ensures (db.Tables(), linked) == LinkNames(old(db.Tables()), session, pid, names)
  {
    linked := session;
    var j := 0;
    while j < |names|
      invariant 0 <= j <= |names|
      invariant pid in linked.parts
      invariant LinkNames(db.Tables(), linked, pid, names[j..]) == LinkNames(old(db.Tables()), session, pid, names)
    {
      assert names[j..][0] == names[j] && names[j..][1..] == names[j + 1..];
      var name := names[j];
      if name != "" {
        var found := FindTag(linked.tags, name, {}, linked.nextTag);
        match found
        case Some(x) =>
          linked := Link(linked, pid, x);
        case None =>
          var x := linked.nextTag;
          linked := AddTag(linked, name);
          db.Commit(linked);           // the new tag is saved, with every link made so far
          linked := Link(linked, pid, x);
      }
      j := j + 1;
    }
    assert names[j..] == [];
  }

  /** POST /parts/upload; `field` is the `csv_file` part of the request. */
  method ImportCsv(db: Store, field: Option<Upload>) returns (r: Reply)
    requires db.Valid()
    modifies db
    ensures db.Valid()
    ensures field.None? ==> r == Redirect(Some(NoFileField)) && unchanged(db)
    ensures field.Some? && field.value.filename == "" ==> r == Redirect(Some(NoFileSelected)) && unchanged(db)
    ensures (field.Some? && field.value.filename != "" && !PartsRoutes.AllowedFile(field.value.filename)) ==>
              r == Redirect(Some(DisallowedType)) && unchanged(db)
    ensures (field.Some? && field.value.filename != "" && PartsRoutes.AllowedFile(field.value.filename)
             && field.value.rows.None?) ==>
              r == Redirect(Some(ImportFailed)) && unchanged(db)
    ensures (field.Some? && field.value.filename != "" && PartsRoutes.AllowedFile(field.value.filename)
             && field.value.rows.Some?) ==>
              var result := ImportRows(old(db.Tables()), old(db.Tables()), ReadRows(field.value.rows.value));
              && db.Tables() == result.0
              && r == Redirect(Some(if result.1 then ImportDone else ImportFailed))
  {
    if field.None? {
      return Redirect(Some(NoFileField));
    }
    var file := field.value;
    if file.filename == "" {
      return Redirect(Some(NoFileSelected));
    }
    if !PartsRoutes.AllowedFile(file.filename) {
      return Redirect(Some(DisallowedType));
    }
    if file.rows.None? {
      return Redirect(Some(ImportFailed));
    }
    var rows := file.rows.value;
    ghost var start := db.Tables();
    ghost var records := ReadRows(rows);
    ImportRowsValid(start, start, records);
    var session := db.Tables();
    var i := 0;
    while i < |rows|
      invariant 0 <= i <= |rows|
      invariant ImportRows(db.Tables(), session, records[i..]) == ImportRows(start, start, records)
    {
      var record := ReadRow(rows[i]);
      assert records[i..][0] == record && records[i..][1..] == records[i + 1..];
      if Fails(record) {
        return Redirect(Some(ImportFailed));     // rolled back to the last commit
      }
      ghost var next := Step(session, record);
      var pid := session.nextPart;
      session := AddPart(session, NewPart(pid, record));
      db.Commit(session);                        // the part gets its id
      session := LinkRowTags(db, session, pid, record.tagNames);
      assert (db.Tables(), session) == next;
      i := i + 1;
    }
    assert records[i..] == [];
    db.Commit(session);
    r := Redirect(Some(ImportDone));
  }
}
