/**
 * The label pages: `/labels/select` lists every part by name for picking,
 * `/labels/print` shows the picked parts by name.  Both only read.
 */
module LabelsRoutes {
  import opened Wrappers
  import opened Text
  import opened Models
  import opened Ordering

  function PartName(p: Part): string { p.name }

  /** `[int(id) for id in part_ids if id.isdigit()]`. */
  function KeptIds(ids: seq<string>): (r: seq<int>)
    ensures |r| <= |ids|
    ensures forall x :: x in r ==> x >= 0
  {
    if ids == [] then []
    else
      var front := KeptIds(ids[..|ids| - 1]);
      var last := ids[|ids| - 1];
      if IsDigits(last) then front + [DigitsValue(last)] else front
  }

  /** An id is kept exactly when some submitted string is all digits and spells it. */
  lemma {:induction false} KeptIdsMembers(ids: seq<string>, x: int)
    ensures x in KeptIds(ids) <==> exists i :: 0 <= i < |ids| && IsDigits(ids[i]) && DigitsValue(ids[i]) == x
  {
    if ids != [] {
      var front := ids[..|ids| - 1];
      KeptIdsMembers(front, x);
      if x in KeptIds(ids) && x !in KeptIds(front) {
        assert IsDigits(ids[|ids| - 1]) && DigitsValue(ids[|ids| - 1]) == x;
      }
      if exists i :: 0 <= i < |ids| && IsDigits(ids[i]) && DigitsValue(ids[i]) == x {
        var i :| 0 <= i < |ids| && IsDigits(ids[i]) && DigitsValue(ids[i]) == x;
        if i < |ids| - 1 {
          assert front[i] == ids[i];
        }
      }
    }
  }

  /** The rows of `rows` whose id is in `ids`, in their order. */
  function WithIds(rows: seq<Part>, ids: seq<int>): (r: seq<Part>)
    ensures forall p :: p in r <==> p in rows && p.id in ids
    ensures Distinct(rows) ==> Distinct(r)
  {
    if rows == [] then []
    else if rows[0].id in ids then [rows[0]] + WithIds(rows[1..], ids)
    else WithIds(rows[1..], ids)
  }

  lemma RowsDistinct(t: Tables)
    requires Valid(t)
    ensures Distinct(Rows(t))
  {
    var rows := Rows(t);
    forall i, j | 0 <= i < j < |rows| ensures rows[i] != rows[j] {
      assert rows[i].id < rows[j].id;
    }
  }

  /** GET /labels/select: every part once, ordered by name. */
  function SelectLabels(t: Tables): (r: seq<Part>)
    requires Valid(t)
    ensures SortedBy(r, PartName) && Distinct(r)
    ensures forall p :: p in r <==> p.id in t.parts && t.parts[p.id] == p
  {
    var rows := Rows(t);
    var r := SortBy(rows, PartName);
    RowsDistinct(t);
    PermutationMembers(rows, r);
    PermutationDistinct(rows, r);
    r
  }

  /**
   * GET /labels/print: the stored parts whose id is among the kept ids, each
   * once however often its id was sent, ordered by name.  `None` is the
   * server error when a kept id does not fit SQLite's INTEGER and the
   * `IN (...)` query cannot bind it.
   */
  function PrintLabels(t: Tables, partIds: seq<string>): (r: Option<seq<Part>>)
    requires Valid(t)
    ensures r.None? <==> exists x :: x in KeptIds(partIds) && !FitsInteger(x)
    ensures r.Some? ==> SortedBy(r.value, PartName) && Distinct(r.value)
    ensures r.Some? ==> forall p :: p in r.value <==> p.id in t.parts && t.parts[p.id] == p && p.id in KeptIds(partIds)
  {
    var ids := KeptIds(partIds);
    if exists x :: x in ids && !FitsInteger(x) then None
    else
      var rows := WithIds(Rows(t), ids);
      var r := SortBy(rows, PartName);
      RowsDistinct(t);
      PermutationMembers(rows, r);
      PermutationDistinct(rows, r);
      Some(r)
  }

  /** The ids kept from `sent` are exactly the ids of `picked`, when each string spells its part's id. */
  lemma KeptPickedIds(picked: seq<Part>, sent: seq<string>)
    requires |sent| == |picked|
    requires forall i :: 0 <= i < |sent| ==> IsDigits(sent[i]) && DigitsValue(sent[i]) == picked[i].id
    ensures forall x :: x in KeptIds(sent) <==> exists p :: p in picked && p.id == x
  {
    forall x ensures x in KeptIds(sent) <==> exists p :: p in picked && p.id == x {
      KeptIdsMembers(sent, x);
      if x in KeptIds(sent) {
        var i :| 0 <= i < |sent| && IsDigits(sent[i]) && DigitsValue(sent[i]) == x;
        assert picked[i] in picked;
      }
      if exists p :: p in picked && p.id == x {
        var p :| p in picked && p.id == x;
        var i :| 0 <= i < |picked| && picked[i] == p;
        assert IsDigits(sent[i]) && DigitsValue(sent[i]) == x;
      }
    }
  }

  /**
   * The two pages work together: sending back, as `str(part.id)`, the ids of
   * parts picked from the selection page prints exactly those parts, unless
   * one of their ids is beyond SQLite's INTEGER range.
   */
  lemma SelectThenPrint(t: Tables, picked: seq<Part>, sent: seq<string>)
    requires Valid(t)
    requires forall p :: p in picked ==> p in SelectLabels(t)
    requires |sent| == |picked| && forall i :: 0 <= i < |sent| ==> sent[i] == Render(picked[i].id)
    ensures PrintLabels(t, sent).Some? <==> forall p :: p in picked ==> FitsInteger(p.id)
    ensures PrintLabels(t, sent).Some? ==> forall p :: p in PrintLabels(t, sent).value <==> p in picked
  {
    forall i | 0 <= i < |sent| ensures IsDigits(sent[i]) && DigitsValue(sent[i]) == picked[i].id {
      assert picked[i] in SelectLabels(t);
    }
    KeptPickedIds(picked, sent);
    var r := PrintLabels(t, sent);
    if r.Some? {
      forall p | p in r.value ensures p in picked {
        var q :| q in picked && q.id == p.id;
        assert q in SelectLabels(t);
      }
    }
  }
}
