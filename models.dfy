/**
 * The parts-manager schema: a Part row, a Tag row and the `part_tag` link
 * table.  A part's links are kept on the part as the list of tag ids it was
 * given (the `Part.tags` relationship); the tag side (`Tag.parts`, the
 * backref) is computed from them.  The whole database is one `Tables` value,
 * with the counters that hand out fresh primary keys.
 */
module Models {
  import opened Wrappers
  import Text

  datatype Part = Part(
    id: int,
    name: string,                 // NOT NULL
    category: Option<string>,
    package: Option<string>,
    quantity: int,
    location: Option<string>,
    note: Option<string>,
    imagePath: Option<string>,
    tags: seq<int>)               // the part_tag rows of this part, in the order they were added

  datatype Tag = Tag(id: int, name: string)

  datatype Tables = Tables(
    parts: map<int, Part>,
    tags: map<int, string>,       // tag id to its (unique) name
    nextPart: nat,
    nextTag: nat)

  /**
   * SQLite keeps an INTEGER in 64 bits: a Python int outside this range
   * raises OverflowError when a statement binds it.
   */
  const MinInteger: int := -0x8000_0000_0000_0000
  const MaxInteger: int := 0x7FFF_FFFF_FFFF_FFFF

  predicate FitsInteger(n: int) {
    MinInteger <= n <= MaxInteger
  }

  /** A fresh database: no rows, keys start at 1. */
  function Empty(): (t: Tables)
    ensures Valid(t)
  {
    Tables(map[], map[], 1, 1)
  }

  /** The unique constraint on `Tag.name`. */
  ghost predicate TagNamesDistinct(tags: map<int, string>) {
    forall a, b :: a in tags && b in tags && tags[a] == tags[b] ==> a == b
  }

  /** Every part_tag row names an existing part and an existing tag. */
  ghost predicate LinksResolve(t: Tables) {
    forall k, x :: k in t.parts && x in t.parts[k].tags ==> x in t.tags
  }

  /** Every row sits under its own integer primary key, below the next key to hand out. */
  ghost predicate KeysConsistent(t: Tables) {
    && t.nextPart > 0 && t.nextTag > 0
    && (forall k :: k in t.parts ==> t.parts[k].id == k && 0 < k < t.nextPart)
    && (forall k :: k in t.tags ==> 0 < k < t.nextTag)
  }

  ghost predicate Valid(t: Tables) {
    KeysConsistent(t) && TagNamesDistinct(t.tags) && LinksResolve(t)
  }

  // ------------------------------------------------------------ queries

  /**
   * `Tag.query.filter(Tag.name == name, Tag.id not in skip).first()`, scanning
   * the keys below `n` from the top.  With the unique index at most one row
   * can match, so which one `first()` picks does not matter.
   */
  function FindTag(tags: map<int, string>, name: string, skip: set<int>, n: nat): (r: Option<int>)
    ensures r.Some? ==> r.value in tags && tags[r.value] == name && r.value !in skip && 0 <= r.value < n
    ensures r.None? ==> forall k :: k in tags && 0 <= k < n && k !in skip ==> tags[k] != name
  {
    if n == 0 then None
    else if n - 1 in tags && n - 1 !in skip && tags[n - 1] == name then Some(n - 1)
    else FindTag(tags, name, skip, n - 1)
  }

  /** Over a valid database the scan finds a tag exactly when one has that name. */
  lemma FindTagComplete(t: Tables, name: string, skip: set<int>)
    requires Valid(t)
    ensures FindTag(t.tags, name, skip, t.nextTag).None?
            <==> forall k :: k in t.tags && k !in skip ==> t.tags[k] != name
  {
  }

  /**
   * `Tag.query.get(key)` for an id submitted as text: a string of digits
   * names the tag with that key; any other string matches no row.
   */
  function TagLookup(tags: map<int, string>, key: string): (r: Option<int>)
    ensures r.Some? ==> r.value in tags && Text.IsDigits(key) && r.value == Text.DigitsValue(key)
    ensures !Text.IsDigits(key) ==> r == None
    ensures forall x: nat :: x in tags && key == Text.Decimal(x) ==> r == Some(x)
  {
    if Text.IsDigits(key) && Text.DigitsValue(key) in tags then Some(Text.DigitsValue(key)) else None
  }

  /**
   * The tag ids a route links for the submitted ids `selected`: each id that
   * resolves to a tag, in submission order; unknown ids are skipped.
   */
  function ResolveTags(tags: map<int, string>, selected: seq<string>): (r: seq<int>)
    ensures |r| <= |selected|
    ensures forall x :: x in r ==> x in tags
  {
    if selected == [] then []
    else
      var front := ResolveTags(tags, selected[..|selected| - 1]);
      match TagLookup(tags, selected[|selected| - 1])
      case Some(x) => front + [x]
      case None => front
  }

  /** A tag is linked exactly when it exists and one of the submitted ids names it. */
  lemma {:induction false} ResolveTagsMembers(tags: map<int, string>, selected: seq<string>, x: int)
    ensures x in ResolveTags(tags, selected)
            <==> x in tags && exists i :: 0 <= i < |selected| && TagLookup(tags, selected[i]) == Some(x)
  {
    if selected != [] {
      var front := selected[..|selected| - 1];
      ResolveTagsMembers(tags, front, x);
      if x in ResolveTags(tags, front) {
        var i :| 0 <= i < |front| && TagLookup(tags, front[i]) == Some(x);
        assert selected[i] == front[i];
      }
      if exists i :: 0 <= i < |selected| && TagLookup(tags, selected[i]) == Some(x) {
        var i :| 0 <= i < |selected| && TagLookup(tags, selected[i]) == Some(x);
        if i < |front| { assert front[i] == selected[i]; }
      }
    }
  }

  /** The parts linked to tag `x`: the `Tag.parts` backref, the inverse of `Part.tags`. */
  function PartsOfTag(t: Tables, x: int): (r: set<int>)
    ensures forall k :: k in r <==> k in t.parts && x in t.parts[k].tags
  {
    set k | k in t.parts && x in t.parts[k].tags
  }

  /** Linking part `k` to tag `x` adds `k` to the backref of `x` and changes no other backref. */
  lemma PartsOfTagLink(t: Tables, k: int, x: int, y: int)
    requires k in t.parts
    ensures PartsOfTag(Link(t, k, x), y) == if y == x then PartsOfTag(t, y) + {k} else PartsOfTag(t, y)
  {
    var r := Link(t, k, x);
    forall j ensures j in PartsOfTag(r, y) <==> j in (if y == x then PartsOfTag(t, y) + {k} else PartsOfTag(t, y)) {
      if j == k {
        assert r.parts[k].tags == t.parts[k].tags + [x];
        assert y in r.parts[k].tags <==> y in t.parts[k].tags || y == x;
      }
    }
  }

  /** Removing part `k` removes it from every backref and changes nothing else in them. */
  lemma PartsOfTagDeletePart(t: Tables, k: int, y: int)
    ensures PartsOfTag(t.(parts := t.parts - {k}), y) == PartsOfTag(t, y) - {k}
  {
  }

  /** The part rows with keys below `n`, in key order (a table scan). */
  function RowsBelow(parts: map<int, Part>, n: nat): (r: seq<Part>)
    requires forall k :: k in parts ==> parts[k].id == k
    ensures forall p :: p in r <==> p.id in parts && parts[p.id] == p && 0 <= p.id < n
    ensures forall i, j :: 0 <= i < j < |r| ==> r[i].id < r[j].id
  {
    if n == 0 then []
    else if n - 1 in parts then RowsBelow(parts, n - 1) + [parts[n - 1]]
    else RowsBelow(parts, n - 1)
  }

  /** Every stored part, once, in key order. */
  function Rows(t: Tables): (r: seq<Part>)
    requires Valid(t)
    ensures forall p :: p in r <==> p.id in t.parts && t.parts[p.id] == p
  {
    RowsBelow(t.parts, t.nextPart)
  }

  /** The tag rows with keys below `n`, in key order. */
  function TagRowsBelow(tags: map<int, string>, n: nat): (r: seq<Tag>)
    ensures forall g :: g in r <==> g.id in tags && tags[g.id] == g.name && 0 <= g.id < n
    ensures forall i, j :: 0 <= i < j < |r| ==> r[i].id < r[j].id
  {
    if n == 0 then []
    else if n - 1 in tags then TagRowsBelow(tags, n - 1) + [Tag(n - 1, tags[n - 1])]
    else TagRowsBelow(tags, n - 1)
  }

  // ------------------------------------------------------------ updates

  /** INSERT a part under the next key. */
  function AddPart(t: Tables, p: Part): (r: Tables)
    requires p.id == t.nextPart
    ensures r.parts == t.parts[p.id := p] && r.nextPart == t.nextPart + 1
    ensures r.tags == t.tags && r.nextTag == t.nextTag
  {
    t.(parts := t.parts[p.id := p], nextPart := t.nextPart + 1)
  }

  /** INSERT a tag under the next key. */
  function AddTag(t: Tables, name: string): (r: Tables)
    ensures r.tags == t.tags[t.nextTag := name] && r.nextTag == t.nextTag + 1
    ensures r.parts == t.parts && r.nextPart == t.nextPart
  {
    t.(tags := t.tags[t.nextTag := name], nextTag := t.nextTag + 1)
  }

  /** `part.tags.append(tag)`: one more part_tag row for part `k`. */
  function Link(t: Tables, k: int, x: int): (r: Tables)
    requires k in t.parts
    ensures r.parts == t.parts[k := t.parts[k].(tags := t.parts[k].tags + [x])]
    ensures r.tags == t.tags && r.nextPart == t.nextPart && r.nextTag == t.nextTag
  {
    t.(parts := t.parts[k := t.parts[k].(tags := t.parts[k].tags + [x])])
  }

  lemma AddPartValid(t: Tables, p: Part)
    requires Valid(t) && p.id == t.nextPart && p.id > 0
    requires forall x :: x in p.tags ==> x in t.tags
    ensures Valid(AddPart(t, p))
  {
  }

  /** A new tag keeps the names distinct when no tag has its name yet. */
  lemma AddTagValid(t: Tables, name: string)
    requires Valid(t)
    requires FindTag(t.tags, name, {}, t.nextTag).None?
    ensures Valid(AddTag(t, name))
  {
    var r := AddTag(t, name);
    forall a, b | a in r.tags && b in r.tags && r.tags[a] == r.tags[b] ensures a == b {
    }
  }

  lemma LinkValid(t: Tables, k: int, x: int)
    requires Valid(t) && k in t.parts && x in t.tags
    ensures Valid(Link(t, k, x))
  {
    var r := Link(t, k, x);
    forall j, y | j in r.parts && y in r.parts[j].tags ensures y in r.tags {
      if j == k && y !in t.parts[k].tags { assert y == x; }
    }
  }
}
