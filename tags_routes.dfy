/**
 * The tag registry: `/tags/` (list and create), `/tags/<id>/edit` (rename)
 * and `/tags/<id>/delete`.  Each route keeps tag names pairwise distinct, the
 * unique constraint on `Tag.name`.
 */
module TagsRoutes {
  import opened Wrappers
  import opened Models
  import opened Database
  import opened Responses
  import opened Ordering

  /** Some tag other than `id` is called `name` (the duplicate check of a rename). */
  ghost predicate TakenByOther(tags: map<int, string>, id: int, name: string) {
    exists k :: k in tags && k != id && tags[k] == name
  }

  /** `tags` with tag `id` renamed to `name`. */
  function Renamed(t: Tables, id: int, name: string): (r: Tables)
    requires id in t.tags
    ensures r.tags.Keys == t.tags.Keys && r.tags[id] == name
    ensures forall k :: k in t.tags && k != id ==> r.tags[k] == t.tags[k]
    ensures r.parts == t.parts && r.nextPart == t.nextPart && r.nextTag == t.nextTag
  {
    t.(tags := t.tags[id := name])
  }

  /** A rename to a name no other tag has keeps the database valid. */
  lemma RenamedValid(t: Tables, id: int, name: string)
    requires Valid(t) && id in t.tags && !TakenByOther(t.tags, id, name)
    ensures Valid(Renamed(t, id, name))
  {
  }

  /** Renaming a tag to the name it already has is never refused. */
  lemma RenameToOwnName(t: Tables, id: int)
    requires Valid(t) && id in t.tags
    ensures !TakenByOther(t.tags, id, t.tags[id])
  {
  }

  /** A part's links with every link to tag `x` removed, in order. */
  function Without(links: seq<int>, x: int): (r: seq<int>)
    ensures forall y :: y in r <==> y in links && y != x
    ensures |r| <= |links|
  {
    if links == [] then []
    else if links[0] == x then Without(links[1..], x)
    else [links[0]] + Without(links[1..], x)
  }

  /** `t` after `DELETE FROM tag WHERE id = x`, with its `part_tag` rows. */
  function TagDeleted(t: Tables, x: int): (r: Tables)
    ensures r.tags == t.tags - {x} && r.nextPart == t.nextPart && r.nextTag == t.nextTag
    ensures r.parts.Keys == t.parts.Keys
    ensures forall k :: k in t.parts ==> r.parts[k] == t.parts[k].(tags := Without(t.parts[k].tags, x))
  {
    t.(tags := t.tags - {x},
       parts := map k | k in t.parts :: t.parts[k].(tags := Without(t.parts[k].tags, x)))
  }

  /**
   * Deleting a tag keeps the database valid: no part is left linked to the
   * deleted tag, and every other link is kept.
   */
  lemma TagDeletedValid(t: Tables, x: int)
    requires Valid(t)
    ensures Valid(TagDeleted(t, x))
    ensures forall k :: k in t.parts ==> x !in TagDeleted(t, x).parts[k].tags
    ensures forall k, y :: k in t.parts && y in t.parts[k].tags && y != x ==> y in TagDeleted(t, x).parts[k].tags
  {
  }

  /** After the delete the backref of the deleted tag is empty, and every other backref is unchanged. */
  lemma TagDeletedBackrefs(t: Tables, x: int, y: int)
    ensures PartsOfTag(TagDeleted(t, x), x) == {}
    ensures y != x ==> PartsOfTag(TagDeleted(t, x), y) == PartsOfTag(t, y)
  {
  }

  /** POST /tags/: create a tag unless the name is empty or taken. */
  method CreateTag(db: Store, name: Option<string>) returns (r: Reply)
    requires db.Valid()
    modifies db
    ensures db.Valid()
    ensures name.None? || name.value == "" ==> r == Redirect(None) && unchanged(db)
    ensures name.Some? && name.value != "" && name.value in old(db.tags).Values ==>
              r == Redirect(Some(DuplicateTag)) && unchanged(db)
    ensures name.Some? && name.value != "" && name.value !in old(db.tags).Values ==>
              && r == Redirect(Some(TagCreated))
              && db.tags == old(db.tags)[old(db.nextTagId) := name.value]
              && db.nextTagId == old(db.nextTagId) + 1
              && db.parts == old(db.parts) && db.nextPartId == old(db.nextPartId)
  {
    if name.None? || name.value == "" {
      return Redirect(None);
    }
    var existing := FindTag(db.tags, name.value, {}, db.nextTagId);
    FindTagComplete(db.Tables(), name.value, {});
    if existing.Some? {
      return Redirect(Some(DuplicateTag));
    }
    assert name.value !in db.tags.Values;
    AddTagValid(db.Tables(), name.value);
    db.Commit(AddTag(db.Tables(), name.value));
    r := Redirect(Some(TagCreated));
  }

  /** POST /tags/<id>/edit: rename unless the name is empty or another tag has it. */
  method RenameTag(db: Store, id: int, name: Option<string>) returns (r: Reply)
    requires db.Valid()
    modifies db
    ensures db.Valid()
    ensures !FitsInteger(id) ==> r == ServerError && unchanged(db)
    ensures FitsInteger(id) && id !in old(db.tags) ==> r == NotFound && unchanged(db)
    ensures FitsInteger(id) && id in old(db.tags) && (name.None? || name.value == "") ==> r == ShowForm(None) && unchanged(db)
    ensures FitsInteger(id) && id in old(db.tags) && name.Some? && name.value != "" && TakenByOther(old(db.tags), id, name.value) ==>
              r == ShowForm(Some(DuplicateTag)) && unchanged(db)
    ensures FitsInteger(id) && id in old(db.tags) && name.Some? && name.value != "" && !TakenByOther(old(db.tags), id, name.value) ==>
              r == Redirect(Some(TagRenamed)) && db.Tables() == Renamed(old(db.Tables()), id, name.value)
  {
    if !FitsInteger(id) {
      return ServerError;     // get_or_404 cannot bind the id
    }
    if id !in db.tags {
      return NotFound;
    }
    if name.None? || name.value == "" {
      return ShowForm(None);
    }
    var existing := FindTag(db.tags, name.value, {id}, db.nextTagId);
    FindTagComplete(db.Tables(), name.value, {id});
    if existing.Some? {
      return ShowForm(Some(DuplicateTag));
    }
    RenamedValid(db.Tables(), id, name.value);
    db.Commit(Renamed(db.Tables(), id, name.value));
    r := Redirect(Some(TagRenamed));
  }

  /** POST /tags/<id>/delete. */
  method DeleteTag(db: Store, id: int) returns (r: Reply)
    requires db.Valid()
    modifies db
    ensures db.Valid()
    ensures !FitsInteger(id) ==> r == ServerError && unchanged(db)
    ensures FitsInteger(id) && id !in old(db.tags) ==> r == NotFound && unchanged(db)
    ensures FitsInteger(id) && id in old(db.tags) ==> r == Redirect(Some(Responses.TagDeleted)) && db.Tables() == TagDeleted(old(db.Tables()), id)
  {
    if !FitsInteger(id) {
      return ServerError;     // get_or_404 cannot bind the id
    }
    if id !in db.tags {
      return NotFound;
    }
    TagDeletedValid(db.Tables(), id);
    db.Commit(TagDeleted(db.Tables(), id));
    r := Redirect(Some(Responses.TagDeleted));
  }

  function TagName(g: Tag): string { g.name }

  /** GET /tags/: every tag once, ordered by name. */
  function TagListing(t: Tables): (r: seq<Tag>)
    requires Valid(t)
    ensures SortedBy(r, TagName)
    ensures forall g :: g in r <==> g.id in t.tags && t.tags[g.id] == g.name
    ensures Distinct(r)
  {
    var rows := TagRowsBelow(t.tags, t.nextTag);
    var r := SortBy(rows, TagName);
    PermutationMembers(rows, r);
    PermutationDistinct(rows, r);
    r
  }
}
