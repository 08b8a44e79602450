/**
 * The part routes: the upload-extension check, creating, editing, deleting a
 * part, setting its stock count, and the filtered listing.  The CSV import is
 * in module CsvImport.
 */
module PartsRoutes {
  import opened Wrappers
  import opened Text
  import opened Models
  import opened Database
  import opened Responses

  // ------------------------------------------------------------ uploads

  const AllowedExtensions: set<string> := {"png", "jpg", "jpeg", "gif", "csv"}

  /** The index of the last '.' in `s`, if any. */
  function LastDot(s: string): (r: Option<nat>)
    ensures r.Some? ==> r.value < |s| && s[r.value] == '.' && '.' !in s[r.value + 1..]
    ensures r.None? ==> '.' !in s
  {
    if s == [] then None
    else if s[|s| - 1] == '.' then Some(|s| - 1)
    else
      var r := LastDot(s[..|s| - 1]);
      assert s == s[..|s| - 1] + [s[|s| - 1]];
      assert r.Some? ==> s[r.value + 1..] == s[..|s| - 1][r.value + 1..] + [s[|s| - 1]];
      r
  }

  /** `ext.lower() in ALLOWED_EXTENSIONS`. */
  predicate AllowedExtension(ext: string) {
    Lower(ext) in AllowedExtensions
  }

  /** `allowed_file`: the name has a '.', and what follows the last one is an allowed extension. */
  predicate AllowedFile(filename: string) {
    '.' in filename && AllowedExtension(filename[LastDot(filename).value + 1..])
  }

  /** A '.' with no '.' after it is the last one. */
  lemma LastDotUnique(s: string, i: nat)
    requires i < |s| && s[i] == '.' && '.' !in s[i + 1..]
    ensures LastDot(s) == Some(i)
  {
  }

  /** Stated without the helper: some '.' has no '.' after it, and the text after it is allowed. */
  lemma AllowedFileIff(filename: string)
    ensures AllowedFile(filename) <==>
            exists i :: 0 <= i < |filename| && filename[i] == '.' && '.' !in filename[i + 1..]
                        && AllowedExtension(filename[i + 1..])
  {
    forall i | 0 <= i < |filename| && filename[i] == '.' && '.' !in filename[i + 1..]
               && AllowedExtension(filename[i + 1..])
      ensures AllowedFile(filename)
    {
      LastDotUnique(filename, i);
    }
    if AllowedFile(filename) {
      var j := LastDot(filename).value;
      assert filename[j] == '.' && '.' !in filename[j + 1..];
    }
  }

  /** A name ending in '.' and a dot-free extension is allowed exactly when that extension is. */
  lemma ExtensionAfter(base: string, ext: string)
    requires '.' !in ext
    ensures AllowedFile(base + "." + ext) <==> Lower(ext) in AllowedExtensions
  {
    var name := base + "." + ext;
    assert name[|base|] == '.' && name[|base| + 1..] == ext;
    LastDotUnique(name, |base|);
  }

  /** Every allowed extension starts with 'p', 'j', 'g' or 'c'. */
  lemma NotAllowedByInitial(ext: string)
    requires ext != [] && ext[0] != 'p' && ext[0] != 'j' && ext[0] != 'g' && ext[0] != 'c'
    ensures ext !in AllowedExtensions
  {
    forall e | e in AllowedExtensions ensures e != ext {
      assert e[0] == 'p' || e[0] == 'j' || e[0] == 'g' || e[0] == 'c';
    }
  }

  /** The CSV file the tests upload is accepted. */
  lemma TestCsvNameAccepted()
    ensures AllowedFile("test.csv")
  {
    ExtensionAfter("test", "csv");
    assert "test" + "." + "csv" == "test.csv";
    assert Lower("csv") == "csv";
  }

  /** The text file the tests upload is refused. */
  lemma TestTxtNameRefused()
    ensures !AllowedFile("test.txt")
  {
    ExtensionAfter("test", "txt");
    assert "test" + "." + "txt" == "test.txt";
    assert Lower("txt") == "txt";
    NotAllowedByInitial("txt");
  }

  /** The extension is compared without regard to case. */
  lemma UpperCaseExtensionAccepted()
    ensures AllowedFile("PHOTO.JPG")
  {
    ExtensionAfter("PHOTO", "JPG");
    assert "PHOTO" + "." + "JPG" == "PHOTO.JPG";
    assert Lower("JPG") == "jpg";
  }

  /** Only the last extension counts. */
  lemma OnlyLastExtensionCounts()
    ensures !AllowedFile("parts.csv.bak")
  {
    ExtensionAfter("parts.csv", "bak");
    assert "parts.csv" + "." + "bak" == "parts.csv.bak";
    assert Lower("bak") == "bak";
    NotAllowedByInitial("bak");
  }

  /** Where an uploaded image is recorded: 'images/' and the sanitised file name. */
  function ImagePath(sanitized: string): string {
    "images/" + sanitized
  }

  /**
   * The image of a new part.  `field` is the `image_file` upload's file name,
   * `None` when the form has no such field; `sanitize` is werkzeug's
   * `secure_filename`.
   */
  function NewImage(field: Option<string>, sanitize: string -> string): (r: Option<string>)
    ensures r.Some? <==> field.Some? && field.value != "" && AllowedFile(field.value)
    ensures r.Some? ==> r == Some(ImagePath(sanitize(field.value)))
  {
    if field.Some? && field.value != "" && AllowedFile(field.value) then Some(ImagePath(sanitize(field.value)))
    else None
  }

  /** The image of an edited part whose current image is `current`. */
  function EditedImage(current: Option<string>, field: Option<string>, sanitize: string -> string): Option<string>
  {
    match field
    case None => current
    case Some(f) =>
      if f != "" && AllowedFile(f) then Some(ImagePath(sanitize(f)))
      else if f == "" && current.Some? && current.value != "" then current
      else None
  }

  /**
   * The edit rule, case by case: with no upload field the image stays; an
   * allowed file replaces it; an empty file name keeps a (non-empty) current
   * image; anything else, a disallowed file included, clears it.
   */
  lemma EditedImageRule(current: Option<string>, field: Option<string>, sanitize: string -> string)
    ensures field.None? ==> EditedImage(current, field, sanitize) == current
    ensures field.Some? && field.value != "" ==>
            EditedImage(current, field, sanitize) == NewImage(field, sanitize)
    ensures field == Some("") ==>
            EditedImage(current, field, sanitize) == (if current == Some("") then None else current)
    ensures EditedImage(current, field, sanitize) in {None, current, NewImage(field, sanitize)}
  {
  }

  // ---------------------------------------------------------- quantities

  /** `int(request.form.get('quantity', 0))`; `None` is the ValueError. */
  function CreateQuantity(field: Option<string>): (r: Option<int>)
    ensures field.None? ==> r == Some(0)
    ensures field.Some? ==> r == ParseInt(field.value)
  {
    match field
    case None => Some(0)
    case Some(s) => ParseInt(s)
  }

  /** `request.form.get('quantity', type=int, default=0)`: a failed conversion gives the default. */
  function EditQuantity(field: Option<string>): (q: int)
    ensures field.Some? && ParseInt(field.value).Some? ==> q == ParseInt(field.value).value
    ensures field.None? || ParseInt(field.value).None? ==> q == 0
  {
    match field
    case Some(s) => if ParseInt(s).Some? then ParseInt(s).value else 0
    case None => 0
  }

  // --------------------------------------------------------------- forms

  /** The part form as submitted; `None` is a field that is not in the form. */
  datatype PartForm = PartForm(
    name: Option<string>,
    category: Option<string>,
    package: Option<string>,
    quantity: Option<string>,
    location: Option<string>,
    note: Option<string>,
    tagIds: seq<string>,          // getlist('tags')
    image: Option<string>)        // the image_file upload's file name

  /** `for tag_id in selected: tag = Tag.query.get(tag_id); if tag: tags.append(tag)`. */
  method ResolveSelected(db: Store, selected: seq<string>) returns (ids: seq<int>)
    ensures ids == ResolveTags(db.tags, selected)
  {
    ids := [];
    for i := 0 to |selected|
      invariant ids == ResolveTags(db.tags, selected[..i])
    {
      assert selected[..i + 1][..i] == selected[..i];
      var found := TagLookup(db.tags, selected[i]);
      if found.Some? {
        ids := ids + [found.value];
      }
    }
    assert selected[..|selected|] == selected;
  }

  // -------------------------------------------------------------- routes

  /** POST /parts/new. */
  method CreatePart(db: Store, form: PartForm, sanitize: string -> string) returns (r: Reply)
    requires db.Valid()
    modifies db
    ensures db.Valid()
    ensures form.name.None? || CreateQuantity(form.quantity).None? ==> r == ServerError && unchanged(db)
    ensures CreateQuantity(form.quantity).Some? && !FitsInteger(CreateQuantity(form.quantity).value) ==>
              r == ServerError && unchanged(db)
    ensures form.name.Some? && CreateQuantity(form.quantity).Some? && FitsInteger(CreateQuantity(form.quantity).value) ==>
      && r == Redirect(Some(PartCreated))
      && db.tags == old(db.tags) && db.nextTagId == old(db.nextTagId)
      && db.nextPartId == old(db.nextPartId) + 1
      && db.parts == old(db.parts)[old(db.nextPartId) :=
           Part(old(db.nextPartId), form.name.value, form.category, form.package,
                CreateQuantity(form.quantity).value, form.location, form.note,
                NewImage(form.image, sanitize), ResolveTags(old(db.tags), form.tagIds))]
  {
    var quantity := CreateQuantity(form.quantity);
    if quantity.None? {
      return ServerError;     // int() raises before anything is added
    }
    if form.name.None? || !FitsInteger(quantity.value) {
      return ServerError;     // the NOT NULL name, or a quantity out of range, fails the first commit
    }
    var id := db.nextPartId;
    var part := Part(id, form.name.value, form.category, form.package, quantity.value,
                     form.location, form.note, NewImage(form.image, sanitize), []);
    var session := AddPart(db.Tables(), part);
    AddPartValid(db.Tables(), part);
    db.Commit(session);
    var linked := ResolveSelected(db, form.tagIds);
    session := session.(parts := session.parts[id := part.(tags := linked)]);
    db.Commit(session);
    r := Redirect(Some(PartCreated));
  }

  /** POST /parts/<id>/edit. */
  method EditPart(db: Store, id: int, form: PartForm, sanitize: string -> string) returns (r: Reply)
    requires db.Valid()
    modifies db
    ensures db.Valid()
    ensures !FitsInteger(id) ==> r == ServerError && unchanged(db)
    ensures FitsInteger(id) && id !in old(db.parts) ==> r == NotFound && unchanged(db)
    ensures FitsInteger(id) && id in old(db.parts) && (form.name.None? || !FitsInteger(EditQuantity(form.quantity))) ==>
              r == ServerError && unchanged(db)
    ensures FitsInteger(id) && id in old(db.parts) && form.name.Some? && FitsInteger(EditQuantity(form.quantity)) ==>
      && r == Redirect(Some(PartUpdated))
      && db.tags == old(db.tags) && db.nextPartId == old(db.nextPartId) && db.nextTagId == old(db.nextTagId)
      && db.parts == old(db.parts)[id :=
           Part(id, form.name.value, form.category, form.package, EditQuantity(form.quantity),
                form.location, form.note, EditedImage(old(db.parts[id].imagePath), form.image, sanitize),
                ResolveTags(old(db.tags), form.tagIds))]
  {
    if !FitsInteger(id) {
      return ServerError;     // get_or_404 cannot bind the id
    }
    if id !in db.parts {
      return NotFound;
    }
    if form.name.None? || !FitsInteger(EditQuantity(form.quantity)) {
      return ServerError;     // the NOT NULL name, or a quantity out of range, fails the commit
    }
    var part := db.parts[id];
    part := part.(name := form.name.value, category := form.category, package := form.package,
                  quantity := EditQuantity(form.quantity), location := form.location, note := form.note);
    part := part.(imagePath := EditedImage(part.imagePath, form.image, sanitize));
    var linked := ResolveSelected(db, form.tagIds);
    part := part.(tags := linked);
    db.Commit(db.Tables().(parts := db.parts[id := part]));
    r := Redirect(Some(PartUpdated));
  }

  /** POST /parts/<id>/delete: the part and its part_tag rows go. */
  method DeletePart(db: Store, id: int) returns (r: Reply)
    requires db.Valid()
    modifies db
    ensures db.Valid()
    ensures !FitsInteger(id) ==> r == ServerError && unchanged(db)
    ensures FitsInteger(id) && id !in old(db.parts) ==> r == NotFound && unchanged(db)
    ensures FitsInteger(id) && id in old(db.parts) ==>
      && r == Redirect(Some(PartDeleted))
      && db.parts == old(db.parts) - {id}
      && db.tags == old(db.tags) && db.nextPartId == old(db.nextPartId) && db.nextTagId == old(db.nextTagId)
  {
    if !FitsInteger(id) {
      return ServerError;     // get_or_404 cannot bind the id
    }
    if id !in db.parts {
      return NotFound;
    }
    db.parts := db.parts - {id};
    r := Redirect(Some(PartDeleted));
  }

  /**
   * POST /parts/<id>/update_quantity: the count changes only for a non-empty
   * string of digits, so a stored count set here is never negative.
   */
  method UpdateQuantity(db: Store, id: int, field: Option<string>) returns (r: Reply)
    requires db.Valid()
    modifies db
    ensures db.Valid()
    ensures !FitsInteger(id) ==> r == ServerError && unchanged(db)
    ensures FitsInteger(id) && id !in old(db.parts) ==> r == NotFound && unchanged(db)
    ensures FitsInteger(id) && id in old(db.parts) && field.Some? && IsDigits(field.value)
            && !FitsInteger(DigitsValue(field.value)) ==>
      r == ServerError && unchanged(db)
    ensures FitsInteger(id) && id in old(db.parts) && field.Some? && IsDigits(field.value)
            && FitsInteger(DigitsValue(field.value)) ==>
      && r == Redirect(Some(QuantityUpdated))
      && db.parts == old(db.parts)[id := old(db.parts[id]).(quantity := DigitsValue(field.value))]
      && db.parts[id].quantity >= 0
      && Some(db.parts[id].quantity) == ParseInt(field.value)
      && db.tags == old(db.tags) && db.nextPartId == old(db.nextPartId) && db.nextTagId == old(db.nextTagId)
    ensures FitsInteger(id) && id in old(db.parts) && !(field.Some? && IsDigits(field.value)) ==>
      r == Redirect(Some(InvalidQuantity)) && unchanged(db)
  {
    if !FitsInteger(id) {
      return ServerError;     // get_or_404 cannot bind the id
    }
    if id !in db.parts {
      return NotFound;
    }
    if field.Some? && IsDigits(field.value) && !FitsInteger(DigitsValue(field.value)) {
      return ServerError;     // the commit cannot bind the new count
    }
    if field.Some? && IsDigits(field.value) {
      db.parts := db.parts[id := db.parts[id].(quantity := DigitsValue(field.value))];
      r := Redirect(Some(QuantityUpdated));
    } else {
      r := Redirect(Some(InvalidQuantity));
    }
  }

  // ------------------------------------------------------------- listing

  /** The search box: `q` in the name, the category or the location, ignoring case; NULL columns never match. */
  predicate SearchHit(p: Part, q: string) {
    || ContainsFold(p.name, q)
    || (p.category.Some? && ContainsFold(p.category.value, q))
    || (p.location.Some? && ContainsFold(p.location.value, q))
  }

  /** `[int(tag_id) for tag_id in selected]`; `None` when one of them is not an integer. */
  function ParseAll(selected: seq<string>): (r: Option<seq<int>>)
    ensures r.Some? <==> forall i :: 0 <= i < |selected| ==> ParseInt(selected[i]).Some?
    ensures r.Some? ==> |r.value| == |selected|
                        && forall i :: 0 <= i < |selected| ==> ParseInt(selected[i]) == Some(r.value[i])
  {
    if selected == [] then Some([])
    else
      var rest := ParseAll(selected[1..]);
      var first := ParseInt(selected[0]);
      if first.None? then None
      else if rest.None? then
        var i :| 0 <= i < |selected[1..]| && ParseInt(selected[1..][i]).None?;
        assert ParseInt(selected[i + 1]).None?;
        None
      else Some([first.value] + rest.value)
  }

  /** Every tag id in `tagIds` is among the part's links. */
  predicate HasAllTags(p: Part, tagIds: seq<int>) {
    forall x :: x in tagIds ==> x in p.tags
  }

  lemma HasAllTagsSnoc(p: Part, tagIds: seq<int>, x: int)
    ensures HasAllTags(p, tagIds + [x]) <==> HasAllTags(p, tagIds) && x in p.tags
  {
    if HasAllTags(p, tagIds) && x in p.tags {
      forall y | y in tagIds + [x] ensures y in p.tags {
        if y != x { assert y in tagIds; }
      }
    }
  }

  lemma PrefixSnoc<T>(s: seq<T>, i: nat)
    requires i < |s|
    ensures s[..i + 1] == s[..i] + [s[i]]
  {
  }

  /** The listing's filter for one part. */
  predicate Listable(p: Part, q: string, tagIds: seq<int>) {
    (q == [] || SearchHit(p, q)) && HasAllTags(p, tagIds)
  }

  /** `BadTagId`: a tag id that `int()` refuses, or one outside SQLite's INTEGER range; either ends in a server error. */
  datatype Listing = Listed(ids: set<int>) | BadTagId

  /**
   * GET /parts/: with a non-empty `q`, only parts that match the search;
   * with selected tags, only parts carrying every one of them (AND).
   */
  method ListParts(db: Store, q: string, selected: seq<string>) returns (r: Listing)
    ensures r.BadTagId? <==> ParseAll(selected).None? || exists x :: x in ParseAll(selected).value && !FitsInteger(x)
    ensures r.Listed? ==> r.ids == set k | k in db.parts && Listable(db.parts[k], q, ParseAll(selected).value)
  {
    var parts := db.parts;
    var found := set k | k in parts && (q == [] || SearchHit(parts[k], q));
    var ids := ParseAll(selected);
    if ids.None? || exists x :: x in ids.value && !FitsInteger(x) {
      return BadTagId;
    }
    var tagIds := ids.value;
    for i := 0 to |tagIds|
      invariant forall k :: k in found <==> k in parts && Listable(parts[k], q, tagIds[..i])
    {
      PrefixSnoc(tagIds, i);
      forall k | k in parts { HasAllTagsSnoc(parts[k], tagIds[..i], tagIds[i]); }
      found := set k | k in found && tagIds[i] in parts[k].tags;
    }
    assert tagIds[..|tagIds|] == tagIds;
    ghost var want := set k | k in parts && Listable(parts[k], q, tagIds);
    assert forall k :: k in want <==> k in found;
    r := Listed(found);
  }
}
