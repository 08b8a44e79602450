/**
 * The parts-manager database as an object.  Its fields are what has been
 * committed.  A request works on its own copy (the ORM session, a `Tables`
 * value held by the route); `Commit` writes that copy back, and a route that
 * returns without committing has rolled its changes back.
 */
module Database {
  import opened Models

  class Store {
    var parts: map<int, Part>
    var tags: map<int, string>
    var nextPartId: nat
    var nextTagId: nat

    /** The committed database as a value. */
    function Tables(): (t: Models.Tables)
      reads this
      ensures t.parts == parts && t.tags == tags && t.nextPart == nextPartId && t.nextTag == nextTagId
    {
      Models.Tables(parts, tags, nextPartId, nextTagId)
    }

    ghost predicate Valid()
      reads this
    {
      Models.Valid(Tables())
    }

    constructor ()
      ensures Valid() && Tables() == Empty()
    {
      parts, tags, nextPartId, nextTagId := map[], map[], 1, 1;
    }

    /** `db.session.commit()`: the session's view becomes the database. */
    method Commit(session: Models.Tables)
      modifies this
      ensures Tables() == session
    {
      parts, tags := session.parts, session.tags;
      nextPartId, nextTagId := session.nextPart, session.nextTag;
    }
  }
}
