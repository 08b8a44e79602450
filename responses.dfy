/** What a parts-manager route answers: the flashed message and where the browser goes. */
module Responses {
  import opened Wrappers

  /** The flashed messages, one per distinct text the routes flash. */
  datatype Notice =
    | PartCreated        // the part was registered
    | PartUpdated        // the part was updated
    | PartDeleted        // the part was deleted
    | QuantityUpdated    // the stock count was updated
    | InvalidQuantity    // the quantity is invalid
    | NoFileField        // there is no file
    | NoFileSelected     // no file was chosen
    | DisallowedType     // the file type is not allowed
    | ImportDone         // parts were registered from the CSV file
    | ImportFailed       // an error occurred, with its text
    | DuplicateTag       // a tag with that name exists already
    | TagCreated         // the new tag was registered
    | TagRenamed         // the tag was renamed
    | TagDeleted         // the tag was deleted

  datatype Reply =
    | Redirect(notice: Option<Notice>)   // a redirect, with the message flashed (if any)
    | ShowForm(notice: Option<Notice>)   // the form page rendered again
    | NotFound                           // 404 from get_or_404
    | ServerError                        // 500 from an uncaught exception
}
