/**
 * The document-presence context: one mutable boolean cell, `noDoc`,
 * created by the provider that wraps the whole route tree.  `noDoc` is
 * true while no document has been uploaded.  Chat reads it, Upload writes it.
 */
module UploadedContext {

  class DocumentPresence {
    /** True while the user has not uploaded a document. */
    var noDoc: bool

    /** The provider's `useState(true)`. */
    constructor ()
      ensures noDoc
    {
      noDoc := true;
    }

    /** The context's `setNoDoc`: the cell holds exactly what was written. */
    method SetNoDoc(b: bool)
      modifies this
      ensures noDoc == b
    {
      noDoc := b;
    }
  }
}
