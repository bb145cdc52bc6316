/**
 * The application shell, reduced to what it shares: one document-presence
 * provider wraps the whole route tree, so the chat page and the upload page
 * see the same cell.  The two pages are separate routes; entering one mounts
 * it afresh, so its controller starts again from its initial state while the
 * cell keeps its value.
 */
module App {
  import opened UploadedContext
  import opened Chat
  import opened Upload

  /** Every handler of the two pages that touches controller state. */
  datatype Event =
    | ChatInput(value: string)
    | ChatSubmit
    | ChatReply(reply: SendOutcome)
    | ChatDismissError
    | DragOver
    | DragLeave
    | Drop(files: seq<File>)
    | FileSelect(files: seq<File>)
    | UploadReply(result: UploadOutcome)
    | CloseUploadSuccess
    | DismissUploadError
    | OpenChat
    | OpenUpload

  class Session {
    const doc: DocumentPresence
    var chat: ChatController
    var upload: UploadController

    /** A fresh provider (no document yet) and the two controllers that read
        and write it. */
    constructor ()
      ensures fresh(doc) && fresh(chat) && fresh(upload)
      ensures chat.doc == doc && upload.doc == doc
      ensures doc.noDoc && Valid()
      ensures chat.Valid() && chat.messages == [] && !chat.loading && chat.error == NoError
      ensures upload.status == NoStatus && !upload.loading && !upload.isDragging
    {
      var d := new DocumentPresence();
      doc := d;
      chat := new ChatController(d);
      upload := new UploadController(d);
    }

    ghost predicate Valid()
      reads this, chat
    {
      chat.doc == doc && upload.doc == doc && chat.Valid()
    }

    /** Runs one handler, or enters one of the two pages.  Entering a page
        mounts a fresh controller for it in its initial state.  Any other
        event keeps both controllers, and within one visit to the chat page
        the transcript only grows at its end.  Whatever the event, once a
        document is present the flag never says otherwise again: the only
        write to it is the upload's `setNoDoc(false)`. */
    method Dispatch(e: Event)
      requires Valid()
      modifies this, doc, chat, upload
      ensures Valid()
      ensures e.OpenChat? ==>
                fresh(chat) && chat.messages == [] && chat.input == ""
                && !chat.loading && chat.error == NoError
      ensures !e.OpenChat? ==> chat == old(chat) && old(chat.messages) <= chat.messages
      ensures e.OpenUpload? ==>
                fresh(upload) && upload.status == NoStatus && !upload.loading && !upload.isDragging
      ensures !e.OpenUpload? ==> upload == old(upload)
      ensures !old(doc.noDoc) ==> !doc.noDoc
      ensures !e.UploadReply? ==> doc.noDoc == old(doc.noDoc)
    {
      match e
      case ChatInput(value) => chat.SetInput(value);
      case ChatSubmit => var _ := chat.Submit();
      case ChatReply(reply) => chat.Complete(reply);
      case ChatDismissError => chat.DismissError();
      case DragOver => upload.DragOver();
      case DragLeave => upload.DragLeave();
      case Drop(files) => var _ := upload.Drop(files);
      case FileSelect(files) => var _ := upload.FileSelect(files);
      case UploadReply(result) => upload.CompleteUpload(result);
      case CloseUploadSuccess => upload.CloseSuccess();
      case DismissUploadError => upload.DismissError();
      case OpenChat => chat := new ChatController(doc);
      case OpenUpload => upload := new UploadController(doc);
    }
  }
}
