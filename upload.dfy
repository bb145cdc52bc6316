/**
 * The upload page's controller: drag-and-drop tracking, the upload handler
 * split at its first `await` into `BeginUpload` and `CompleteUpload`, and
 * the dialogs that dismiss the outcome.  A successful upload is the only
 * place that writes the shared document-presence flag, and it only ever
 * writes `false`.
 */
module Upload {
  import opened Wrappers
  import opened UploadedContext

  /** A file handed over by the picker or by a drop; its bytes are opaque. */
  datatype File = File(name: string)

  /** `uploadStatus`: `null`, 'success', 'error', or `false` once the error
      dialog has been dismissed. */
  datatype UploadStatus = NoStatus | Success | Failure | Dismissed

  /** The multipart request, carrying the file under the field `file`. */
  datatype UploadRequest = UploadRequest(file: File)

  /** What the request produced, standing in for `fetch`: a 2xx reply, a
      non-2xx reply, or an exception. */
  datatype UploadOutcome = Stored | Rejected | Thrown

  class UploadController {
    var isDragging: bool
    var loading: bool
    var status: UploadStatus
    /** The shared document-presence cell. */
    const doc: DocumentPresence

    constructor (doc: DocumentPresence)
      ensures !isDragging && !loading && status == NoStatus
      ensures this.doc == doc
    {
      this.doc := doc;
      isDragging, loading, status := false, false, NoStatus;
    }

    method DragOver()
      modifies this
      ensures isDragging
      ensures loading == old(loading) && status == old(status)
    {
      isDragging := true;
    }

    method DragLeave()
      modifies this
      ensures !isDragging
      ensures loading == old(loading) && status == old(status)
    {
      isDragging := false;
    }

    /** The upload handler up to its first `await`.  No file: nothing changes
        and nothing is sent.  Otherwise loading starts, the status is reset
        to `null`, and exactly that file is sent; `noDoc` is not touched. */
    method BeginUpload(file: Option<File>) returns (req: Option<UploadRequest>)
      modifies this
      ensures isDragging == old(isDragging)
      ensures doc.noDoc == old(doc.noDoc)
      ensures file.None? ==> req == None && loading == old(loading) && status == old(status)
      ensures file.Some? ==> req == Some(UploadRequest(file.value)) && loading && status == NoStatus
    {
      if file.None? {
        return None;
      }
      loading := true;
      status := NoStatus;
      req := Some(UploadRequest(file.value));
    }

    /** The rest of the upload handler.  A 2xx reply sets 'success' and
        records that a document is present; a non-2xx reply or an exception
        sets 'error' and leaves the flag alone; loading ends on every path. */
    method CompleteUpload(outcome: UploadOutcome)
      modifies this, doc
      ensures !loading && isDragging == old(isDragging)
      ensures status == (if outcome.Stored? then Success else Failure)
      ensures doc.noDoc == (if outcome.Stored? then false else old(doc.noDoc))
      ensures !old(doc.noDoc) ==> !doc.noDoc
    {
      if outcome.Stored? {
        status := Success;
        doc.SetNoDoc(false);
      } else {
        status := Failure;
      }
      loading := false;
    }

    /** A drop ends the drag and uploads only the first dropped file. */
    method Drop(files: seq<File>) returns (req: Option<UploadRequest>)
      modifies this
      ensures !isDragging
      ensures files == [] ==> req == None && loading == old(loading) && status == old(status)
      ensures files != [] ==> req == Some(UploadRequest(files[0])) && loading && status == NoStatus
      ensures doc.noDoc == old(doc.noDoc)
    {
      isDragging := false;
      req := BeginUpload(if files == [] then None else Some(files[0]));
    }

    /** The file picker's `onChange`: uploads the first selected file. */
    method FileSelect(files: seq<File>) returns (req: Option<UploadRequest>)
      modifies this
      ensures isDragging == old(isDragging)
      ensures files == [] ==> req == None && loading == old(loading) && status == old(status)
      ensures files != [] ==> req == Some(UploadRequest(files[0])) && loading && status == NoStatus
      ensures doc.noDoc == old(doc.noDoc)
    {
      req := BeginUpload(if files == [] then None else Some(files[0]));
    }

    /** The success dialog's "Close": `setUploadStatus(null)`. */
    method CloseSuccess()
      modifies this
      ensures status == NoStatus
      ensures loading == old(loading) && isDragging == old(isDragging)
      ensures doc.noDoc == old(doc.noDoc)
    {
      status := NoStatus;
    }

    /** The error dialog's "Try again", which calls `setUploadStatus(false)`. */
    method DismissError()
      modifies this
      ensures status == Dismissed
      ensures loading == old(loading) && isDragging == old(isDragging)
      ensures doc.noDoc == old(doc.noDoc)
    {
      status := Dismissed;
    }

  }
}
