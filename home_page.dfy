/** The `Home` page of the document manager: an upload dialog that turns the files the drop area
    accepts into listed documents, and the list's remove and download actions. */
module DocumentManager {
  import opened JsArray
  import opened FileIntake

  type Id = string

  /** The limit, in MB, the page passes to its drop area. */
  const UploadMaxFileSize: nat := 50

  /** A listed document. `uploadedAt` is the instant `new Date()` gave, kept opaque. */
  datatype DocumentItem = DocumentItem(id: Id, name: string, size: nat, mimeType: string, uploadedAt: int)

  /** The `files.map(...)` of `handleFilesSelected`; `ids(i)` and `clock(i)` are the identifier and
      the instant drawn while mapping the i-th file. */
  function NewDocuments(files: seq<File>, ids: nat -> Id, clock: nat -> int): (r: seq<DocumentItem>)
    ensures |r| == |files|
    ensures forall i :: 0 <= i < |files| ==>
      r[i].name == files[i].name && r[i].size == files[i].size && r[i].mimeType == files[i].mimeType
    ensures forall i :: 0 <= i < |files| ==> r[i].id == ids(i) && r[i].uploadedAt == clock(i)
  {
    seq(|files|, i requires 0 <= i < |files| =>
      DocumentItem(ids(i), files[i].name, files[i].size, files[i].mimeType, clock(i)))
  }

  /** The file a document was made from. */
  function SourceFile(d: DocumentItem): File
  {
    File(d.name, d.size, d.mimeType)
  }

  /** Mapping files to documents loses nothing of the files: reading each document back gives
      the batch, in its order. */
  lemma NewDocumentsRoundTrip(files: seq<File>, ids: nat -> Id, clock: nat -> int)
    ensures var docs := NewDocuments(files, ids, clock);
      seq(|docs|, i requires 0 <= i < |docs| => SourceFile(docs[i])) == files
  {
  }

  /** The page's state: whether the upload dialog is open, and the listed documents. */
  datatype Page = Page(isDialogOpen: bool, documents: seq<DocumentItem>)

  /** `handleFilesSelected`: the batch is appended as documents and the dialog closes. */
  function AfterFilesSelected(p: Page, files: seq<File>, ids: nat -> Id, clock: nat -> int): (r: Page)
    ensures !r.isDialogOpen
    ensures |r.documents| == |p.documents| + |files|
    ensures r.documents[..|p.documents|] == p.documents
  {
    var docs := p.documents + NewDocuments(files, ids, clock);
    assert docs[..|p.documents|] == p.documents;
    Page(false, docs)
  }

  /** After a selection, the document at position `|old| + i` is the i-th file of the batch. */
  lemma FilesSelectedAppends(p: Page, files: seq<File>, ids: nat -> Id, clock: nat -> int, i: nat)
    requires i < |files|
    ensures var d := AfterFilesSelected(p, files, ids, clock).documents[|p.documents| + i];
      SourceFile(d) == files[i] && d.id == ids(i) && d.uploadedAt == clock(i)
  {
    var docs := p.documents + NewDocuments(files, ids, clock);
    assert docs[|p.documents| + i] == NewDocuments(files, ids, clock)[i];
  }

  /** An empty batch still closes the dialog and leaves the list as it was. */
  lemma EmptySelectionCloses(p: Page, ids: nat -> Id, clock: nat -> int)
    ensures AfterFilesSelected(p, [], ids, clock) == Page(false, p.documents)
  {
    assert p.documents + NewDocuments([], ids, clock) == p.documents;
  }

  /** Files reaching the page through its drop area are at most 50 MB, and so are the documents
      made from them. */
  lemma UploadsWithinLimit(p: Page, batch: seq<File>, ids: nat -> Id, clock: nat -> int)
    ensures var r := AfterFilesSelected(p, ValidFiles(batch, UploadMaxFileSize), ids, clock);
      forall i :: |p.documents| <= i < |r.documents| ==> r.documents[i].size <= UploadMaxFileSize * Mebibyte
  {
    var valid := ValidFiles(batch, UploadMaxFileSize);
    var r := AfterFilesSelected(p, valid, ids, clock);
    forall i | |p.documents| <= i < |r.documents| ensures r.documents[i].size <= UploadMaxFileSize * Mebibyte {
      FilesSelectedAppends(p, valid, ids, clock, i - |p.documents|);
      assert valid[i - |p.documents|] in valid;
    }
  }

  /** The callback given to `filter` by `handleRemoveDocument`. */
  function OtherDocument(id: Id): DocumentItem -> bool
  {
    (d: DocumentItem) => d.id != id
  }

  /** `handleRemoveDocument`: every document whose id differs from `id`; the dialog is untouched. */
  function AfterRemoveDocument(p: Page, id: Id): (r: Page)
    ensures r.isDialogOpen == p.isDialogOpen
    ensures forall d :: d in r.documents <==> d in p.documents && d.id != id
  {
    forall d ensures d in Filter(p.documents, OtherDocument(id)) <==> d in p.documents && d.id != id {
      FilterMembers(p.documents, OtherDocument(id), d);
    }
    Page(p.isDialogOpen, Filter(p.documents, OtherDocument(id)))
  }

  /** Removing an id no document has leaves the list as it was. */
  lemma RemoveAbsentDocument(p: Page, id: Id)
    requires forall d :: d in p.documents ==> d.id != id
    ensures AfterRemoveDocument(p, id) == p
  {
    FilterKeepsAll(p.documents, OtherDocument(id));
  }

  /** Removal keeps the remaining documents in their order, and removing the same id again
      changes nothing. */
  lemma RemoveDocumentKeepsOrder(a: seq<DocumentItem>, b: seq<DocumentItem>, id: Id, dialog: bool)
    ensures AfterRemoveDocument(Page(dialog, a + b), id).documents
         == AfterRemoveDocument(Page(dialog, a), id).documents + AfterRemoveDocument(Page(dialog, b), id).documents
    ensures AfterRemoveDocument(AfterRemoveDocument(Page(dialog, a), id), id) == AfterRemoveDocument(Page(dialog, a), id)
  {
    FilterConcat(a, b, OtherDocument(id));
    FilterIdempotent(a, OtherDocument(id));
  }

  /** The callback given to `find` by `handleDownloadDocument`. */
  function HasId(id: Id): DocumentItem -> bool
  {
    (d: DocumentItem) => d.id == id
  }

  /** The `Home` component: its two pieces of state as fields and its handlers as methods. */
  class Home {
    var isDialogOpen: bool
    var documents: seq<DocumentItem>

    function State(): Page
      reads this
    {
      Page(isDialogOpen, documents)
    }

    constructor ()
      ensures State() == Page(false, [])
    {
      isDialogOpen, documents := false, [];
    }

    /** The dialog's `onOpenChange`: the trigger opens it, dismissing closes it. */
    method SetDialogOpen(open: bool)
      modifies this
      ensures State() == Page(open, old(documents))
    {
      isDialogOpen := open;
    }

    /** `handleFilesSelected` */
    method FilesSelected(files: seq<File>, ids: nat -> Id, clock: nat -> int)
      modifies this
      ensures State() == AfterFilesSelected(old(State()), files, ids, clock)
    {
      var newDocuments := NewDocuments(files, ids, clock);
      documents := documents + newDocuments;
      isDialogOpen := false;
    }

    /** `handleRemoveDocument` */
    method RemoveDocument(id: Id)
      modifies this
      ensures State() == AfterRemoveDocument(old(State()), id)
    {
      documents := Filter(documents, OtherDocument(id));
    }

    /** `handleDownloadDocument`: looks the document up and reports its name (the value the page
        logs), changing nothing. */
    method DownloadDocument(id: Id) returns (name: Option<string>)
      ensures name.None? <==> forall d :: d in documents ==> d.id != id
      ensures name.Some? ==> exists k ::
                0 <= k < |documents| && documents[k].id == id && documents[k].name == name.value
                && forall j :: 0 <= j < k ==> documents[j].id != id
    {
      var document := Find(documents, HasId(id));
      name := if document.Some? then Some(document.value.name) else None;
    }
  }
}
