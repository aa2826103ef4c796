/** The `DragArea` file-intake component: a drop zone and a file picker that accept a batch of
    files, keep those within a size limit, and either add them to or replace the files shown. */
module FileIntake {
  import opened JsArray

  /** The part of a browser `File` the component and its parent read. */
  datatype File = File(name: string, size: nat, mimeType: string)

  /** Bytes in one MB as the component counts them (`1024 * 1024`). */
  const Mebibyte: nat := 1048576

  /** The limit, in MB, when the parent passes none. */
  const DefaultMaxFileSize: nat := 10

  /** Whether a selection adds to the files shown, when the parent does not say. */
  const DefaultMultiple: bool := true

  /** `file.size / (1024 * 1024) <= maxFileSize`. Dividing a file size by a power of two is exact
      in double precision, so the quotient is taken as an exact real here; the test is then the
      whole-byte comparison `size <= maxFileSize * 2^20`. */
  function WithinLimit(maxFileSize: nat, f: File): (r: bool)
    ensures r <==> f.size <= maxFileSize * Mebibyte
  {
    var q := (f.size as real) / (Mebibyte as real);
    assert f.size as real == q * (Mebibyte as real);
    assert (maxFileSize * Mebibyte) as real == (maxFileSize as real) * (Mebibyte as real);
    q <= maxFileSize as real
  }

  /** The callback given to `filter`. */
  function FitsLimit(maxFileSize: nat): File -> bool
  {
    (f: File) => WithinLimit(maxFileSize, f)
  }

  /** `validFiles`: the files of the batch that pass the size test. */
  function ValidFiles(files: seq<File>, maxFileSize: nat): (r: seq<File>)
    ensures |r| <= |files|
    ensures forall f :: f in r <==> f in files && f.size <= maxFileSize * Mebibyte
  {
    var r := Filter(files, FitsLimit(maxFileSize));
    forall f ensures f in r <==> f in files && f.size <= maxFileSize * Mebibyte {
      FilterMembers(files, FitsLimit(maxFileSize), f);
    }
    r
  }

  /** The filter keeps the accepted files in the order they came: filtering a batch is filtering
      its parts and joining the results, one file at a time. */
  lemma ValidFilesInOrder(a: seq<File>, b: seq<File>, maxFileSize: nat)
    ensures ValidFiles(a + b, maxFileSize) == ValidFiles(a, maxFileSize) + ValidFiles(b, maxFileSize)
  {
    FilterConcat(a, b, FitsLimit(maxFileSize));
  }

  /** A single file is kept exactly when it is no larger than the limit. */
  lemma ValidFilesSingle(f: File, maxFileSize: nat)
    ensures ValidFiles([f], maxFileSize) == if f.size <= maxFileSize * Mebibyte then [f] else []
  {
    assert [f][1..] == [];
  }

  /** A file of exactly `maxFileSize` MB is accepted; one byte more is refused. */
  lemma LimitIsInclusive(maxFileSize: nat, name: string, mimeType: string)
    ensures ValidFiles([File(name, maxFileSize * Mebibyte, mimeType)], maxFileSize) == [File(name, maxFileSize * Mebibyte, mimeType)]
    ensures ValidFiles([File(name, maxFileSize * Mebibyte + 1, mimeType)], maxFileSize) == []
  {
    ValidFilesSingle(File(name, maxFileSize * Mebibyte, mimeType), maxFileSize);
    ValidFilesSingle(File(name, maxFileSize * Mebibyte + 1, mimeType), maxFileSize);
  }

  /** The component's state: the drag-over flag and the files shown. */
  datatype Intake = Intake(isDragOver: bool, selected: seq<File>)

  /** Every file shown passes the size test. */
  predicate AllWithinLimit(files: seq<File>, maxFileSize: nat)
  {
    forall i :: 0 <= i < |files| ==> files[i].size <= maxFileSize * Mebibyte
  }

  /** `handleFileSelection`: with `multiple` the accepted files follow the ones shown, otherwise
      they replace them; the drag flag is left alone. */
  function AfterSelection(s: Intake, files: seq<File>, multiple: bool, maxFileSize: nat): (r: Intake)
    ensures r.isDragOver == s.isDragOver
    ensures multiple ==> |r.selected| == |s.selected| + |ValidFiles(files, maxFileSize)|
    ensures multiple ==> r.selected[..|s.selected|] == s.selected
    ensures multiple ==> r.selected[|s.selected|..] == ValidFiles(files, maxFileSize)
    ensures !multiple ==> r.selected == ValidFiles(files, maxFileSize)
  {
    var valid := ValidFiles(files, maxFileSize);
    Intake(s.isDragOver, if multiple then s.selected + valid else valid)
  }

  /** A file is shown after a selection exactly when it was shown before and `multiple` is set,
      or it is in the batch and within the limit. */
  lemma SelectionMembers(s: Intake, files: seq<File>, multiple: bool, maxFileSize: nat, f: File)
    ensures f in AfterSelection(s, files, multiple, maxFileSize).selected
        <==> (multiple && f in s.selected) || (f in files && f.size <= maxFileSize * Mebibyte)
  {
  }

  /** A selection keeps every shown file within the limit. */
  lemma SelectionKeepsLimit(s: Intake, files: seq<File>, multiple: bool, maxFileSize: nat)
    requires AllWithinLimit(s.selected, maxFileSize)
    ensures AllWithinLimit(AfterSelection(s, files, multiple, maxFileSize).selected, maxFileSize)
  {
    var r := AfterSelection(s, files, multiple, maxFileSize).selected;
    var valid := ValidFiles(files, maxFileSize);
    forall i | 0 <= i < |r| ensures r[i].size <= maxFileSize * Mebibyte {
      if multiple && i < |s.selected| {
        assert r[i] == r[..|s.selected|][i];
      } else if multiple {
        assert r[i] == r[|s.selected|..][i - |s.selected|];
        assert r[i] in valid;
      } else {
        assert r[i] in valid;
      }
    }
  }

  /** `handleDrop`: the flag drops, then the dropped files go through the selection. */
  function AfterDrop(s: Intake, files: seq<File>, multiple: bool, maxFileSize: nat): (r: Intake)
    ensures !r.isDragOver
    ensures r.selected == AfterSelection(s, files, multiple, maxFileSize).selected
  {
    AfterSelection(s.(isDragOver := false), files, multiple, maxFileSize)
  }

  /** `handleFileInput`: a picker change whose file list is present runs the selection on it;
      `None` stands for a null `e.target.files`, which changes nothing. An empty list is present,
      so it runs the selection too (EmptyPickerList). */
  function AfterFileInput(s: Intake, files: Option<seq<File>>, multiple: bool, maxFileSize: nat): (r: Intake)
    ensures files.None? ==> r == s
    ensures r.isDragOver == s.isDragOver
  {
    if files.Some? then AfterSelection(s, files.value, multiple, maxFileSize) else s
  }

  /** Dropping files and picking the same files update the shown files alike; they differ only
      in the drag flag, which the drop clears. */
  lemma DropMatchesInput(s: Intake, files: seq<File>, multiple: bool, maxFileSize: nat)
    ensures AfterDrop(s, files, multiple, maxFileSize) == AfterFileInput(s, Some(files), multiple, maxFileSize).(isDragOver := false)
  {
  }

  /** A picker change with an empty (present) file list runs the selection on no files: without
      `multiple` it clears the files shown, with `multiple` it leaves them as they were. */
  lemma EmptyPickerList(s: Intake, maxFileSize: nat)
    ensures AfterFileInput(s, Some([]), false, maxFileSize).selected == []
    ensures AfterFileInput(s, Some([]), true, maxFileSize).selected == s.selected
  {
    assert s.selected + [] == s.selected;
  }

  /** With the default props, a selection appends the batch's files of at most 10 MB. */
  lemma DefaultSelection(s: Intake, files: seq<File>)
    ensures AfterSelection(s, files, DefaultMultiple, DefaultMaxFileSize).selected
      == s.selected + ValidFiles(files, DefaultMaxFileSize)
    ensures forall f :: f in ValidFiles(files, DefaultMaxFileSize) <==> f in files && f.size <= 10485760
  {
  }

  /** `removeFile`: every shown file except the one at `index`. */
  function AfterRemoveFile(s: Intake, index: int): (r: Intake)
    ensures r.isDragOver == s.isDragOver
    ensures |r.selected| == if 0 <= index < |s.selected| then |s.selected| - 1 else |s.selected|
  {
    s.(selected := RemoveAt(s.selected, index))
  }

  /** Removal takes out exactly the file at `index`, keeps the rest in order, and leaves the list
      as it was when `index` is out of range. */
  lemma RemoveFileSplices(s: Intake, index: int)
    ensures 0 <= index < |s.selected| ==>
      AfterRemoveFile(s, index).selected == s.selected[..index] + s.selected[index + 1..]
    ensures !(0 <= index < |s.selected|) ==> AfterRemoveFile(s, index) == s
  {
    RemoveAtSplices(s.selected, index);
  }

  /** Removal keeps every shown file within the limit. */
  lemma RemoveFileKeepsLimit(s: Intake, index: int, maxFileSize: nat)
    requires AllWithinLimit(s.selected, maxFileSize)
    ensures AllWithinLimit(AfterRemoveFile(s, index).selected, maxFileSize)
  {
    var r := AfterRemoveFile(s, index).selected;
    forall i | 0 <= i < |r| ensures r[i].size <= maxFileSize * Mebibyte {
      RemoveAtKeeps(s.selected, index, r[i]);
    }
  }

  /** The `DragArea` component: its props `multiple` and `maxFileSize`, its two pieces of state,
      and a ghost record of the batches handed to `onFilesSelected`. */
  class DragArea {
    const multiple: bool
    const maxFileSize: nat
    var isDragOver: bool
    var selectedFiles: seq<File>
    /** Every batch passed to `onFilesSelected`, oldest first. */
    ghost var selections: seq<seq<File>>

    function State(): Intake
      reads this
    {
      Intake(isDragOver, selectedFiles)
    }

    ghost predicate Valid()
      reads this
    {
      AllWithinLimit(selectedFiles, maxFileSize)
    }

    constructor (multiple: bool, maxFileSize: nat)
      ensures Valid() && this.multiple == multiple && this.maxFileSize == maxFileSize
      ensures State() == Intake(false, []) && selections == []
    {
      this.multiple, this.maxFileSize := multiple, maxFileSize;
      isDragOver, selectedFiles := false, [];
      selections := [];
    }

    /** `handleDragEnter` */
    method DragEnter()
      requires Valid()
      modifies this
      ensures Valid()
      ensures State() == Intake(true, old(selectedFiles)) && selections == old(selections)
    {
      isDragOver := true;
    }

    /** `handleDragLeave` */
    method DragLeave()
      requires Valid()
      modifies this
      ensures Valid()
      ensures State() == Intake(false, old(selectedFiles)) && selections == old(selections)
    {
      isDragOver := false;
    }

    /** `handleDragOver` only stops the browser's default handling; no state changes. */
    method DragOver()
      ensures unchanged(this)
    {
    }

    /** `handleFileSelection`: the accepted files are shown and handed, alone, to the parent. */
    method FileSelection(files: seq<File>)
      requires Valid()
      modifies this
      ensures Valid()
      ensures State() == AfterSelection(old(State()), files, multiple, maxFileSize)
      ensures selections == old(selections) + [ValidFiles(files, maxFileSize)]
    {
      SelectionKeepsLimit(State(), files, multiple, maxFileSize);
      var validFiles := Filter(files, FitsLimit(maxFileSize));
      selectedFiles := if multiple then selectedFiles + validFiles else validFiles;
      selections := selections + [validFiles];
    }

    /** `handleDrop` */
    method Drop(files: seq<File>)
      requires Valid()
      modifies this
      ensures Valid()
      ensures State() == AfterDrop(old(State()), files, multiple, maxFileSize)
      ensures selections == old(selections) + [ValidFiles(files, maxFileSize)]
    {
      isDragOver := false;
      FileSelection(files);
    }

    /** `handleFileInput`; `files` is the picker's file list, `None` when `e.target.files` is null. */
    method FileInput(files: Option<seq<File>>)
      requires Valid()
      modifies this
      ensures Valid()
      ensures State() == AfterFileInput(old(State()), files, multiple, maxFileSize)
      ensures selections == old(selections) + if files.Some? then [ValidFiles(files.value, maxFileSize)] else []
    {
      if files.Some? {
        FileSelection(files.value);
      }
    }

    /** `removeFile`; the parent is not told. */
    method RemoveFile(index: int)
      requires Valid()
      modifies this
      ensures Valid()
      ensures State() == AfterRemoveFile(old(State()), index)
      ensures selections == old(selections)
    {
      RemoveFileKeepsLimit(State(), index, maxFileSize);
      selectedFiles := RemoveAt(selectedFiles, index);
    }
  }
}
