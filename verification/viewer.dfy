/** The Excel viewer's state: the stored file list, the open workbook and
    its current sheet, and the cell selection that mouse events drive. */
module Viewer {
  import opened Seqs
  import opened Values
  import opened Grid

  /** A stored file; the workbook bytes are kept as numbers. */
  datatype FileEntry = FileEntry(
    id: int,
    name: string,
    path: string,
    addedAt: int,
    lastOpened: int,
    size: int,
    fileType: string,
    fileData: seq<int>)

  /** The two patches the viewer applies: a rename and a last-opened stamp. */
  datatype FilePatch = FilePatch(name: Option<string>, lastOpened: Option<int>)

  /** The open file's description; the sheet built from imported JSON has
      no id. */
  datatype OpenFile = OpenFile(id: Option<int>, name: string)

  datatype Workbook = Workbook(sheetNames: seq<string>, sheets: seq<Sheet>)

  datatype State = State(
    files: seq<FileEntry>,
    selectedFile: Option<OpenFile>,
    book: Option<Workbook>,
    currentSheet: nat,
    editing: Option<int>,
    selection: set<Pos>,
    anchor: Option<Pos>,
    selecting: bool)

  function FileId(f: FileEntry): int {
    f.id
  }

  /** `{ ...file, ...updates }`. */
  function Patched(f: FileEntry, patch: FilePatch): FileEntry {
    f.(name := patch.name.GetOr(f.name), lastOpened := patch.lastOpened.GetOr(f.lastOpened))
  }

  /** `updateFile`: the patch lands on the files with that id and nowhere
      else, and renaming ends. */
  function UpdateFile(st: State, id: int, patch: FilePatch): (r: State)
    ensures r == st.(files := r.files, editing := None)
    ensures |r.files| == |st.files|
    ensures forall i :: 0 <= i < |st.files| && st.files[i].id != id ==> r.files[i] == st.files[i]
    ensures forall i :: 0 <= i < |st.files| && st.files[i].id == id ==>
      && r.files[i].id == id
      && r.files[i].name == (if patch.name.Some? then patch.name.value else st.files[i].name)
      && r.files[i].lastOpened == (if patch.lastOpened.Some? then patch.lastOpened.value else st.files[i].lastOpened)
      && r.files[i].fileData == st.files[i].fileData
    ensures forall i :: 0 <= i < |st.files| && st.files[i].id == id ==>
      r.files[i] == st.files[i].(name := patch.name.GetOr(st.files[i].name),
                                 lastOpened := patch.lastOpened.GetOr(st.files[i].lastOpened))
  {
    var files := seq(|st.files|, i requires 0 <= i < |st.files| =>
      if st.files[i].id == id then Patched(st.files[i], patch) else st.files[i]);
    st.(files := files, editing := None)
  }

  /** An empty patch changes no file. */
  lemma EmptyPatchKeepsFiles(st: State, id: int)
    ensures UpdateFile(st, id, FilePatch(None, None)).files == st.files
  {
  }

  /** `deleteFile`: the files with that id go; the open workbook closes
      exactly when the open file has that id. */
  function DeleteFile(st: State, id: int): (r: State)
    ensures forall f :: f in r.files <==> f in st.files && f.id != id
    ensures forall f :: multiset(r.files)[f] == if f.id != id then multiset(st.files)[f] else 0
    ensures IsSubsequence(r.files, st.files)
    ensures st.selectedFile.Some? && st.selectedFile.value.id == Some(id) ==>
      r == st.(files := r.files, selectedFile := None, book := None)
    ensures !(st.selectedFile.Some? && st.selectedFile.value.id == Some(id)) ==>
      r == st.(files := r.files)
  {
    var files := WithoutId(st.files, FileId, id);
    if st.selectedFile.Some? && st.selectedFile.value.id == Some(id) then
      st.(files := files, selectedFile := None, book := None)
    else st.(files := files)
  }

  /** Deleting the same file twice is deleting it once. */
  lemma DeleteFileIdempotent(st: State, id: int)
    ensures DeleteFile(DeleteFile(st, id), id) == DeleteFile(st, id)
  {
    WithoutIdIdempotent(st.files, FileId, id);
  }

  /** `switchSheet`: the sheet changes and the selection empties. */
  function SwitchSheet(st: State, index: nat): (r: State)
    ensures r.currentSheet == index && r.selection == {}
    ensures r.(currentSheet := st.currentSheet, selection := st.selection) == st
  {
    st.(currentSheet := index, selection := {})
  }

  // ---------------------------------------------------------------------
  // Mouse selection.

  /** `handleCellMouseDown`: the pressed cell alone is selected and becomes
      the anchor of a drag. */
  function MouseDown(st: State, p: Pos): (r: State)
    ensures r.selection == {p} && r.anchor == Some(p) && r.selecting
    ensures r.(selection := st.selection, anchor := st.anchor, selecting := st.selecting) == st
  {
    st.(selecting := true, anchor := Some(p), selection := {p})
  }

  /** `handleCellMouseEnter`: during a drag the selection becomes the
      rectangle between the anchor and the entered cell; otherwise nothing
      changes. */
  function MouseEnter(st: State, p: Pos): (r: State)
    ensures st.selecting && st.anchor.Some? ==>
      r == st.(selection := r.selection)
      && (forall q :: q in r.selection <==> Between(q, st.anchor.value, p))
      && st.anchor.value in r.selection && p in r.selection
    ensures !(st.selecting && st.anchor.Some?) ==> r == st
  {
    if st.selecting && st.anchor.Some? then
      RectMembers(st.anchor.value, p);
      st.(selection := Rect(st.anchor.value, p))
    else st
  }

  /** `handleCellMouseUp`: the drag ends; the selection stays. */
  function MouseUp(st: State): (r: State)
    ensures !r.selecting
    ensures r.(selecting := st.selecting) == st
  {
    st.(selecting := false)
  }

  /** `handleCellClick`: outside a drag a click selects that cell alone. */
  function CellClick(st: State, p: Pos): (r: State)
    ensures !st.selecting ==> r == st.(selection := {p})
    ensures st.selecting ==> r == st
  {
    if st.selecting then st else st.(selection := {p})
  }

  /** Pressing on `p` and dragging to `q` selects the rectangle they span,
      whatever was selected before. */
  lemma DragSelectsRectangle(st: State, p: Pos, q: Pos)
    ensures MouseEnter(MouseDown(st, p), q).selection == Rect(p, q)
    ensures MouseEnter(MouseDown(st, p), p).selection == {p}
  {
    RectMembers(p, q);
  }

  /** A full click (press, release, click) on a cell selects it alone. */
  lemma ClickSelectsCell(st: State, p: Pos)
    ensures CellClick(MouseUp(MouseDown(st, p)), p).selection == {p}
    ensures !CellClick(MouseUp(MouseDown(st, p)), p).selecting
  {
  }

  /** The selection is empty or the rectangle between two cells. */
  ghost predicate RectangularSelection(st: State) {
    st.selection == {} || exists a, b :: st.selection == Rect(a, b)
  }

  /** Every selection event keeps the selection rectangular. */
  lemma EventsKeepSelectionRectangular(st: State, p: Pos, index: nat)
    requires RectangularSelection(st)
    ensures RectangularSelection(MouseDown(st, p))
    ensures RectangularSelection(MouseEnter(st, p))
    ensures RectangularSelection(MouseUp(st))
    ensures RectangularSelection(CellClick(st, p))
    ensures RectangularSelection(SwitchSheet(st, index))
  {
    RectMembers(p, p);
  }

  // ---------------------------------------------------------------------
  // Reading the open sheet.

  /** `excelData.sheets[currentSheet].data`; nothing without a workbook or
      past its last sheet (where reading the sheet throws). */
  function CurrentSheet(st: State): (r: Option<Sheet>)
    ensures r.Some? <==> st.book.Some? && st.currentSheet < |st.book.value.sheets|
  {
    if st.book.Some? && st.currentSheet < |st.book.value.sheets| then Some(st.book.value.sheets[st.currentSheet])
    else None
  }

  /** `copySelectedCells` as the source writes it: each selected cell goes
      through `|| ''`, so a cell holding 0 or false is copied blank. */
  function CopyCellsAsWritten(st: State): (r: Option<string>)
    ensures r.Some? <==> st.selection != {} && CurrentSheet(st).Some?
    ensures r.Some? ==> Some(r.value) == CopySelectionAsWritten(CurrentSheet(st).value, st.selection)
  {
    if st.selection == {} then None
    else match CurrentSheet(st)
      case None => None
      case Some(sheet) => CopySelectionAsWritten(sheet, st.selection)
  }

  /** `copySelectedCells` corrected: each present cell printed as its value. */
  function CopyCells(st: State): (r: Option<string>)
    ensures r.Some? <==> st.selection != {} && CurrentSheet(st).Some?
    ensures r.Some? ==> Some(r.value) == CopySelection(CurrentSheet(st).value, st.selection)
  {
    if st.selection == {} then None
    else match CurrentSheet(st)
      case None => None
      case Some(sheet) => CopySelection(sheet, st.selection)
  }

  /** A selected cell holding 0 on the open sheet reaches the clipboard
      blank as written, and as "0" corrected. */
  lemma CopyCellsBlanksZero(st: State, p: Pos)
    requires st.selection == {p} && CurrentSheet(st).Some?
    requires CellAt(CurrentSheet(st).value, p) == Some(Num(0))
    ensures CopyCellsAsWritten(st) == Some("")
    ensures CopyCells(st) == Some("0")
  {
    SingleZeroCopiedAsEmpty(CurrentSheet(st).value, p);
  }

  /** `copyAsJSON` and `downloadAsJSON`: with an open, non-empty sheet, one
      object per row after the header row, keyed by the header row; nothing
      otherwise. */
  function SheetAsJSON(st: State): (r: Option<seq<Value>>)
    ensures r.Some? <==> CurrentSheet(st).Some? && CurrentSheet(st).value != []
    ensures r.Some? ==> |r.value| == |CurrentSheet(st).value| - 1
    ensures r.Some? ==> forall k :: 0 <= k < |r.value| ==>
      r.value[k] == Obj(RowObject(CurrentSheet(st).value[0], CurrentSheet(st).value[k + 1]))
  {
    match CurrentSheet(st)
    case None => None
    case Some(sheet) => ConvertToJSON(sheet)
  }

  /** `copySelectedCellsAsJSON`: with a selection on an open, non-empty
      sheet, one object per selected row, rows ascending, each holding the
      row's selected cells under their headers; nothing otherwise. */
  function SelectionAsJSON(st: State): (r: Option<seq<Value>>)
    ensures r.Some? <==> st.selection != {} && CurrentSheet(st).Some? && CurrentSheet(st).value != []
    ensures r.Some? ==> |r.value| == |SelectedRows(st.selection)|
    ensures r.Some? ==> forall i :: 0 <= i < |r.value| ==>
      r.value[i] == Obj(SelectedRowObject(CurrentSheet(st).value, st.selection, SelectedRows(st.selection)[i]))
  {
    match CurrentSheet(st)
    case None => None
    case Some(sheet) => SelectionToJSON(sheet, st.selection)
  }

  const ImportedSheetName: string := "Imported_Data"
  const ImportedFileName: string := "Imported_JSON_Data.xlsx"

  /** `importJSON` applied to the state: a successful import opens a
      one-sheet workbook of the imported grid, on its first sheet, with an
      empty selection, under a file name without id; a failed one changes
      nothing. */
  function ApplyImport(st: State, p: Parsed): (r: State)
    ensures ImportJSON(p).Imported? ==>
      && r.book == Some(Workbook([ImportedSheetName], [ImportJSON(p).grid]))
      && r.currentSheet == 0 && r.selection == {}
      && r.selectedFile == Some(OpenFile(None, ImportedFileName))
      && r.files == st.files
      && CurrentSheet(r) == Some(ImportJSON(p).grid)
    ensures ImportJSON(p).Imported? ==>
      r == st.(book := Some(Workbook([ImportedSheetName], [ImportJSON(p).grid])), currentSheet := 0,
               selection := {}, selectedFile := Some(OpenFile(None, ImportedFileName)))
    ensures !ImportJSON(p).Imported? ==> r == st
  {
    match ImportJSON(p)
    case Imported(grid) =>
      st.(book := Some(Workbook([ImportedSheetName], [grid])), currentSheet := 0, selection := {},
          selectedFile := Some(OpenFile(None, ImportedFileName)))
    case _ => st
  }

  /** Deleting a stored file never closes an imported sheet, which has no id. */
  lemma DeleteKeepsImportedSheet(st: State, p: Parsed, id: int)
    requires ImportJSON(p).Imported?
    ensures DeleteFile(ApplyImport(st, p), id).book == ApplyImport(st, p).book
  {
  }
}
