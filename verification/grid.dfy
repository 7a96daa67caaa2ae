/** The spreadsheet utilities of the Excel viewer: cell positions and their
    `row-col` keys, the rectangular drag selection, copying a selection as
    tab-separated text or as JSON objects, converting a sheet to JSON by its
    header row, building a sheet from a JSON array, and the file-name stem
    used for downloads.

    A sheet is what `sheet_to_json(ws, { header: 1, defval: '' })` yields:
    rows of cell values, possibly of different lengths. */
module Grid {
  import opened Seqs
  import opened Text
  import opened Values

  datatype Pos = Pos(row: nat, col: nat)

  type Sheet = seq<seq<Value>>

  // ---------------------------------------------------------------------
  // Cell keys. The viewer keeps its selection as a set of strings
  // `${row}-${col}`; the model keeps a set of positions, which carries the
  // same information because the key encoding is one-to-one.

  function CellKey(p: Pos): string {
    NatToString(p.row) + "-" + NatToString(p.col)
  }

  predicate AllDigits(s: string) {
    forall i :: 0 <= i < |s| ==> IsDigit(s[i])
  }

  /** `key.split('-').map(Number)` on a key made of two digit strings. */
  function ParseCellKey(key: string): Option<Pos> {
    match IndexOf(key, '-')
    case None => None
    case Some(k) =>
      var a, b := key[..k], key[k + 1..];
      if a != [] && b != [] && AllDigits(a) && AllDigits(b) then Some(Pos(DigitsValue(a), DigitsValue(b)))
      else None
  }

  /** Every key parses back to the cell it was made from. */
  lemma CellKeyRoundTrip(p: Pos)
    ensures ParseCellKey(CellKey(p)) == Some(p)
  {
    var a, b := NatToString(p.row), NatToString(p.col);
    var key := CellKey(p);
    assert key[|a|] == '-';
    assert '-' !in a by {
      forall i | 0 <= i < |a| ensures a[i] != '-' {
        assert IsDigit(a[i]);
      }
    }
    match IndexOf(key, '-')
    case None =>
    case Some(k) =>
      assert key[..k] == a && key[k + 1..] == b;
      NatToStringRoundTrip(p.row);
      NatToStringRoundTrip(p.col);
  }

  /** Different cells have different keys. */
  lemma CellKeyInjective(p: Pos, q: Pos)
    ensures CellKey(p) == CellKey(q) <==> p == q
  {
    if CellKey(p) == CellKey(q) {
      CellKeyRoundTrip(p);
      CellKeyRoundTrip(q);
    }
  }

  // ---------------------------------------------------------------------
  // Rectangular selection.

  function Min(a: nat, b: nat): nat {
    if a <= b then a else b
  }

  function Max(a: nat, b: nat): nat {
    if a <= b then b else a
  }

  /** The cells in rows `r0 ..< r1` and columns `c0 ..< c1`. */
  function Box(r0: nat, r1: nat, c0: nat, c1: nat): set<Pos> {
    set r: nat, c: nat | r0 <= r < r1 && c0 <= c < c1 :: Pos(r, c)
  }

  /** The cells between two corners, both included. */
  function Rect(a: Pos, b: Pos): set<Pos> {
    Box(Min(a.row, b.row), Max(a.row, b.row) + 1, Min(a.col, b.col), Max(a.col, b.col) + 1)
  }

  predicate Between(p: Pos, a: Pos, b: Pos) {
    && Min(a.row, b.row) <= p.row <= Max(a.row, b.row)
    && Min(a.col, b.col) <= p.col <= Max(a.col, b.col)
  }

  /** The rectangle holds exactly the cells between its corners: both
      corners, and nothing else when the corners coincide. */
  lemma RectMembers(a: Pos, b: Pos)
    ensures forall p :: p in Rect(a, b) <==> Between(p, a, b)
    ensures a in Rect(a, b) && b in Rect(a, b)
    ensures Rect(a, a) == {a}
  {
    assert a in Rect(a, b) by {
      assert Pos(a.row, a.col) == a;
    }
    assert b in Rect(a, b) by {
      assert Pos(b.row, b.col) == b;
    }
    assert a in Rect(a, a);
  }

  /** Dragging from `a` to `b` selects what dragging from `b` to `a` does. */
  lemma RectSymmetric(a: Pos, b: Pos)
    ensures Rect(a, b) == Rect(b, a)
  {
  }

  /** `handleCellMouseEnter`'s two loops: row by row, column by column, every
      cell between the anchor and the current cell is added. The result is
      the rectangle, of `(|Δrow| + 1) * (|Δcol| + 1)` cells. */
  method SelectRect(anchor: Pos, current: Pos) returns (sel: set<Pos>)
    ensures sel == Rect(anchor, current)
    ensures forall p :: p in sel <==> Between(p, anchor, current)
    ensures |sel| == (Max(anchor.row, current.row) - Min(anchor.row, current.row) + 1)
                   * (Max(anchor.col, current.col) - Min(anchor.col, current.col) + 1)
  {
    var startRow, endRow := Min(anchor.row, current.row), Max(anchor.row, current.row);
    var startCol, endCol := Min(anchor.col, current.col), Max(anchor.col, current.col);
    var width := endCol + 1 - startCol;
    sel := {};
    var r := startRow;
    while r <= endRow
      invariant startRow <= r <= endRow + 1
      invariant IsBlock(sel, startRow, r, startCol, endCol + 1)
      invariant |sel| == (r - startRow) * width
    {
      sel := AddRow(sel, startRow, r, startCol, endCol);
      MulStep(r - startRow, width);
      r := r + 1;
    }
    BlockIsRect(sel, anchor, current);
    RectMembers(anchor, current);
  }

  /** `sel` holds exactly the cells in rows `r0 ..< r1` and columns `c0 ..< c1`. */
  ghost predicate IsBlock(sel: set<Pos>, r0: nat, r1: nat, c0: nat, c1: nat) {
    forall p :: p in sel <==> r0 <= p.row < r1 && c0 <= p.col < c1
  }

  /** The inner loop: the cells of row `r` from `c0` to `c1` join the block
      of rows above it. */
  method AddRow(block: set<Pos>, r0: nat, r: nat, c0: nat, c1: nat) returns (sel: set<Pos>)
    requires r0 <= r && c0 <= c1
    requires IsBlock(block, r0, r, c0, c1 + 1)
    ensures IsBlock(sel, r0, r + 1, c0, c1 + 1)
    ensures |sel| == |block| + (c1 + 1 - c0)
  {
    sel := block;
    var c := c0;
    while c <= c1
      invariant c0 <= c <= c1 + 1
      invariant forall p :: p in sel <==> p in block || (p.row == r && c0 <= p.col < c)
      invariant |sel| == |block| + (c - c0)
    {
      assert Pos(r, c) !in sel;
      sel := sel + {Pos(r, c)};
      c := c + 1;
    }
  }

  lemma MulStep(k: nat, w: nat)
    ensures (k + 1) * w == k * w + w
  {
  }

  /** A block spanning two corners' rows and columns is their rectangle. */
  lemma BlockIsRect(sel: set<Pos>, a: Pos, b: Pos)
    requires IsBlock(sel, Min(a.row, b.row), Max(a.row, b.row) + 1, Min(a.col, b.col), Max(a.col, b.col) + 1)
    ensures sel == Rect(a, b)
  {
    RectMembers(a, b);
    assert forall p :: p in sel <==> p in Rect(a, b);
  }

  // ---------------------------------------------------------------------
  // Cell values.

  /** `data[row]?.[col]`: nothing past the last row or past the end of a row. */
  function CellAt(sheet: Sheet, p: Pos): Option<Value> {
    if p.row < |sheet| && p.col < |sheet[p.row]| then Some(sheet[p.row][p.col]) else None
  }

  /** `x || ''`: a missing or falsy value becomes the empty string. */
  function OrEmpty(v: Option<Value>): (r: Value)
    ensures r.Str? ==> v.None? || v.value == r || r == Str("")
    ensures v.Some? && Truthy(v.value) ==> r == v.value
    ensures Truthy(r) <==> v.Some? && Truthy(v.value)
  {
    match v
    case Some(x) => if Truthy(x) then x else Str("")
    case None => Str("")
  }

  /** The text a copied cell contributes, as the source computes it:
      `data[row]?.[col] || ''`, then joined. A cell holding `0` or `false`
      is falsy, so it is copied as an empty string. */
  function CellTextAsWritten(sheet: Sheet, p: Pos): string {
    Display(OrEmpty(CellAt(sheet, p)))
  }

  /** The text a copied cell evidently should contribute: the cell's value as
      `join` prints it, and the empty string only for a missing cell. */
  function CellText(sheet: Sheet, p: Pos): string {
    match CellAt(sheet, p)
    case Some(x) => Display(x)
    case None => ""
  }

  /** The two differ exactly on cells holding `0` or `false`. */
  lemma CellTextDiffers(sheet: Sheet, p: Pos)
    ensures CellTextAsWritten(sheet, p) != CellText(sheet, p) <==>
      CellAt(sheet, p) == Some(Num(0)) || CellAt(sheet, p) == Some(Bool(false))
  {
    assert Display(Num(0)) == "0";
  }

  /** A zero in the sheet is copied as nothing instead of as `0`. */
  lemma ZeroCopiedAsEmpty(sheet: Sheet, p: Pos)
    requires CellAt(sheet, p) == Some(Num(0))
    ensures CellTextAsWritten(sheet, p) == ""
    ensures CellText(sheet, p) == "0"
  {
    assert Display(Num(0)) == "0";
  }

  // ---------------------------------------------------------------------
  // Copying a selection as text. The source sorts the keys by row and then
  // column and groups them by row; the groups come out in ascending row
  // order because integer-like object keys enumerate in ascending order.

  function RowsOf(sel: set<Pos>): set<nat> {
    set p | p in sel :: p.row
  }

  function ColsOf(sel: set<Pos>, r: nat): set<nat> {
    set p | p in sel && p.row == r :: p.col
  }

  lemma ColsOfMembers(sel: set<Pos>, r: nat)
    ensures forall c :: c in ColsOf(sel, r) <==> Pos(r, c) in sel
  {
    forall c | Pos(r, c) in sel ensures c in ColsOf(sel, r) {
      assert Pos(r, c).col == c;
    }
  }

  /** The distinct rows of the selection, ascending. */
  function SelectedRows(sel: set<Pos>): (rows: seq<nat>)
    ensures StrictlyIncreasing(rows)
    ensures forall r :: r in rows <==> exists p :: p in sel && p.row == r
  {
    SortedSeqIncreasing(RowsOf(sel));
    SortedSeq(RowsOf(sel))
  }

  /** The selected columns of row `r`, ascending. */
  function SelectedCols(sel: set<Pos>, r: nat): (cols: seq<nat>)
    ensures StrictlyIncreasing(cols)
    ensures forall c :: c in cols <==> Pos(r, c) in sel
  {
    SortedSeqIncreasing(ColsOf(sel, r));
    ColsOfMembers(sel, r);
    SortedSeq(ColsOf(sel, r))
  }

  /** A row's selected cells, by ascending column. */
  function RowGroup(sel: set<Pos>, r: nat): (cells: seq<Pos>)
    ensures |cells| == |SelectedCols(sel, r)|
    ensures forall j :: 0 <= j < |cells| ==> cells[j] == Pos(r, SelectedCols(sel, r)[j])
  {
    var cols := SelectedCols(sel, r);
    seq(|cols|, j requires 0 <= j < |cols| => Pos(r, cols[j]))
  }

  /** The order a copy visits the selected cells in: one group per selected
      row, rows ascending. */
  function CopyOrder(sel: set<Pos>): (g: seq<seq<Pos>>)
    ensures |g| == |SelectedRows(sel)|
    ensures forall i :: 0 <= i < |g| ==> g[i] == RowGroup(sel, SelectedRows(sel)[i])
  {
    var rows := SelectedRows(sel);
    seq(|rows|, i requires 0 <= i < |rows| => RowGroup(sel, rows[i]))
  }

  /** A copy visits only selected cells: the groups follow ascending rows,
      a group holds only its row's cells in ascending columns, and no group
      is empty. */
  lemma CopyOrderShape(sel: set<Pos>)
    ensures forall i :: 0 <= i < |CopyOrder(sel)| ==> CopyOrder(sel)[i] != []
    ensures forall i, j :: 0 <= i < |CopyOrder(sel)| && 0 <= j < |CopyOrder(sel)[i]| ==>
      CopyOrder(sel)[i][j] in sel && CopyOrder(sel)[i][j].row == SelectedRows(sel)[i]
    ensures forall i, i' :: 0 <= i < i' < |CopyOrder(sel)| ==> SelectedRows(sel)[i] < SelectedRows(sel)[i']
    ensures forall i, j, k :: 0 <= i < |CopyOrder(sel)| && 0 <= j < k < |CopyOrder(sel)[i]| ==>
      CopyOrder(sel)[i][j].col < CopyOrder(sel)[i][k].col
  {
    var g, rows := CopyOrder(sel), SelectedRows(sel);
    forall i | 0 <= i < |g| ensures g[i] != [] {
      assert rows[i] in rows;
      var p :| p in sel && p.row == rows[i];
      assert p == Pos(rows[i], p.col);
      assert p.col in SelectedCols(sel, rows[i]);
    }
  }

  /** A copy visits every selected cell. */
  lemma CopyOrderCovers(sel: set<Pos>)
    ensures forall p :: p in sel ==>
      exists i, j :: 0 <= i < |CopyOrder(sel)| && 0 <= j < |CopyOrder(sel)[i]| && CopyOrder(sel)[i][j] == p
  {
    var g, rows := CopyOrder(sel), SelectedRows(sel);
    forall p | p in sel ensures exists i, j :: 0 <= i < |g| && 0 <= j < |g[i]| && g[i][j] == p {
      assert p.row in rows;
      var i :| 0 <= i < |rows| && rows[i] == p.row;
      var cols := SelectedCols(sel, rows[i]);
      assert p == Pos(p.row, p.col);
      assert p.col in cols;
      var j :| 0 <= j < |cols| && cols[j] == p.col;
      assert g[i][j] == p;
    }
  }

  /** One clipboard line: a row's cells, printed by `text`, joined by tabs. */
  function Line(cells: seq<Pos>, text: Pos -> string): string {
    JoinWith(MapSeq(cells, text), "\t")
  }

  /** The clipboard text for a selection: one line per selected row, joined
      by newlines. */
  function CopyText(sel: set<Pos>, text: Pos -> string): string {
    JoinWith(MapSeq(CopyOrder(sel), (cells: seq<Pos>) => Line(cells, text)), "\n")
  }

  /** The text depends only on how the selected cells print. */
  lemma CopyTextCongruent(sel: set<Pos>, text: Pos -> string, text': Pos -> string)
    requires forall p :: p in sel ==> text(p) == text'(p)
    ensures CopyText(sel, text) == CopyText(sel, text')
  {
    var g := CopyOrder(sel);
    forall i | 0 <= i < |g| ensures Line(g[i], text) == Line(g[i], text') {
      var r := SelectedRows(sel)[i];
      forall j | 0 <= j < |g[i]| ensures text(g[i][j]) == text'(g[i][j]) {
        RowGroupSelected(sel, r, j);
      }
      LineCongruent(g[i], text, text');
    }
    assert MapSeq(g, (cells: seq<Pos>) => Line(cells, text)) == MapSeq(g, (cells: seq<Pos>) => Line(cells, text'));
  }

  /** A row group holds selected cells. */
  lemma RowGroupSelected(sel: set<Pos>, r: nat, j: nat)
    requires j < |RowGroup(sel, r)|
    ensures RowGroup(sel, r)[j] in sel
  {
    assert SelectedCols(sel, r)[j] in SelectedCols(sel, r);
  }

  lemma LineCongruent(cells: seq<Pos>, text: Pos -> string, text': Pos -> string)
    requires forall j :: 0 <= j < |cells| ==> text(cells[j]) == text'(cells[j])
    ensures Line(cells, text) == Line(cells, text')
  {
    assert MapSeq(cells, text) == MapSeq(cells, text');
  }

  function TextAsWritten(sheet: Sheet): Pos -> string {
    p => CellTextAsWritten(sheet, p)
  }

  function TextOf(sheet: Sheet): Pos -> string {
    p => CellText(sheet, p)
  }

  /** `copySelectedCells` as written: nothing for an empty selection,
      otherwise the selection's text with falsy cells blanked. */
  function CopySelectionAsWritten(sheet: Sheet, sel: set<Pos>): (r: Option<string>)
    ensures r.None? <==> sel == {}
    ensures r.Some? ==> r.value == CopyText(sel, TextAsWritten(sheet))
  {
    if sel == {} then None else Some(CopyText(sel, TextAsWritten(sheet)))
  }

  /** `copySelectedCells` with every present cell printed. */
  function CopySelection(sheet: Sheet, sel: set<Pos>): (r: Option<string>)
    ensures r.None? <==> sel == {}
    ensures r.Some? ==> r.value == CopyText(sel, TextOf(sheet))
  {
    if sel == {} then None else Some(CopyText(sel, TextOf(sheet)))
  }

  /** The two copies agree on every selection without a `0` or `false` cell. */
  lemma CopiesAgreeWithoutFalsyCells(sheet: Sheet, sel: set<Pos>)
    requires forall p :: p in sel ==> CellAt(sheet, p) != Some(Num(0)) && CellAt(sheet, p) != Some(Bool(false))
    ensures CopySelectionAsWritten(sheet, sel) == CopySelection(sheet, sel)
  {
    forall p | p in sel ensures TextAsWritten(sheet)(p) == TextOf(sheet)(p) {
      CellTextDiffers(sheet, p);
    }
    CopyTextCongruent(sel, TextAsWritten(sheet), TextOf(sheet));
  }

  /** The copy of a single cell is that cell's text alone. */
  lemma CopySingleCell(sel: set<Pos>, p: Pos, text: Pos -> string)
    requires sel == {p}
    ensures CopyText(sel, text) == text(p)
  {
    assert RowsOf(sel) == {p.row};
    SortedSeqSingleton(p.row);
    ColsOfMembers(sel, p.row);
    assert ColsOf(sel, p.row) == {p.col};
    SortedSeqSingleton(p.col);
    assert SelectedRows(sel) == [p.row];
    assert SelectedCols(sel, p.row) == [p.col];
    assert RowGroup(sel, p.row) == [p];
    assert CopyOrder(sel) == [[p]];
  }

  /** A single selected zero is copied as an empty clipboard text where the
      corrected copy gives `0`. */
  lemma SingleZeroCopiedAsEmpty(sheet: Sheet, p: Pos)
    requires CellAt(sheet, p) == Some(Num(0))
    ensures CopySelectionAsWritten(sheet, {p}) == Some("")
    ensures CopySelection(sheet, {p}) == Some("0")
  {
    ZeroCopiedAsEmpty(sheet, p);
    CopySingleCell({p}, p, TextAsWritten(sheet));
    CopySingleCell({p}, p, TextOf(sheet));
  }

  // ---------------------------------------------------------------------
  // Objects built by assignment.

  /** `keys.forEach((k, i) => obj[k] = vals[i])` on a fresh object. */
  function Assign(keys: seq<string>, vals: seq<Value>): (ms: seq<Member>)
    requires |keys| == |vals|
    ensures forall k :: k in Keys(ms) <==> k in keys
  {
    assert keys[..|keys|] == keys;
    AssignFirst(keys, vals, |keys|)
  }

  /** The object after the first `n` assignments. */
  function AssignFirst(keys: seq<string>, vals: seq<Value>, n: nat): (ms: seq<Member>)
    requires n <= |keys| == |vals|
    ensures forall k :: k in Keys(ms) <==> k in keys[..n]
  {
    if n == 0 then []
    else
      assert keys[..n] == keys[..n - 1] + [keys[n - 1]];
      Put(AssignFirst(keys, vals, n - 1), keys[n - 1], vals[n - 1])
  }

  /** A key holds the value of its last assignment. */
  lemma AssignGet(keys: seq<string>, vals: seq<Value>, i: nat)
    requires |keys| == |vals| && i < |keys|
    requires forall j :: i < j < |keys| ==> keys[j] != keys[i]
    ensures Get(Assign(keys, vals), keys[i]) == Some(vals[i])
  {
    AssignFirstGet(keys, vals, |keys|, i);
  }

  lemma {:induction false} AssignFirstGet(keys: seq<string>, vals: seq<Value>, n: nat, i: nat)
    requires n <= |keys| == |vals| && i < n
    requires forall j :: i < j < n ==> keys[j] != keys[i]
    ensures Get(AssignFirst(keys, vals, n), keys[i]) == Some(vals[i])
  {
    if i < n - 1 {
      AssignFirstGet(keys, vals, n - 1, i);
    }
  }

  /** The members pairing each key with its value. */
  function Zip(keys: seq<string>, vals: seq<Value>): (ms: seq<Member>)
    requires |keys| == |vals|
    ensures |ms| == |keys| && Keys(ms) == keys
    ensures forall i :: 0 <= i < |keys| ==> ms[i] == Member(keys[i], vals[i])
  {
    seq(|keys|, i requires 0 <= i < |keys| => Member(keys[i], vals[i]))
  }

  /** Distinct keys give one member per key, in order. */
  lemma AssignDistinct(keys: seq<string>, vals: seq<Value>)
    requires |keys| == |vals| && NoDuplicates(keys)
    ensures Assign(keys, vals) == Zip(keys, vals)
  {
    AssignFirstDistinct(keys, vals, |keys|);
  }

  lemma {:induction false} AssignFirstDistinct(keys: seq<string>, vals: seq<Value>, n: nat)
    requires n <= |keys| == |vals| && NoDuplicates(keys)
    ensures |AssignFirst(keys, vals, n)| == n
    ensures forall i :: 0 <= i < n ==> AssignFirst(keys, vals, n)[i] == Member(keys[i], vals[i])
  {
    if n > 0 {
      var prev := AssignFirst(keys, vals, n - 1);
      AssignFirstDistinct(keys, vals, n - 1);
      assert keys[n - 1] !in Keys(prev) by {
        forall i | 0 <= i < n - 1 ensures Keys(prev)[i] != keys[n - 1] {
          assert Keys(prev)[i] == keys[i];
        }
      }
      PutAppends(prev, keys[n - 1], vals[n - 1]);
    }
  }

  // ---------------------------------------------------------------------
  // Sheet to JSON.

  /** `header || \`Column_${index + 1}\``: the header's text, or a numbered
      column name for a falsy or missing header. */
  function HeaderKey(headers: seq<Value>, i: nat): string {
    if i < |headers| && Truthy(headers[i]) then Display(headers[i]) else "Column_" + NatToString(i + 1)
  }

  function HeaderKeys(headers: seq<Value>): (ks: seq<string>)
    ensures |ks| == |headers|
    ensures forall i :: 0 <= i < |headers| ==> ks[i] == HeaderKey(headers, i)
  {
    seq(|headers|, i requires 0 <= i < |headers| => HeaderKey(headers, i))
  }

  /** `row[index] || ''`. */
  function CellIn(row: seq<Value>, i: nat): Value {
    OrEmpty(if i < |row| then Some(row[i]) else None)
  }

  /** The object a data row becomes: one key per header; a key that no
      later header repeats holds the row's cell in that column, or `''`. */
  function RowObject(headers: seq<Value>, row: seq<Value>): (ms: seq<Member>)
    ensures forall k :: k in Keys(ms) <==> k in HeaderKeys(headers)
  {
    Assign(HeaderKeys(headers), RowCells(headers, row))
  }

  function RowCells(headers: seq<Value>, row: seq<Value>): (vs: seq<Value>)
    ensures |vs| == |headers|
    ensures forall i :: 0 <= i < |headers| ==> vs[i] == CellIn(row, i)
  {
    seq(|headers|, i requires 0 <= i < |headers| => CellIn(row, i))
  }

  /** A header key that no later header repeats holds the row's cell in
      that column, or `''`. */
  lemma RowObjectField(headers: seq<Value>, row: seq<Value>, i: nat)
    requires i < |headers|
    requires forall j :: i < j < |headers| ==> HeaderKey(headers, j) != HeaderKey(headers, i)
    ensures Get(RowObject(headers, row), HeaderKey(headers, i)) == Some(CellIn(row, i))
  {
    var ks := HeaderKeys(headers);
    forall j | i < j < |ks| ensures ks[j] != ks[i] {
      assert ks[j] == HeaderKey(headers, j);
    }
    AssignGet(ks, RowCells(headers, row), i);
  }

  /** `convertToJSON`: nothing for an empty sheet; otherwise one object per
      row after the header row, keyed by the header row. */
  function ConvertToJSON(sheet: Sheet): (r: Option<seq<Value>>)
    ensures r.None? <==> sheet == []
    ensures r.Some? ==> |r.value| == |sheet| - 1
    ensures r.Some? ==> forall k :: 0 <= k < |r.value| ==> r.value[k] == Obj(RowObject(sheet[0], sheet[k + 1]))
  {
    if sheet == [] then None
    else Some(seq(|sheet| - 1, k requires 0 <= k < |sheet| - 1 => Obj(RowObject(sheet[0], sheet[k + 1]))))
  }

  // ---------------------------------------------------------------------
  // Selection to JSON.

  /** The object a selected row becomes: each selected column of the row,
      in ascending order, assigns the cell (`|| ''`) to its header's key. */
  function SelectedRowObject(sheet: Sheet, sel: set<Pos>, r: nat): (ms: seq<Member>)
    requires sheet != []
    ensures forall k :: k in Keys(ms) <==> exists c :: Pos(r, c) in sel && k == HeaderKey(sheet[0], c)
  {
    var cols := SelectedCols(sel, r);
    var keys := seq(|cols|, j requires 0 <= j < |cols| => HeaderKey(sheet[0], cols[j]));
    var ms := Assign(keys, seq(|cols|, j requires 0 <= j < |cols| => OrEmpty(CellAt(sheet, Pos(r, cols[j])))));
    assert forall k :: k in keys <==> exists c :: Pos(r, c) in sel && k == HeaderKey(sheet[0], c) by {
      forall k | k in keys ensures exists c :: Pos(r, c) in sel && k == HeaderKey(sheet[0], c) {
        var j :| 0 <= j < |cols| && keys[j] == k;
        assert cols[j] in cols;
      }
      forall c | Pos(r, c) in sel ensures HeaderKey(sheet[0], c) in keys {
        assert c in cols;
        var j :| 0 <= j < |cols| && cols[j] == c;
        assert keys[j] == HeaderKey(sheet[0], c);
      }
    }
    ms
  }

  /** `copySelectedCellsAsJSON`: nothing for an empty selection, nor for an
      empty sheet (reading the missing header row throws); otherwise one
      object per selected row, rows ascending. */
  function SelectionToJSON(sheet: Sheet, sel: set<Pos>): (r: Option<seq<Value>>)
    ensures r.None? <==> sel == {} || sheet == []
    ensures r.Some? ==> |r.value| == |SelectedRows(sel)|
    ensures r.Some? ==> forall i :: 0 <= i < |r.value| ==>
      r.value[i] == Obj(SelectedRowObject(sheet, sel, SelectedRows(sel)[i]))
  {
    if sel == {} || sheet == [] then None
    else
      var rows := SelectedRows(sel);
      Some(seq(|rows|, i requires 0 <= i < |rows| => Obj(SelectedRowObject(sheet, sel, rows[i]))))
  }

  /** With distinct header keys in a row's selected columns, every selected
      cell is found under its header's key. */
  lemma SelectedRowFields(sheet: Sheet, sel: set<Pos>, r: nat, c: nat)
    requires sheet != [] && Pos(r, c) in sel
    requires forall c' :: Pos(r, c') in sel && c' != c ==> HeaderKey(sheet[0], c') != HeaderKey(sheet[0], c)
    ensures Get(SelectedRowObject(sheet, sel, r), HeaderKey(sheet[0], c)) == Some(OrEmpty(CellAt(sheet, Pos(r, c))))
  {
    var cols := SelectedCols(sel, r);
    var keys := seq(|cols|, j requires 0 <= j < |cols| => HeaderKey(sheet[0], cols[j]));
    var vals := seq(|cols|, j requires 0 <= j < |cols| => OrEmpty(CellAt(sheet, Pos(r, cols[j]))));
    assert c in cols;
    var j :| 0 <= j < |cols| && cols[j] == c;
    forall m | j < m < |keys| ensures keys[m] != keys[j] {
      assert cols[m] in cols && cols[m] != c;
    }
    AssignGet(keys, vals, j);
  }

  // ---------------------------------------------------------------------
  // JSON array to sheet.

  datatype ImportResult = InvalidJson | NotANonEmptyArray | Imported(grid: Sheet)

  /** `Object.keys(v)`: the distinct own keys in order of first appearance
      (a parsed object with a repeated key lists it once); `None` where the
      call throws, on `null`. */
  function ObjectKeys(v: Value): Option<seq<string>> {
    if v.Null? then None else Some(Dedup(Keys(Spread(v))))
  }

  lemma ObjectKeysOfDistinct(ms: seq<Member>)
    requires NoDuplicates(Keys(ms))
    ensures ObjectKeys(Obj(ms)) == Some(Keys(ms))
  {
    DedupOfDistinct(Keys(ms));
  }

  /** The header row: the keys as string cells. */
  function HeaderRow(hs: seq<string>): seq<Value> {
    MapSeq(hs, (h: string) => Str(h))
  }

  /** `headers.map(header => obj[header] || '')` for one element. */
  function ImportRow(v: Value, hs: seq<string>): (row: seq<Value>)
    ensures |row| == |hs|
    ensures forall j :: 0 <= j < |hs| ==> row[j] == OrEmpty(Get(Spread(v), hs[j]))
  {
    MapSeq(hs, (h: string) => OrEmpty(Get(Spread(v), h)))
  }

  /** Reading a header of a `null` element throws. */
  predicate ReadsNull(xs: seq<Value>, hs: seq<string>) {
    hs != [] && exists k :: 0 <= k < |xs| && xs[k].Null?
  }

  /** `importJSON`: text that fails to parse, and a `null` element, end in
      the parse-error alert; anything but a non-empty array is refused;
      otherwise the sheet is the header row (the keys of the first element)
      followed by one row per element, each as long as the header row. */
  function ImportJSON(p: Parsed): (r: ImportResult)
    ensures p.Malformed? ==> r == InvalidJson
    ensures p.Parsed? && !(p.value.Arr? && p.value.items != []) ==> r == NotANonEmptyArray
    ensures p.Parsed? && p.value.Arr? && p.value.items != [] ==> r == ImportArray(p.value.items)
  {
    match p
    case Malformed => InvalidJson
    case Parsed(v) =>
      if v.Arr? && v.items != [] then ImportArray(v.items) else NotANonEmptyArray
  }

  /** The sheet a non-empty array becomes: the header row (the keys of the
      first element) followed by one row per element, each as long as the
      header row; an error where reading a key throws. */
  function ImportArray(xs: seq<Value>): (r: ImportResult)
    requires xs != []
    ensures r.NotANonEmptyArray? == false
    ensures r.Imported? <==> ObjectKeys(xs[0]).Some? && !ReadsNull(xs, ObjectKeys(xs[0]).value)
    ensures r.Imported? ==>
      && |r.grid| == |xs| + 1
      && r.grid[0] == HeaderRow(ObjectKeys(xs[0]).value)
      && forall k :: 0 <= k < |xs| ==> r.grid[k + 1] == ImportRow(xs[k], ObjectKeys(xs[0]).value)
  {
    match ObjectKeys(xs[0])
    case None => InvalidJson
    case Some(hs) =>
      if ReadsNull(xs, hs) then InvalidJson
      else Imported([HeaderRow(hs)] + MapSeq(xs, (x: Value) => ImportRow(x, hs)))
  }

  /** An object whose keys are the (non-empty, distinct) headers and whose
      values are truthy survives import followed by conversion. */
  lemma ImportedRowObject(ms: seq<Member>, hs: seq<string>)
    requires Keys(ms) == hs && NoDuplicates(hs)
    requires forall j :: 0 <= j < |hs| ==> hs[j] != ""
    requires forall j :: 0 <= j < |ms| ==> Truthy(ms[j].value)
    ensures HeaderKeys(HeaderRow(hs)) == hs
    ensures RowObject(HeaderRow(hs), ImportRow(Obj(ms), hs)) == ms
  {
    var header := HeaderRow(hs);
    assert HeaderKeys(header) == hs;
    var row := ImportRow(Obj(ms), hs);
    var cells := RowCells(header, row);
    forall j | 0 <= j < |hs| ensures cells[j] == ms[j].value {
      GetDistinct(ms, j);
    }
    AssignDistinct(hs, cells);
  }

  /** Importing an array of objects that share one list of non-empty,
      distinct keys and hold truthy values, then converting the sheet back,
      gives the array again. */
  lemma ImportThenConvert(xs: seq<Value>, hs: seq<string>)
    requires xs != []
    requires forall k :: 0 <= k < |xs| ==> xs[k].Obj? && Keys(xs[k].members) == hs
    requires NoDuplicates(hs) && forall j :: 0 <= j < |hs| ==> hs[j] != ""
    requires forall k, j :: 0 <= k < |xs| && 0 <= j < |xs[k].members| ==> Truthy(xs[k].members[j].value)
    ensures ImportJSON(Parsed(Arr(xs))).Imported?
    ensures ConvertToJSON(ImportJSON(Parsed(Arr(xs))).grid) == Some(xs)
  {
    DedupOfDistinct(hs);
    assert ObjectKeys(xs[0]) == Some(hs);
    assert !ReadsNull(xs, hs) by {
      forall k | 0 <= k < |xs| ensures !xs[k].Null? {
        assert xs[k].Obj?;
      }
    }
    var r := ImportJSON(Parsed(Arr(xs)));
    var out := ConvertToJSON(r.grid);
    assert |out.value| == |xs|;
    assert r.Imported? && r.grid[0] == HeaderRow(hs);
    forall k | 0 <= k < |xs| ensures out.value[k] == xs[k] {
      assert xs[k] == Obj(xs[k].members);
      assert r.grid[k + 1] == ImportRow(Obj(xs[k].members), hs);
      ImportedRowObject(xs[k].members, hs);
      assert out.value[k] == Obj(RowObject(r.grid[0], r.grid[k + 1]));
    }
    assert out.value == xs;
  }

  /** The header strings of a sheet whose header row holds only strings. */
  function HeaderStrings(header: seq<Value>): (hs: seq<string>)
    requires forall j :: 0 <= j < |header| ==> header[j].Str?
    ensures |hs| == |header|
    ensures forall j :: 0 <= j < |header| ==> header[j] == Str(hs[j])
  {
    MapSeq(header, (c: Value) => if c.Str? then c.s else "")
  }

  /** A data row as long as a header row of non-empty, distinct strings,
      with truthy cells, becomes the object pairing headers with cells. */
  lemma ConvertedRowMembers(header: seq<Value>, hs: seq<string>, row: seq<Value>)
    requires header == HeaderRow(hs)
    requires forall j :: 0 <= j < |hs| ==> hs[j] != ""
    requires NoDuplicates(hs)
    requires |row| == |hs| && forall j :: 0 <= j < |row| ==> Truthy(row[j])
    ensures RowObject(header, row) == Zip(hs, row)
  {
    assert HeaderKeys(header) == hs;
    assert RowCells(header, row) == row;
    AssignDistinct(hs, row);
  }

  /** Reading back the headers of such an object gives the row. */
  lemma ZipReadsBack(hs: seq<string>, row: seq<Value>)
    requires NoDuplicates(hs)
    requires |row| == |hs| && forall j :: 0 <= j < |row| ==> Truthy(row[j])
    ensures ImportRow(Obj(Zip(hs, row)), hs) == row
  {
    var ms := Zip(hs, row);
    forall j | 0 <= j < |hs| ensures ImportRow(Obj(ms), hs)[j] == row[j] {
      GetDistinct(ms, j);
    }
  }

  lemma ConvertedRow(header: seq<Value>, hs: seq<string>, row: seq<Value>)
    requires header == HeaderRow(hs) && NoDuplicates(hs)
    requires forall j :: 0 <= j < |hs| ==> hs[j] != ""
    requires |row| == |hs| && forall j :: 0 <= j < |row| ==> Truthy(row[j])
    ensures Keys(RowObject(header, row)) == hs
    ensures ImportRow(Obj(RowObject(header, row)), hs) == row
  {
    ConvertedRowMembers(header, hs, row);
    ZipReadsBack(hs, row);
  }

  /** A sheet whose header row holds non-empty, distinct strings, and whose
      data rows are as long as the header row with truthy cells, survives
      conversion to JSON followed by import. */
  lemma ConvertThenImport(sheet: Sheet)
    requires |sheet| >= 2
    requires forall j :: 0 <= j < |sheet[0]| ==> sheet[0][j].Str? && sheet[0][j].s != ""
    requires forall i, j :: 0 <= i < j < |sheet[0]| ==> sheet[0][i] != sheet[0][j]
    requires forall k :: 1 <= k < |sheet| ==> |sheet[k]| == |sheet[0]|
    requires forall k, j :: 1 <= k < |sheet| && 0 <= j < |sheet[k]| ==> Truthy(sheet[k][j])
    ensures ConvertToJSON(sheet).Some?
    ensures ImportJSON(Parsed(Arr(ConvertToJSON(sheet).value))) == Imported(sheet)
  {
    var hs := HeaderStrings(sheet[0]);
    StringHeader(sheet[0]);
    ImportConverted(sheet, hs);
  }

  /** A header row of non-empty, distinct strings is the header row of its
      strings. */
  lemma StringHeader(header: seq<Value>)
    requires forall j :: 0 <= j < |header| ==> header[j].Str? && header[j].s != ""
    requires forall i, j :: 0 <= i < j < |header| ==> header[i] != header[j]
    ensures var hs := HeaderStrings(header);
      NoDuplicates(hs) && HeaderRow(hs) == header && forall j :: 0 <= j < |hs| ==> hs[j] != ""
  {
    var hs := HeaderStrings(header);
    assert HeaderRow(hs) == header;
  }

  lemma ImportConverted(sheet: Sheet, hs: seq<string>)
    requires |sheet| >= 2 && HeaderRow(hs) == sheet[0] && NoDuplicates(hs)
    requires forall j :: 0 <= j < |hs| ==> hs[j] != ""
    requires forall k :: 1 <= k < |sheet| ==> |sheet[k]| == |hs|
    requires forall k, j :: 1 <= k < |sheet| && 0 <= j < |sheet[k]| ==> Truthy(sheet[k][j])
    ensures ImportJSON(Parsed(Arr(ConvertToJSON(sheet).value))) == Imported(sheet)
  {
    var xs := ConvertToJSON(sheet).value;
    ConvertedRows(sheet, hs);
    ObjectKeysOfDistinct(xs[0].members);
    assert xs[0] == Obj(xs[0].members);
    ImportOfRows(xs, hs, sheet);
  }

  /** An array of objects whose first element's keys are `hs` imports as the
      sheet of header row `hs` followed by the rows the elements read as. */
  lemma ImportOfRows(xs: seq<Value>, hs: seq<string>, sheet: Sheet)
    requires xs != [] && ObjectKeys(xs[0]) == Some(hs)
    requires |sheet| == |xs| + 1 && sheet[0] == HeaderRow(hs)
    requires forall k :: 0 <= k < |xs| ==> xs[k].Obj? && ImportRow(xs[k], hs) == sheet[k + 1]
    ensures ImportArray(xs) == Imported(sheet)
  {
    assert !ReadsNull(xs, hs);
    var grid := ImportArray(xs).grid;
    forall k | 0 <= k < |sheet| ensures grid[k] == sheet[k] {
      if k > 0 {
        assert grid[k] == ImportRow(xs[k - 1], hs);
      }
    }
    assert grid == sheet;
  }

  /** Each object such a sheet converts to has the header keys and imports
      back as its row. */
  lemma ConvertedRows(sheet: Sheet, hs: seq<string>)
    requires |sheet| >= 1 && HeaderRow(hs) == sheet[0] && NoDuplicates(hs)
    requires forall j :: 0 <= j < |hs| ==> hs[j] != ""
    requires forall k :: 1 <= k < |sheet| ==> |sheet[k]| == |hs|
    requires forall k, j :: 1 <= k < |sheet| && 0 <= j < |sheet[k]| ==> Truthy(sheet[k][j])
    ensures var xs := ConvertToJSON(sheet).value;
      forall k :: 0 <= k < |xs| ==>
        xs[k].Obj? && Keys(xs[k].members) == hs && ImportRow(xs[k], hs) == sheet[k + 1]
  {
    var xs := ConvertToJSON(sheet).value;
    forall k | 0 <= k < |xs|
      ensures xs[k].Obj? && Keys(xs[k].members) == hs && ImportRow(xs[k], hs) == sheet[k + 1]
    {
      ConvertedRow(sheet[0], hs, sheet[k + 1]);
    }
  }

  // ---------------------------------------------------------------------
  // Download names.

  /** What `\.[^/.]+$` accepts after the dot: one or more characters, none
      of them a dot or a slash. */
  predicate IsExtension(ext: string) {
    ext != [] && '.' !in ext && '/' !in ext
  }

  /** The name ends in a dot followed by an extension. */
  predicate HasExtension(name: string) {
    exists k :: 0 <= k < |name| && name[k] == '.' && IsExtension(name[k + 1..])
  }

  /** `name.replace(/\.[^/.]+$/, '')`: only the last dot can start a match,
      since any earlier dot is followed by another. */
  function StripExtension(name: string): (r: string)
    ensures |r| <= |name| && r == name[..|r|]
    ensures r != name <==> HasExtension(name)
    ensures r != name ==> name[|r|] == '.' && IsExtension(name[|r| + 1..])
  {
    match LastIndexOf(name, '.')
    case None => name
    case Some(k) => if '/' !in name[k + 1..] && k + 1 < |name| then name[..k] else name
  }

  /** A base name with an extension appended loses exactly that extension. */
  lemma StripAppendedExtension(base: string, ext: string)
    requires IsExtension(ext)
    ensures StripExtension(base + "." + ext) == base
  {
    var name := base + "." + ext;
    assert name[|base| + 1..] == ext;
    assert name[..|base|] == base;
    assert name[|base|] == '.';
    assert HasExtension(name);
  }

  /** `selectedFile?.name?.replace(...) || fallback`: the stripped name,
      or the fallback for a missing name or an empty result. */
  function DownloadStem(name: Option<string>, fallback: string): (r: string)
    ensures r == fallback || (name.Some? && r == StripExtension(name.value) && r != "")
    ensures name.None? ==> r == fallback
  {
    match name
    case None => fallback
    case Some(n) => var stem := StripExtension(n); if stem == "" then fallback else stem
  }

  /** The name `downloadAsJSON` gives the file. */
  function JsonDownloadName(name: Option<string>, sheetName: string): string {
    DownloadStem(name, "excel_data") + "_" + sheetName + ".json"
  }

  /** The name `saveAsExcel` gives the file. */
  function ExcelSaveName(name: Option<string>): string {
    DownloadStem(name, "imported_data") + ".xlsx"
  }

  /** Saving a workbook named `base.xlsx`, for a non-empty `base`, keeps
      that name; the imported data's name is one such. */
  lemma SaveKeepsXlsxName(base: string)
    requires base != ""
    ensures ExcelSaveName(Some(base + ".xlsx")) == base + ".xlsx"
  {
    StripAppendedExtension(base, "xlsx");
    assert base + "." + "xlsx" == base + ".xlsx";
  }
}
