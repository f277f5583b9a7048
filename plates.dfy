/** Plate addressing (class PlateDesign): the plate formats, the well ids
    of a format in row-major order, (row, col) lookup, and the plate-id to
    format registry. */
module Plates {
  import opened Basics
  import Strings

  type WellId = string
  type PlateId = string

  /** The row letters: 26 upper-case then 26 lower-case letters. */
  const UPPER: string := "ABCDEFGHIJKLMNOPQRSTUVWXYZ"
  const LOWER: string := "abcdefghijklmnopqrstuvwxyz"
  const ALPHABET: string := UPPER + LOWER

  /** A plate format (rows, cols). */
  datatype PlateFormat = PlateFormat(rows: nat, cols: nat)

  const P6 := PlateFormat(2, 3)
  const P96 := PlateFormat(8, 12)
  const P384 := PlateFormat(16, 24)
  const P1536 := PlateFormat(32, 48)
  const P5600 := PlateFormat(40, 140)

  /** The letters are consecutive character codes: 'A' is 65, 'a' is 97. */
  lemma AlphabetCodes()
    ensures |ALPHABET| == 52
    ensures forall i :: 0 <= i < 26 ==> ALPHABET[i] as int == 65 + i
    ensures forall i :: 26 <= i < 52 ==> ALPHABET[i] as int == 71 + i
  {
    assert forall i :: 0 <= i < 26 ==> UPPER[i] as int == 65 + i;
    assert forall i :: 0 <= i < 26 ==> LOWER[i] as int == 97 + i;
  }

  lemma AlphabetAscending()
    ensures |ALPHABET| == 52
    ensures forall i, j :: 0 <= i < j < |ALPHABET| ==> ALPHABET[i] < ALPHABET[j]
  {
    AlphabetCodes();
  }

  /** '%s%02d' % (ch, num) */
  function WellName(ch: char, num: nat): WellId {
    [ch] + Strings.ZeroPad2(num)
  }

  /** The ids of one row, for num in range(1, cols + 1). */
  function RowWells(ch: char, cols: nat): (r: seq<WellId>)
    ensures |r| == cols
  {
    if cols == 0 then [] else RowWells(ch, cols - 1) + [WellName(ch, cols)]
  }

  /** Column c of a row (counted from 0) holds the well numbered c + 1. */
  lemma {:induction false} RowWellsAt(ch: char, cols: nat, c: nat)
    requires c < cols
    ensures RowWells(ch, cols)[c] == WellName(ch, c + 1)
    decreases cols
  {
    ConcatIndex(RowWells(ch, cols - 1), [WellName(ch, cols)], c);
    if c < cols - 1 {
      RowWellsAt(ch, cols - 1, c);
    }
  }

  /** Every id of a row starts with the row letter. */
  lemma RowWellsLetter(ch: char, cols: nat)
    ensures forall w :: w in RowWells(ch, cols) ==> |w| >= 1 && w[0] == ch
  {
    var row := RowWells(ch, cols);
    forall w | w in row ensures |w| >= 1 && w[0] == ch {
      var c :| 0 <= c < cols && row[c] == w;
      RowWellsAt(ch, cols, c);
    }
  }

  /** The rows labelled by `letters`, one row after the other. */
  function Rows<T>(letters: string, row: char -> seq<T>): seq<T>
  {
    if letters == [] then [] else row(letters[0]) + Rows(letters[1..], row)
  }

  /** The row of ids a letter labels on a plate with cols columns. */
  function RowOf(cols: nat): char -> seq<WellId> {
    ch => RowWells(ch, cols)
  }

  /** alphabet[:rows]: a Python slice stops at the end of the alphabet. */
  function RowLetters(fmt: PlateFormat): (letters: string)
    ensures |letters| == if fmt.rows <= 52 then fmt.rows else 52
  {
    if fmt.rows <= |ALPHABET| then ALPHABET[..fmt.rows] else ALPHABET
  }

  /** PlateDesign.get_well_ids(plate_format) */
  function WellIds(fmt: PlateFormat): seq<WellId> {
    Rows(RowLetters(fmt), RowOf(fmt.cols))
  }

  /** r * cols, written as repeated addition so that the row-by-row proofs
      stay linear. */
  function RowOffset(r: nat, cols: nat): nat {
    if r == 0 then 0 else cols + RowOffset(r - 1, cols)
  }

  lemma {:induction false} RowOffsetIsProduct(r: nat, cols: nat)
    ensures RowOffset(r, cols) == r * cols
  {
    if r > 0 {
      RowOffsetIsProduct(r - 1, cols);
      assert r * cols == cols + (r - 1) * cols;
    }
  }

  lemma {:induction false} RowsLength<T>(letters: string, row: char -> seq<T>, w: nat)
    requires forall ch :: |row(ch)| == w
    ensures |Rows(letters, row)| == RowOffset(|letters|, w)
    decreases |letters|
  {
    if letters != [] {
      RowsLength(letters[1..], row, w);
    }
  }

  /** Column c of row r sits at RowOffset(r, w) + c when every row has w
      entries. */
  lemma {:induction false} RowsAt<T>(letters: string, row: char -> seq<T>, w: nat, r: nat, c: nat)
    requires forall ch :: |row(ch)| == w
    requires r < |letters| && c < w
    ensures RowOffset(r, w) + c < |Rows(letters, row)|
    ensures Rows(letters, row)[RowOffset(r, w) + c] == row(letters[r])[c]
    decreases |letters|
  {
    var first := row(letters[0]);
    var rest := Rows(letters[1..], row);
    RowsLength(letters[1..], row, w);
    var i := RowOffset(r, w) + c;
    if r == 0 {
      ConcatIndex(first, rest, i);
    } else {
      RowsAt(letters[1..], row, w, r - 1, c);
      assert i == w + (RowOffset(r - 1, w) + c);
      ConcatIndex(first, rest, i);
      assert letters[1..][r - 1] == letters[r];
    }
  }

  /** Every entry comes from the row of some letter. */
  lemma {:induction false} RowsFrom<T>(letters: string, row: char -> seq<T>)
    ensures forall x :: x in Rows(letters, row) ==> exists ch :: ch in letters && x in row(ch)
    decreases |letters|
  {
    if letters != [] {
      RowsFrom(letters[1..], row);
      forall x | x in Rows(letters, row) ensures exists ch :: ch in letters && x in row(ch) {
        if x !in row(letters[0]) {
          assert x in Rows(letters[1..], row);
          var ch :| ch in letters[1..] && x in row(ch);
          assert ch in letters;
        }
      }
    }
  }

  /** Two columns of one row have different ids. */
  lemma WellNameDistinct(ch: char, a: nat, b: nat)
    requires a != b
    ensures WellName(ch, a) != WellName(ch, b)
  {
    assert WellName(ch, a)[1..] == Strings.ZeroPad2(a);
    assert WellName(ch, b)[1..] == Strings.ZeroPad2(b);
    Strings.ZeroPad2Injective(a, b);
  }

  lemma RowWellsDistinct(ch: char, cols: nat)
    ensures NoDup(RowWells(ch, cols))
  {
    var row := RowWells(ch, cols);
    forall i, j | 0 <= i < j < cols ensures row[i] != row[j] {
      RowWellsAt(ch, cols, i);
      RowWellsAt(ch, cols, j);
      WellNameDistinct(ch, i + 1, j + 1);
    }
  }

  lemma ConcatDistinct<T>(a: seq<T>, b: seq<T>)
    requires NoDup(a) && NoDup(b)
    requires forall x :: x in a ==> x !in b
    ensures NoDup(a + b)
  {
    var all := a + b;
    forall i, j | 0 <= i < j < |all| ensures all[i] != all[j] {
      if j < |a| {
        assert all[i] == a[i] && all[j] == a[j];
      } else if i >= |a| {
        assert all[i] == b[i - |a|] && all[j] == b[j - |a|];
      } else {
        assert all[i] == a[i] && all[j] == b[j - |a|];
        assert a[i] in a && b[j - |a|] in b;
      }
    }
  }

  /** Rows of distinct letters without repeats, no two of which share an
      entry, concatenate without repeats. */
  lemma {:induction false} RowsDistinct<T>(letters: string, row: char -> seq<T>)
    requires NoDup(letters)
    requires forall ch :: NoDup(row(ch))
    requires forall a, b, x :: a != b && x in row(a) ==> x !in row(b)
    ensures NoDup(Rows(letters, row))
    decreases |letters|
  {
    if letters != [] {
      var first := row(letters[0]);
      var rest := Rows(letters[1..], row);
      assert NoDup(letters[1..]);
      RowsDistinct(letters[1..], row);
      RowsFrom(letters[1..], row);
      assert letters[0] !in letters[1..];
      ConcatDistinct(first, rest);
    }
  }

  /** get_well_ids(fmt) holds exactly rows x cols ids (52 x cols when the
      format has more rows than the alphabet has letters) and no id twice. */
  lemma WellIdsLayout(fmt: PlateFormat)
    ensures |WellIds(fmt)| == (if fmt.rows <= 52 then fmt.rows else 52) * fmt.cols
    ensures NoDup(WellIds(fmt))
  {
    var letters := RowLetters(fmt);
    var row := RowOf(fmt.cols);
    RowsLength(letters, row, fmt.cols);
    RowOffsetIsProduct(|letters|, fmt.cols);
    AlphabetAscending();
    assert NoDup(letters);
    forall ch ensures NoDup(row(ch)) {
      RowWellsDistinct(ch, fmt.cols);
    }
    forall a, b, x | a != b && x in row(a) ensures x !in row(b) {
      RowWellsLetter(a, fmt.cols);
      RowWellsLetter(b, fmt.cols);
    }
    RowsDistinct(letters, row);
  }

  /** Row-major order: the id at r * cols + c is the row letter followed by
      c + 1, zero-padded to width 2. */
  lemma WellIdsIndex(fmt: PlateFormat, r: nat, c: nat)
    requires r < fmt.rows && r < 52 && c < fmt.cols
    ensures r * fmt.cols + c < |WellIds(fmt)|
    ensures WellIds(fmt)[r * fmt.cols + c] == [ALPHABET[r]] + Strings.ZeroPad2(c + 1)
  {
    var letters := RowLetters(fmt);
    assert |ALPHABET| == 52 && letters[r] == ALPHABET[r];
    RowsAt(letters, RowOf(fmt.cols), fmt.cols, r, c);
    RowWellsAt(ALPHABET[r], fmt.cols, c);
    RowOffsetIsProduct(r, fmt.cols);
  }

  /** The enumeration can be reshaped to (rows, cols) exactly when the
      format has no more rows than the alphabet has letters. */
  lemma ReshapeFits(fmt: PlateFormat)
    requires fmt.cols > 0
    ensures |WellIds(fmt)| == fmt.rows * fmt.cols <==> fmt.rows <= 52
  {
    WellIdsLayout(fmt);
    if fmt.rows > 52 {
      MulStrictlyIncreasing(52, fmt.rows, fmt.cols);
    }
  }

  lemma {:induction false} MulStrictlyIncreasing(a: nat, b: nat, c: nat)
    requires a < b && c > 0
    ensures a * c < b * c
    decreases b - a
  {
    assert (a + 1) * c == a * c + c;
    if a + 1 < b {
      MulStrictlyIncreasing(a + 1, b, c);
    }
  }

  /** get_well_id_from_row_col(plate_format, (row, col)): the bounds
      assertions, then the lookup in the row-major list reshaped to
      (rows, cols), which fails when the list is shorter than rows x cols. */
  function WellIdAt(fmt: PlateFormat, row: int, col: int): (r: Result<WellId>)
    ensures !(0 <= row < fmt.rows) ==> r == Err(InvalidRow)
    ensures 0 <= row < fmt.rows && !(0 <= col < fmt.cols) ==> r == Err(InvalidCol)
    ensures 0 <= row < fmt.rows && 0 <= col < fmt.cols ==> (r.Ok? <==> fmt.rows <= 52)
    ensures r.Err? ==> r.error in {InvalidRow, InvalidCol, ShapeMismatch}
    ensures r.Ok? ==> 0 <= row < 52 && 0 <= col && r.value == [ALPHABET[row]] + Strings.ZeroPad2(col + 1)
  {
    if !(0 <= row < fmt.rows) then Err(InvalidRow)
    else if !(0 <= col < fmt.cols) then Err(InvalidCol)
    else if |WellIds(fmt)| != fmt.rows * fmt.cols then
      ReshapeFits(fmt);
      Err(ShapeMismatch)
    else
      ReshapeFits(fmt);
      WellIdsIndex(fmt, row, col);
      Ok(WellIds(fmt)[row * fmt.cols + col])
  }

  /** The lookup agrees with the enumeration: in bounds, the id at (row, col)
      is element row * cols + col of get_well_ids. */
  lemma WellIdAtIndex(fmt: PlateFormat, row: nat, col: nat)
    requires row < fmt.rows <= 52 && col < fmt.cols
    ensures row * fmt.cols + col < |WellIds(fmt)|
    ensures WellIdAt(fmt, row, col) == Ok(WellIds(fmt)[row * fmt.cols + col])
  {
    WellIdsLayout(fmt);
    WellIdsIndex(fmt, row, col);
  }

  /** The plate-id to plate-format registry. */
  class PlateRegistry {
    var plates: map<PlateId, PlateFormat>

    constructor ()
      ensures plates == map[]
    {
      plates := map[];
    }

    /** add_plate: re-adding a plate id overwrites its format. */
    method AddPlate(plateId: PlateId, fmt: PlateFormat)
      modifies this
      ensures plates == old(plates)[plateId := fmt]
      ensures GetPlateFormat(plateId) == Ok(fmt)
      ensures forall p :: p != plateId ==> GetPlateFormat(p) == old(GetPlateFormat(p))
    {
      plates := plates[plateId := fmt];
    }

    /** get_plate_format: a dictionary lookup that fails for an unknown id. */
    function GetPlateFormat(plateId: PlateId): (r: Result<PlateFormat>)
      reads this
      ensures r.Ok? <==> plateId in plates
      ensures r.Ok? ==> r.value == plates[plateId]
      ensures r.Err? ==> r.error == UnknownPlate
    {
      if plateId in plates then Ok(plates[plateId]) else Err(UnknownPlate)
    }
  }
}
