/**
 Loading a bitmap from parsed JSON: choosing the grid inside the payload and
 installing it in the editor together with the derived input-field values.
 */
module Loading {
  import opened Wrappers
  import opened Grids

  /** A parsed JSON value. Numbers are limited to integers. */
  datatype Json =
    | JNull
    | JBool(b: bool)
    | JNumber(n: int)
    | JString(s: string)
    | JArray(items: seq<Json>)
    | JObject(fields: map<string, Json>)

  /** Why a load was refused; all end in the same alert and leave the editor as it was. */
  datatype LoadError =
    | NotBitmapPayload  // neither an array nor an object whose "bitmap" field is an array
    | NullPayload       // `null` has no fields to read, so looking up "bitmap" throws
    | RowsNotCopyable   // no first row to measure, or a row without `slice` to copy it

  /** The editor state a load replaces: the bitmap and the rows, cols and pixel-size fields. */
  datatype Editor = Editor(bitmap: Grid, rowsField: int, colsField: int, pxSize: int)

  /** The payload carries its grid under the "bitmap" key. */
  predicate HasBitmapField(data: Json)
  {
    data.JObject? && "bitmap" in data.fields && data.fields["bitmap"].JArray?
  }

  /**
   Choose the rows of the grid inside a payload: the payload itself when it is
   an array, else its "bitmap" field when that is an array.
   */
  function SelectBitmap(data: Json): (r: Result<seq<Json>, LoadError>)
    ensures data.JArray? ==> r == Success(data.items)
    ensures !data.JArray? && HasBitmapField(data) ==> r == Success(data.fields["bitmap"].items)
    ensures r.Success? <==> data.JArray? || HasBitmapField(data)
    ensures r == Failure(NullPayload) <==> data.JNull?
  {
    match data
    case JArray(items) => Success(items)
    case JNull => Failure(NullPayload)
    case JObject(fields) =>
      if "bitmap" in fields && fields["bitmap"].JArray? then Success(fields["bitmap"].items)
      else Failure(NotBitmapPayload)
    case _ => Failure(NotBitmapPayload)
  }

  /** A JSON row of non-negative integers. */
  predicate IsCellRow(row: Json)
  {
    row.JArray? && forall i :: 0 <= i < |row.items| ==> row.items[i].JNumber? && row.items[i].n >= 0
  }

  /**
   The chosen rows survive the copy at the start of installing them: there is a
   first row whose length can be read, and every row can be sliced, which only
   arrays and strings can.
   */
  predicate Copyable(rows: seq<Json>)
  {
    |rows| >= 1 && forall y :: 0 <= y < |rows| ==> rows[y].JArray? || rows[y].JString?
  }

  /** Rows that spell a bitmap: at least one row, all rows of the same non-zero length. */
  predicate IsGridPayload(rows: seq<Json>)
  {
    && |rows| >= 1
    && (forall y :: 0 <= y < |rows| ==> IsCellRow(rows[y]))
    && |rows[0].items| >= 1
    && (forall y :: 0 <= y < |rows| ==> |rows[y].items| == |rows[0].items|)
  }

  function ToGrid(rows: seq<Json>): (g: Grid)
    requires IsGridPayload(rows)
    ensures IsBitmap(g) && HasShape(g, |rows|, |rows[0].items|)
    ensures forall y, x :: 0 <= y < |g| && 0 <= x < |g[y]| ==> JNumber(g[y][x]) == rows[y].items[x]
  {
    seq(|rows|, y requires 0 <= y < |rows| =>
      seq(|rows[y].items|, x requires 0 <= x < |rows[y].items| => rows[y].items[x].n as nat))
  }

  /**
   The pixel size chosen for an `r` x `c` bitmap: 256 divided by the larger
   dimension, limited to [8, 28], rounded down; computed on reals as the
   source computes it on floating point numbers.
   */
  function CellSize(r: nat, c: nat): (px: int)
    requires r >= 1 && c >= 1
    ensures 8 <= px <= 28
  {
    var q := 256.0 / (Max(r, c) as real);
    var m := if q < 28.0 then q else 28.0;
    var k := if 8.0 < m then m else 8.0;
    k.Floor
  }

  /** The pixel size is integer division of 256 by the larger dimension, clamped to [8, 28]. */
  lemma CellSizeInteger(r: nat, c: nat)
    requires r >= 1 && c >= 1
    ensures CellSize(r, c) == Max(8, Min(28, 256 / Max(r, c)))
  {
    var n := Max(r, c);
    var k := 256 / n;
    var q := 256.0 / (n as real);
    FloorOfQuotient(n);
    assert q.Floor == k;
    if k >= 28 {
      assert q >= 28.0;
    } else if k >= 8 {
      assert 8.0 <= q < 28.0;
    } else {
      assert q < 8.0;
    }
  }

  /** Rounding the real quotient down gives integer division. */
  lemma FloorOfQuotient(n: int)
    requires n >= 1
    ensures (256.0 / (n as real)).Floor == 256 / n
  {
    var k := 256 / n;
    var q := 256.0 / (n as real);
    assert k * n <= 256 < k * n + n;
    MulAsReal(k, n);
    MulAsReal(k + 1, n);
    RealDivBelow(k as real, n as real, 256.0);
    RealDivAbove((k + 1) as real, n as real, 256.0);
  }

  lemma RealDivBelow(a: real, d: real, s: real)
    requires d > 0.0 && a * d <= s
    ensures a <= s / d
  {
  }

  lemma RealDivAbove(a: real, d: real, s: real)
    requires d > 0.0 && s < a * d
    ensures s / d < a
  {
  }

  lemma MulAsReal(a: int, b: int)
    ensures (a * b) as real == (a as real) * (b as real)
  {
  }

  /** The 19 x 19 bitmap the editor starts with is drawn with 13-pixel cells. */
  lemma CellSizeStartup()
    ensures CellSize(19, 19) == 13
  {
    CellSizeInteger(19, 19);
  }

  /** Install a bitmap: copy it and set the rows, cols and pixel-size fields from it. */
  function SetBitmapFrom(g: Grid): (e: Editor)
    requires IsBitmap(g)
    ensures e.bitmap == g && e.rowsField == Rows(g) && e.colsField == Cols(g)
    ensures 8 <= e.pxSize <= 28
  {
    Editor(g, Rows(g), Cols(g), CellSize(Rows(g), Cols(g)))
  }

  /**
   Load a parsed JSON file into the editor. A payload without a grid, or rows
   that cannot be copied, leave the editor unchanged and report the error. The
   source does not check that copyable rows form a rectangular grid of indices;
   here that is required of the caller.
   */
  function LoadJson(e: Editor, data: Json): (r: (Editor, Option<LoadError>))
    requires SelectBitmap(data).Success? && Copyable(SelectBitmap(data).value) ==>
               IsGridPayload(SelectBitmap(data).value)
    ensures r.1.Some? ==> r.0 == e
    ensures SelectBitmap(data).Failure? ==> r == (e, Some(SelectBitmap(data).error))
    ensures r.1 == Some(RowsNotCopyable) <==>
              (data.JArray? || HasBitmapField(data)) && !Copyable(SelectBitmap(data).value)
    ensures r.1.None? <==> (data.JArray? || HasBitmapField(data)) && Copyable(SelectBitmap(data).value)
    ensures r.1.None? ==> IsBitmap(r.0.bitmap) && 8 <= r.0.pxSize <= 28
    ensures r.1.None? ==> r.0.rowsField == |r.0.bitmap| && r.0.colsField == |r.0.bitmap[0]|
    ensures data.JArray? && Copyable(data.items) ==> r.0.bitmap == ToGrid(data.items)
    ensures !data.JArray? && HasBitmapField(data) && Copyable(data.fields["bitmap"].items) ==>
              r.0.bitmap == ToGrid(data.fields["bitmap"].items)
  {
    match SelectBitmap(data)
    case Failure(err) => (e, Some(err))
    case Success(rows) =>
      if Copyable(rows) then (SetBitmapFrom(ToGrid(rows)), None)
      else (e, Some(RowsNotCopyable))
  }

  /** The payload `{bitmap: [[1,2],[3,4]]}` loads as the grid [[1,2],[3,4]]. */
  lemma LoadBitmapObject(e: Editor)
    ensures var data := JObject(map["bitmap" := JArray([JArray([JNumber(1), JNumber(2)]), JArray([JNumber(3), JNumber(4)])])]);
      LoadJson(e, data) == (Editor([[1, 2], [3, 4]], 2, 2, 28), None)
  {
    var rows := [JArray([JNumber(1), JNumber(2)]), JArray([JNumber(3), JNumber(4)])];
    var data := JObject(map["bitmap" := JArray(rows)]);
    assert SelectBitmap(data) == Success(rows);
    var g := ToGrid(rows);
    assert g[0] == [1, 2] && g[1] == [3, 4];
    assert g == [[1, 2], [3, 4]];
    CellSizeInteger(2, 2);
    assert CellSize(2, 2) == 28;
  }

  /** The empty array has no first row to measure, so `[]` is refused and the editor kept. */
  lemma LoadEmptyArray(e: Editor)
    ensures LoadJson(e, JArray([])) == (e, Some(RowsNotCopyable))
  {
  }

  /** A row that is a number cannot be sliced, so `[[1], 5]` is refused and the editor kept. */
  lemma LoadNumberRow(e: Editor)
    ensures LoadJson(e, JArray([JArray([JNumber(1)]), JNumber(5)])) == (e, Some(RowsNotCopyable))
  {
    var rows := [JArray([JNumber(1)]), JNumber(5)];
    assert !(rows[1].JArray? || rows[1].JString?);
  }

  /** The payload `{}` is refused and the editor is left as it was. */
  lemma LoadEmptyObject(e: Editor)
    ensures LoadJson(e, JObject(map[])) == (e, Some(NotBitmapPayload))
  {
  }
}
