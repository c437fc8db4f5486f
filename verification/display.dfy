/** The side-by-side grid shown before every decision: one row per record,
    each column padded to the widest cell in it plus two spaces. */
module Display {
  import opened Specimens

  /** An entry of the row list before it is turned into text: an integer, a
      text, a null, or a lookup-table object. */
  datatype Value = Num(n: nat) | Text(s: string) | Null | Object(ref: Ref)

  /** Every character is in the ASCII range. */
  predicate IsAscii(s: string) {
    forall i :: 0 <= i < |s| ==> s[i] as int < 128
  }

  /** Python 2's `str` of an entry; a lookup-table object never reaches it.
      Text from the database is unicode, which `str` encodes with the ASCII
      codec: a non-ASCII character makes it fail (None). */
  function Str(v: Value): Option<string>
    requires !v.Object?
  {
    match v
    case Num(n) => Some(DecimalString(n))
    case Text(s) => if IsAscii(s) then Some(s) else None
    case Null => Some("None")
  }

  /** The raw entry for a nullable foreign key. */
  function Field(o: Option<Ref>): Value {
    match o
    case None => Null
    case Some(r) => Object(r)
  }

  /** What the grid shows for a nullable foreign key: the referenced row's
      code or name, or Python's text for a null. */
  function Shown(o: Option<Ref>): string {
    match o
    case None => "None"
    case Some(r) => r.text
  }

  /** The text each of the thirteen columns shows for a record, field by
      field: id, genus, epithet, record type, latitude, longitude, state code,
      county name, locality, elevation, date, collector name, collection name. */
  function FieldTexts(r: Record): seq<string> {
    [DecimalString(r.id), r.species.genus, r.species.epithet, r.recordType,
     r.latitude, r.longitude, Shown(r.state), Shown(r.county),
     r.locality, r.elevation, r.date, Shown(r.collector), Shown(r.collection)]
  }

  /** Every field text of the record is ASCII, so Python 2 can `str` it. */
  predicate Printable(r: Record) {
    forall i :: 0 <= i < 13 ==> IsAscii(FieldTexts(r)[i])
  }

  /** The row list with entry `i` replaced by the referenced row's code or
      name when the foreign key `o` is present. */
  function Override(raw: seq<Value>, i: nat, o: Option<Ref>): (out: seq<Value>)
    requires i < |raw|
    ensures |out| == |raw|
    ensures forall j :: 0 <= j < |raw| && j != i ==> out[j] == raw[j]
    ensures out[i] == if o.Some? then Text(o.value.text) else raw[i]
  {
    if o.Some? then raw[i := Text(o.value.text)] else raw
  }

  /** Python's `map(str, ...)` over a row list free of lookup-table objects:
      fails as soon as one entry does. */
  function StrAll(raw: seq<Value>): (row: Option<seq<string>>)
    requires forall i :: 0 <= i < |raw| ==> !raw[i].Object?
    ensures row.Some? <==> forall i :: 0 <= i < |raw| ==> Str(raw[i]).Some?
    ensures row.Some? ==> |row.value| == |raw| && forall i :: 0 <= i < |raw| ==> row.value[i] == Str(raw[i]).value
  {
    if forall i :: 0 <= i < |raw| ==> Str(raw[i]).Some?
    then Some(seq(|raw|, i requires 0 <= i < |raw| => Str(raw[i]).value))
    else None
  }

  lemma DecimalIsAscii(n: nat)
    ensures IsAscii(DecimalString(n))
  {
    var s := DecimalString(n);
    forall i | 0 <= i < |s| ensures s[i] as int < 128 {
      assert IsDigit(s[i]);
    }
  }

  /** The entry a nullable foreign key holds once `make_data` has replaced a
      present key by its code or name. */
  function KeyEntry(o: Option<Ref>): Value {
    match o
    case None => Null
    case Some(r) => Text(r.text)
  }

  /** The row list after the foreign keys are replaced, before `str`. */
  function Entries(r: Record): seq<Value> {
    [Num(r.id), Text(r.species.genus), Text(r.species.epithet), Text(r.recordType),
     Text(r.latitude), Text(r.longitude), KeyEntry(r.state), KeyEntry(r.county),
     Text(r.locality), Text(r.elevation), Text(r.date), KeyEntry(r.collector),
     KeyEntry(r.collection)]
  }

  /** `str` of each entry is the field's text, and fails exactly when that text
      is not ASCII. */
  lemma EntriesStr(r: Record)
    ensures forall i :: 0 <= i < 13 ==> (!Entries(r)[i].Object? &&
      Str(Entries(r)[i]) == if IsAscii(FieldTexts(r)[i]) then Some(FieldTexts(r)[i]) else None)
  {
    DecimalIsAscii(r.id);
    var none := "None";
    assert IsAscii(none) by {
      assert forall i :: 0 <= i < |none| ==> none[i] as int < 128;
    }
    forall i | 0 <= i < 13
      ensures !Entries(r)[i].Object? &&
        Str(Entries(r)[i]) == if IsAscii(FieldTexts(r)[i]) then Some(FieldTexts(r)[i]) else None
    {
    }
  }

  /** `make_data`: the row list is built from the raw fields, the four foreign
      keys that are present are replaced by their code or name, then every
      entry is turned into text. The result is the record's thirteen field
      texts, and it fails exactly when one of them has a non-ASCII character. */
  function MakeData(r: Record): (row: Option<seq<string>>)
    ensures row.Some? <==> Printable(r)
    ensures row.Some? ==> row.value == FieldTexts(r)
  {
    var raw := [Num(r.id), Text(r.species.genus), Text(r.species.epithet), Text(r.recordType),
                Text(r.latitude), Text(r.longitude), Field(r.state), Field(r.county),
                Text(r.locality), Text(r.elevation), Text(r.date), Field(r.collector),
                Field(r.collection)];
    var shown := Override(Override(Override(Override(raw, 6, r.state), 7, r.county), 11, r.collector), 12, r.collection);
    assert shown == Entries(r);
    EntriesStr(r);
    StrAll(shown)
  }

  const Header: seq<string> :=
    ["", "ID", "Genus", "Species", "Voucher Type", "Latitude", "Longitude", "State",
     "County", "Locality", "Elevation", "Date", "Collector", "Collection"]

  /** The unpadded grid: the header, then the label's row, then the matching
      record's row; it fails when either record's row does. */
  function GridRows(labelRecord: Record, candidate: Record): (g: Option<seq<seq<string>>>)
    ensures g.Some? <==> Printable(labelRecord) && Printable(candidate)
    ensures g.Some? ==> (|g.value| == 3 && (forall i :: 0 <= i < 3 ==> |g.value[i]| == 14) &&
      g.value[0] == Header &&
      g.value[1] == ["Current Label:"] + FieldTexts(labelRecord) &&
      g.value[2] == ["Matching Record:"] + FieldTexts(candidate))
  {
    var a := MakeData(labelRecord);
    var b := MakeData(candidate);
    if a.Some? && b.Some? then Some([Header, ["Current Label:"] + a.value, ["Matching Record:"] + b.value])
    else None
  }

  function Spaces(n: nat): (t: string)
    ensures |t| == n && forall i :: 0 <= i < n ==> t[i] == ' '
  {
    seq(n, _ => ' ')
  }

  /** Python's `str.ljust`: the text followed by spaces up to width `w`, or the
      text itself when it is already that wide. */
  function LJust(s: string, w: nat): (t: string)
    ensures |t| == if |s| < w then w else |s|
    ensures t[..|s|] == s
    ensures forall i :: |s| <= i < |t| ==> t[i] == ' '
  {
    if |s| < w then s + Spaces(w - |s|) else s
  }

  /** Every row has at least `cols` cells. */
  ghost predicate Covers(grid: seq<seq<string>>, cols: nat) {
    forall r :: 0 <= r < |grid| ==> cols <= |grid[r]|
  }

  /** The length of the longest cell in column `c` among the first `n` rows (0 when `n` is 0). */
  function Width(grid: seq<seq<string>>, c: nat, n: nat): nat
    requires n <= |grid| && forall r :: 0 <= r < n ==> c < |grid[r]|
  {
    if n == 0 then 0
    else
      var w := Width(grid, c, n - 1);
      if |grid[n - 1][c]| > w then |grid[n - 1][c]| else w
  }

  /** The width of column `c` is the length of its longest cell: no cell is
      longer, and some cell is that long. */
  lemma {:induction false} WidthIsMaximum(grid: seq<seq<string>>, c: nat, n: nat)
    requires 0 < n <= |grid| && forall r :: 0 <= r < n ==> c < |grid[r]|
    ensures forall r :: 0 <= r < n ==> |grid[r][c]| <= Width(grid, c, n)
    ensures exists r :: 0 <= r < n && |grid[r][c]| == Width(grid, c, n)
  {
    if n > 1 {
      WidthIsMaximum(grid, c, n - 1);
    }
  }

  /** Column `c` of the first `n` rows is the same in both grids. */
  ghost predicate SameColumn(a: seq<seq<string>>, b: seq<seq<string>>, c: nat, n: nat)
    requires n <= |a| && n <= |b|
  {
    forall r :: 0 <= r < n ==> c < |a[r]| && c < |b[r]| && a[r][c] == b[r][c]
  }

  /** The width of a column depends on that column's cells only. */
  lemma {:induction false} WidthOfSameColumn(a: seq<seq<string>>, b: seq<seq<string>>, c: nat, n: nat)
    requires n <= |a| && n <= |b| && SameColumn(a, b, c, n)
    ensures Width(a, c, n) == Width(b, c, n)
  {
    if n > 0 {
      WidthOfSameColumn(a, b, c, n - 1);
    }
  }

  /** The first loop over the rows: the length of the longest cell of column `c`. */
  method MeasureColumn(data: seq<seq<string>>, c: nat) returns (width: nat)
    requires forall r :: 0 <= r < |data| ==> c < |data[r]|
    ensures width == Width(data, c, |data|)
    ensures forall r :: 0 <= r < |data| ==> |data[r][c]| <= width
  {
    width := 0;
    var row := 0;
    while row < |data|
      invariant 0 <= row <= |data|
      invariant width == Width(data, c, row)
      invariant forall r :: 0 <= r < row ==> |data[r][c]| <= width
    {
      if |data[row][c]| > width {
        width := |data[row][c]|;
      }
      row := row + 1;
    }
  }

  /** The second loop over the rows: every cell of column `c` padded to `width`
      plus two; every other cell unchanged. */
  method PadColumn(data: seq<seq<string>>, c: nat, width: nat) returns (out: seq<seq<string>>)
    requires forall r :: 0 <= r < |data| ==> c < |data[r]|
    ensures |out| == |data|
    ensures forall r :: 0 <= r < |data| ==> |out[r]| == |data[r]|
    ensures forall r :: 0 <= r < |data| ==> out[r][c] == LJust(data[r][c], width + 2)
    ensures forall r, k :: 0 <= r < |data| && 0 <= k < |data[r]| && k != c ==> out[r][k] == data[r][k]
  {
    out := data;
    var row := 0;
    while row < |data|
      invariant 0 <= row <= |data|
      invariant |out| == |data|
      invariant forall r :: 0 <= r < |data| ==> |out[r]| == |data[r]|
      invariant forall r :: 0 <= r < row ==> out[r][c] == LJust(data[r][c], width + 2)
      invariant forall r :: row <= r < |data| ==> out[r] == data[r]
      invariant forall r, k :: 0 <= r < |data| && 0 <= k < |data[r]| && k != c ==> out[r][k] == data[r][k]
    {
      out := out[row := out[row][c := LJust(out[row][c], width + 2)]];
      row := row + 1;
    }
  }

  /** Pads every cell of the first `|grid[0]|` columns with spaces to the
      column's widest cell plus two; the column widths are taken from the cells
      as they were before padding. Cells beyond the header's width, if any, are
      left alone. */
  method PadColumns(grid: seq<seq<string>>) returns (data: seq<seq<string>>)
    requires |grid| > 0 && Covers(grid, |grid[0]|)
    ensures |data| == |grid|
    ensures forall r :: 0 <= r < |grid| ==> |data[r]| == |grid[r]|
    ensures forall r, c :: 0 <= r < |grid| && 0 <= c < |grid[0]| ==>
      data[r][c] == LJust(grid[r][c], Width(grid, c, |grid|) + 2)
    ensures forall r, c :: 0 <= r < |grid| && |grid[0]| <= c < |grid[r]| ==> data[r][c] == grid[r][c]
  {
    data := grid;
    var cols := |grid[0]|;
    var c := 0;
    while c < cols
      invariant 0 <= c <= cols
      invariant |data| == |grid|
      invariant forall r :: 0 <= r < |grid| ==> |data[r]| == |grid[r]|
      invariant forall r, k :: 0 <= r < |grid| && 0 <= k < c ==>
        data[r][k] == LJust(grid[r][k], Width(grid, k, |grid|) + 2)
      invariant forall r, k :: 0 <= r < |grid| && c <= k < |grid[r]| ==> data[r][k] == grid[r][k]
    {
      assert SameColumn(data, grid, c, |grid|);
      WidthOfSameColumn(data, grid, c, |grid|);
      var width := MeasureColumn(data, c);
      data := PadColumn(data, c, width);
      c := c + 1;
    }
  }

  /** After padding, a cell of column `c` is its original text followed only by
      spaces, and it is exactly two longer than the longest original cell of
      that column. */
  lemma PaddedCell(grid: seq<seq<string>>, r: nat, c: nat)
    requires r < |grid| && forall i :: 0 <= i < |grid| ==> c < |grid[i]|
    ensures var t := LJust(grid[r][c], Width(grid, c, |grid|) + 2);
      |t| == Width(grid, c, |grid|) + 2 &&
      t[..|grid[r][c]|] == grid[r][c] &&
      forall i :: |grid[r][c]| <= i < |t| ==> t[i] == ' '
  {
    WidthIsMaximum(grid, c, |grid|);
  }

  /** The text a row prints as: its cells one after another. */
  function Concat(row: seq<string>): string {
    if row == [] then [] else Concat(row[..|row| - 1]) + row[|row| - 1]
  }

  /** Rows whose cells have the same lengths, column by column, print as lines of the same length. */
  lemma {:induction false} SameWidthsSameLength(a: seq<string>, b: seq<string>)
    requires |a| == |b| && forall k :: 0 <= k < |a| ==> |a[k]| == |b[k]|
    ensures |Concat(a)| == |Concat(b)|
  {
    if a != [] {
      SameWidthsSameLength(a[..|a| - 1], b[..|b| - 1]);
    }
  }

  /** Padded cells of one column have one length on every row. */
  lemma {:induction false} PaddedColumnsAligned(grid: seq<seq<string>>, padded: seq<seq<string>>, cols: nat)
    requires |grid| > 0 && |padded| == |grid|
    requires forall r :: 0 <= r < |grid| ==> |grid[r]| == cols && |padded[r]| == cols
    requires forall r, k :: 0 <= r < |grid| && 0 <= k < cols ==> padded[r][k] == LJust(grid[r][k], Width(grid, k, |grid|) + 2)
    ensures forall r, k :: 0 <= r < |grid| && 0 <= k < cols ==> |padded[r][k]| == |padded[0][k]|
  {
    forall r, k | 0 <= r < |grid| && 0 <= k < cols
      ensures |padded[r][k]| == |padded[0][k]|
    {
      PaddedCell(grid, r, k);
      PaddedCell(grid, 0, k);
    }
  }

  /** Rows whose cells have one length per column start every column at the
      same offset. */
  lemma {:induction false} SameOffsets(padded: seq<seq<string>>, cols: nat)
    requires |padded| > 0 && forall r :: 0 <= r < |padded| ==> |padded[r]| == cols
    requires forall r, k :: 0 <= r < |padded| && 0 <= k < cols ==> |padded[r][k]| == |padded[0][k]|
    ensures forall r, k :: 0 <= r < |padded| && 0 <= k <= cols ==>
      |Concat(padded[r][..k])| == |Concat(padded[0][..k])|
  {
    forall r, k | 0 <= r < |padded| && 0 <= k <= cols
      ensures |Concat(padded[r][..k])| == |Concat(padded[0][..k])|
    {
      SameWidthsSameLength(padded[r][..k], padded[0][..k]);
    }
  }

  /** Pads a rectangular grid and joins each row into the line it prints. */
  method Layout(grid: seq<seq<string>>, cols: nat) returns (padded: seq<seq<string>>, lines: seq<string>)
    requires |grid| > 0 && forall r :: 0 <= r < |grid| ==> |grid[r]| == cols
    ensures |padded| == |grid| && |lines| == |grid|
    ensures forall r :: 0 <= r < |grid| ==> |padded[r]| == cols && lines[r] == Concat(padded[r])
    ensures forall r, k :: 0 <= r < |grid| && 0 <= k < cols ==>
      padded[r][k] == LJust(grid[r][k], Width(grid, k, |grid|) + 2)
    ensures forall r, k :: 0 <= r < |grid| && 0 <= k <= cols ==>
      |Concat(padded[r][..k])| == |Concat(padded[0][..k])|
    ensures forall r :: 0 <= r < |grid| ==> |lines[r]| == |lines[0]|
  {
    padded := PadColumns(grid);
    PaddedColumnsAligned(grid, padded, cols);
    SameOffsets(padded, cols);
    lines := seq(|padded|, r requires 0 <= r < |padded| => Concat(padded[r]));
    forall r | 0 <= r < |grid| ensures |lines[r]| == |lines[0]| {
      assert padded[r][..cols] == padded[r] && padded[0][..cols] == padded[0];
    }
  }

  /** `print_grid` for a label and a matching record, without the printing:
      the padded grid and the three lines it prints. When a record's text
      cannot be turned into `str`, the grid fails before anything is printed.
      Otherwise every cell is its original text padded to its column's widest
      cell plus two, each line is its row's cells one after another, and every
      column starts at the same offset on every line. */
  method RenderGrid(labelRecord: Record, candidate: Record) returns (lines: Option<seq<string>>, padded: seq<seq<string>>)
    ensures lines.Some? <==> GridRows(labelRecord, candidate).Some?
    ensures lines.Some? ==>
      var grid := GridRows(labelRecord, candidate).value;
      |padded| == 3 && |lines.value| == 3 &&
      (forall i :: 0 <= i < 3 ==> |padded[i]| == 14 && lines.value[i] == Concat(padded[i])) &&
      (forall i, k :: 0 <= i < 3 && 0 <= k < 14 ==> padded[i][k] == LJust(grid[i][k], Width(grid, k, 3) + 2))
    ensures lines.Some? ==> forall i, k :: 0 <= i < 3 && 0 <= k <= 14 ==>
      |Concat(padded[i][..k])| == |Concat(padded[0][..k])|
    ensures lines.Some? ==> forall i :: 0 <= i < 3 ==> |lines.value[i]| == |lines.value[0]|
  {
    var rows := GridRows(labelRecord, candidate);
    if rows.None? {
      return None, [];
    }
    var text;
    padded, text := Layout(rows.value, 14);
    lines := Some(text);
  }
}
