/** The feature-engineering half of the cancellation model: the transform that
    turns reservation rows into feature vectors, in four blocks joined in a
    fixed order (one-hot categories, binarized-then-one-hot counts, the scaled
    daily rate, passthrough stay lengths), the validation each block performs,
    and the fit that learns the vocabularies the one-hot blocks use. */
module Pipeline {
  import opened Encoding

  /** A cell of the reservation table: text or a number. */
  datatype Cell = Text(text: string) | Number(value: real)

  /** One reservation, addressed by column name as in a table row. */
  type Row = map<string, Cell>

  /** One slot of a feature vector. */
  datatype Feature =
    | Num(x: real)        // a column of a one-hot block
    | Scaled(adr: real)   // the robust-scaled daily rate; carries the raw rate, the scaling itself is not modelled
    | Copied(cell: Cell)  // a passthrough column, unchanged

  type FeatureVector = seq<Feature>

  /** What fitting learns for the two one-hot blocks: one vocabulary per
      categorical column and one vocabulary of binarized values per count
      column, in column order. */
  datatype FittedParams = FittedParams(categories: seq<seq<Cell>>, binaries: seq<seq<real>>)

  datatype PipelineError =
    | NoSamples                          // an empty table
    | MissingColumns(columns: seq<string>) // a block's columns absent from the table
    | NotNumeric(column: string)         // text where the binarizer or the scaler needs a number

  datatype Result<T> = Ok(value: T) | Err(error: PipelineError)

  /** The columns of each block, in the order the pipeline lists them. */
  const CategoricalColumns: seq<string> :=
    ["hotel", "meal", "distribution_channel", "reserved_room_type", "assigned_room_type", "customer_type"]
  const BinarizedColumns: seq<string> :=
    ["total_of_special_requests", "required_car_parking_spaces", "booking_changes",
     "previous_bookings_not_canceled", "previous_cancellations"]
  const ScaledColumns: seq<string> := ["adr"]
  const PassthroughColumns: seq<string> := ["stays_in_week_nights", "stays_in_weekend_nights"]

  /** Every column that reaches the feature vector. */
  const UsedColumns: seq<string> := CategoricalColumns + BinarizedColumns + ScaledColumns + PassthroughColumns

  // ---------------------------------------------------------------------
  // Validation, block by block
  // ---------------------------------------------------------------------

  /** Column c is present in every row. */
  predicate Present(rows: seq<Row>, c: string) {
    forall i | 0 <= i < |rows| :: c in rows[i]
  }

  /** Column c is present in every row and holds a number there. */
  predicate NumericIn(rows: seq<Row>, c: string) {
    forall i | 0 <= i < |rows| :: c in rows[i] && rows[i][c].Number?
  }

  /** The columns of `cols` that the table lacks, in order. */
  function MissingFrom(rows: seq<Row>, cols: seq<string>): (m: seq<string>)
    ensures forall k | 0 <= k < |m| :: m[k] in cols && !Present(rows, m[k])
    ensures forall k | 0 <= k < |cols| :: !Present(rows, cols[k]) ==> cols[k] in m
  {
    if cols == [] then []
    else (if Present(rows, cols[0]) then [] else [cols[0]]) + MissingFrom(rows, cols[1..])
  }

  /** The first column of `cols` that does not hold numbers throughout. */
  function FirstNonNumeric(rows: seq<Row>, cols: seq<string>): (c: Option<string>)
    ensures c.None? <==> forall k | 0 <= k < |cols| :: NumericIn(rows, cols[k])
    ensures c.Some? ==> c.value in cols && !NumericIn(rows, c.value)
  {
    if cols == [] then None
    else if !NumericIn(rows, cols[0]) then Some(cols[0])
    else FirstNonNumeric(rows, cols[1..])
  }

  /** The error one column selector of the pipeline raises on these rows:
      its missing columns first, then, for a block that needs numbers, text. */
  function BlockError(rows: seq<Row>, cols: seq<string>, numeric: bool): (e: Option<PipelineError>)
    ensures e.None? <==>
      forall k | 0 <= k < |cols| :: Present(rows, cols[k]) && (numeric ==> NumericIn(rows, cols[k]))
    ensures e.Some? ==> e.value.MissingColumns? || e.value.NotNumeric?
  {
    var missing := MissingFrom(rows, cols);
    if missing != [] then
      assert missing[0] in cols && !Present(rows, missing[0]);
      Some(MissingColumns(missing))
    else if numeric then
      match FirstNonNumeric(rows, cols)
      case Some(c) => Some(NotNumeric(c))
      case None => None
    else None
  }

  /** A row the transform can encode: every used column is there, and the
      binarized and scaled columns hold numbers. */
  predicate Complete(row: Row) {
    && (forall k | 0 <= k < |CategoricalColumns| :: CategoricalColumns[k] in row)
    && (forall k | 0 <= k < |BinarizedColumns| :: BinarizedColumns[k] in row && row[BinarizedColumns[k]].Number?)
    && (forall k | 0 <= k < |ScaledColumns| :: ScaledColumns[k] in row && row[ScaledColumns[k]].Number?)
    && (forall k | 0 <= k < |PassthroughColumns| :: PassthroughColumns[k] in row)
  }

  /** A table the transform accepts: at least one row, every row complete. */
  predicate Usable(rows: seq<Row>) {
    rows != [] && forall i | 0 <= i < |rows| :: Complete(rows[i])
  }

  /** The outcome of the four blocks' checks, in the order the feature union
      runs them: categories, binaries, scaled, passthrough. */
  function BlockErrors(rows: seq<Row>): (errs: seq<Option<PipelineError>>)
    ensures |errs| == 4
  {
    [BlockError(rows, CategoricalColumns, false), BlockError(rows, BinarizedColumns, true),
     BlockError(rows, ScaledColumns, true), BlockError(rows, PassthroughColumns, false)]
  }

  /** e is the error of the first check in `errs` that fails. */
  predicate FirstFailure(e: PipelineError, errs: seq<Option<PipelineError>>) {
    exists b | 0 <= b < |errs| :: errs[b] == Some(e) && forall b' | 0 <= b' < b :: errs[b'].None?
  }

  /** The checks of the four blocks, in the order the feature union runs them;
      None when the table is accepted. */
  function Validate(rows: seq<Row>): (e: Option<PipelineError>)
    ensures e.None? <==> Usable(rows)
    ensures rows == [] ==> e == Some(NoSamples)
    ensures rows != [] && e.Some? ==> FirstFailure(e.value, BlockErrors(rows))
  {
    if rows == [] then Some(NoSamples)
    else
      var errs := BlockErrors(rows);
      assert Usable(rows) <==> errs[0].None? && errs[1].None? && errs[2].None? && errs[3].None?;
      if errs[0].Some? then errs[0]
      else if errs[1].Some? then errs[1]
      else if errs[2].Some? then errs[2]
      else errs[3]
  }

  // ---------------------------------------------------------------------
  // The transform
  // ---------------------------------------------------------------------

  /** The fitted parameters have one vocabulary per encoded column. */
  predicate WellShaped(p: FittedParams) {
    |p.categories| == |CategoricalColumns| && |p.binaries| == |BinarizedColumns|
  }

  /** Total number of output columns of a list of vocabularies. */
  function TotalWidth<T>(vocabs: seq<seq<T>>): nat {
    if vocabs == [] then 0 else |vocabs[0]| + TotalWidth(vocabs[1..])
  }

  /** The width of every feature vector under these parameters. */
  function Width(p: FittedParams): nat {
    TotalWidth(p.categories) + TotalWidth(p.binaries) + |ScaledColumns| + |PassthroughColumns|
  }

  /** One-hot encoding of several columns side by side, each against its own
      vocabulary, as a multi-column one-hot encoder lays them out. */
  function EncodeColumns<T(==)>(vals: seq<T>, vocabs: seq<seq<T>>): (r: seq<real>)
    requires |vals| == |vocabs|
    ensures |r| == TotalWidth(vocabs)
  {
    if vals == [] then [] else OneHot(vocabs[0], vals[0]) + EncodeColumns(vals[1..], vocabs[1..])
  }

  /** Indicator columns as feature slots. */
  function Lift(s: seq<real>): (f: FeatureVector)
    ensures |f| == |s|
  {
    seq(|s|, i requires 0 <= i < |s| => Num(s[i]))
  }

  /** The values of the categorical columns, in column order. */
  function CategoricalValues(row: Row): (vals: seq<Cell>)
    requires Complete(row)
    ensures |vals| == |CategoricalColumns|
  {
    seq(|CategoricalColumns|, k requires 0 <= k < |CategoricalColumns| => row[CategoricalColumns[k]])
  }

  /** The count columns after the binarizer, in column order: all the second
      one-hot encoder ever sees of them. */
  function BinarizedValues(row: Row): (vals: seq<real>)
    requires Complete(row)
    ensures |vals| == |BinarizedColumns|
  {
    seq(|BinarizedColumns|, k requires 0 <= k < |BinarizedColumns| => Binarize(row[BinarizedColumns[k]].value))
  }

  /** Block 1: the categorical columns, one-hot encoded. */
  function CategoryBlock(row: Row, p: FittedParams): (b: seq<real>)
    requires Complete(row) && WellShaped(p)
    ensures |b| == TotalWidth(p.categories)
  {
    EncodeColumns(CategoricalValues(row), p.categories)
  }

  /** Block 2: the count columns, binarized and then one-hot encoded. */
  function BinaryBlock(row: Row, p: FittedParams): (b: seq<real>)
    requires Complete(row) && WellShaped(p)
    ensures |b| == TotalWidth(p.binaries)
  {
    EncodeColumns(BinarizedValues(row), p.binaries)
  }

  /** Block 3: the scaled daily rate. */
  function ScaledBlock(row: Row): (b: FeatureVector)
    requires Complete(row)
    ensures |b| == |ScaledColumns|
  {
    seq(|ScaledColumns|, k requires 0 <= k < |ScaledColumns| => Scaled(row[ScaledColumns[k]].value))
  }

  /** Block 4: the passthrough columns. */
  function PassthroughBlock(row: Row): (b: FeatureVector)
    requires Complete(row)
    ensures |b| == |PassthroughColumns|
  {
    seq(|PassthroughColumns|, k requires 0 <= k < |PassthroughColumns| => Copied(row[PassthroughColumns[k]]))
  }

  /** The feature vector of one complete row: the four blocks joined in the
      order categories, binaries, scaled, passthrough. Its width depends on
      the fitted parameters only. */
  function TransformRow(row: Row, p: FittedParams): (v: FeatureVector)
    requires Complete(row) && WellShaped(p)
    ensures |v| == Width(p)
  {
    Lift(CategoryBlock(row, p)) + Lift(BinaryBlock(row, p)) + ScaledBlock(row) + PassthroughBlock(row)
  }

  /** The transform of a table: rejected as a whole when a block's check
      fails, otherwise one feature vector per row, in row order. */
  function Transform(rows: seq<Row>, p: FittedParams): (r: Result<seq<FeatureVector>>)
    requires WellShaped(p)
    ensures r.Ok? <==> Usable(rows)
    ensures r.Err? ==> Some(r.error) == Validate(rows)
    ensures r.Ok? ==> |r.value| == |rows| && forall i | 0 <= i < |rows| :: |r.value[i]| == Width(p)
    ensures r.Ok? ==> forall i | 0 <= i < |rows| :: Complete(rows[i]) && r.value[i] == TransformRow(rows[i], p)
  {
    match Validate(rows)
    case Some(e) => Err(e)
    case None => Ok(seq(|rows|, i requires 0 <= i < |rows| => TransformRow(rows[i], p)))
  }

  // ---------------------------------------------------------------------
  // Fit
  // ---------------------------------------------------------------------

  /** A column's cells across the table. */
  function ColumnCells(rows: seq<Row>, c: string): (cells: seq<Cell>)
    requires Present(rows, c)
    ensures |cells| == |rows|
  {
    seq(|rows|, i requires 0 <= i < |rows| => rows[i][c])
  }

  /** A numeric column across the table, after the binarizer. */
  function BinarizedColumn(rows: seq<Row>, c: string): (bits: seq<real>)
    requires NumericIn(rows, c)
    ensures |bits| == |rows|
  {
    seq(|rows|, i requires 0 <= i < |rows| => Binarize(rows[i][c].value))
  }

  /** Parameters a fit can produce: one duplicate-free vocabulary per
      categorical column, and per count column a non-empty duplicate-free
      vocabulary of binarized values. */
  predicate FittedShape(p: FittedParams) {
    && WellShaped(p)
    && (forall j | 0 <= j < |p.categories| :: Distinct(p.categories[j]))
    && (forall j | 0 <= j < |p.binaries| :: Distinct(p.binaries[j]) && |p.binaries[j]| > 0)
    && (forall j, k | 0 <= j < |p.binaries| && 0 <= k < |p.binaries[j]| ::
          p.binaries[j][k] == 0.0 || p.binaries[j][k] == 1.0)
  }

  /** What fitting learns for categorical column c: its distinct values, each
      one taken from some row. */
  function CategoryVocabulary(rows: seq<Row>, c: string): (u: seq<Cell>)
    requires Present(rows, c)
    ensures Distinct(u)
    ensures forall i | 0 <= i < |rows| :: rows[i][c] in u
    ensures forall k | 0 <= k < |u| :: exists i | 0 <= i < |rows| :: u[k] == rows[i][c]
  {
    var cells := ColumnCells(rows, c);
    var u := Unique(cells);
    assert forall i | 0 <= i < |rows| :: cells[i] == rows[i][c];
    assert forall k | 0 <= k < |u| :: exists i | 0 <= i < |rows| :: u[k] == cells[i];
    u
  }

  /** What fitting learns for count column c: its distinct binarized values,
      each one the binarized count of some row. */
  function BinaryVocabulary(rows: seq<Row>, c: string): (u: seq<real>)
    requires NumericIn(rows, c)
    ensures Distinct(u)
    ensures forall i | 0 <= i < |rows| :: Binarize(rows[i][c].value) in u
    ensures forall k | 0 <= k < |u| :: exists i | 0 <= i < |rows| :: u[k] == Binarize(rows[i][c].value)
  {
    var bits := BinarizedColumn(rows, c);
    var u := Unique(bits);
    assert forall i | 0 <= i < |rows| :: bits[i] == Binarize(rows[i][c].value);
    assert forall k | 0 <= k < |u| :: exists i | 0 <= i < |rows| :: u[k] == bits[i];
    u
  }

  /** Fitting the two one-hot blocks: the same checks as the transform, then
      the distinct values of each categorical column and of each binarized
      count column. */
  function Fit(rows: seq<Row>): (r: Result<FittedParams>)
    ensures r.Ok? <==> Usable(rows)
    ensures r.Err? ==> Some(r.error) == Validate(rows)
    ensures r.Ok? ==> FittedShape(r.value)
    ensures r.Ok? ==> forall j, k | 0 <= j < |CategoricalColumns| && 0 <= k < |r.value.categories[j]| ::
      exists i | 0 <= i < |rows| :: CategoricalColumns[j] in rows[i] && r.value.categories[j][k] == rows[i][CategoricalColumns[j]]
    ensures r.Ok? ==> forall j, k | 0 <= j < |BinarizedColumns| && 0 <= k < |r.value.binaries[j]| ::
      exists i | 0 <= i < |rows| :: BinarizedColumns[j] in rows[i] && rows[i][BinarizedColumns[j]].Number? &&
        r.value.binaries[j][k] == Binarize(rows[i][BinarizedColumns[j]].value)
  {
    match Validate(rows)
    case Some(e) => Err(e)
    case None =>
      assert forall k | 0 <= k < |CategoricalColumns| :: Present(rows, CategoricalColumns[k]);
      assert forall k | 0 <= k < |BinarizedColumns| :: NumericIn(rows, BinarizedColumns[k]);
      var p := FittedParams(
        seq(|CategoricalColumns|, j requires 0 <= j < |CategoricalColumns| =>
          CategoryVocabulary(rows, CategoricalColumns[j])),
        seq(|BinarizedColumns|, j requires 0 <= j < |BinarizedColumns| =>
          BinaryVocabulary(rows, BinarizedColumns[j])));
      Ok(p)
  }
}
