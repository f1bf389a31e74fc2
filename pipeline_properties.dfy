/** What the feature pipeline guarantees about the vectors it builds: where
    each block and each column's sub-vector sits, what a known or an unseen
    value encodes to, that counts are seen only after binarization, that only
    the listed columns matter, and what fitting on a table promises about
    transforming that same table. */
module PipelineProperties {
  import opened Encoding
  import opened Pipeline

  /** Where the sub-vector of categorical column j starts. */
  function CategoryOffset(p: FittedParams, j: nat): nat
    requires j <= |p.categories|
  {
    TotalWidth(p.categories[..j])
  }

  /** Where the sub-vector of count column j starts. */
  function BinaryOffset(p: FittedParams, j: nat): nat
    requires j <= |p.binaries|
  {
    TotalWidth(p.categories) + TotalWidth(p.binaries[..j])
  }

  /** Two rows hold the same thing in column c (both lack it, or both hold the same cell). */
  predicate SameOn(a: Row, b: Row, c: string) {
    (c in a <==> c in b) && (c in a ==> a[c] == b[c])
  }

  // ---------------------------------------------------------------------
  // Helpers on sequences
  // ---------------------------------------------------------------------

  lemma SliceOfAppend<T>(a: seq<T>, b: seq<T>, lo: nat, hi: nat)
    requires lo <= hi <= |b|
    ensures (a + b)[|a| + lo..|a| + hi] == b[lo..hi]
  {
  }

  lemma SliceOfSlice<T>(s: seq<T>, a: nat, b: nat, lo: nat, hi: nat)
    requires a <= b <= |s| && lo <= hi <= b - a
    ensures s[a + lo..a + hi] == s[a..b][lo..hi]
  {
    assert forall k | 0 <= k < hi - lo :: s[a + lo..a + hi][k] == s[a + lo + k] == s[a..b][lo..hi][k];
  }

  lemma LiftSlice(s: seq<real>, lo: nat, hi: nat)
    requires lo <= hi <= |s|
    ensures Lift(s)[lo..hi] == Lift(s[lo..hi])
  {
  }

  /** The columns of the first j vocabularies never exceed the total. */
  lemma {:induction false} TotalWidthPrefix<T>(vocabs: seq<seq<T>>, j: nat)
    requires j < |vocabs|
    ensures TotalWidth(vocabs[..j]) + |vocabs[j]| <= TotalWidth(vocabs)
  {
    if j > 0 {
      TotalWidthPrefix(vocabs[1..], j - 1);
      assert vocabs[..j][1..] == vocabs[1..][..j - 1];
    } else {
      assert vocabs[..0] == [];
    }
  }

  // ---------------------------------------------------------------------
  // Several columns side by side
  // ---------------------------------------------------------------------

  /** Column j of a multi-column encoding occupies its own slice, holding the
      one-hot encoding of that column's value against its own vocabulary. */
  lemma {:induction false} EncodeColumnsSlice<T>(vals: seq<T>, vocabs: seq<seq<T>>, j: nat)
    requires |vals| == |vocabs| && j < |vals|
    ensures TotalWidth(vocabs[..j]) + |vocabs[j]| <= TotalWidth(vocabs)
    ensures EncodeColumns(vals, vocabs)[TotalWidth(vocabs[..j])..TotalWidth(vocabs[..j]) + |vocabs[j]|]
         == OneHot(vocabs[j], vals[j])
  {
    TotalWidthPrefix(vocabs, j);
    var first := OneHot(vocabs[0], vals[0]);
    var rest := EncodeColumns(vals[1..], vocabs[1..]);
    if j == 0 {
      assert vocabs[..0] == [];
      assert (first + rest)[0..|first|] == first;
    } else {
      EncodeColumnsSlice(vals[1..], vocabs[1..], j - 1);
      assert vocabs[..j][1..] == vocabs[1..][..j - 1];
      var lo := TotalWidth(vocabs[1..][..j - 1]);
      SliceOfAppend(first, rest, lo, lo + |vocabs[j]|);
    }
  }

  /** A multi-column encoding depends on each value only through that
      value's own one-hot encoding. */
  lemma {:induction false} EncodeColumnsCongruent<T>(a: seq<T>, b: seq<T>, vocabs: seq<seq<T>>)
    requires |a| == |vocabs| && |b| == |vocabs|
    requires forall j | 0 <= j < |vocabs| :: OneHot(vocabs[j], a[j]) == OneHot(vocabs[j], b[j])
    ensures EncodeColumns(a, vocabs) == EncodeColumns(b, vocabs)
  {
    if vocabs != [] {
      assert OneHot(vocabs[0], a[0]) == OneHot(vocabs[0], b[0]);
      forall j | 0 <= j < |vocabs| - 1
        ensures OneHot(vocabs[1..][j], a[1..][j]) == OneHot(vocabs[1..][j], b[1..][j])
      {
        assert vocabs[1..][j] == vocabs[j + 1] && a[1..][j] == a[j + 1] && b[1..][j] == b[j + 1];
      }
      EncodeColumnsCongruent(a[1..], b[1..], vocabs[1..]);
    }
  }

  // ---------------------------------------------------------------------
  // The layout of a feature vector
  // ---------------------------------------------------------------------

  /** The vector is categories, then binaries, then the scaled adr, then
      stays_in_week_nights and stays_in_weekend_nights, copied in that order. */
  lemma FeatureVectorLayout(row: Row, p: FittedParams)
    requires Complete(row) && WellShaped(p)
    ensures "adr" in row && row["adr"].Number?
    ensures "stays_in_week_nights" in row && "stays_in_weekend_nights" in row
    ensures var v := TransformRow(row, p);
            var w1 := TotalWidth(p.categories);
            var w2 := TotalWidth(p.binaries);
            && |v| == w1 + w2 + 3
            && v[..w1] == Lift(CategoryBlock(row, p))
            && v[w1..w1 + w2] == Lift(BinaryBlock(row, p))
            && v[w1 + w2] == Scaled(row["adr"].value)
            && v[w1 + w2 + 1..] == [Copied(row["stays_in_week_nights"]), Copied(row["stays_in_weekend_nights"])]
  {
    assert ScaledColumns[0] == "adr";
    assert PassthroughColumns[0] == "stays_in_week_nights" && PassthroughColumns[1] == "stays_in_weekend_nights";
    var v := TransformRow(row, p);
    var a := Lift(CategoryBlock(row, p));
    var b := Lift(BinaryBlock(row, p));
    assert v == a + b + ScaledBlock(row) + PassthroughBlock(row);
    assert ScaledBlock(row) == [Scaled(row["adr"].value)];
    assert PassthroughBlock(row) == [Copied(row["stays_in_week_nights"]), Copied(row["stays_in_weekend_nights"])];
  }

  /** The sub-vector of categorical column j is the one-hot encoding of the
      row's value in that column against the column's own vocabulary. */
  lemma CategorySubVector(row: Row, p: FittedParams, j: nat)
    requires Complete(row) && WellShaped(p) && j < |CategoricalColumns|
    ensures CategoryOffset(p, j) + |p.categories[j]| <= |TransformRow(row, p)|
    ensures TransformRow(row, p)[CategoryOffset(p, j)..CategoryOffset(p, j) + |p.categories[j]|]
         == Lift(OneHot(p.categories[j], row[CategoricalColumns[j]]))
  {
    var v := TransformRow(row, p);
    var block := CategoryBlock(row, p);
    var lo, hi := CategoryOffset(p, j), CategoryOffset(p, j) + |p.categories[j]|;
    EncodeColumnsSlice(CategoricalValues(row), p.categories, j);
    FeatureVectorLayout(row, p);
    assert v[lo..hi] == v[..|block|][lo..hi];
    LiftSlice(block, lo, hi);
  }

  /** The sub-vector of count column j is the one-hot encoding of the
      binarized count against that column's vocabulary of binarized values. */
  lemma BinarySubVector(row: Row, p: FittedParams, j: nat)
    requires Complete(row) && WellShaped(p) && j < |BinarizedColumns|
    ensures BinaryOffset(p, j) + |p.binaries[j]| <= |TransformRow(row, p)|
    ensures TransformRow(row, p)[BinaryOffset(p, j)..BinaryOffset(p, j) + |p.binaries[j]|]
         == Lift(OneHot(p.binaries[j], Binarize(row[BinarizedColumns[j]].value)))
  {
    var v := TransformRow(row, p);
    var w1 := TotalWidth(p.categories);
    var block := BinaryBlock(row, p);
    var lo, hi := TotalWidth(p.binaries[..j]), TotalWidth(p.binaries[..j]) + |p.binaries[j]|;
    var vals := BinarizedValues(row);
    assert vals[j] == Binarize(row[BinarizedColumns[j]].value);
    EncodeColumnsSlice(vals, p.binaries, j);
    assert block[lo..hi] == OneHot(p.binaries[j], vals[j]);
    FeatureVectorLayout(row, p);
    assert v[w1..w1 + |block|] == Lift(block);
    SliceOfSlice(v, w1, w1 + |block|, lo, hi);
    LiftSlice(block, lo, hi);
  }

  // ---------------------------------------------------------------------
  // Known and unseen values
  // ---------------------------------------------------------------------

  /** A categorical value the vocabulary knows sets exactly one column of its
      sub-vector: the one at that value's position in the vocabulary. */
  lemma KnownCategory(row: Row, p: FittedParams, j: nat, k: nat)
    requires Complete(row) && WellShaped(p) && j < |CategoricalColumns|
    requires Distinct(p.categories[j]) && k < |p.categories[j]|
    requires row[CategoricalColumns[j]] == p.categories[j][k]
    ensures CategoryOffset(p, j) + |p.categories[j]| <= |TransformRow(row, p)|
    ensures var sub := TransformRow(row, p)[CategoryOffset(p, j)..CategoryOffset(p, j) + |p.categories[j]|];
            sub[k] == Num(1.0) && forall i | 0 <= i < |sub| && i != k :: sub[i] == Num(0.0)
  {
    CategorySubVector(row, p, j);
    OneHotOfKnown(p.categories[j], k);
  }

  /** A categorical value the vocabulary does not know is not an error: the
      row still transforms, and its sub-vector is all zeros of full width. */
  lemma UnseenCategory(row: Row, p: FittedParams, j: nat)
    requires Complete(row) && WellShaped(p) && j < |CategoricalColumns|
    requires row[CategoricalColumns[j]] !in p.categories[j]
    ensures Transform([row], p).Ok?
    ensures CategoryOffset(p, j) + |p.categories[j]| <= |TransformRow(row, p)|
    ensures TransformRow(row, p)[CategoryOffset(p, j)..CategoryOffset(p, j) + |p.categories[j]|]
         == Lift(Zeros(|p.categories[j]|))
  {
    CategorySubVector(row, p, j);
    OneHotOfUnknown(p.categories[j], row[CategoricalColumns[j]]);
  }

  /** Two unseen values of a categorical column are indistinguishable: the
      rows that hold them give the same feature vector. */
  lemma UnseenCategoriesAgree(row: Row, p: FittedParams, j: nat, a: Cell, b: Cell)
    requires Complete(row) && WellShaped(p) && j < |CategoricalColumns|
    requires a !in p.categories[j] && b !in p.categories[j]
    ensures Complete(row[CategoricalColumns[j] := a]) && Complete(row[CategoricalColumns[j] := b])
    ensures TransformRow(row[CategoricalColumns[j] := a], p) == TransformRow(row[CategoricalColumns[j] := b], p)
  {
    var c := CategoricalColumns[j];
    var ra, rb := row[c := a], row[c := b];
    assert c !in BinarizedColumns + ScaledColumns + PassthroughColumns;
    var va, vb := CategoricalValues(ra), CategoricalValues(rb);
    forall i | 0 <= i < |CategoricalColumns|
      ensures OneHot(p.categories[i], va[i]) == OneHot(p.categories[i], vb[i])
    {
      if i == j {
        OneHotOfUnknown(p.categories[i], a);
        OneHotOfUnknown(p.categories[i], b);
      } else {
        assert CategoricalColumns[i] != c;
      }
    }
    EncodeColumnsCongruent(va, vb, p.categories);
    assert BinarizedValues(ra) == BinarizedValues(rb);
    assert ScaledBlock(ra) == ScaledBlock(rb);
    assert PassthroughBlock(ra) == PassthroughBlock(rb);
  }

  /** A binarized count missing from its column's fitted vocabulary gives an
      all-zero sub-vector. */
  lemma UnseenBinarizedCount(row: Row, p: FittedParams, j: nat)
    requires Complete(row) && WellShaped(p) && j < |BinarizedColumns|
    requires Binarize(row[BinarizedColumns[j]].value) !in p.binaries[j]
    ensures BinaryOffset(p, j) + |p.binaries[j]| <= |TransformRow(row, p)|
    ensures TransformRow(row, p)[BinaryOffset(p, j)..BinaryOffset(p, j) + |p.binaries[j]|]
         == Lift(Zeros(|p.binaries[j]|))
  {
    BinarySubVector(row, p, j);
    OneHotOfUnknown(p.binaries[j], Binarize(row[BinarizedColumns[j]].value));
  }

  /** The second encoder sees a count only after binarization: two counts on
      the same side of the threshold give the same feature vector. */
  lemma CountSeenOnlyBinarized(row: Row, p: FittedParams, j: nat, x: real, y: real)
    requires Complete(row) && WellShaped(p) && j < |BinarizedColumns|
    requires Binarize(x) == Binarize(y)
    ensures Complete(row[BinarizedColumns[j] := Number(x)]) && Complete(row[BinarizedColumns[j] := Number(y)])
    ensures TransformRow(row[BinarizedColumns[j] := Number(x)], p)
         == TransformRow(row[BinarizedColumns[j] := Number(y)], p)
  {
    var c := BinarizedColumns[j];
    var rx, ry := row[c := Number(x)], row[c := Number(y)];
    assert c !in CategoricalColumns + ScaledColumns + PassthroughColumns;
    assert CategoricalValues(rx) == CategoricalValues(ry);
    assert BinarizedValues(rx) == BinarizedValues(ry);
    assert ScaledBlock(rx) == ScaledBlock(ry);
    assert PassthroughBlock(rx) == PassthroughBlock(ry);
  }

  // ---------------------------------------------------------------------
  // Only the listed columns matter
  // ---------------------------------------------------------------------

  lemma {:induction false} MissingFromAgree(rows1: seq<Row>, rows2: seq<Row>, cols: seq<string>)
    requires forall k | 0 <= k < |cols| :: Present(rows1, cols[k]) == Present(rows2, cols[k])
    ensures MissingFrom(rows1, cols) == MissingFrom(rows2, cols)
  {
    if cols != [] {
      assert Present(rows1, cols[0]) == Present(rows2, cols[0]);
      assert forall k | 0 <= k < |cols| - 1 :: cols[1..][k] == cols[k + 1];
      MissingFromAgree(rows1, rows2, cols[1..]);
    }
  }

  lemma {:induction false} FirstNonNumericAgree(rows1: seq<Row>, rows2: seq<Row>, cols: seq<string>)
    requires forall k | 0 <= k < |cols| :: NumericIn(rows1, cols[k]) == NumericIn(rows2, cols[k])
    ensures FirstNonNumeric(rows1, cols) == FirstNonNumeric(rows2, cols)
  {
    if cols != [] {
      assert NumericIn(rows1, cols[0]) == NumericIn(rows2, cols[0]);
      assert forall k | 0 <= k < |cols| - 1 :: cols[1..][k] == cols[k + 1];
      FirstNonNumericAgree(rows1, rows2, cols[1..]);
    }
  }

  /** Two tables that agree row by row on the columns of one block raise the
      same error, or none, for that block. */
  lemma BlockErrorAgree(rows1: seq<Row>, rows2: seq<Row>, cols: seq<string>, numeric: bool)
    requires |rows1| == |rows2|
    requires forall i, k | 0 <= i < |rows1| && 0 <= k < |cols| :: SameOn(rows1[i], rows2[i], cols[k])
    ensures BlockError(rows1, cols, numeric) == BlockError(rows2, cols, numeric)
  {
    forall k | 0 <= k < |cols|
      ensures Present(rows1, cols[k]) == Present(rows2, cols[k])
      ensures NumericIn(rows1, cols[k]) == NumericIn(rows2, cols[k])
    {
      assert forall i | 0 <= i < |rows1| :: SameOn(rows1[i], rows2[i], cols[k]);
    }
    MissingFromAgree(rows1, rows2, cols);
    FirstNonNumericAgree(rows1, rows2, cols);
  }

  /** Only the fourteen listed columns affect the result: tables that agree
      on them, row by row, transform to the same vectors or the same error. */
  lemma OnlyUsedColumnsMatter(rows1: seq<Row>, rows2: seq<Row>, p: FittedParams)
    requires WellShaped(p) && |rows1| == |rows2|
    requires forall i, k | 0 <= i < |rows1| && 0 <= k < |UsedColumns| :: SameOn(rows1[i], rows2[i], UsedColumns[k])
    ensures Transform(rows1, p) == Transform(rows2, p)
  {
    forall i, k | 0 <= i < |rows1| && 0 <= k < |CategoricalColumns|
      ensures SameOn(rows1[i], rows2[i], CategoricalColumns[k])
    {
      assert UsedColumns[k] == CategoricalColumns[k];
    }
    forall i, k | 0 <= i < |rows1| && 0 <= k < |BinarizedColumns|
      ensures SameOn(rows1[i], rows2[i], BinarizedColumns[k])
    {
      assert UsedColumns[6 + k] == BinarizedColumns[k];
    }
    forall i, k | 0 <= i < |rows1| && 0 <= k < |ScaledColumns|
      ensures SameOn(rows1[i], rows2[i], ScaledColumns[k])
    {
      assert UsedColumns[11 + k] == ScaledColumns[k];
    }
    forall i, k | 0 <= i < |rows1| && 0 <= k < |PassthroughColumns|
      ensures SameOn(rows1[i], rows2[i], PassthroughColumns[k])
    {
      assert UsedColumns[12 + k] == PassthroughColumns[k];
    }
    BlockErrorAgree(rows1, rows2, CategoricalColumns, false);
    BlockErrorAgree(rows1, rows2, BinarizedColumns, true);
    BlockErrorAgree(rows1, rows2, ScaledColumns, true);
    BlockErrorAgree(rows1, rows2, PassthroughColumns, false);
    assert Validate(rows1) == Validate(rows2);
    if Validate(rows1).None? {
      forall i | 0 <= i < |rows1|
        ensures TransformRow(rows1[i], p) == TransformRow(rows2[i], p)
      {
        assert CategoricalValues(rows1[i]) == CategoricalValues(rows2[i]);
        assert BinarizedValues(rows1[i]) == BinarizedValues(rows2[i]);
        assert ScaledBlock(rows1[i]) == ScaledBlock(rows2[i]);
        assert PassthroughBlock(rows1[i]) == PassthroughBlock(rows2[i]);
      }
      var t1, t2 := Transform(rows1, p).value, Transform(rows2, p).value;
      assert forall i | 0 <= i < |t1| :: t1[i] == TransformRow(rows1[i], p) == TransformRow(rows2[i], p) == t2[i];
      assert t1 == t2;
    }
  }

  /** The reservation identifier that travels with each request row is not
      one of the listed columns, so it never changes the result. */
  lemma ReservationIdIgnored(rows: seq<Row>, ids: seq<Cell>, p: FittedParams)
    requires WellShaped(p) && |ids| == |rows|
    ensures Transform(seq(|rows|, i requires 0 <= i < |rows| => rows[i]["reservation_id" := ids[i]]), p)
         == Transform(rows, p)
  {
    var tagged := seq(|rows|, i requires 0 <= i < |rows| => rows[i]["reservation_id" := ids[i]]);
    assert "reservation_id" !in UsedColumns;
    OnlyUsedColumnsMatter(tagged, rows, p);
  }

  // ---------------------------------------------------------------------
  // Fit, then transform
  // ---------------------------------------------------------------------

  /** In a sequence of 0s and 1s longer than two, two of the first three
      entries are equal. */
  lemma BitsRepeat(v: seq<real>)
    requires forall k | 0 <= k < |v| :: v[k] == 0.0 || v[k] == 1.0
    ensures |v| > 2 ==> v[0] == v[1] || v[0] == v[2] || v[1] == v[2]
  {
  }

  /** In a sequence whose entries all equal x, the first two entries agree. */
  lemma ConstantPair(v: seq<real>, x: real)
    requires forall k | 0 <= k < |v| :: v[k] == x
    ensures |v| > 1 ==> v[0] == v[1]
  {
  }

  /** A fitted count column knows exactly the binarized values its training
      column holds: 1 when some count is positive, 0 when some count is not,
      so a column whose counts all fall on one side gets one output column. */
  lemma FittedBinaryVocabulary(rows: seq<Row>, j: nat)
    requires Fit(rows).Ok? && j < |BinarizedColumns|
    ensures forall i | 0 <= i < |rows| :: BinarizedColumns[j] in rows[i] && rows[i][BinarizedColumns[j]].Number?
    ensures 1.0 in Fit(rows).value.binaries[j] <==>
      exists i | 0 <= i < |rows| :: rows[i][BinarizedColumns[j]].value > 0.0
    ensures 0.0 in Fit(rows).value.binaries[j] <==>
      exists i | 0 <= i < |rows| :: rows[i][BinarizedColumns[j]].value <= 0.0
    ensures (forall i | 0 <= i < |rows| :: rows[i][BinarizedColumns[j]].value <= 0.0) ==>
      Fit(rows).value.binaries[j] == [0.0]
    ensures (forall i | 0 <= i < |rows| :: rows[i][BinarizedColumns[j]].value > 0.0) ==>
      Fit(rows).value.binaries[j] == [1.0]
  {
    var v := Fit(rows).value.binaries[j];
    var c := BinarizedColumns[j];
    assert NumericIn(rows, c);
    assert v == BinaryVocabulary(rows, c);
    if forall i | 0 <= i < |rows| :: rows[i][c].value <= 0.0 {
      assert forall k | 0 <= k < |v| :: v[k] == 0.0;
      ConstantPair(v, 0.0);
    }
    if forall i | 0 <= i < |rows| :: rows[i][c].value > 0.0 {
      assert forall k | 0 <= k < |v| :: v[k] == 1.0;
      ConstantPair(v, 1.0);
    }
  }

  /** A fitted count column has one or two output columns, and two exactly
      when its training counts fall on both sides of the threshold. */
  lemma BinaryVocabularySize(rows: seq<Row>, j: nat)
    requires Fit(rows).Ok? && j < |BinarizedColumns|
    ensures forall i | 0 <= i < |rows| :: BinarizedColumns[j] in rows[i] && rows[i][BinarizedColumns[j]].Number?
    ensures 1 <= |Fit(rows).value.binaries[j]| <= 2
    ensures |Fit(rows).value.binaries[j]| == 2 <==>
      (exists i | 0 <= i < |rows| :: rows[i][BinarizedColumns[j]].value > 0.0) &&
      (exists i | 0 <= i < |rows| :: rows[i][BinarizedColumns[j]].value <= 0.0)
  {
    var v := Fit(rows).value.binaries[j];
    FittedBinaryVocabulary(rows, j);
    assert Distinct(v) && |v| > 0;
    assert forall k | 0 <= k < |v| :: v[k] == 0.0 || v[k] == 1.0;
    BitsRepeat(v);
    if |v| == 2 {
      assert v[0] != v[1];
      assert 0.0 in v && 1.0 in v;
    }
    if 0.0 in v && 1.0 in v {
      var k0, k1 :| 0 <= k0 < |v| && v[k0] == 0.0 && 0 <= k1 < |v| && v[k1] == 1.0;
      assert k0 != k1;
    }
  }

  /** Every value of the training table is in the vocabulary fitted on it. */
  lemma FitCoversTraining(rows: seq<Row>, i: nat)
    requires Fit(rows).Ok? && i < |rows|
    ensures Complete(rows[i])
    ensures forall j | 0 <= j < |CategoricalColumns| ::
      rows[i][CategoricalColumns[j]] in Fit(rows).value.categories[j]
    ensures forall j | 0 <= j < |BinarizedColumns| ::
      Binarize(rows[i][BinarizedColumns[j]].value) in Fit(rows).value.binaries[j]
  {
    var p := Fit(rows).value;
    forall j | 0 <= j < |CategoricalColumns|
      ensures rows[i][CategoricalColumns[j]] in p.categories[j]
    {
      assert p.categories[j] == CategoryVocabulary(rows, CategoricalColumns[j]);
    }
    forall j | 0 <= j < |BinarizedColumns|
      ensures Binarize(rows[i][BinarizedColumns[j]].value) in p.binaries[j]
    {
      assert p.binaries[j] == BinaryVocabulary(rows, BinarizedColumns[j]);
    }
  }

  /** Transforming the training table with the parameters fitted on it
      succeeds, and every categorical and count sub-vector of every training
      row has exactly one 1, which decodes back to the row's value. */
  lemma FitThenTransformTraining(rows: seq<Row>, i: nat)
    requires Fit(rows).Ok? && i < |rows|
    ensures Transform(rows, Fit(rows).value).Ok?
    ensures forall j | 0 <= j < |CategoricalColumns| ::
      var vocab := Fit(rows).value.categories[j];
      var cell := rows[i][CategoricalColumns[j]];
      CountOnes(OneHot(vocab, cell)) == 1 && DecodeOneHot(vocab, OneHot(vocab, cell)) == Some(cell)
    ensures forall j | 0 <= j < |BinarizedColumns| ::
      var vocab := Fit(rows).value.binaries[j];
      var bit := Binarize(rows[i][BinarizedColumns[j]].value);
      CountOnes(OneHot(vocab, bit)) == 1 && DecodeOneHot(vocab, OneHot(vocab, bit)) == Some(bit)
  {
    var p := Fit(rows).value;
    FitCoversTraining(rows, i);
    forall j | 0 <= j < |CategoricalColumns|
      ensures CountOnes(OneHot(p.categories[j], rows[i][CategoricalColumns[j]])) == 1
      ensures DecodeOneHot(p.categories[j], OneHot(p.categories[j], rows[i][CategoricalColumns[j]]))
           == Some(rows[i][CategoricalColumns[j]])
    {
      OneHotCountsOnes(p.categories[j], rows[i][CategoricalColumns[j]]);
      OneHotRoundTrip(p.categories[j], rows[i][CategoricalColumns[j]]);
    }
    forall j | 0 <= j < |BinarizedColumns|
      ensures CountOnes(OneHot(p.binaries[j], Binarize(rows[i][BinarizedColumns[j]].value))) == 1
      ensures DecodeOneHot(p.binaries[j], OneHot(p.binaries[j], Binarize(rows[i][BinarizedColumns[j]].value)))
           == Some(Binarize(rows[i][BinarizedColumns[j]].value))
    {
      OneHotCountsOnes(p.binaries[j], Binarize(rows[i][BinarizedColumns[j]].value));
      OneHotRoundTrip(p.binaries[j], Binarize(rows[i][BinarizedColumns[j]].value));
    }
  }

  // ---------------------------------------------------------------------
  // The front end's request row
  // ---------------------------------------------------------------------

  /** The row the booking front end sends: ten keys, among them the two day
      counts as the stay lengths. */
  function FrontEndRow(hotel: string, roomType: string, customerType: string, parkingSpaces: int,
                       adr: int, meal: string, weekdays: nat, weekends: nat): Row
  {
    map["reservation_id" := Number(1.0),
        "hotel" := Text(hotel),
        "reserved_room_type" := Text(roomType),
        "customer_type" := Text(customerType),
        "required_car_parking_spaces" := Number(parkingSpaces as real),
        "adr" := Number(adr as real),
        "meal" := Text(meal),
        "distribution_channel" := Text("Direct"),
        "stays_in_week_nights" := Number(weekdays as real),
        "stays_in_weekend_nights" := Number(weekends as real)]
  }

  /** On a one-row table, the first column of `cols` is missing exactly when
      the row lacks it. */
  lemma MissingFromOneRow(row: Row, cols: seq<string>)
    requires cols != []
    ensures MissingFrom([row], cols) == (if cols[0] in row then [] else [cols[0]]) + MissingFrom([row], cols[1..])
  {
    assert Present([row], cols[0]) <==> cols[0] in row by {
      assert [row][0] == row;
    }
  }

  /** Of the categorical columns, a row without assigned_room_type but with
      the other five lacks exactly that one. */
  lemma OnlyAssignedRoomTypeMissing(row: Row)
    requires "assigned_room_type" !in row
    requires "hotel" in row && "meal" in row && "distribution_channel" in row
    requires "reserved_room_type" in row && "customer_type" in row
    ensures MissingFrom([row], CategoricalColumns) == ["assigned_room_type"]
  {
    var s5: seq<string> := ["customer_type"];
    var s4 := ["assigned_room_type"] + s5;
    var s3 := ["reserved_room_type"] + s4;
    var s2 := ["distribution_channel"] + s3;
    var s1 := ["meal"] + s2;
    var s0 := ["hotel"] + s1;
    assert s0 == CategoricalColumns;
    MissingFromOneRow(row, s5);
    assert s5[1..] == [];
    MissingFromOneRow(row, s4);
    assert s4[1..] == s5;
    MissingFromOneRow(row, s3);
    assert s3[1..] == s4;
    MissingFromOneRow(row, s2);
    assert s2[1..] == s3;
    MissingFromOneRow(row, s1);
    assert s1[1..] == s2;
    MissingFromOneRow(row, s0);
    assert s0[1..] == s1;
  }

  /** Such a row fails the first block's check, on that column alone. */
  lemma AssignedRoomTypeMissing(row: Row, p: FittedParams)
    requires WellShaped(p)
    requires "assigned_room_type" !in row
    requires "hotel" in row && "meal" in row && "distribution_channel" in row
    requires "reserved_room_type" in row && "customer_type" in row
    ensures Transform([row], p) == Err(MissingColumns(["assigned_room_type"]))
  {
    OnlyAssignedRoomTypeMissing(row);
    assert BlockError([row], CategoricalColumns, false) == Some(MissingColumns(["assigned_room_type"]));
    assert Validate([row]) == Some(MissingColumns(["assigned_room_type"]));
  }

  /** The front end's row lacks assigned_room_type, which the first block
      selects, so the transform rejects it before any encoding happens. */
  lemma FrontEndRowRejected(hotel: string, roomType: string, customerType: string, parkingSpaces: int,
                            adr: int, meal: string, weekdays: nat, weekends: nat, p: FittedParams)
    requires WellShaped(p)
    ensures Transform([FrontEndRow(hotel, roomType, customerType, parkingSpaces, adr, meal, weekdays, weekends)], p)
         == Err(MissingColumns(["assigned_room_type"]))
  {
    var row := FrontEndRow(hotel, roomType, customerType, parkingSpaces, adr, meal, weekdays, weekends);
    assert "assigned_room_type" != "reserved_room_type" by {
      assert "assigned_room_type"[0] != "reserved_room_type"[0];
    }
    assert row.Keys == {"reservation_id", "hotel", "reserved_room_type", "customer_type",
      "required_car_parking_spaces", "adr", "meal", "distribution_channel",
      "stays_in_week_nights", "stays_in_weekend_nights"};
    AssignedRoomTypeMissing(row, p);
  }

  /** The request row with the five columns the front end omits added: every
      column the pipeline selects is present, the counts are numbers. */
  function CompleteFrontEndRow(hotel: string, roomType: string, customerType: string, parkingSpaces: int,
                               adr: int, meal: string, weekdays: nat, weekends: nat,
                               assignedRoomType: string, specialRequests: int, bookingChanges: int,
                               notCanceled: int, cancellations: int): Row
  {
    FrontEndRow(hotel, roomType, customerType, parkingSpaces, adr, meal, weekdays, weekends)
      ["assigned_room_type" := Text(assignedRoomType)]
      ["total_of_special_requests" := Number(specialRequests as real)]
      ["booking_changes" := Number(bookingChanges as real)]
      ["previous_bookings_not_canceled" := Number(notCanceled as real)]
      ["previous_cancellations" := Number(cancellations as real)]
  }

  /** The completed request row is accepted, and its feature vector ends with
      the two day counts, copied unchanged as the stay lengths. */
  lemma CompleteFrontEndRowAccepted(hotel: string, roomType: string, customerType: string, parkingSpaces: int,
                                    adr: int, meal: string, weekdays: nat, weekends: nat,
                                    assignedRoomType: string, specialRequests: int, bookingChanges: int,
                                    notCanceled: int, cancellations: int, p: FittedParams)
    requires WellShaped(p)
    ensures var row := CompleteFrontEndRow(hotel, roomType, customerType, parkingSpaces, adr, meal, weekdays,
                                           weekends, assignedRoomType, specialRequests, bookingChanges,
                                           notCanceled, cancellations);
            var r := Transform([row], p);
            && r.Ok? && |r.value| == 1
            && r.value[0][Width(p) - 2..] == [Copied(Number(weekdays as real)), Copied(Number(weekends as real))]
  {
    var row := CompleteFrontEndRow(hotel, roomType, customerType, parkingSpaces, adr, meal, weekdays,
                                   weekends, assignedRoomType, specialRequests, bookingChanges,
                                   notCanceled, cancellations);
    assert row["stays_in_week_nights"] == Number(weekdays as real);
    assert row["stays_in_weekend_nights"] == Number(weekends as real);
    assert Complete(row);
    assert Usable([row]);
    FeatureVectorLayout(row, p);
  }
}
