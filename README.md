# Hotel cancellation model: day counter and feature pipeline, in Dafny

This project models the two pieces of the hotel-cancellation system whose
behaviour can be stated exactly, and proves properties of them.

- **The day counter of the booking front end** (`calculate_weekdays_weekends`).
  It walks every date from the start date to the end date, both included,
  and counts Monday-to-Friday dates and Saturday/Sunday dates separately.
  Dates are Python day ordinals (`date.toordinal()`, 0001-01-01 is 1), and
  `weekday()` is `(ordinal + 6) % 7`, so Monday is 0. The loop is modelled
  as a method over the ordinals that Python's `date` can hold. Its
  invariants tie the two counters to the pure functions `CountWeekdays`
  and `CountWeekends`, and lemmas relate those functions to the sets they
  count. The function counts calendar days, not nights. The front end sends
  these counts as `stays_in_week_nights` and `stays_in_weekend_nights`, so a
  stay of n nights arrives as n + 1 days (`DaysArePartitioned`). The model
  keeps the code as it is written.
- **The feature transform that `build_pipeline` wires together.** A
  reservation row (a map from column name to cell) becomes a feature vector
  made of four blocks, in this order:
  1. the six categorical columns, one-hot encoded, with unknown values ignored;
  2. the five count columns, binarized (`x > 0` gives 1, otherwise 0) and
     then one-hot encoded against the binarized values seen at fit time;
  3. the robust-scaled `adr`, kept as one opaque slot;
  4. the two stay-length columns, copied unchanged.

  Each column selector raises an error when one of its columns is missing.
  The binarizer and the scaler raise an error on text. The feature union
  runs the blocks in the order above, so the first failing block decides
  the error, and a failing table is rejected as a whole. Fitting learns,
  for each one-hot column, the distinct values of the training table.

Module layout: `Calendar` (calendar.dfy), `Encoding` (encoding.dfy: one-hot,
its decoder, binarize, distinct values), `Pipeline` (pipeline.dfy: rows,
validation, transform, fit) and `PipelineProperties` (pipeline_properties.dfy:
the lemmas about the transform and the fit).

The count columns' one-hot encoder is fitted on the binarized training data
(training/pipeline.py:50, 55-60), so each count column's vocabulary is the
set of binarized values seen in training: [0] when no count of that column
is positive, [1] when all are, and both only when both occur
(`FittedBinaryVocabulary`, `BinaryVocabularySize`).

The front end's request row (app.py:111-125) carries ten keys and lacks
`assigned_room_type`, `total_of_special_requests`, `booking_changes`,
`previous_bookings_not_canceled` and `previous_cancellations`, which the
pipeline selects. In the model the transform rejects that row at the first
block (`FrontEndRowRejected`), so the prediction request can never be
answered; it is recorded under "## Findings", with the completed row that
the transform accepts (`CompleteFrontEndRowAccepted`).

## Model

| member | source | states |
|---|---|---|
| Calendar.Weekday | app.py:24-25 | Python's weekday of a day ordinal lies in 0..6, with Monday 0 and Sunday 6 |
| Calendar.CountWeekdays | app.py:25-26 | the number of Monday-to-Friday dates in [start, end] never exceeds the number of days in the range, and is 0 for an empty range |
| Calendar.CountWeekends | app.py:27-28 | the number of Saturday/Sunday dates in [start, end] never exceeds the number of days in the range, and is 0 for an empty range |
| Calendar.CalculateWeekdaysWeekends | app.py:7-31 | the loop as written returns (CountWeekdays, CountWeekends) of the inclusive range, (0, 0) when start > end, and the overflow error when the range ends on date.max; the loop terminates because end - current decreases each iteration |
| Calendar.CalculateWeekdaysWeekendsNoOverflow | app.py:19-31 | the corrected loop returns (CountWeekdays, CountWeekends) for every range of representable dates |
| Calendar.DaysArePartitioned | app.py:22-29 | for start <= end, weekdays + weekends == end - start + 1: every date is counted exactly once |
| Calendar.EmptyRange | app.py:19-23 | start > end gives (0, 0) |
| Calendar.SingleDay | app.py:23-28 | a one-day range gives (1, 0) on Monday to Friday and (0, 1) on Saturday or Sunday |
| Calendar.WeekdaysAreCounted | app.py:24-26 | CountWeekdays equals the size of the set of dates in the range whose weekday is below 5 |
| Calendar.WeekendsAreCounted | app.py:27-28 | CountWeekends equals the size of the set of dates in the range whose weekday is 5 or 6 |
| Calendar.CountsSplit | app.py:22-29 | counts over two adjacent ranges add up to the count over their union |
| Calendar.FullWeek | app.py:7-31 | any seven consecutive days give (5, 2) |
| Calendar.WholeWeeks | app.py:7-31 | n consecutive whole weeks give (5n, 2n) |
| Calendar.MondayToSunday | app.py:7-31 | Monday 2024-01-01 to Sunday 2024-01-07 gives (5, 2) |
| Calendar.MaxDateRange | app.py:23-29 | date.max is a Friday, so the one-day range on it should give (1, 0) |
| Encoding.OneHot | training/pipeline.py:29 | one output column per vocabulary entry |
| Encoding.OneHotAt | training/pipeline.py:29 | output column i is 1.0 exactly when the value equals vocabulary entry i, else 0.0 |
| Encoding.OneHotOfKnown | training/pipeline.py:29 | a known value gives 1.0 at its own position and 0.0 everywhere else |
| Encoding.OneHotOfUnknown | training/pipeline.py:29 | an unknown value gives all zeros of the vocabulary's width, not an error |
| Encoding.OneHotCountsOnes | training/pipeline.py:29 | exactly one 1.0 for a known value, none for an unknown one |
| Encoding.DecodeOneHot | training/pipeline.py:29 | the inverse encoding only ever returns a vocabulary entry |
| Encoding.OneHotRoundTrip | training/pipeline.py:29 | decoding the encoding returns the value if it is known and None if it is not |
| Encoding.Binarize | training/pipeline.py:42 | the result is 0 or 1, and 1 exactly when the input is above the default threshold 0 |
| Encoding.BinarizeIdempotent | training/pipeline.py:42 | binarizing a binarized value changes nothing |
| Encoding.Unique | training/pipeline.py:29 | what fit learns for a column: duplicate-free, containing every value of the column and nothing else |
| Pipeline.MissingFrom | training/pipeline.py:39 | exactly the selected columns that the table lacks |
| Pipeline.FirstNonNumeric | training/pipeline.py:42 | none exactly when every selected column holds numbers, otherwise a selected column that does not |
| Pipeline.BlockError | training/pipeline.py:39-52 | a column selector raises nothing exactly when all its columns are present, and numeric where the block needs numbers |
| Pipeline.Validate | training/pipeline.py:77-91 | the table is accepted exactly when it has rows and every row is complete; an empty table gives NoSamples; otherwise the error is that of the first block, in feature-union order, whose check fails |
| Pipeline.CategoryVocabulary | training/pipeline.py:29-39 | what fit learns for a categorical column: duplicate-free, holding every training value of the column and only values taken from some training row |
| Pipeline.BinaryVocabulary | training/pipeline.py:50-60 | what fit learns for a count column: duplicate-free, holding every binarized training count of the column and only binarized counts of some training row |
| Pipeline.EncodeColumns | training/pipeline.py:29-39 | the width of several one-hot columns side by side is the sum of their vocabulary sizes |
| Pipeline.CategoryBlock | training/pipeline.py:29-39 | the categorical block is as wide as the six vocabularies together |
| Pipeline.BinaryBlock | training/pipeline.py:42-60 | the count block is as wide as the five binarized vocabularies together |
| Pipeline.ScaledBlock | training/pipeline.py:63-66 | one slot for adr |
| Pipeline.PassthroughBlock | training/pipeline.py:69-74 | one slot per passthrough column |
| Pipeline.TransformRow | training/pipeline.py:76-91 | the vector width depends only on the fitted parameters: sum of categorical vocabularies + sum of binarized vocabularies + 1 + 2 |
| Pipeline.Transform | training/pipeline.py:76-91 | a table is transformed exactly when it is usable, into one vector per row in row order, vector i being the row transform of row i, each of the fitted width; otherwise the whole table is rejected with the validation error |
| Pipeline.Fit | training/pipeline.py:29-60 | fitting succeeds exactly when the table is usable, and then gives one duplicate-free vocabulary per categorical column and a non-empty subset of {0, 1} per count column, every entry taken from some training row |
| PipelineProperties.EncodeColumnsSlice | training/pipeline.py:29-39 | column j of a multi-column encoding occupies its own slice and holds that column's one-hot encoding |
| PipelineProperties.EncodeColumnsCongruent | training/pipeline.py:29-39 | a multi-column encoding depends on each value only through that value's own encoding |
| PipelineProperties.FeatureVectorLayout | training/pipeline.py:81-88 | the vector is categories ++ binaries ++ [scaled adr] ++ [stays_in_week_nights, stays_in_weekend_nights], in that order, the last two copied unchanged |
| PipelineProperties.CategorySubVector | training/pipeline.py:29-39 | the sub-vector of categorical column j is the one-hot encoding of that column's value against its own vocabulary |
| PipelineProperties.BinarySubVector | training/pipeline.py:42-60 | the sub-vector of count column j is the one-hot encoding of the binarized count, never of the raw count |
| PipelineProperties.KnownCategory | training/pipeline.py:29-39 | a known categorical value sets exactly one column of its sub-vector, at its vocabulary position |
| PipelineProperties.UnseenCategory | training/pipeline.py:29 | an unseen categorical value does not make the transform fail and gives an all-zero sub-vector of full width |
| PipelineProperties.UnseenCategoriesAgree | training/pipeline.py:29 | rows that differ only in an unseen value of one categorical column give the same vector |
| PipelineProperties.UnseenBinarizedCount | training/pipeline.py:50 | a binarized count missing from its fitted vocabulary gives an all-zero sub-vector |
| PipelineProperties.CountSeenOnlyBinarized | training/pipeline.py:55-60 | two counts on the same side of the threshold give the same vector |
| PipelineProperties.OnlyUsedColumnsMatter | training/pipeline.py:30-74 | tables that agree on the fourteen listed columns give the same vectors or the same error |
| PipelineProperties.ReservationIdIgnored | training/pipeline.py:30-74 | adding or changing reservation_id in any row never changes the result |
| PipelineProperties.BinaryVocabularySize | training/pipeline.py:50-60 | each count column fitted on a table has one or two output columns, and two exactly when its training counts fall on both sides of the threshold |
| PipelineProperties.FittedBinaryVocabulary | training/pipeline.py:50-60 | a fitted count column knows 1 exactly when some training count is positive and 0 exactly when some is not; all counts at most 0 give [0], all positive give [1] |
| PipelineProperties.FitCoversTraining | training/pipeline.py:29-60 | every categorical value and every binarized count of the training table is in the vocabulary fitted on it |
| PipelineProperties.FitThenTransformTraining | training/pipeline.py:29-60 | the training table transforms with its own fitted parameters, and each of its sub-vectors has exactly one 1, which decodes back to the row's value |
| PipelineProperties.OnlyAssignedRoomTypeMissing | training/pipeline.py:30-39 | a row with the other five categorical columns but no assigned_room_type lacks exactly that categorical column |
| PipelineProperties.AssignedRoomTypeMissing | training/pipeline.py:30-39 | such a row is rejected by the first block with that column named as missing |
| PipelineProperties.FrontEndRowRejected | app.py:111-125 | the ten-key row the front end sends is rejected for the missing assigned_room_type |
| PipelineProperties.CompleteFrontEndRowAccepted | app.py:111-125 | the request row with the five omitted columns added is transformed, and its vector ends with the two day counts copied as the stay lengths |

## Left out

- training/main.py: reading the CSV and dropping the personal and leakage columns, the random 80/20 split with seed 42, the call to fit, and saving the model to disk. These are I/O and library calls with no algorithm of their own.
- service.py: the BentoML service, loading the model, the `uuid4` prediction identifiers, and the table built from `predict` and `predict_proba`. These are library wrappers and randomness.
- app.py lines 34-137: the Streamlit widgets, the endpoint setting and the HTTP request. Only the shape of the request row is modelled, in `FrontEndRow`.
- The random forest (100 trees): training is randomised and its probabilities are floating-point library output.
- Robust scaling of `adr`: the median and interquartile range are floating-point library arithmetic. The `Scaled` slot carries the raw `adr` and stands for its scaled value.
- Vocabulary order: the library sorts each column's categories. The model's fit keeps first-seen order. Every transform property is proved for any duplicate-free vocabulary, so it holds for the sorted order too.
- Cell types: a cell is text or a number, with no distinction between integers and floats. A numeric string is treated as text, although the library may convert one such as "3" to 3.0.
- Ragged batches: pandas fills a key that only some rows carry with NaN. The model treats such a column as missing.
- Error details: errors are values, not exceptions. `NotNumeric` names the first offending column in block order, where the library reports the failed conversion in its own words. An empty table is `NoSamples`, even where the column selector would first report missing columns for a request with no rows.
- Calendar: dates before date.min cannot be formed in Python, so the `Date` type excludes them. The model has no time zones and no `datetime` values, only dates.

## Findings

| source | as written | input that shows it | evidently intended | confidence | as-written member | corrected member |
|---|---|---|---|---|---|---|
| app.py:23-29 | after counting each date the cursor moves one day forward, including after the last date of the range | start_date = end_date = date(9999, 12, 31), ordinal 3652059, a Friday (`MaxDateRange`) | (1, 0); Python raises OverflowError instead, because date.max + 1 day cannot be represented | not executed; high | Calendar.CalculateWeekdaysWeekends | Calendar.CalculateWeekdaysWeekendsNoOverflow |
| app.py:111-125 | the prediction request carries ten keys and omits assigned_room_type, total_of_special_requests, booking_changes, previous_bookings_not_canceled and previous_cancellations, all selected by the fitted pipeline | any request the form builds, for example hotel "City Hotel", room "A", customer "Transient", no parking, adr 100, meal "BB", 2 weekdays, 0 weekend days | the request carries every column the pipeline selects, and the service returns a probability | not executed; high | PipelineProperties.FrontEndRowRejected | PipelineProperties.CompleteFrontEndRowAccepted |
