/** `DataCleaner`: the fixed chain of stages that turns the raw transaction
    log into the cleaned transaction table. Every stage is a pure function
    of the working rows and the audit log (`steps_applied`), and appends
    exactly one audit entry. */
module Cleaning {
  import opened Wrappers
  import opened Seqs
  import Calendar
  import Quantile

  /* ---------------------------------------------------------------------- */
  /* Rows                                                                    */
  /* ---------------------------------------------------------------------- */

  /** One line of the raw log. CustomerID and Description may be missing;
      CustomerID is read as a floating-point column because of its NaNs. */
  datatype Row = Row(
    invoiceNo: string,
    stockCode: string,
    description: Option<string>,
    quantity: int,
    invoiceDate: int,
    unitPrice: real,
    customerId: Option<real>,
    country: string)

  /** A row with the derived columns of `add_derived_columns`. */
  datatype EnrichedRow = EnrichedRow(
    row: Row,
    totalPrice: real,
    year: int,
    month: int,
    dayOfWeek: int,
    hour: int)

  /** A row of the cleaned table, CustomerID coerced to an integer. */
  datatype CleanRow = CleanRow(
    invoiceNo: string,
    stockCode: string,
    description: Option<string>,
    quantity: int,
    invoiceDate: int,
    unitPrice: real,
    customerId: int,
    country: string,
    totalPrice: real,
    year: int,
    month: int,
    dayOfWeek: int,
    hour: int)

  /* ---------------------------------------------------------------------- */
  /* Audit log                                                               */
  /* ---------------------------------------------------------------------- */

  datatype Step =
    | RemoveMissingCustomerIds
    | HandleCancelledInvoices
    | HandleNegativeQuantities
    | HandleZeroPrices
    | HandleMissingDescriptions
    | RemoveOutliers
    | RemoveDuplicates
    | AddDerivedColumns
    | ConvertDataTypes
  {
    /** The `step` string written to the statistics file. */
    function Name(): string
    {
      match this
      case RemoveMissingCustomerIds => "remove_missing_customer_ids"
      case HandleCancelledInvoices => "handle_cancelled_invoices"
      case HandleNegativeQuantities => "handle_negative_quantities"
      case HandleZeroPrices => "handle_zero_prices"
      case HandleMissingDescriptions => "handle_missing_descriptions"
      case RemoveOutliers => "remove_outliers"
      case RemoveDuplicates => "remove_duplicates"
      case AddDerivedColumns => "add_derived_columns"
      case ConvertDataTypes => "convert_data_types"
    }
  }

  /** The stages in the order `run_pipeline` chains them. */
  const StageOrder: seq<Step> := [
    RemoveMissingCustomerIds, HandleCancelledInvoices, HandleNegativeQuantities,
    HandleZeroPrices, HandleMissingDescriptions, RemoveOutliers, RemoveDuplicates,
    AddDerivedColumns, ConvertDataTypes]

  /** Each stage writes its own `step` string: no two stages share one. */
  lemma StepNamesDistinct(s: Step, t: Step)
    ensures s.Name() == t.Name() <==> s == t
  {
  }

  /** The `step` strings of `steps_applied`, entry by entry. */
  function StepNames(log: seq<AuditEntry>): (names: seq<string>)
    ensures |names| == |log|
  {
    seq(|log|, i requires 0 <= i < |log| => log[i].StepOf().Name())
  }

  /** The nine `step` strings of a complete run, in the order they are written. */
  const LoggedStepNames: seq<string> := [
    "remove_missing_customer_ids", "handle_cancelled_invoices", "handle_negative_quantities",
    "handle_zero_prices", "handle_missing_descriptions", "remove_outliers", "remove_duplicates",
    "add_derived_columns", "convert_data_types"]

  /** A log whose entries name the stages in pipeline order carries exactly
      the nine `step` strings, in that order. */
  lemma StageOrderNames(log: seq<AuditEntry>)
    requires StepsOf(log) == StageOrder
    ensures StepNames(log) == LoggedStepNames
  {
    forall i | 0 <= i < |log|
      ensures StepNames(log)[i] == LoggedStepNames[i]
    {
      assert log[i].StepOf() == StageOrder[i];
    }
  }

  const DerivedColumnNames: seq<string> := ["TotalPrice", "Year", "Month", "DayOfWeek", "Hour"]

  /** One entry of `steps_applied`. The two stages that never drop rows
      record no `rows_removed`. */
  datatype AuditEntry =
    | Removed(step: Step, rowsRemoved: int)
    | OutliersRemoved(rowsRemoved: int, detectionMethod: string, threshold: real)
    | ColumnsAdded(columnsAdded: seq<string>)
    | TypesConverted
  {
    function StepOf(): Step
    {
      match this
      case Removed(step, _) => step
      case OutliersRemoved(_, _, _) => RemoveOutliers
      case ColumnsAdded(_) => AddDerivedColumns
      case TypesConverted => ConvertDataTypes
    }

    /** The entry's `rows_removed`, 0 when it has none. */
    function RemovedCount(): int
    {
      match this
      case Removed(_, n) => n
      case OutliersRemoved(n, _, _) => n
      case ColumnsAdded(_) => 0
      case TypesConverted => 0
    }
  }

  function TotalRemoved(log: seq<AuditEntry>): int
    decreases |log|
  {
    if |log| == 0 then 0 else TotalRemoved(log[..|log| - 1]) + log[|log| - 1].RemovedCount()
  }

  lemma TotalRemovedSnoc(log: seq<AuditEntry>, e: AuditEntry)
    ensures TotalRemoved(log + [e]) == TotalRemoved(log) + e.RemovedCount()
  {
    assert (log + [e])[..|log|] == log;
  }

  function StepsOf(log: seq<AuditEntry>): seq<Step>
  {
    seq(|log|, i requires 0 <= i < |log| => log[i].StepOf())
  }

  /** The working state threaded through the stages. */
  datatype Stage<R> = Stage(rows: seq<R>, log: seq<AuditEntry>)

  /* ---------------------------------------------------------------------- */
  /* The five masking stages                                                 */
  /* ---------------------------------------------------------------------- */

  predicate HasCustomerId(r: Row)
  {
    r.customerId.Some?
  }

  /** `str(InvoiceNo).startswith("C")` */
  predicate IsCancelled(invoiceNo: string)
  {
    |invoiceNo| > 0 && invoiceNo[0] == 'C'
  }

  predicate NotCancelled(r: Row)
  {
    !IsCancelled(r.invoiceNo)
  }

  predicate PositiveQuantity(r: Row)
  {
    r.quantity > 0
  }

  predicate PositivePrice(r: Row)
  {
    r.unitPrice > 0.0
  }

  predicate HasDescription(r: Row)
  {
    r.description.Some?
  }

  /** What a row must satisfy to get through the five masking stages. */
  predicate PassesMasks(r: Row)
  {
    HasCustomerId(r) && NotCancelled(r) && PositiveQuantity(r) && PositivePrice(r) && HasDescription(r)
  }

  /** `df = df[keep]` followed by the audit entry: only rows passing `keep`
      are left, and the entry records how many rows went. */
  function MaskStage(st: Stage<Row>, step: Step, keep: Row -> bool): (r: Stage<Row>)
    ensures |r.rows| <= |st.rows|
    ensures forall i :: 0 <= i < |r.rows| ==> keep(r.rows[i])
    ensures r.log == st.log + [Removed(step, |st.rows| - |r.rows|)]
  {
    var kept := Filter(st.rows, keep);
    Stage(kept, st.log + [Removed(step, |st.rows| - |kept|)])
  }

  /** A masking stage deletes exactly the rows failing its mask: the
      survivors keep their order, every passing row survives, and the count
      it logs is the number of failing rows. */
  lemma MaskStageSpec(st: Stage<Row>, step: Step, keep: Row -> bool)
    ensures IsSubsequence(MaskStage(st, step, keep).rows, st.rows)
    ensures forall i :: 0 <= i < |st.rows| && keep(st.rows[i]) ==> st.rows[i] in MaskStage(st, step, keep).rows
    ensures |st.rows| - |MaskStage(st, step, keep).rows| == Count(st.rows, Not(keep))
  {
    FilterIsSubsequence(st.rows, keep);
    FilterMembers(st.rows, keep);
    FilterCount(st.rows, keep);
  }

  /** The output of a masking stage is pinned down by that description: any
      order-preserving selection of passing rows that is as long as the number
      of passing rows is the stage's output. */
  lemma MaskStageExact(st: Stage<Row>, step: Step, keep: Row -> bool, other: seq<Row>)
    requires IsSubsequence(other, st.rows)
    requires forall i :: 0 <= i < |other| ==> keep(other[i])
    requires |other| == Count(st.rows, keep)
    ensures other == MaskStage(st, step, keep).rows
  {
    FilterUnique(other, st.rows, keep);
  }

  /** Running a masking stage on its own output removes nothing. */
  lemma MaskStageIdempotent(st: Stage<Row>, step: Step, keep: Row -> bool)
    ensures var once := MaskStage(st, step, keep);
            var twice := MaskStage(once, step, keep);
            twice.rows == once.rows && twice.log == once.log + [Removed(step, 0)]
  {
    var once := MaskStage(st, step, keep);
    FilterAllKept(once.rows, keep);
  }

  /** `dropna(subset=["CustomerID"])` */
  function RemoveMissingCustomerIdsStage(st: Stage<Row>): (r: Stage<Row>)
    ensures |r.rows| <= |st.rows|
    ensures forall i :: 0 <= i < |r.rows| ==> r.rows[i].customerId.Some?
    ensures r.log == st.log + [Removed(RemoveMissingCustomerIds, |st.rows| - |r.rows|)]
  {
    MaskStage(st, RemoveMissingCustomerIds, HasCustomerId)
  }

  /** Drops the rows whose InvoiceNo starts with "C". */
  function HandleCancelledInvoicesStage(st: Stage<Row>): (r: Stage<Row>)
    ensures |r.rows| <= |st.rows|
    ensures forall i :: 0 <= i < |r.rows| ==> !IsCancelled(r.rows[i].invoiceNo)
    ensures r.log == st.log + [Removed(HandleCancelledInvoices, |st.rows| - |r.rows|)]
  {
    MaskStage(st, HandleCancelledInvoices, NotCancelled)
  }

  /** Keeps the rows with Quantity > 0. */
  function HandleNegativeQuantitiesStage(st: Stage<Row>): (r: Stage<Row>)
    ensures |r.rows| <= |st.rows|
    ensures forall i :: 0 <= i < |r.rows| ==> r.rows[i].quantity > 0
    ensures r.log == st.log + [Removed(HandleNegativeQuantities, |st.rows| - |r.rows|)]
  {
    MaskStage(st, HandleNegativeQuantities, PositiveQuantity)
  }

  /** Keeps the rows with UnitPrice > 0. */
  function HandleZeroPricesStage(st: Stage<Row>): (r: Stage<Row>)
    ensures |r.rows| <= |st.rows|
    ensures forall i :: 0 <= i < |r.rows| ==> r.rows[i].unitPrice > 0.0
    ensures r.log == st.log + [Removed(HandleZeroPrices, |st.rows| - |r.rows|)]
  {
    MaskStage(st, HandleZeroPrices, PositivePrice)
  }

  /** `dropna(subset=["Description"])` */
  function HandleMissingDescriptionsStage(st: Stage<Row>): (r: Stage<Row>)
    ensures |r.rows| <= |st.rows|
    ensures forall i :: 0 <= i < |r.rows| ==> r.rows[i].description.Some?
    ensures r.log == st.log + [Removed(HandleMissingDescriptions, |st.rows| - |r.rows|)]
  {
    MaskStage(st, HandleMissingDescriptions, HasDescription)
  }

  /* ---------------------------------------------------------------------- */
  /* IQR outlier removal                                                     */
  /* ---------------------------------------------------------------------- */

  function QuantityValue(r: Row): real
  {
    r.quantity as real
  }

  function PriceValue(r: Row): real
  {
    r.unitPrice
  }

  /** One numeric column of the rows, as the quantile computation sees it. */
  function Column(rows: seq<Row>, value: Row -> real): (c: seq<real>)
    ensures |c| == |rows|
  {
    seq(|rows|, i requires 0 <= i < |rows| => value(rows[i]))
  }

  /** `lower <= x <= upper`; every comparison with a NaN bound is false. */
  predicate InsideFence(x: real, fence: Option<Quantile.Fence>)
  {
    fence.Some? && Quantile.Within(x, fence.value)
  }

  /** The IQR fence of a column, computed on the given rows. */
  function FenceOf(rows: seq<Row>, value: Row -> real): Option<Quantile.Fence>
  {
    Quantile.IqrFence(Column(rows, value))
  }

  /** The mask `(col >= lower) & (col <= upper)` of one fence. */
  function InsideFenceMask(fence: Option<Quantile.Fence>, value: Row -> real): Row -> bool
  {
    r => InsideFence(value(r), fence)
  }

  /** The rows whose `value` lies within the IQR fence computed on these same
      rows. */
  function Fenced(rows: seq<Row>, value: Row -> real): (r: seq<Row>)
    ensures |r| <= |rows|
  {
    Filter(rows, InsideFenceMask(FenceOf(rows, value), value))
  }

  /** The rows left after the Quantity fence: the set the UnitPrice quartiles
      are computed on. */
  function QuantityFenced(rows: seq<Row>): seq<Row>
  {
    Fenced(rows, QuantityValue)
  }

  /** `remove_outliers`: Quantity fence on the stage input, then UnitPrice
      fence on what the Quantity fence left, one audit entry for both. */
  function RemoveOutliersStage(st: Stage<Row>): (r: Stage<Row>)
    ensures |r.rows| <= |st.rows|
    ensures r.log == st.log + [OutliersRemoved(|st.rows| - |r.rows|, "IQR", Quantile.Whisker)]
  {
    var afterPrice := Fenced(QuantityFenced(st.rows), PriceValue);
    Stage(afterPrice, st.log + [OutliersRemoved(|st.rows| - |afterPrice|, "IQR", Quantile.Whisker)])
  }

  /** The mask of the outlier stage as a whole: inside the Quantity fence of
      the input and inside the UnitPrice fence of the rows the Quantity
      fence left. */
  function OutlierMask(rows: seq<Row>): Row -> bool
  {
    And(InsideFenceMask(FenceOf(rows, QuantityValue), QuantityValue),
        InsideFenceMask(FenceOf(QuantityFenced(rows), PriceValue), PriceValue))
  }

  /** A row survives the outlier stage exactly when it is an input row whose
      Quantity lies inside the Quantity fence of the input and whose
      UnitPrice lies inside the UnitPrice fence of the rows the Quantity
      fence left; survivors keep their order. */
  lemma RemoveOutliersSpec(st: Stage<Row>)
    ensures forall x :: x in RemoveOutliersStage(st).rows <==>
              && x in st.rows
              && InsideFence(x.quantity as real, FenceOf(st.rows, QuantityValue))
              && InsideFence(x.unitPrice, FenceOf(QuantityFenced(st.rows), PriceValue))
    ensures IsSubsequence(RemoveOutliersStage(st).rows, st.rows)
  {
    var quantityMask := InsideFenceMask(FenceOf(st.rows, QuantityValue), QuantityValue);
    var priceMask := InsideFenceMask(FenceOf(QuantityFenced(st.rows), PriceValue), PriceValue);
    assert RemoveOutliersStage(st).rows == Filter(Filter(st.rows, quantityMask), priceMask);
    FilterTwice(st.rows, quantityMask, priceMask);
  }

  /** The outlier stage is one filter by `OutlierMask`: every passing copy of
      a repeated row survives, and the logged count is the number of input
      rows failing a fence. */
  lemma RemoveOutliersExact(st: Stage<Row>)
    ensures RemoveOutliersStage(st).rows == Filter(st.rows, OutlierMask(st.rows))
    ensures RemoveOutliersStage(st).log[|st.log|].rowsRemoved == Count(st.rows, Not(OutlierMask(st.rows)))
  {
    var quantityMask := InsideFenceMask(FenceOf(st.rows, QuantityValue), QuantityValue);
    var priceMask := InsideFenceMask(FenceOf(QuantityFenced(st.rows), PriceValue), PriceValue);
    assert RemoveOutliersStage(st).rows == Filter(Filter(st.rows, quantityMask), priceMask);
    FilterCompose(st.rows, quantityMask, priceMask);
    FilterCount(st.rows, OutlierMask(st.rows));
  }

  /** An ordinary row with the given Quantity and a UnitPrice of 1. */
  function SampleRow(quantity: int): Row
  {
    Row("1", "A", Some("item"), quantity, 0, 1.0, Some(1.0), "X")
  }

  /** Unlike the masking stages, the outlier stage is not idempotent: its
      fences are recomputed on what is left. Quantities 1, 1, 1, 2, 10 lose
      the 10 on the first pass and the 2 on the second. */
  lemma RemoveOutliersNotIdempotent()
    ensures var once := RemoveOutliersStage(Stage([SampleRow(1), SampleRow(1), SampleRow(1), SampleRow(2), SampleRow(10)], []));
            && once.rows == [SampleRow(1), SampleRow(1), SampleRow(1), SampleRow(2)]
            && RemoveOutliersStage(once).rows == [SampleRow(1), SampleRow(1), SampleRow(1)]
  {
    var a, b, c := SampleRow(1), SampleRow(2), SampleRow(10);
    OutlierFirstPass();
    var once := RemoveOutliersStage(Stage([a, a, a, b, c], []));
    OutlierSecondPass(once.log);
  }

  /** The first pass on quantities 1, 1, 1, 2, 10 drops only the 10. */
  lemma OutlierFirstPass()
    ensures var a, b, c := SampleRow(1), SampleRow(2), SampleRow(10);
            RemoveOutliersStage(Stage([a, a, a, b, c], [])).rows == [a, a, a, b]
  {
    SampleQuantityFences();
    SamplePriceFences();
  }

  /** The second pass, on quantities 1, 1, 1, 2, drops the 2 as well. */
  lemma OutlierSecondPass(log: seq<AuditEntry>)
    ensures var a, b := SampleRow(1), SampleRow(2);
            RemoveOutliersStage(Stage([a, a, a, b], log)).rows == [a, a, a]
  {
    SampleQuantityFences();
    SamplePriceFences();
  }

  /** The Quantity fence drops the 10 from 1, 1, 1, 2, 10 and the 2 from
      1, 1, 1, 2. */
  lemma SampleQuantityFences()
    ensures var a, b, c := SampleRow(1), SampleRow(2), SampleRow(10);
            && QuantityFenced([a, a, a, b, c]) == [a, a, a, b]
            && QuantityFenced([a, a, a, b]) == [a, a, a]
  {
    var a, b, c := SampleRow(1), SampleRow(2), SampleRow(10);
    SampleFences();
    var m1 := InsideFenceMask(Some(Quantile.Fence(-0.5, 3.5)), QuantityValue);
    var m3 := InsideFenceMask(Some(Quantile.Fence(0.625, 1.625)), QuantityValue);
    SampleMasks();
    FilterFourOrFive(a, b, c, m1);
    FilterFourOrFive(a, b, c, m3);
    assert QuantityFenced([a, a, a, b, c]) == Filter([a, a, a, b, c], m1);
    assert QuantityFenced([a, a, a, b]) == Filter([a, a, a, b], m3);
  }

  /** The UnitPrice fence, all prices being 1, keeps every row. */
  lemma SamplePriceFences()
    ensures var a, b := SampleRow(1), SampleRow(2);
            && Fenced([a, a, a, b], PriceValue) == [a, a, a, b]
            && Fenced([a, a, a], PriceValue) == [a, a, a]
  {
    var a, b, c := SampleRow(1), SampleRow(2), SampleRow(10);
    SampleFences();
    var m2 := InsideFenceMask(Some(Quantile.Fence(1.0, 1.0)), PriceValue);
    SampleMasks();
    FilterFourOrFive(a, b, c, m2);
    assert Fenced([a, a, a, b], PriceValue) == Filter([a, a, a, b], m2);
    assert Fenced([a, a, a], PriceValue) == Filter([a, a, a], m2);
  }

  /** Which sample rows the three fences keep. */
  lemma SampleMasks()
    ensures var m1 := InsideFenceMask(Some(Quantile.Fence(-0.5, 3.5)), QuantityValue);
            m1(SampleRow(1)) && m1(SampleRow(2)) && !m1(SampleRow(10))
    ensures var m2 := InsideFenceMask(Some(Quantile.Fence(1.0, 1.0)), PriceValue);
            m2(SampleRow(1)) && m2(SampleRow(2))
    ensures var m3 := InsideFenceMask(Some(Quantile.Fence(0.625, 1.625)), QuantityValue);
            m3(SampleRow(1)) && !m3(SampleRow(2))
  {
    var a, b, c := SampleRow(1), SampleRow(2), SampleRow(10);
    forall f: Option<Quantile.Fence>, r: Row
      ensures InsideFenceMask(f, QuantityValue)(r) == InsideFence(r.quantity as real, f)
      ensures InsideFenceMask(f, PriceValue)(r) == InsideFence(r.unitPrice, f)
    {
      assert QuantityValue(r) == r.quantity as real;
      assert PriceValue(r) == r.unitPrice;
    }
    assert a.quantity == 1 && b.quantity == 2 && c.quantity == 10;
    assert a.unitPrice == 1.0 && b.unitPrice == 1.0;
  }

  /** The fences the outlier stage computes on the sample rows. */
  lemma SampleFences()
    ensures var a, b, c := SampleRow(1), SampleRow(2), SampleRow(10);
            && FenceOf([a, a, a, b, c], QuantityValue) == Some(Quantile.Fence(-0.5, 3.5))
            && FenceOf([a, a, a, b], QuantityValue) == Some(Quantile.Fence(0.625, 1.625))
            && FenceOf([a, a, a, b], PriceValue) == Some(Quantile.Fence(1.0, 1.0))
            && FenceOf([a, a, a], PriceValue) == Some(Quantile.Fence(1.0, 1.0))
  {
    SampleColumns();
    Quantile.FenceMovesAfterFiltering();
    assert Quantile.IqrFence([1.0, 1.0, 1.0, 1.0]) == Some(Quantile.Fence(1.0, 1.0)) by {
      assert Quantile.Sort([1.0, 1.0, 1.0, 1.0]) == [1.0, 1.0, 1.0, 1.0];
    }
    assert Quantile.IqrFence([1.0, 1.0, 1.0]) == Some(Quantile.Fence(1.0, 1.0)) by {
      assert Quantile.Sort([1.0, 1.0, 1.0]) == [1.0, 1.0, 1.0];
    }
  }

  /** The Quantity and UnitPrice columns of the sample rows. */
  lemma SampleColumns()
    ensures var a, b, c := SampleRow(1), SampleRow(2), SampleRow(10);
            && Column([a, a, a, b, c], QuantityValue) == [1.0, 1.0, 1.0, 2.0, 10.0]
            && Column([a, a, a, b], QuantityValue) == [1.0, 1.0, 1.0, 2.0]
            && Column([a, a, a, b], PriceValue) == [1.0, 1.0, 1.0, 1.0]
            && Column([a, a, a], PriceValue) == [1.0, 1.0, 1.0]
  {
    var a, b, c := SampleRow(1), SampleRow(2), SampleRow(10);
    assert QuantityValue(a) == 1.0 && QuantityValue(b) == 2.0 && QuantityValue(c) == 10.0;
    assert PriceValue(a) == 1.0 && PriceValue(b) == 1.0;
  }

  /** `Filter` unfolded on the sample rows `a, a, a, b, c`. */
  lemma FilterFourOrFive(a: Row, b: Row, c: Row, keep: Row -> bool)
    ensures Filter([a, a, a], keep) == if keep(a) then [a, a, a] else []
    ensures Filter([a, a, a, b], keep) == Filter([a, a, a], keep) + (if keep(b) then [b] else [])
    ensures Filter([a, a, a, b, c], keep) == Filter([a, a, a, b], keep) + (if keep(c) then [c] else [])
  {
    FilterOfThree(a, keep);
    FilterSnoc([a, a, a], b, keep);
    assert [a, a, a] + [b] == [a, a, a, b];
    FilterSnoc([a, a, a, b], c, keep);
    assert [a, a, a, b] + [c] == [a, a, a, b, c];
  }

  lemma FilterOfThree(a: Row, keep: Row -> bool)
    ensures Filter([a, a, a], keep) == if keep(a) then [a, a, a] else []
  {
    FilterSnoc([], a, keep);
    assert [] + [a] == [a];
    FilterSnoc([a], a, keep);
    assert [a] + [a] == [a, a];
    FilterSnoc([a, a], a, keep);
    assert [a, a] + [a] == [a, a, a];
  }

  /* ---------------------------------------------------------------------- */
  /* Duplicate removal                                                       */
  /* ---------------------------------------------------------------------- */

  /** `drop_duplicates()`: keeps the first of every group of equal rows. */
  function RemoveDuplicatesStage(st: Stage<Row>): (r: Stage<Row>)
    ensures |r.rows| <= |st.rows|
    ensures r.log == st.log + [Removed(RemoveDuplicates, |st.rows| - |r.rows|)]
  {
    var kept := Dedup(st.rows);
    Stage(kept, st.log + [Removed(RemoveDuplicates, |st.rows| - |kept|)])
  }

  /** After duplicate removal every distinct row is left exactly once, in the
      order of first occurrence, and the logged count is the number of
      repeats. */
  lemma RemoveDuplicatesSpec(st: Stage<Row>)
    ensures NoDuplicates(RemoveDuplicatesStage(st).rows)
    ensures Elements(RemoveDuplicatesStage(st).rows) == Elements(st.rows)
    ensures InFirstOccurrenceOrder(RemoveDuplicatesStage(st).rows, st.rows)
    ensures IsSubsequence(RemoveDuplicatesStage(st).rows, st.rows)
    ensures |st.rows| - |RemoveDuplicatesStage(st).rows| == |st.rows| - |Elements(st.rows)|
  {
    DedupSpec(st.rows);
    DedupCard(st.rows);
    DedupIsSubsequence(st.rows);
  }

  /** Removing duplicates twice removes nothing the second time. */
  lemma RemoveDuplicatesIdempotent(st: Stage<Row>)
    ensures var once := RemoveDuplicatesStage(st);
            var twice := RemoveDuplicatesStage(once);
            twice.rows == once.rows && twice.log == once.log + [Removed(RemoveDuplicates, 0)]
  {
    var once := RemoveDuplicatesStage(st);
    DedupSpec(st.rows);
    DedupNoDuplicates(once.rows);
  }

  /* ---------------------------------------------------------------------- */
  /* Derived columns and type conversion                                     */
  /* ---------------------------------------------------------------------- */

  function Enrich(r: Row): (e: EnrichedRow)
    ensures e.row == r
    ensures e.totalPrice == r.quantity as real * r.unitPrice
    ensures 1 <= e.month <= 12 && 0 <= e.dayOfWeek <= 6 && 0 <= e.hour <= 23
  {
    EnrichedRow(
      r,
      r.quantity as real * r.unitPrice,
      Calendar.Year(r.invoiceDate),
      Calendar.Month(r.invoiceDate),
      Calendar.DayOfWeek(r.invoiceDate),
      Calendar.Hour(r.invoiceDate))
  }

  /** `add_derived_columns`: same rows, same original fields, five new columns
      computed from Quantity, UnitPrice and InvoiceDate. */
  function AddDerivedColumnsStage(st: Stage<Row>): (r: Stage<EnrichedRow>)
    ensures |r.rows| == |st.rows|
    ensures forall i :: 0 <= i < |st.rows| ==>
              && r.rows[i].row == st.rows[i]
              && r.rows[i].totalPrice == st.rows[i].quantity as real * st.rows[i].unitPrice
              && r.rows[i].year == Calendar.Year(st.rows[i].invoiceDate)
              && r.rows[i].month == Calendar.Month(st.rows[i].invoiceDate)
              && r.rows[i].dayOfWeek == Calendar.DayOfWeek(st.rows[i].invoiceDate)
              && r.rows[i].hour == Calendar.Hour(st.rows[i].invoiceDate)
              && 1 <= r.rows[i].month <= 12 && 0 <= r.rows[i].dayOfWeek <= 6 && 0 <= r.rows[i].hour <= 23
    ensures r.log == st.log + [ColumnsAdded(DerivedColumnNames)]
  {
    Stage(seq(|st.rows|, i requires 0 <= i < |st.rows| => Enrich(st.rows[i])),
          st.log + [ColumnsAdded(DerivedColumnNames)])
  }

  /** `astype(int)` on a float: the fractional part is cut off, rounding
      toward zero. */
  function TruncateToInt(x: real): (n: int)
    ensures 0.0 <= x ==> n as real <= x < n as real + 1.0
    ensures x < 0.0 ==> n as real - 1.0 < x <= n as real
  {
    if 0.0 <= x then x.Floor else -((-x).Floor)
  }

  function Coerce(e: EnrichedRow, id: int): CleanRow
  {
    CleanRow(e.row.invoiceNo, e.row.stockCode, e.row.description, e.row.quantity,
             e.row.invoiceDate, e.row.unitPrice, id, e.row.country,
             e.totalPrice, e.year, e.month, e.dayOfWeek, e.hour)
  }

  /** The rows with CustomerID cast to int; fails on the first missing one,
      as `astype(int)` raises on NaN. */
  function CoerceRows(rows: seq<EnrichedRow>): (r: Result<seq<CleanRow>>)
    ensures r.Success? <==> forall i :: 0 <= i < |rows| ==> rows[i].row.customerId.Some?
    ensures r.Failure? ==> r.error == CannotCastMissingToInt
    ensures r.Success? ==> |r.value| == |rows| && forall i :: 0 <= i < |rows| ==>
              r.value[i] == Coerce(rows[i], TruncateToInt(rows[i].row.customerId.value))
    decreases |rows|
  {
    if |rows| == 0 then Success([])
    else
      var init, last := rows[..|rows| - 1], rows[|rows| - 1];
      var front := CoerceRows(init);
      if front.Failure? then front
      else if last.row.customerId.None? then Failure(CannotCastMissingToInt)
      else Success(front.value + [Coerce(last, TruncateToInt(last.row.customerId.value))])
  }

  /** The cast can merge rows that duplicate removal kept apart: two rows
      whose CustomerIDs share their whole part but not their fraction are
      different before the cast and equal after it. */
  lemma TruncationMergesRows(r: Row, id1: real, id2: real)
    requires 0.0 <= id1 && 0.0 <= id2 && id1 != id2 && id1.Floor == id2.Floor
    ensures r.(customerId := Some(id1)) != r.(customerId := Some(id2))
    ensures Coerce(Enrich(r.(customerId := Some(id1))), TruncateToInt(id1))
         == Coerce(Enrich(r.(customerId := Some(id2))), TruncateToInt(id2))
  {
    assert r.(customerId := Some(id1)).customerId != r.(customerId := Some(id2)).customerId;
  }

  /** `convert_data_types`: CustomerID to int; StockCode and Country become
      categoricals, which changes their storage and not their values. */
  function ConvertDataTypesStage(st: Stage<EnrichedRow>): (r: Result<Stage<CleanRow>>)
    ensures r.Success? <==> forall i :: 0 <= i < |st.rows| ==> st.rows[i].row.customerId.Some?
    ensures r.Failure? ==> r.error == CannotCastMissingToInt
    ensures r.Success? ==>
              && |r.value.rows| == |st.rows|
              && r.value.log == st.log + [TypesConverted]
              && forall i :: 0 <= i < |st.rows| ==>
                   r.value.rows[i] == Coerce(st.rows[i], TruncateToInt(st.rows[i].row.customerId.value))
  {
    var coerced := CoerceRows(st.rows);
    if coerced.Failure? then Failure(coerced.error)
    else Success(Stage(coerced.value, st.log + [TypesConverted]))
  }

  /* ---------------------------------------------------------------------- */
  /* Statistics and the driver                                               */
  /* ---------------------------------------------------------------------- */

  /** The counts of `cleaning_statistics.json`. The retention rate is the
      exact percentage, before `round(..., 2)`. */
  datatype CleaningStatistics = CleaningStatistics(
    originalRows: nat,
    rowsAfterCleaning: nat,
    rowsRemoved: int,
    retentionRate: real,
    stepsApplied: seq<AuditEntry>)

  /** `save_cleaned_data`'s bookkeeping. The retention rate divides by the
      original row count, so an empty input aborts with a division by zero. */
  function SaveStatistics(originalRows: nat, rows: seq<CleanRow>, log: seq<AuditEntry>): (r: Result<CleaningStatistics>)
    ensures r.Failure? <==> originalRows == 0
    ensures r.Failure? ==> r.error == DivisionByZero
    ensures r.Success? ==>
              && r.value.originalRows == originalRows
              && r.value.rowsAfterCleaning == |rows|
              && r.value.rowsRemoved + r.value.rowsAfterCleaning == originalRows
              && r.value.retentionRate * (originalRows as real) == (|rows| as real) * 100.0
              && r.value.stepsApplied == log
  {
    if originalRows == 0 then Failure(DivisionByZero)
    else
      var rate := (|rows| as real) / (originalRows as real) * 100.0;
      Success(CleaningStatistics(originalRows, |rows|, originalRows - |rows|, rate, log))
  }

  /** Stages one to five, the masking stages, from an empty log. */
  function MaskStages(raw: seq<Row>): Stage<Row>
  {
    var s1 := RemoveMissingCustomerIdsStage(Stage(raw, []));
    var s2 := HandleCancelledInvoicesStage(s1);
    var s3 := HandleNegativeQuantitiesStage(s2);
    var s4 := HandleZeroPricesStage(s3);
    HandleMissingDescriptionsStage(s4)
  }

  /** Stages one to seven, the ones that drop rows. */
  function FilterStages(raw: seq<Row>): Stage<Row>
  {
    RemoveDuplicatesStage(RemoveOutliersStage(MaskStages(raw)))
  }

  /** What `run_pipeline` returns: the cleaned rows and their statistics. */
  datatype CleaningRun = CleaningRun(rows: seq<CleanRow>, stats: CleaningStatistics)

  /** Invariant of every row of the cleaned table. */
  predicate CleanRowValid(c: CleanRow)
  {
    && !IsCancelled(c.invoiceNo)
    && c.quantity > 0
    && c.unitPrice > 0.0
    && c.description.Some?
    && c.totalPrice == c.quantity as real * c.unitPrice
    && c.totalPrice > 0.0
    && 1 <= c.month <= 12 && 0 <= c.dayOfWeek <= 6 && 0 <= c.hour <= 23
  }

  /** `run_pipeline`: load, the nine stages in order, then the statistics.
      It fails only on an empty input, and then with the division by zero of
      the retention rate. */
  function RunPipeline(raw: seq<Row>): (r: Result<CleaningRun>)
    ensures r.Success? <==> |raw| > 0
    ensures r.Failure? ==> r.error == DivisionByZero
    ensures r.Success? ==>
              var stats := r.value.stats;
              && stats.originalRows == |raw|
              && stats.rowsAfterCleaning == |r.value.rows|
              && stats.rowsRemoved == |raw| - |r.value.rows|
              && TotalRemoved(stats.stepsApplied) == stats.rowsRemoved
              && StepsOf(stats.stepsApplied) == StageOrder
              && (forall i :: 0 <= i < |r.value.rows| ==> CleanRowValid(r.value.rows[i]))
    ensures r.Success? ==> CleanedFrom(r.value.rows, FilterStages(raw).rows)
    ensures r.Success? ==> RetentionAgrees(r.value, |raw|)
    ensures r.Success? ==> StepNames(r.value.stats.stepsApplied) == LoggedStepNames
  {
    FilterStagesFacts(raw);
    FinishFacts(|raw|, FilterStages(raw));
    FinishRetention(|raw|, FilterStages(raw));
    var r := Finish(|raw|, FilterStages(raw));
    if r.Success? then
      StageOrderNames(r.value.stats.stepsApplied);
      r
    else r
  }

  /** The retention rate is the percentage of the original rows the run
      kept: `retention_rate * original_rows == rows_after_cleaning * 100`. */
  predicate RetentionAgrees(run: CleaningRun, originalRows: nat)
  {
    run.stats.retentionRate * (originalRows as real) == (|run.rows| as real) * 100.0
  }

  /** Whatever rows reach the statistics, a successful run's retention rate
      is the percentage of the original rows it kept. */
  lemma FinishRetention(originalRows: nat, filtered: Stage<Row>)
    ensures Finish(originalRows, filtered).Success? ==>
              RetentionAgrees(Finish(originalRows, filtered).value, originalRows)
  {
    var converted := ConvertDataTypesStage(AddDerivedColumnsStage(filtered));
    if converted.Success? {
      var cleaned := converted.value;
      var stats := SaveStatistics(originalRows, cleaned.rows, cleaned.log);
      if stats.Success? {
        assert Finish(originalRows, filtered) == Success(CleaningRun(cleaned.rows, stats.value));
      }
    }
  }

  /** Stages eight and nine and the statistics, applied to the output of the
      row-dropping stages. */
  function Finish(originalRows: nat, filtered: Stage<Row>): Result<CleaningRun>
  {
    match ConvertDataTypesStage(AddDerivedColumnsStage(filtered))
    case Failure(e) => Failure(e)
    case Success(cleaned) =>
      match SaveStatistics(originalRows, cleaned.rows, cleaned.log)
      case Failure(e) => Failure(e)
      case Success(stats) => Success(CleaningRun(cleaned.rows, stats))
  }

  /** Once the row-dropping stages have left only passing rows and an audit
      log that accounts for them, the last two stages cannot fail, every
      cleaned row is valid, and the statistics agree with the log. */
  lemma FinishFacts(originalRows: nat, filtered: Stage<Row>)
    requires forall i :: 0 <= i < |filtered.rows| ==> PassesMasks(filtered.rows[i])
    requires TotalRemoved(filtered.log) == originalRows - |filtered.rows|
    requires StepsOf(filtered.log) == StageOrder[..7]
    ensures var r := Finish(originalRows, filtered);
            && (r.Success? <==> originalRows > 0)
            && (r.Failure? ==> r.error == DivisionByZero)
            && (r.Success? ==>
                  var stats := r.value.stats;
                  && stats.originalRows == originalRows
                  && stats.rowsAfterCleaning == |r.value.rows|
                  && stats.rowsRemoved == originalRows - |r.value.rows|
                  && TotalRemoved(stats.stepsApplied) == stats.rowsRemoved
                  && StepsOf(stats.stepsApplied) == StageOrder
                  && (forall i :: 0 <= i < |r.value.rows| ==> CleanRowValid(r.value.rows[i]))
                  && CleanedFrom(r.value.rows, filtered.rows))
  {
    var enriched := AddDerivedColumnsStage(filtered);
    FinishRows(filtered);
    FinishRowsExact(filtered);
    var cleaned := ConvertDataTypesStage(enriched).value;
    assert cleaned.log == filtered.log + [ColumnsAdded(DerivedColumnNames), TypesConverted];
    FinishLog(filtered.log);
  }

  /** The record stages eight and nine make of a raw row that has a
      CustomerID: its derived columns added and its CustomerID cast. */
  function Cleaned(x: Row): CleanRow
    requires x.customerId.Some?
  {
    Coerce(Enrich(x), TruncateToInt(x.customerId.value))
  }

  /** `cleaned` is `filtered` one for one, in order, each row cleaned. */
  predicate CleanedFrom(cleaned: seq<CleanRow>, filtered: seq<Row>)
  {
    && |cleaned| == |filtered|
    && forall i :: 0 <= i < |filtered| ==>
         filtered[i].customerId.Some? && cleaned[i] == Cleaned(filtered[i])
  }

  /** Rows passing the masks come out of the last two stages one for one, in
      order, each the cleaned form of its input row. */
  lemma FinishRowsExact(filtered: Stage<Row>)
    requires forall i :: 0 <= i < |filtered.rows| ==> PassesMasks(filtered.rows[i])
    ensures var r := ConvertDataTypesStage(AddDerivedColumnsStage(filtered));
            && r.Success?
            && CleanedFrom(r.value.rows, filtered.rows)
  {
  }

  /** Rows passing the masks get through the last two stages, and come out
      valid. */
  lemma FinishRows(filtered: Stage<Row>)
    requires forall i :: 0 <= i < |filtered.rows| ==> PassesMasks(filtered.rows[i])
    ensures var r := ConvertDataTypesStage(AddDerivedColumnsStage(filtered));
            && r.Success?
            && r.value.log == filtered.log + [ColumnsAdded(DerivedColumnNames), TypesConverted]
            && forall i :: 0 <= i < |r.value.rows| ==> CleanRowValid(r.value.rows[i])
  {
    var enriched := AddDerivedColumnsStage(filtered);
    var cleaned := ConvertDataTypesStage(enriched).value;
    forall i | 0 <= i < |cleaned.rows|
      ensures CleanRowValid(cleaned.rows[i])
    {
      var x := filtered.rows[i];
      assert PassesMasks(x);
      assert x.quantity as real * x.unitPrice > 0.0 by {
        assert x.quantity as real > 0.0 && x.unitPrice > 0.0;
      }
    }
  }

  /** The last two entries complete the stage order and remove nothing. */
  lemma FinishLog(log: seq<AuditEntry>)
    requires StepsOf(log) == StageOrder[..7]
    ensures var full := log + [ColumnsAdded(DerivedColumnNames), TypesConverted];
            && StepsOf(full) == StageOrder
            && TotalRemoved(full) == TotalRemoved(log)
  {
    var added := log + [ColumnsAdded(DerivedColumnNames)];
    TotalRemovedSnoc(log, ColumnsAdded(DerivedColumnNames));
    TotalRemovedSnoc(added, TypesConverted);
    assert added + [TypesConverted] == log + [ColumnsAdded(DerivedColumnNames), TypesConverted];
    assert StepsOf(added + [TypesConverted]) == StepsOf(log) + [AddDerivedColumns, ConvertDataTypes];
  }

  /** The five masking stages in a row select exactly the raw rows that pass
      all five masks, in their original order: sequential masking is one
      combined mask. */
  lemma MaskStagesCombined(raw: seq<Row>)
    ensures MaskStages(raw).rows == Filter(raw, PassesMasks)
  {
    var p1 := HasCustomerId;
    var p2 := And(p1, NotCancelled);
    var p3 := And(p2, PositiveQuantity);
    var p4 := And(p3, PositivePrice);
    var p5 := And(p4, HasDescription);
    var s1 := RemoveMissingCustomerIdsStage(Stage(raw, []));
    var s2 := HandleCancelledInvoicesStage(s1);
    var s3 := HandleNegativeQuantitiesStage(s2);
    var s4 := HandleZeroPricesStage(s3);
    var s5 := HandleMissingDescriptionsStage(s4);
    assert s2.rows == Filter(raw, p2) by {
      FilterCompose(raw, p1, NotCancelled);
    }
    assert s3.rows == Filter(raw, p3) by {
      FilterCompose(raw, p2, PositiveQuantity);
    }
    assert s4.rows == Filter(raw, p4) by {
      FilterCompose(raw, p3, PositivePrice);
    }
    assert s5.rows == Filter(raw, p5) by {
      FilterCompose(raw, p4, HasDescription);
    }
    FilterExt(raw, p5, PassesMasks);
  }

  /** The masking stages log one entry each, in stage order, and their
      counts add up to the rows they removed. */
  lemma MaskStagesLog(raw: seq<Row>)
    ensures TotalRemoved(MaskStages(raw).log) == |raw| - |MaskStages(raw).rows|
    ensures StepsOf(MaskStages(raw).log) == StageOrder[..5]
  {
    var s0 := Stage(raw, []);
    var s1 := RemoveMissingCustomerIdsStage(s0);
    var s2 := HandleCancelledInvoicesStage(s1);
    var s3 := HandleNegativeQuantitiesStage(s2);
    var s4 := HandleZeroPricesStage(s3);
    var s5 := HandleMissingDescriptionsStage(s4);
    TotalRemovedSnoc(s0.log, s1.log[0]);
    TotalRemovedSnoc(s1.log, s2.log[1]);
    TotalRemovedSnoc(s2.log, s3.log[2]);
    TotalRemovedSnoc(s3.log, s4.log[3]);
    TotalRemovedSnoc(s4.log, s5.log[4]);
  }

  /** After the masking stages every surviving row passes all five masks,
      every raw row passing them survives, the rows are an order-preserving
      subsequence of the raw log, and the audit log accounts for every
      dropped row. */
  lemma MaskStagesFacts(raw: seq<Row>)
    ensures var m := MaskStages(raw);
            && IsSubsequence(m.rows, raw)
            && (forall i :: 0 <= i < |m.rows| ==> PassesMasks(m.rows[i]))
            && (forall i :: 0 <= i < |raw| && PassesMasks(raw[i]) ==> raw[i] in m.rows)
            && TotalRemoved(m.log) == |raw| - |m.rows|
            && StepsOf(m.log) == StageOrder[..5]
  {
    MaskStagesCombined(raw);
    MaskStagesLog(raw);
    FilterIsSubsequence(raw, PassesMasks);
    FilterMembers(raw, PassesMasks);
  }

  /** After all seven row-dropping stages the rows additionally carry no
      duplicates, and the audit log still accounts for every dropped row. */
  lemma FilterStagesFacts(raw: seq<Row>)
    ensures var f := FilterStages(raw);
            && IsSubsequence(f.rows, raw)
            && NoDuplicates(f.rows)
            && (forall i :: 0 <= i < |f.rows| ==> PassesMasks(f.rows[i]))
            && TotalRemoved(f.log) == |raw| - |f.rows|
            && StepsOf(f.log) == StageOrder[..7]
            && (forall i :: 0 <= i < |f.rows| ==> OutlierMask(MaskStages(raw).rows)(f.rows[i]))
  {
    MaskStagesFacts(raw);
    LaterStagesRows(raw, MaskStages(raw));
    LaterStagesLog(raw, MaskStages(raw));
    LaterStagesFenced(MaskStages(raw));
  }

  /** Every row left after duplicate removal lies within the two outlier
      fences of the outlier stage's input. */
  lemma LaterStagesFenced(s5: Stage<Row>)
    ensures var s7 := RemoveDuplicatesStage(RemoveOutliersStage(s5));
            forall i :: 0 <= i < |s7.rows| ==> OutlierMask(s5.rows)(s7.rows[i])
  {
    var s6 := RemoveOutliersStage(s5);
    RemoveOutliersExact(s5);
    FilterMembers(s5.rows, OutlierMask(s5.rows));
    assert forall i :: 0 <= i < |s6.rows| ==> OutlierMask(s5.rows)(s6.rows[i]) by {
      forall i | 0 <= i < |s6.rows|
        ensures OutlierMask(s5.rows)(s6.rows[i])
      {
        assert s6.rows[i] in s6.rows;
      }
    }
    RemoveDuplicatesSpec(s6);
    SubsequencePreserves(RemoveDuplicatesStage(s6).rows, s6.rows, OutlierMask(s5.rows));
  }

  /** Outlier and duplicate removal keep the rows an order-preserving
      selection of passing rows, and leave no duplicates. */
  lemma LaterStagesRows(raw: seq<Row>, s5: Stage<Row>)
    requires IsSubsequence(s5.rows, raw)
    requires forall i :: 0 <= i < |s5.rows| ==> PassesMasks(s5.rows[i])
    ensures var s7 := RemoveDuplicatesStage(RemoveOutliersStage(s5));
            && IsSubsequence(s7.rows, raw)
            && NoDuplicates(s7.rows)
            && (forall i :: 0 <= i < |s7.rows| ==> PassesMasks(s7.rows[i]))
  {
    var s6 := RemoveOutliersStage(s5);
    var s7 := RemoveDuplicatesStage(s6);
    RemoveOutliersSpec(s5);
    RemoveDuplicatesSpec(s6);
    SubsequenceTrans(s7.rows, s6.rows, s5.rows);
    SubsequenceTrans(s7.rows, s5.rows, raw);
    SubsequencePreserves(s7.rows, s5.rows, PassesMasks);
  }

  /** Outlier and duplicate removal each append one entry whose count is the
      rows they removed. */
  lemma LaterStagesLog(raw: seq<Row>, s5: Stage<Row>)
    requires TotalRemoved(s5.log) == |raw| - |s5.rows|
    requires StepsOf(s5.log) == StageOrder[..5]
    ensures var s7 := RemoveDuplicatesStage(RemoveOutliersStage(s5));
            && TotalRemoved(s7.log) == |raw| - |s7.rows|
            && StepsOf(s7.log) == StageOrder[..7]
  {
    var s6 := RemoveOutliersStage(s5);
    var s7 := RemoveDuplicatesStage(s6);
    TotalRemovedSnoc(s5.log, s6.log[|s5.log|]);
    TotalRemovedSnoc(s6.log, s7.log[|s6.log|]);
  }

  /** A row property holding of every row holds of every row of a
      subsequence. */
  lemma SubsequencePreserves(a: seq<Row>, b: seq<Row>, p: Row -> bool)
    requires IsSubsequence(a, b)
    requires forall i :: 0 <= i < |b| ==> p(b[i])
    ensures forall i :: 0 <= i < |a| ==> p(a[i])
  {
    SubsequenceMembers(a, b);
    forall i | 0 <= i < |a|
      ensures p(a[i])
    {
      assert a[i] in b;
    }
  }
}
