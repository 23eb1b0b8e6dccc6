/** `FeatureEngineer`: from the cleaned transaction table to one record per
    customer with Recency, Frequency, Monetary, AvgOrderValue, ActiveMonths
    and the churn label, plus the counts of `feature_metadata.json`. */
module Features {
  import opened Wrappers
  import opened Seqs
  import Calendar
  import opened Cleaning

  /** The default of `define_churn(churn_threshold_days=90)`. */
  const DefaultChurnThreshold: int := 90

  /** The `churn_definition` text, fixed whatever threshold was used. */
  const ChurnDefinition: string := "Customer inactive for more than 90 days"

  /* ---------------------------------------------------------------------- */
  /* Columns                                                                 */
  /* ---------------------------------------------------------------------- */

  function CustomerKey(r: CleanRow): int
  {
    r.customerId
  }

  function InvoiceKey(r: CleanRow): string
  {
    r.invoiceNo
  }

  function TotalPriceOf(r: CleanRow): real
  {
    r.totalPrice
  }

  function CustomerIds(rows: seq<CleanRow>): (c: seq<int>)
    ensures |c| == |rows|
  {
    seq(|rows|, i requires 0 <= i < |rows| => rows[i].customerId)
  }

  function InvoiceDates(rows: seq<CleanRow>): (c: seq<int>)
    ensures |c| == |rows|
  {
    seq(|rows|, i requires 0 <= i < |rows| => rows[i].invoiceDate)
  }

  function InvoiceNos(rows: seq<CleanRow>): (c: seq<string>)
    ensures |c| == |rows|
  {
    seq(|rows|, i requires 0 <= i < |rows| => rows[i].invoiceNo)
  }

  /** `InvoiceDate.dt.to_period("M")` of every row. */
  function YearMonths(rows: seq<CleanRow>): (c: seq<(int, int)>)
    ensures |c| == |rows|
  {
    seq(|rows|, i requires 0 <= i < |rows| => Calendar.YearMonth(rows[i].invoiceDate))
  }

  /* ---------------------------------------------------------------------- */
  /* Reference date                                                          */
  /* ---------------------------------------------------------------------- */

  /** `create_reference_date`: the latest InvoiceDate of the table, missing
      (NaT) for an empty table. */
  function ReferenceDate(rows: seq<CleanRow>): (d: Option<int>)
    ensures d.None? <==> |rows| == 0
    ensures d.Some? ==> exists i :: 0 <= i < |rows| && rows[i].invoiceDate == d.value
    ensures d.Some? ==> forall i :: 0 <= i < |rows| ==> rows[i].invoiceDate <= d.value
  {
    if |rows| == 0 then None
    else
      var dates := InvoiceDates(rows);
      var m := Max(dates);
      assert forall i :: 0 <= i < |rows| ==> dates[i] == rows[i].invoiceDate;
      Some(m)
  }

  /** `reference_date + timedelta(days=1)` */
  function Snapshot(reference: int): int
  {
    reference + Calendar.SecondsPerDay
  }

  /* ---------------------------------------------------------------------- */
  /* Per-customer aggregates                                                 */
  /* ---------------------------------------------------------------------- */

  /** The rows of one customer: the group `groupby("CustomerID")` forms for it. */
  function CustomerRows(rows: seq<CleanRow>, c: int): seq<CleanRow>
  {
    Filter(rows, KeyIs(CustomerKey, c))
  }

  /** The group of a customer holds every row of that customer and nothing
      else, as many rows as the customer has; a customer that occurs in the
      table has at least one. */
  lemma CustomerRowsSpec(rows: seq<CleanRow>, c: int)
    ensures forall i :: 0 <= i < |CustomerRows(rows, c)| ==> CustomerRows(rows, c)[i].customerId == c
    ensures forall i :: 0 <= i < |rows| && rows[i].customerId == c ==> rows[i] in CustomerRows(rows, c)
    ensures |CustomerRows(rows, c)| == Count(rows, KeyIs(CustomerKey, c))
    ensures c in CustomerIds(rows) ==> |CustomerRows(rows, c)| > 0
  {
    FilterCount(rows, KeyIs(CustomerKey, c));
    forall i | 0 <= i < |rows| && rows[i].customerId == c
      ensures rows[i] in CustomerRows(rows, c)
    {
      assert KeyIs(CustomerKey, c)(rows[i]) by {
        assert CustomerKey(rows[i]) == rows[i].customerId;
      }
      FilterMembers(rows, KeyIs(CustomerKey, c));
    }
    var own := CustomerRows(rows, c);
    forall i | 0 <= i < |own|
      ensures own[i].customerId == c
    {
      assert KeyIs(CustomerKey, c)(own[i]);
      assert CustomerKey(own[i]) == own[i].customerId;
    }
    FilterMembers(rows, KeyIs(CustomerKey, c));
    if c in CustomerIds(rows) {
      var i :| 0 <= i < |rows| && CustomerIds(rows)[i] == c;
      assert CustomerKey(rows[i]) == c;
      assert rows[i] in own;
    }
  }

  /** `(snapshot_date - x.max()).days`: whole days, rounded down, from the
      customer's last purchase to the snapshot. */
  function Recency(snapshot: int, lastPurchase: int): (days: int)
    ensures days * Calendar.SecondsPerDay <= snapshot - lastPurchase < (days + 1) * Calendar.SecondsPerDay
  {
    (snapshot - lastPurchase) / Calendar.SecondsPerDay
  }

  /** The latest InvoiceDate among a customer's rows. */
  function LastPurchase(own: seq<CleanRow>): (t: int)
    requires |own| > 0
    ensures exists i :: 0 <= i < |own| && own[i].invoiceDate == t
    ensures forall i :: 0 <= i < |own| ==> own[i].invoiceDate <= t
  {
    var dates := InvoiceDates(own);
    assert forall i :: 0 <= i < |own| ==> dates[i] == own[i].invoiceDate;
    Max(dates)
  }

  /** `InvoiceNo.nunique()` */
  function Frequency(own: seq<CleanRow>): nat
  {
    |Dedup(InvoiceNos(own))|
  }

  /** `TotalPrice.sum()` */
  function Monetary(own: seq<CleanRow>): real
  {
    Sum(own, TotalPriceOf)
  }

  /** Mean over the customer's invoices of the per-invoice TotalPrice sums:
      `groupby(["CustomerID", "InvoiceNo"]).sum()` then the mean per customer. */
  function AvgOrderValue(own: seq<CleanRow>): real
    requires |own| > 0
  {
    var invoices := Dedup(InvoiceNos(own));
    DedupNonEmpty(InvoiceNos(own));
    GroupSum(own, InvoiceKey, invoices, TotalPriceOf) / (|invoices| as real)
  }

  /** `x.dt.to_period("M").nunique()` */
  function ActiveMonths(own: seq<CleanRow>): nat
  {
    |Dedup(YearMonths(own))|
  }

  /** Frequency counts the customer's distinct invoices; a customer with a
      row has at least one. */
  lemma FrequencySpec(own: seq<CleanRow>)
    requires |own| > 0
    ensures Frequency(own) == |Elements(InvoiceNos(own))|
    ensures Frequency(own) >= 1
  {
    DedupCard(InvoiceNos(own));
    DedupNonEmpty(InvoiceNos(own));
  }

  /** ActiveMonths counts the distinct calendar months of the customer's
      purchases; a customer with a row has at least one. */
  lemma ActiveMonthsSpec(own: seq<CleanRow>)
    requires |own| > 0
    ensures ActiveMonths(own) == |Elements(YearMonths(own))|
    ensures ActiveMonths(own) >= 1
  {
    DedupCard(YearMonths(own));
    DedupNonEmpty(YearMonths(own));
  }

  /** The average order value is the customer's total spending divided by
      the number of orders: the per-invoice sums partition the customer's
      rows. */
  lemma AvgOrderValueSpec(own: seq<CleanRow>)
    requires |own| > 0
    ensures Frequency(own) > 0
    ensures AvgOrderValue(own) == Monetary(own) / (Frequency(own) as real)
  {
    var invoices := Dedup(InvoiceNos(own));
    DedupNonEmpty(InvoiceNos(own));
    InvoicesCoverRows(own);
    var key: CleanRow -> string := InvoiceKey;
    assert forall i :: 0 <= i < |own| ==> key(own[i]) in invoices by {
      forall i | 0 <= i < |own| ensures key(own[i]) in invoices {
        assert key(own[i]) == InvoiceKey(own[i]);
      }
    }
    GroupSumTotal(own, key, invoices, TotalPriceOf);
  }

  /** Average order value times Frequency is Monetary. */
  lemma AvgOrderValueTimesFrequency(own: seq<CleanRow>)
    requires |own| > 0
    ensures AvgOrderValue(own) * (Frequency(own) as real) == Monetary(own)
  {
    AvgOrderValueSpec(own);
    MultiplyBack(Monetary(own), Frequency(own) as real, AvgOrderValue(own));
  }

  lemma MultiplyBack(total: real, n: real, q: real)
    requires n > 0.0 && q == total / n
    ensures q * n == total
  {
  }

  /** The invoice list of a customer is duplicate-free and holds the invoice
      of every one of its rows. */
  lemma InvoicesCoverRows(own: seq<CleanRow>)
    ensures NoDuplicates(Dedup(InvoiceNos(own)))
    ensures forall i :: 0 <= i < |own| ==> InvoiceKey(own[i]) in Dedup(InvoiceNos(own))
  {
    var nos := InvoiceNos(own);
    DedupSpec(nos);
    forall i | 0 <= i < |own|
      ensures InvoiceKey(own[i]) in Dedup(nos)
    {
      assert nos[i] in Elements(nos);
      assert nos[i] in Elements(Dedup(nos));
    }
  }


  /** The last purchase lies no later than the reference date, so the
      snapshot one day later gives every customer a Recency of at least one. */
  lemma RecencyAtLeastOne(rows: seq<CleanRow>, c: int)
    requires |rows| > 0 && c in CustomerIds(rows)
    ensures |CustomerRows(rows, c)| > 0
    ensures Recency(Snapshot(ReferenceDate(rows).value), LastPurchase(CustomerRows(rows, c))) >= 1
  {
    CustomerRowsSpec(rows, c);
    var own := CustomerRows(rows, c);
    var last := LastPurchase(own);
    FilterMembers(rows, KeyIs(CustomerKey, c));
    var i :| 0 <= i < |own| && own[i].invoiceDate == last;
    assert own[i] in rows;
  }

  /** A customer whose last purchase was `d` whole days before the reference
      date gets a Recency of `d + 1`. */
  lemma RecencyOfDaysBefore(reference: int, d: int)
    ensures Recency(Snapshot(reference), reference - d * Calendar.SecondsPerDay) == d + 1
  {
    var r := Recency(Snapshot(reference), reference - d * Calendar.SecondsPerDay);
    assert Snapshot(reference) - (reference - d * Calendar.SecondsPerDay) == (d + 1) * Calendar.SecondsPerDay;
  }

  /** The timestamp of midnight at the start of a calendar date. */
  function Midnight(d: Calendar.Date): int
    requires Calendar.ValidDate(d)
  {
    Calendar.SecondsPerDay * Calendar.DayNumber(d)
  }

  /** A customer who bought on 2011-01-15 and 2011-03-02, seen from a
      snapshot of 2011-06-01: 91 days of Recency, two active months, and
      churned at the default threshold. */
  lemma TwoPurchasesExample(own: seq<CleanRow>)
    requires |own| == 2
    requires own[0].invoiceDate == Midnight(Calendar.Date(2011, 1, 15))
    requires own[1].invoiceDate == Midnight(Calendar.Date(2011, 3, 2))
    ensures Recency(Midnight(Calendar.Date(2011, 6, 1)), LastPurchase(own)) == 91
    ensures ActiveMonths(own) == 2
    ensures Recency(Midnight(Calendar.Date(2011, 6, 1)), LastPurchase(own)) > DefaultChurnThreshold
  {
    var jan, mar, jun := Calendar.Date(2011, 1, 15), Calendar.Date(2011, 3, 2), Calendar.Date(2011, 6, 1);
    ExampleDays();
    ExampleLastPurchase(own);
    ExampleMonths(own);
    assert Midnight(jun) - Midnight(mar) == 91 * Calendar.SecondsPerDay;
  }

  /** Day numbers of the example dates relative to one another. */
  lemma ExampleDays()
    ensures Calendar.DayNumber(Calendar.Date(2011, 3, 2)) == Calendar.DayNumber(Calendar.Date(2011, 1, 15)) + 46
    ensures Calendar.DayNumber(Calendar.Date(2011, 6, 1)) == Calendar.DayNumber(Calendar.Date(2011, 3, 2)) + 91
  {
  }

  lemma ExampleLastPurchase(own: seq<CleanRow>)
    requires |own| == 2
    requires own[0].invoiceDate == Midnight(Calendar.Date(2011, 1, 15))
    requires own[1].invoiceDate == Midnight(Calendar.Date(2011, 3, 2))
    ensures LastPurchase(own) == Midnight(Calendar.Date(2011, 3, 2))
  {
    ExampleDays();
  }

  lemma ExampleMonths(own: seq<CleanRow>)
    requires |own| == 2
    requires own[0].invoiceDate == Midnight(Calendar.Date(2011, 1, 15))
    requires own[1].invoiceDate == Midnight(Calendar.Date(2011, 3, 2))
    ensures ActiveMonths(own) == 2
  {
    MidnightMonth(Calendar.Date(2011, 1, 15));
    MidnightMonth(Calendar.Date(2011, 3, 2));
    PurchasesInTwoMonths(own);
  }

  /** A customer with two purchases has two active months when they fall in
      different calendar months, and one when they share a month, whatever
      the time of day. */
  lemma PurchasesInTwoMonths(own: seq<CleanRow>)
    requires |own| == 2
    ensures Calendar.YearMonth(own[0].invoiceDate) != Calendar.YearMonth(own[1].invoiceDate) ==> ActiveMonths(own) == 2
    ensures Calendar.YearMonth(own[0].invoiceDate) == Calendar.YearMonth(own[1].invoiceDate) ==> ActiveMonths(own) == 1
  {
    var m1, m2 := Calendar.YearMonth(own[0].invoiceDate), Calendar.YearMonth(own[1].invoiceDate);
    var months := YearMonths(own);
    assert months == [m1, m2];
    assert months[..1] == [m1];
    assert Dedup([m1]) == [m1];
    if m1 != m2 {
      assert Dedup(months) == [m1, m2];
    } else {
      assert Dedup(months) == [m1];
    }
  }

  /** The calendar month of midnight on a date is that date's month. */
  lemma MidnightMonth(d: Calendar.Date)
    requires Calendar.ValidDate(d)
    ensures Calendar.YearMonth(Midnight(d)) == (d.year, d.month)
  {
    assert Calendar.EpochDay(Midnight(d)) == Calendar.DayNumber(d);
    Calendar.DateOfDayNumber(d);
  }

  /* ---------------------------------------------------------------------- */
  /* Per-customer tables and the inner joins                                 */
  /* ---------------------------------------------------------------------- */

  /** A row of a table indexed by CustomerID. */
  datatype Keyed<V> = Keyed(key: int, value: V)

  function Keys<V>(t: seq<Keyed<V>>): (k: seq<int>)
    ensures |k| == |t|
  {
    seq(|t|, i requires 0 <= i < |t| => t[i].key)
  }

  /** The values of the rows of `t` under key `k`, in table order. */
  function Matches<V>(t: seq<Keyed<V>>, k: int): seq<V>
    decreases |t|
  {
    if |t| == 0 then []
    else Matches(t[..|t| - 1], k) + (if t[|t| - 1].key == k then [t[|t| - 1].value] else [])
  }

  /** `left.merge(right, on="CustomerID")` (an inner join): every left row
      is paired with every right row of the same key, in left order. */
  function Merge<A, B>(left: seq<Keyed<A>>, right: seq<Keyed<B>>): seq<Keyed<(A, B)>>
    decreases |left|
  {
    if |left| == 0 then []
    else
      var k, a := left[|left| - 1].key, left[|left| - 1].value;
      var m := Matches(right, k);
      Merge(left[..|left| - 1], right)
        + seq(|m|, j requires 0 <= j < |m| => Keyed(k, (a, m[j])))
  }

  /** In a table whose keys are distinct, the key of row `j` matches that
      row alone. */
  lemma {:induction false} MatchesUnique<V>(t: seq<Keyed<V>>, j: int)
    requires 0 <= j < |t|
    requires NoDuplicates(Keys(t))
    ensures Matches(t, t[j].key) == [t[j].value]
    decreases |t|
  {
    var init := t[..|t| - 1];
    assert NoDuplicates(Keys(init)) by {
      assert forall i :: 0 <= i < |init| ==> Keys(init)[i] == Keys(t)[i];
    }
    if j < |t| - 1 {
      MatchesUnique(init, j);
      assert t[|t| - 1].key != t[j].key by {
        assert Keys(t)[j] != Keys(t)[|t| - 1];
      }
    } else {
      forall i | 0 <= i < |init|
        ensures init[i].key != t[j].key
      {
        assert Keys(t)[i] != Keys(t)[j];
      }
      MatchesAbsent(init, t[j].key);
    }
  }

  /** A key the table does not hold matches nothing. */
  lemma {:induction false} MatchesAbsent<V>(t: seq<Keyed<V>>, k: int)
    requires forall i :: 0 <= i < |t| ==> t[i].key != k
    ensures Matches(t, k) == []
    decreases |t|
  {
    if |t| > 0 {
      MatchesAbsent(t[..|t| - 1], k);
    }
  }

  /** When both tables list the same distinct keys in the same order, the
      inner join neither drops nor duplicates a key: row `i` of the result
      pairs row `i` of each side. */
  lemma {:induction false} MergeAligned<A, B>(left: seq<Keyed<A>>, right: seq<Keyed<B>>)
    requires Keys(left) == Keys(right)
    requires NoDuplicates(Keys(right))
    ensures |Merge(left, right)| == |left|
    ensures forall i :: 0 <= i < |left| ==>
              Merge(left, right)[i] == Keyed(left[i].key, (left[i].value, right[i].value))
  {
    MergePrefix(left, right, |left|);
    assert left[..|left|] == left;
  }

  /** `MergeAligned` for the first `n` left rows against the whole right table. */
  lemma {:induction false} MergePrefix<A, B>(left: seq<Keyed<A>>, right: seq<Keyed<B>>, n: nat)
    requires n <= |left|
    requires Keys(left) == Keys(right)
    requires NoDuplicates(Keys(right))
    ensures |Merge(left[..n], right)| == n
    ensures forall i :: 0 <= i < n ==>
              Merge(left[..n], right)[i] == Keyed(left[i].key, (left[i].value, right[i].value))
    decreases n
  {
    if n > 0 {
      MergePrefix(left, right, n - 1);
      var l := left[..n];
      assert l[..n - 1] == left[..n - 1];
      assert left[n - 1].key == Keys(left)[n - 1] == Keys(right)[n - 1] == right[n - 1].key;
      MatchesUnique(right, n - 1);
    }
  }

  /* ---------------------------------------------------------------------- */
  /* The customer table                                                      */
  /* ---------------------------------------------------------------------- */

  datatype RfmValues = RfmValues(recency: int, frequency: nat, monetary: real)

  /** One row of `customer_df` before the churn label. */
  datatype CustomerFeatures = CustomerFeatures(
    customerId: int,
    recency: int,
    frequency: nat,
    monetary: real,
    avgOrderValue: real,
    activeMonths: nat)

  /** The row keys every `groupby("CustomerID")` here produces: the distinct
      CustomerIDs in ascending order. */
  function CustomerKeys(rows: seq<CleanRow>): seq<int>
  {
    SortedKeys(CustomerIds(rows))
  }

  /** A customer key occurs in the table, so its group is not empty. */
  lemma CustomerKeyPresent(rows: seq<CleanRow>, i: int)
    requires 0 <= i < |CustomerKeys(rows)|
    ensures |CustomerRows(rows, CustomerKeys(rows)[i])| > 0
  {
    SortedKeysSpec(CustomerIds(rows));
    assert CustomerKeys(rows)[i] in CustomerKeys(rows);
    CustomerRowsSpec(rows, CustomerKeys(rows)[i]);
  }

  /** `create_rfm_features` */
  function RfmTable(rows: seq<CleanRow>, snapshot: int): (t: seq<Keyed<RfmValues>>)
    ensures Keys(t) == CustomerKeys(rows)
  {
    var keys := CustomerKeys(rows);
    seq(|keys|, i requires 0 <= i < |keys| =>
      CustomerKeyPresent(rows, i);
      var own := CustomerRows(rows, keys[i]);
      Keyed(keys[i], RfmValues(Recency(snapshot, LastPurchase(own)), Frequency(own), Monetary(own))))
  }

  /** The `aov` table of `create_additional_features`. */
  function AovTable(rows: seq<CleanRow>): (t: seq<Keyed<real>>)
    ensures Keys(t) == CustomerKeys(rows)
  {
    var keys := CustomerKeys(rows);
    seq(|keys|, i requires 0 <= i < |keys| =>
      CustomerKeyPresent(rows, i);
      Keyed(keys[i], AvgOrderValue(CustomerRows(rows, keys[i]))))
  }

  /** The `active_months` table of `create_additional_features`. */
  function ActiveMonthsTable(rows: seq<CleanRow>): (t: seq<Keyed<nat>>)
    ensures Keys(t) == CustomerKeys(rows)
  {
    var keys := CustomerKeys(rows);
    seq(|keys|, i requires 0 <= i < |keys| => Keyed(keys[i], ActiveMonths(CustomerRows(rows, keys[i]))))
  }

  function Flatten(r: Keyed<((RfmValues, real), nat)>): CustomerFeatures
  {
    var ((rfm, aov), months) := r.value;
    CustomerFeatures(r.key, rfm.recency, rfm.frequency, rfm.monetary, aov, months)
  }

  /** `create_rfm_features` then `create_additional_features`: the RFM table
      merged with the average order values and then with the active months. */
  function CustomerTable(rows: seq<CleanRow>, snapshot: int): seq<CustomerFeatures>
  {
    var joined := Merge(Merge(RfmTable(rows, snapshot), AovTable(rows)), ActiveMonthsTable(rows));
    seq(|joined|, i requires 0 <= i < |joined| => Flatten(joined[i]))
  }

  /** `f` is the record of customer `f.customerId`: its aggregates over
      exactly that customer's rows, Recency counted back from `snapshot`. */
  ghost predicate Describes(f: CustomerFeatures, rows: seq<CleanRow>, snapshot: int)
  {
    var own := CustomerRows(rows, f.customerId);
    && |own| > 0
    && f.recency == Recency(snapshot, LastPurchase(own))
    && f.frequency == Frequency(own)
    && f.monetary == Monetary(own)
    && f.avgOrderValue == AvgOrderValue(own)
    && f.activeMonths == ActiveMonths(own)
  }

  /** The group keys are the distinct CustomerIDs of the table, ascending and
      each once. */
  lemma CustomerKeysSpec(rows: seq<CleanRow>)
    ensures StrictlyIncreasing(CustomerKeys(rows))
    ensures forall c :: c in CustomerKeys(rows) <==> c in CustomerIds(rows)
    ensures |CustomerKeys(rows)| == |Elements(CustomerIds(rows))|
  {
    var keys := CustomerKeys(rows);
    SortedKeysSpec(CustomerIds(rows));
    StrictlyIncreasingNoDuplicates(keys);
    NoDuplicatesCard(keys);
    assert Elements(keys) == Elements(CustomerIds(rows));
  }

  /** The two inner joins neither lose nor repeat a customer: record `i` of
      the customer table is that of the `i`-th group key and describes that
      customer's rows. */
  lemma CustomerTableSpec(rows: seq<CleanRow>, snapshot: int)
    ensures |CustomerTable(rows, snapshot)| == |CustomerKeys(rows)|
    ensures forall i :: 0 <= i < |CustomerTable(rows, snapshot)| ==>
              && CustomerTable(rows, snapshot)[i].customerId == CustomerKeys(rows)[i]
              && Describes(CustomerTable(rows, snapshot)[i], rows, snapshot)
  {
    var keys := CustomerKeys(rows);
    var rfm, aov, months := RfmTable(rows, snapshot), AovTable(rows), ActiveMonthsTable(rows);
    SortedKeysSpec(CustomerIds(rows));
    StrictlyIncreasingNoDuplicates(keys);
    MergeAligned(rfm, aov);
    var first := Merge(rfm, aov);
    assert Keys(first) == keys by {
      forall i | 0 <= i < |first|
        ensures Keys(first)[i] == keys[i]
      {
        assert Keys(rfm)[i] == keys[i];
      }
    }
    MergeAligned(first, months);
    var joined := Merge(first, months);
    var t := CustomerTable(rows, snapshot);
    forall i | 0 <= i < |t|
      ensures t[i].customerId == keys[i] && Describes(t[i], rows, snapshot)
    {
      CustomerKeyPresent(rows, i);
      assert Keys(rfm)[i] == keys[i];
      assert t[i] == Flatten(joined[i]);
      assert joined[i] == Keyed(first[i].key, (first[i].value, months[i].value));
      assert first[i] == Keyed(rfm[i].key, (rfm[i].value, aov[i].value));
    }
  }

  /* ---------------------------------------------------------------------- */
  /* Churn label                                                             */
  /* ---------------------------------------------------------------------- */

  /** A customer record with its `Churn` column. */
  datatype LabeledCustomer = LabeledCustomer(features: CustomerFeatures, churn: int)

  predicate IsChurned(c: LabeledCustomer)
  {
    c.churn == 1
  }

  /** Every label is 0 or 1. */
  predicate ValidLabels(t: seq<LabeledCustomer>)
  {
    forall i :: 0 <= i < |t| ==> t[i].churn == 0 || t[i].churn == 1
  }

  /** `define_churn`: `(Recency > churn_threshold_days).astype(int)` */
  function DefineChurn(table: seq<CustomerFeatures>, threshold: int): (r: seq<LabeledCustomer>)
    ensures |r| == |table|
  {
    seq(|table|, i requires 0 <= i < |table| =>
      LabeledCustomer(table[i], if table[i].recency > threshold then 1 else 0))
  }

  /** The label keeps every record as it was, is 0 or 1, and is 1 exactly for
      the customers whose Recency exceeds the threshold. */
  lemma DefineChurnSpec(table: seq<CustomerFeatures>, threshold: int)
    ensures ValidLabels(DefineChurn(table, threshold))
    ensures forall i :: 0 <= i < |table| ==>
              && DefineChurn(table, threshold)[i].features == table[i]
              && (IsChurned(DefineChurn(table, threshold)[i]) <==> table[i].recency > threshold)
  {
  }

  /** Raising the threshold never labels more customers as churned. */
  lemma ChurnThresholdMonotone(table: seq<CustomerFeatures>, threshold: int, threshold': int)
    requires threshold <= threshold'
    ensures Count(DefineChurn(table, threshold'), IsChurned) <= Count(DefineChurn(table, threshold), IsChurned)
  {
    CountPointwise(DefineChurn(table, threshold'), IsChurned, DefineChurn(table, threshold), IsChurned);
  }

  /** Recency is counted from the day after the reference date, so at the
      default threshold a customer whose last purchase was exactly 90 days
      before the reference date is already churned, and one 89 days before
      is not. */
  lemma ChurnAtNinetyDays(reference: int)
    ensures Recency(Snapshot(reference), reference - 90 * Calendar.SecondsPerDay) > DefaultChurnThreshold
    ensures Recency(Snapshot(reference), reference - 89 * Calendar.SecondsPerDay) <= DefaultChurnThreshold
  {
    RecencyOfDaysBefore(reference, 90);
    RecencyOfDaysBefore(reference, 89);
  }

  /* ---------------------------------------------------------------------- */
  /* Churn rate and metadata                                                 */
  /* ---------------------------------------------------------------------- */

  function ChurnValue(c: LabeledCustomer): real
  {
    c.churn as real
  }

  /** `Churn.mean() * 100` (before rounding); the mean of an empty column is
      NaN. */
  function ChurnRate(t: seq<LabeledCustomer>): (rate: Option<real>)
    ensures rate.None? <==> |t| == 0
  {
    if |t| == 0 then None else Some(Sum(t, ChurnValue) / (|t| as real) * 100.0)
  }

  /** Adding up 0/1 labels counts the churned customers. */
  lemma {:induction false} ChurnSumCounts(t: seq<LabeledCustomer>)
    requires ValidLabels(t)
    ensures Sum(t, ChurnValue) == Count(t, IsChurned) as real
    decreases |t|
  {
    if |t| > 0 {
      var init := t[..|t| - 1];
      assert forall i :: 0 <= i < |init| ==> init[i] == t[i];
      ChurnSumCounts(init);
    }
  }

  /** A percentage of `part` out of `whole`, for `0 <= part <= whole`. */
  lemma PercentBounds(part: real, whole: real)
    requires 0.0 <= part <= whole && 0.0 < whole
    ensures 0.0 <= part / whole * 100.0 <= 100.0
    ensures part / whole * 100.0 == 0.0 <==> part == 0.0
    ensures part / whole * 100.0 == 100.0 <==> part == whole
  {
    var q := part / whole;
    assert q * whole == part;
    FractionBounds(part, whole, q);
  }

  /** The ratio `q` of `part` to `whole` lies in the unit interval and
      reaches its ends only at the ends of `part`'s range. */
  lemma FractionBounds(part: real, whole: real, q: real)
    requires 0.0 <= part <= whole && 0.0 < whole
    requires q * whole == part
    ensures 0.0 <= q <= 1.0
    ensures q == 0.0 <==> part == 0.0
    ensures q == 1.0 <==> part == whole
  {
    if part == whole {
      assert (q - 1.0) * whole == 0.0;
    }
  }

  /** The churn rate is the percentage of churned customers: between 0 and
      100, 0 exactly when nobody churned and 100 exactly when everybody did. */
  lemma ChurnRateSpec(t: seq<LabeledCustomer>)
    requires ValidLabels(t) && |t| > 0
    ensures ChurnRate(t).value == (Count(t, IsChurned) as real) / (|t| as real) * 100.0
    ensures 0.0 <= ChurnRate(t).value <= 100.0
    ensures ChurnRate(t).value == 0.0 <==> forall i :: 0 <= i < |t| ==> !IsChurned(t[i])
    ensures ChurnRate(t).value == 100.0 <==> forall i :: 0 <= i < |t| ==> IsChurned(t[i])
  {
    ChurnSumCounts(t);
    CountExtremes(t, IsChurned);
    PercentBounds(Count(t, IsChurned) as real, |t| as real);
  }

  /** The counts and labels `save_outputs` writes to `feature_metadata.json`. */
  datatype FeatureMetadata = FeatureMetadata(
    totalCustomers: nat,
    churnRatePercentage: Option<real>,
    churnDefinition: string,
    referenceDate: Option<Calendar.Date>)

  /** `feature_metadata`: the record count, the churn rate, the fixed churn
      definition and the calendar date of the reference timestamp (`NaT` for
      an empty table). */
  function Metadata(t: seq<LabeledCustomer>, reference: Option<int>): (m: FeatureMetadata)
    ensures m.totalCustomers == |t|
    ensures m.churnRatePercentage.None? <==> |t| == 0
    ensures m.churnDefinition == ChurnDefinition
    ensures m.referenceDate.None? <==> reference.None?
    ensures m.referenceDate.Some? ==>
              && Calendar.ValidDate(m.referenceDate.value)
              && Calendar.SecondsPerDay * Calendar.DayNumber(m.referenceDate.value) <= reference.value
              && reference.value < Calendar.SecondsPerDay * (Calendar.DayNumber(m.referenceDate.value) + 1)
  {
    if reference.None? then FeatureMetadata(|t|, ChurnRate(t), ChurnDefinition, None)
    else
      Calendar.TimestampInItsDay(reference.value);
      FeatureMetadata(|t|, ChurnRate(t), ChurnDefinition, Some(Calendar.DateOfTimestamp(reference.value)))
  }

  /* ---------------------------------------------------------------------- */
  /* The feature pipeline                                                    */
  /* ---------------------------------------------------------------------- */

  /** What `run_pipeline` leaves behind: the labelled customer table and its
      metadata. */
  datatype FeatureRun = FeatureRun(customers: seq<LabeledCustomer>, metadata: FeatureMetadata)

  function RecordIds(t: seq<LabeledCustomer>): (ids: seq<int>)
    ensures |ids| == |t|
  {
    seq(|t|, i requires 0 <= i < |t| => t[i].features.customerId)
  }

  /** `run_pipeline` after `load_data`, with the default threshold. An empty
      table has no reference date; no group then needs a snapshot. */
  function RunFeatures(rows: seq<CleanRow>): (out: FeatureRun)
    ensures out.metadata.totalCustomers == |out.customers|
    ensures out.metadata.churnDefinition == ChurnDefinition
    ensures out.metadata.referenceDate.None? <==> |rows| == 0
    ensures |rows| > 0 ==>
              out.metadata.referenceDate == Some(Calendar.DateOfTimestamp(ReferenceDate(rows).value))
  {
    var reference := ReferenceDate(rows);
    var snapshot := if reference.Some? then Snapshot(reference.value) else 0;
    var customers := DefineChurn(CustomerTable(rows, snapshot), DefaultChurnThreshold);
    FeatureRun(customers, Metadata(customers, reference))
  }

  /** One labelled record per distinct customer, in ascending CustomerID
      order, each describing that customer's rows with Recency at least one
      and churned exactly when Recency exceeds 90. */
  lemma RunFeaturesCustomers(rows: seq<CleanRow>)
    ensures |RunFeatures(rows).customers| == |Elements(CustomerIds(rows))|
    ensures StrictlyIncreasing(RecordIds(RunFeatures(rows).customers))
    ensures ValidLabels(RunFeatures(rows).customers)
    ensures forall c :: c in RecordIds(RunFeatures(rows).customers) <==> c in CustomerIds(rows)
    ensures |rows| > 0 ==> forall i :: 0 <= i < |RunFeatures(rows).customers| ==>
              var r := RunFeatures(rows).customers[i];
              && Describes(r.features, rows, Snapshot(ReferenceDate(rows).value))
              && r.features.recency >= 1
              && (IsChurned(r) <==> r.features.recency > DefaultChurnThreshold)
  {
    var reference := ReferenceDate(rows);
    var snapshot := if reference.Some? then Snapshot(reference.value) else 0;
    var table := CustomerTable(rows, snapshot);
    var out := RunFeatures(rows).customers;
    var keys := CustomerKeys(rows);
    CustomerKeysSpec(rows);
    CustomerTableSpec(rows, snapshot);
    DefineChurnSpec(table, DefaultChurnThreshold);
    assert RecordIds(out) == keys by {
      forall i | 0 <= i < |out|
        ensures RecordIds(out)[i] == keys[i]
      {
        assert out[i].features == table[i];
      }
    }
    if |rows| > 0 {
      forall i | 0 <= i < |out|
        ensures out[i].features.recency >= 1
      {
        assert keys[i] in keys;
        RecencyAtLeastOne(rows, keys[i]);
        assert out[i].features == table[i];
      }
    }
  }

  /** The metadata counts the records, and for a non-empty table its churn
      rate is the percentage of churned customers. */
  lemma RunFeaturesMetadata(rows: seq<CleanRow>)
    ensures RunFeatures(rows).metadata.totalCustomers == |RunFeatures(rows).customers|
    ensures RunFeatures(rows).metadata.churnRatePercentage.None? <==> |rows| == 0
    ensures |rows| > 0 ==>
              var t := RunFeatures(rows).customers;
              && RunFeatures(rows).metadata.churnRatePercentage == ChurnRate(t)
              && ChurnRate(t).value == (Count(t, IsChurned) as real) / (|t| as real) * 100.0
              && 0.0 <= ChurnRate(t).value <= 100.0
  {
    var reference := ReferenceDate(rows);
    var snapshot := if reference.Some? then Snapshot(reference.value) else 0;
    var table := CustomerTable(rows, snapshot);
    var t := RunFeatures(rows).customers;
    CustomerKeysSpec(rows);
    CustomerTableSpec(rows, snapshot);
    DefineChurnSpec(table, DefaultChurnThreshold);
    if |rows| > 0 {
      assert CustomerIds(rows)[0] in Elements(CustomerIds(rows));
      ChurnRateSpec(t);
    } else {
      assert Elements(CustomerIds(rows)) == {};
    }
  }
}
