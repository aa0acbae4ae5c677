/** The age-label strategy chain of execute_generation
    (automatic_generation.py:43, 54-80): each requested label is taken from
    the canonical buckets directly, derived from a broad-group ratio table,
    or summed over a contiguous run of canonical buckets; otherwise the run
    aborts. The per-location percentages follow. */
module AgeResolver {
  import opened Wrappers
  import opened Text
  import opened AgeBounds

  /** A row of the primary population table: a count per age column. */
  datatype PopRow = PopRow(location: string, sex: string, counts: map<string, int>)

  /** A row of a ratio table: a percentage per broad age group. */
  datatype RatioRow = RatioRow(location: string, perc: map<string, real>)

  /** The loaded tables: the population table with its canonical bucket
      columns, the broad groups and the female and male ratio tables. */
  datatype Sources = Sources(
    pop: seq<PopRow>,
    ageCats: seq<string>,
    broadGroups: seq<string>,
    femaleRatios: seq<RatioRow>,
    maleRatios: seq<RatioRow>)

  /** A row of res_df: location, sex and one value per resolved label. */
  datatype ResRow = ResRow(location: string, sex: string, values: map<string, real>)

  /** The exception that aborts the run for a label. */
  datatype LabelError = UnresolvableLabel(ageLabel: string) | MalformedLabel(ageLabel: string)

  /** The strategy chosen for a label; the last two abort the run. */
  datatype Strategy = Direct | Ratio | Aggregate(cols: seq<string>) | Unresolvable | MalformedBounds

  predicate Resolvable(s: Strategy) {
    s.Direct? || s.Ratio? || s.Aggregate?
  }

  /** The canonical buckets are columns of every population row. */
  predicate HasCanonicalColumns(src: Sources) {
    forall i, c :: 0 <= i < |src.pop| && c in src.ageCats ==> c in src.pop[i].counts
  }

  function RatioTable(src: Sources, sex: string): seq<RatioRow> {
    if sex == "Female" then src.femaleRatios else src.maleRatios
  }

  function RatioLocations(t: seq<RatioRow>): (r: seq<string>)
    ensures |r| == |t| && forall k :: 0 <= k < |t| ==> r[k] == t[k].location
  {
    seq(|t|, k requires 0 <= k < |t| => t[k].location)
  }

  /** What the ratio path presumes of the tables: every population row is
      Female or Male, its location has a row in the ratio table of its sex,
      and every ratio row holds every broad group. */
  predicate RatiosCover(src: Sources) {
    && (forall i :: 0 <= i < |src.pop| ==> src.pop[i].sex == "Female" || src.pop[i].sex == "Male")
    && (forall i :: 0 <= i < |src.pop| ==>
          src.pop[i].location in RatioLocations(RatioTable(src, src.pop[i].sex)))
    && (forall k, g :: 0 <= k < |src.femaleRatios| && g in src.broadGroups ==> g in src.femaleRatios[k].perc)
    && (forall k, g :: 0 <= k < |src.maleRatios| && g in src.broadGroups ==> g in src.maleRatios[k].perc)
  }

  /** The ratio of a location: explicit join on the first row of that location. */
  function RatioFor(t: seq<RatioRow>, location: string, group: string): real
    requires location in RatioLocations(t)
    requires forall k :: 0 <= k < |t| ==> group in t[k].perc
  {
    t[IndexOf(RatioLocations(t), location)].perc[group]
  }

  /** The join reads the first ratio row of the location, never a later one. */
  lemma RatioForIsFirst(t: seq<RatioRow>, location: string, group: string)
    requires location in RatioLocations(t)
    requires forall k :: 0 <= k < |t| ==> group in t[k].perc
    ensures exists k ::
      (0 <= k < |t| && t[k].location == location && RatioFor(t, location, group) == t[k].perc[group]
       && (forall j :: 0 <= j < k ==> t[j].location != location))
  {
    var k := IndexOf(RatioLocations(t), location);
    assert RatioLocations(t)[k] == t[k].location;
    forall j | 0 <= j < k ensures t[j].location != location {
      assert RatioLocations(t)[j] == t[j].location;
    }
  }

  /** The label is served by the ratio path: it is a broad group and not a
      canonical bucket. */
  predicate TakesRatio(ageLabel: string, src: Sources) {
    ageLabel !in src.ageCats && ageLabel in src.broadGroups
  }

  /** The strategy chain, first match wins: a canonical column, then a broad
      group, then an aggregation; a label none of them serves aborts. What it
      picks serves the label from the canonical columns or the broad groups. */
  function ChooseStrategy(ageLabel: string, src: Sources): (s: Strategy)
    ensures s == Direct ==> ageLabel in src.ageCats
    ensures s == Ratio ==> TakesRatio(ageLabel, src)
    ensures s.Aggregate? ==> s.cols != [] && forall c :: c in s.cols ==> c in src.ageCats
  {
    if ageLabel in src.ageCats then Direct
    else if ageLabel in src.broadGroups then Ratio
    else
      match CanBeAggregated(ageLabel, src.ageCats)
      case None => MalformedBounds
      case Some(cols) => if cols != [] then Aggregate(cols) else Unresolvable
  }

  /** The order of the chain: a canonical column wins even when the label is
      also a broad group; broad groups come before aggregation; the run is
      aborted exactly when all three fail, with a malformed-bound error when a
      bound does not parse. */
  lemma StrategyChainOrder(ageLabel: string, src: Sources)
    ensures ageLabel in src.ageCats ==> ChooseStrategy(ageLabel, src) == Direct
    ensures ChooseStrategy(ageLabel, src) == Ratio <==> ageLabel !in src.ageCats && ageLabel in src.broadGroups
    ensures ChooseStrategy(ageLabel, src).Aggregate? <==>
      && ageLabel !in src.ageCats && ageLabel !in src.broadGroups
      && CanBeAggregated(ageLabel, src.ageCats).Some? && CanBeAggregated(ageLabel, src.ageCats).value != []
    ensures ChooseStrategy(ageLabel, src).Aggregate? ==>
      CanBeAggregated(ageLabel, src.ageCats) == Some(ChooseStrategy(ageLabel, src).cols)
    ensures ChooseStrategy(ageLabel, src) == Unresolvable <==>
      ageLabel !in src.ageCats && ageLabel !in src.broadGroups && CanBeAggregated(ageLabel, src.ageCats) == Some([])
    ensures ChooseStrategy(ageLabel, src) == MalformedBounds <==>
      ageLabel !in src.ageCats && ageLabel !in src.broadGroups && CanBeAggregated(ageLabel, src.ageCats).None?
  {
  }

  /** The sum of a row's counts over some columns. */
  function SumCols(counts: map<string, int>, cols: seq<string>): int
    requires forall c :: c in cols ==> c in counts
  {
    if cols == [] then 0 else counts[cols[0]] + SumCols(counts, cols[1..])
  }

  lemma {:induction false} SumColsAppend(counts: map<string, int>, a: seq<string>, b: seq<string>)
    requires forall c :: c in a + b ==> c in counts
    ensures SumCols(counts, a + b) == SumCols(counts, a) + SumCols(counts, b)
  {
    if a == [] {
      assert a + b == b;
    } else {
      assert (a + b)[0] == a[0] && (a + b)[1..] == a[1..] + b;
      SumColsAppend(counts, a[1..], b);
    }
  }

  /** The row's Total column (line 43): the sum over all canonical buckets. */
  function RowTotal(row: PopRow, ageCats: seq<string>): int
    requires forall c :: c in ageCats ==> c in row.counts
  {
    SumCols(row.counts, ageCats)
  }

  predicate NonNegativeCounts(counts: map<string, int>) {
    forall c :: c in counts ==> counts[c] >= 0
  }

  lemma {:induction false} SumColsNonNegative(counts: map<string, int>, cols: seq<string>)
    requires forall c :: c in cols ==> c in counts
    requires NonNegativeCounts(counts)
    ensures SumCols(counts, cols) >= 0
  {
    if cols != [] {
      SumColsNonNegative(counts, cols[1..]);
    }
  }

  /** With non-negative counts, the sum over a contiguous run of buckets is at
      most the row's total over all of them. */
  lemma SliceSumWithinTotal(counts: map<string, int>, cats: seq<string>, i: nat, j: nat)
    requires i <= j <= |cats|
    requires forall c :: c in cats ==> c in counts
    requires NonNegativeCounts(counts)
    ensures 0 <= SumCols(counts, cats[i..j]) <= SumCols(counts, cats)
  {
    assert cats == cats[..i] + cats[i..j] + cats[j..];
    SumColsAppend(counts, cats[..i] + cats[i..j], cats[j..]);
    SumColsAppend(counts, cats[..i], cats[i..j]);
    SumColsNonNegative(counts, cats[..i]);
    SumColsNonNegative(counts, cats[i..j]);
    SumColsNonNegative(counts, cats[j..]);
  }

  /** What a strategy needs from the tables to produce a column. */
  predicate Serves(src: Sources, ageLabel: string, s: Strategy) {
    match s
    case Direct => ageLabel in src.ageCats
    case Ratio => ageLabel in src.broadGroups && RatiosCover(src)
    case Aggregate(cols) => forall c :: c in cols ==> c in src.ageCats
    case _ => false
  }

  /** A resolvable strategy serves its label once the ratio tables are ready. */
  lemma ChosenStrategyServes(ageLabel: string, src: Sources)
    requires Resolvable(ChooseStrategy(ageLabel, src))
    requires TakesRatio(ageLabel, src) ==> RatiosCover(src)
    ensures Serves(src, ageLabel, ChooseStrategy(ageLabel, src))
  {
  }

  /** The value of one population row under a strategy: the canonical column
      itself, the row's total times the ratio over 100, or the sum of the
      aggregated columns. */
  function LabelValue(src: Sources, i: nat, ageLabel: string, s: Strategy): real
    requires HasCanonicalColumns(src) && i < |src.pop| && Serves(src, ageLabel, s)
  {
    var row := src.pop[i];
    match s
    case Direct => row.counts[ageLabel] as real
    case Ratio =>
      (RowTotal(row, src.ageCats) as real) * RatioFor(RatioTable(src, row.sex), row.location, ageLabel) / 100.0
    case Aggregate(cols) => SumCols(row.counts, cols) as real
  }

  /** Counts are non-negative and percentages lie in [0, 100]. */
  predicate NonNegativeSources(src: Sources) {
    && (forall i :: 0 <= i < |src.pop| ==> NonNegativeCounts(src.pop[i].counts))
    && (forall k, g :: 0 <= k < |src.femaleRatios| && g in src.femaleRatios[k].perc ==>
          0.0 <= src.femaleRatios[k].perc[g] <= 100.0)
    && (forall k, g :: 0 <= k < |src.maleRatios| && g in src.maleRatios[k].perc ==>
          0.0 <= src.maleRatios[k].perc[g] <= 100.0)
  }

  /** Whatever the strategy chosen, a label's value for a row lies between 0
      and the row's total population. */
  lemma LabelValueWithinRowTotal(src: Sources, i: nat, ageLabel: string)
    requires HasCanonicalColumns(src) && i < |src.pop|
    requires Resolvable(ChooseStrategy(ageLabel, src))
    requires TakesRatio(ageLabel, src) ==> RatiosCover(src)
    requires NonNegativeSources(src)
    ensures Serves(src, ageLabel, ChooseStrategy(ageLabel, src))
    ensures 0.0 <= LabelValue(src, i, ageLabel, ChooseStrategy(ageLabel, src)) <= RowTotal(src.pop[i], src.ageCats) as real
  {
    ChosenStrategyServes(ageLabel, src);
    if ChooseStrategy(ageLabel, src).Aggregate? {
      var cols := ChooseStrategy(ageLabel, src).cols;
      AggregateChosen(ageLabel, src);
      var k := AggregateRun(ageLabel, src.ageCats, cols);
      SliceValueWithin(src, i, ageLabel, cols, k);
    } else {
      StrategyValueWithinRowTotal(src, i, ageLabel, ChooseStrategy(ageLabel, src), 0);
    }
  }

  /** The columns an aggregation takes are a run of consecutive buckets. */
  lemma AggregateRun(ageLabel: string, cats: seq<string>, cols: seq<string>) returns (k: nat)
    requires CanBeAggregated(ageLabel, cats) == Some(cols) && cols != []
    ensures k + |cols| <= |cats| && cols == cats[k..k + |cols|]
  {
    k := AggregateEndpoints(ageLabel, cats, cols);
  }

  lemma AggregateChosen(ageLabel: string, src: Sources)
    requires ChooseStrategy(ageLabel, src).Aggregate?
    ensures CanBeAggregated(ageLabel, src.ageCats) == Some(ChooseStrategy(ageLabel, src).cols)
  {
  }

  lemma StrategyValueWithinRowTotal(src: Sources, i: nat, ageLabel: string, s: Strategy, k: nat)
    requires HasCanonicalColumns(src) && i < |src.pop| && Serves(src, ageLabel, s)
    requires s.Aggregate? ==> k + |s.cols| <= |src.ageCats| && s.cols == src.ageCats[k..k + |s.cols|]
    requires NonNegativeSources(src)
    ensures 0.0 <= LabelValue(src, i, ageLabel, s) <= RowTotal(src.pop[i], src.ageCats) as real
  {
    match s
    case Direct => DirectValueWithin(src, i, ageLabel);
    case Ratio => RatioValueWithin(src, i, ageLabel);
    case Aggregate(cols) => SliceValueWithin(src, i, ageLabel, cols, k);
  }

  lemma DirectValueWithin(src: Sources, i: nat, ageLabel: string)
    requires HasCanonicalColumns(src) && i < |src.pop| && ageLabel in src.ageCats
    requires NonNegativeSources(src)
    ensures Serves(src, ageLabel, Direct)
    ensures 0.0 <= LabelValue(src, i, ageLabel, Direct) <= RowTotal(src.pop[i], src.ageCats) as real
  {
    assert NonNegativeCounts(src.pop[i].counts);
    ColumnWithinTotal(src.pop[i].counts, src.ageCats, ageLabel);
  }

  lemma RatioValueWithin(src: Sources, i: nat, ageLabel: string)
    requires HasCanonicalColumns(src) && i < |src.pop| && Serves(src, ageLabel, Ratio)
    requires NonNegativeSources(src)
    ensures 0.0 <= LabelValue(src, i, ageLabel, Ratio) <= RowTotal(src.pop[i], src.ageCats) as real
  {
    var row := src.pop[i];
    assert NonNegativeCounts(row.counts);
    var total := RowTotal(row, src.ageCats);
    SumColsNonNegative(row.counts, src.ageCats);
    var p := RatioFor(RatioTable(src, row.sex), row.location, ageLabel);
    RatioWithinPercent(src, row.sex, row.location, ageLabel);
    ScaledWithin(total as real, p);
    assert LabelValue(src, i, ageLabel, Ratio) == (total as real) * p / 100.0;
  }

  /** An aggregated value is the sum over a run of consecutive canonical
      buckets, so it lies between 0 and the row's total. */
  lemma SliceValueWithin(src: Sources, i: nat, ageLabel: string, cols: seq<string>, k: nat)
    requires HasCanonicalColumns(src) && i < |src.pop|
    requires k + |cols| <= |src.ageCats| && cols == src.ageCats[k..k + |cols|]
    requires NonNegativeSources(src)
    ensures Serves(src, ageLabel, Aggregate(cols))
    ensures 0.0 <= LabelValue(src, i, ageLabel, Aggregate(cols)) <= RowTotal(src.pop[i], src.ageCats) as real
  {
    assert NonNegativeCounts(src.pop[i].counts);
    SliceSumWithinTotal(src.pop[i].counts, src.ageCats, k, k + |cols|);
  }

  lemma RatioWithinPercent(src: Sources, sex: string, location: string, group: string)
    requires NonNegativeSources(src)
    requires location in RatioLocations(RatioTable(src, sex))
    requires forall k :: 0 <= k < |RatioTable(src, sex)| ==> group in RatioTable(src, sex)[k].perc
    ensures 0.0 <= RatioFor(RatioTable(src, sex), location, group) <= 100.0
  {
    var t := RatioTable(src, sex);
    var k := IndexOf(RatioLocations(t), location);
    assert group in t[k].perc;
  }

  lemma ColumnWithinTotal(counts: map<string, int>, cats: seq<string>, c: string)
    requires c in cats && forall d :: d in cats ==> d in counts
    requires NonNegativeCounts(counts)
    ensures 0 <= counts[c] <= SumCols(counts, cats)
  {
    var k := IndexOf(cats, c);
    SliceSumWithinTotal(counts, cats, k, k + 1);
    assert cats[k..k + 1] == [c];
    assert SumCols(counts, [c]) == counts[c] + SumCols(counts, []);
  }

  lemma ScaledWithin(total: real, p: real)
    requires 0.0 <= total && 0.0 <= p <= 100.0
    ensures 0.0 <= total * p / 100.0 <= total
  {
    assert total * p <= total * 100.0;
  }

  /** Every label is resolvable into a column, or no ratio label is taken
      before the tables cover it. */
  predicate RatioReady(labels: seq<string>, src: Sources) {
    (forall k :: 0 <= k < |labels| ==> !TakesRatio(labels[k], src)) || RatiosCover(src)
  }

  function ErrorFor(ageLabel: string, s: Strategy): LabelError {
    if s == Unresolvable then UnresolvableLabel(ageLabel) else MalformedLabel(ageLabel)
  }

  /** res_df[age_label] = sex_pop: one column set on every row. */
  function AssignColumn(rows: seq<ResRow>, ageLabel: string, s: Strategy, src: Sources): (r: seq<ResRow>)
    requires |rows| == |src.pop| && HasCanonicalColumns(src) && Serves(src, ageLabel, s)
    ensures |r| == |rows|
    ensures forall i :: 0 <= i < |rows| ==>
      r[i] == rows[i].(values := rows[i].values[ageLabel := LabelValue(src, i, ageLabel, s)])
  {
    seq(|rows|, i requires 0 <= i < |rows| =>
      rows[i].(values := rows[i].values[ageLabel := LabelValue(src, i, ageLabel, s)]))
  }

  /** rows is res_df after the given labels: one row per population row, with
      its location and sex, and for every label the value its strategy gives. */
  predicate Resolved(rows: seq<ResRow>, labels: seq<string>, src: Sources)
    requires HasCanonicalColumns(src)
  {
    && |rows| == |src.pop|
    && (forall l :: l in labels ==> Serves(src, l, ChooseStrategy(l, src)))
    && (forall i :: 0 <= i < |rows| ==>
          rows[i].location == src.pop[i].location && rows[i].sex == src.pop[i].sex)
    && (forall i :: 0 <= i < |rows| ==> rows[i].values.Keys == (set l | l in labels))
    && (forall i, l :: 0 <= i < |rows| && l in labels ==>
          rows[i].values[l] == LabelValue(src, i, l, ChooseStrategy(l, src)))
  }

  /** e is the error of the first label that no strategy serves. */
  predicate FirstFailure(labels: seq<string>, e: LabelError, src: Sources) {
    && e.ageLabel in labels
    && !Resolvable(ChooseStrategy(e.ageLabel, src))
    && e == ErrorFor(e.ageLabel, ChooseStrategy(e.ageLabel, src))
    && forall k :: 0 <= k < IndexOf(labels, e.ageLabel) ==> Resolvable(ChooseStrategy(labels[k], src))
  }

  /** Every label of the sequence has a strategy that serves it. */
  predicate AllResolvable(labels: seq<string>, src: Sources) {
    forall k :: 0 <= k < |labels| ==> Resolvable(ChooseStrategy(labels[k], src))
  }

  lemma AllResolvableSnoc(prefix: seq<string>, l: string, src: Sources)
    ensures AllResolvable(prefix + [l], src) <==> AllResolvable(prefix, src) && Resolvable(ChooseStrategy(l, src))
  {
    var labels := prefix + [l];
    assert forall k :: 0 <= k < |prefix| ==> labels[k] == prefix[k];
    assert labels[|prefix|] == l;
  }

  lemma RatioReadySnoc(prefix: seq<string>, l: string, src: Sources)
    requires RatioReady(prefix + [l], src)
    ensures RatioReady(prefix, src)
    ensures TakesRatio(l, src) ==> RatiosCover(src)
  {
    var labels := prefix + [l];
    assert forall k :: 0 <= k < |prefix| ==> labels[k] == prefix[k];
    assert labels[|prefix|] == l;
  }

  lemma ResolvedExtend(rows: seq<ResRow>, prefix: seq<string>, l: string, src: Sources)
    requires HasCanonicalColumns(src) && Resolved(rows, prefix, src)
    requires Resolvable(ChooseStrategy(l, src))
    requires TakesRatio(l, src) ==> RatiosCover(src)
    ensures Serves(src, l, ChooseStrategy(l, src))
    ensures Resolved(AssignColumn(rows, l, ChooseStrategy(l, src), src), prefix + [l], src)
  {
    ChosenStrategyServes(l, src);
    var labels := prefix + [l];
    assert (set x | x in labels) == (set x | x in prefix) + {l};
  }

  lemma FailureExtend(prefix: seq<string>, l: string, e: LabelError, src: Sources)
    requires FirstFailure(prefix, e, src)
    ensures FirstFailure(prefix + [l], e, src)
  {
    var labels := prefix + [l];
    var k := IndexOf(prefix, e.ageLabel);
    assert labels[..k] == prefix[..k];
    IndexOfIsFirst(labels, e.ageLabel, k);
  }

  lemma FailureAtEnd(prefix: seq<string>, l: string, src: Sources)
    requires AllResolvable(prefix, src)
    requires !Resolvable(ChooseStrategy(l, src))
    ensures FirstFailure(prefix + [l], ErrorFor(l, ChooseStrategy(l, src)), src)
  {
    var labels := prefix + [l];
    assert l !in prefix;
    assert labels[..|prefix|] == prefix;
    IndexOfIsFirst(labels, l, |prefix|);
  }

  /** The loop over the requested labels (lines 52-75), as a fold: each label
      in turn adds its column to every row, and the first label no strategy
      serves stops the run. */
  function Resolve(labels: seq<string>, src: Sources): (r: Result<seq<ResRow>, LabelError>)
    requires HasCanonicalColumns(src) && RatioReady(labels, src)
    ensures r.Ok? ==> |r.value| == |src.pop|
    decreases |labels|
  {
    if labels == [] then
      Ok(seq(|src.pop|, i requires 0 <= i < |src.pop| => ResRow(src.pop[i].location, src.pop[i].sex, map[])))
    else
      var n := |labels| - 1;
      var prefix := labels[..n];
      assert labels == prefix + [labels[n]];
      RatioReadySnoc(prefix, labels[n], src);
      ResolveStep(Resolve(prefix, src), labels[n], src)
  }

  /** One pass of the loop body: an earlier error passes through; otherwise
      the label's strategy adds its column, or the label aborts the run. */
  function ResolveStep(prev: Result<seq<ResRow>, LabelError>, ageLabel: string, src: Sources): (r: Result<seq<ResRow>, LabelError>)
    requires HasCanonicalColumns(src) && (prev.Ok? ==> |prev.value| == |src.pop|)
    requires TakesRatio(ageLabel, src) ==> RatiosCover(src)
    ensures r.Ok? ==> |r.value| == |src.pop|
  {
    match prev
    case Err(e) => Err(e)
    case Ok(rows) =>
      var s := ChooseStrategy(ageLabel, src);
      if Resolvable(s) then
        ChosenStrategyServes(ageLabel, src);
        Ok(AssignColumn(rows, ageLabel, s, src))
      else Err(ErrorFor(ageLabel, s))
  }

  /** The run succeeds exactly when every label resolves; then each row
      carries one value per label, the one its strategy gives; otherwise the
      error names the first label that does not resolve. */
  lemma {:induction false} ResolveCorrect(labels: seq<string>, src: Sources)
    requires HasCanonicalColumns(src) && RatioReady(labels, src)
    ensures Resolve(labels, src).Ok? <==> AllResolvable(labels, src)
    ensures Resolve(labels, src).Ok? ==> Resolved(Resolve(labels, src).value, labels, src)
    ensures Resolve(labels, src).Err? ==> FirstFailure(labels, Resolve(labels, src).error, src)
    decreases |labels|
  {
    if labels == [] {
      ResolveCorrectEmpty(src);
    } else {
      var n := |labels| - 1;
      var prefix, l := labels[..n], labels[n];
      assert labels == prefix + [l];
      RatioReadySnoc(prefix, l, src);
      ResolveCorrect(prefix, src);
      if Resolve(prefix, src).Err? {
        ResolveCorrectAfterErr(prefix, l, src);
      } else {
        ResolveCorrectAfterOk(prefix, l, src);
      }
    }
  }

  lemma ResolveCorrectEmpty(src: Sources)
    requires HasCanonicalColumns(src)
    ensures Resolve([], src).Ok? && AllResolvable([], src)
    ensures Resolved(Resolve([], src).value, [], src)
  {
    assert (set l: string | l in []) == {};
  }

  /** Past the first failure, further labels change nothing. */
  lemma ResolveCorrectAfterErr(prefix: seq<string>, l: string, src: Sources)
    requires HasCanonicalColumns(src) && RatioReady(prefix + [l], src) && RatioReady(prefix, src)
    requires Resolve(prefix, src).Err? && !AllResolvable(prefix, src)
    requires FirstFailure(prefix, Resolve(prefix, src).error, src)
    ensures Resolve(prefix + [l], src) == Resolve(prefix, src)
    ensures !AllResolvable(prefix + [l], src)
    ensures FirstFailure(prefix + [l], Resolve(prefix, src).error, src)
  {
    assert (prefix + [l])[..|prefix|] == prefix;
    AllResolvableSnoc(prefix, l, src);
    FailureExtend(prefix, l, Resolve(prefix, src).error, src);
  }

  /** After a successful prefix, the next label either adds its column or is
      the first failure. */
  lemma ResolveCorrectAfterOk(prefix: seq<string>, l: string, src: Sources)
    requires HasCanonicalColumns(src) && RatioReady(prefix + [l], src) && RatioReady(prefix, src)
    requires Resolve(prefix, src).Ok? && AllResolvable(prefix, src)
    requires Resolved(Resolve(prefix, src).value, prefix, src)
    ensures Resolve(prefix + [l], src).Ok? <==> AllResolvable(prefix + [l], src)
    ensures Resolve(prefix + [l], src).Ok? ==> Resolved(Resolve(prefix + [l], src).value, prefix + [l], src)
    ensures Resolve(prefix + [l], src).Err? ==> FirstFailure(prefix + [l], Resolve(prefix + [l], src).error, src)
  {
    assert (prefix + [l])[..|prefix|] == prefix;
    assert (prefix + [l])[|prefix|] == l;
    AllResolvableSnoc(prefix, l, src);
    RatioReadySnoc(prefix, l, src);
    if Resolvable(ChooseStrategy(l, src)) {
      ResolvedExtend(Resolve(prefix, src).value, prefix, l, src);
    } else {
      FailureAtEnd(prefix, l, src);
    }
  }

  lemma {:induction false} ResolveStopsAtError(labels: seq<string>, n: nat, src: Sources)
    requires n <= |labels|
    requires HasCanonicalColumns(src) && RatioReady(labels, src)
    requires RatioReady(labels[..n], src) && Resolve(labels[..n], src).Err?
    ensures Resolve(labels, src) == Resolve(labels[..n], src)
    decreases |labels|
  {
    if n < |labels| {
      var prefix := labels[..|labels| - 1];
      assert prefix[..n] == labels[..n];
      assert forall k :: 0 <= k < |prefix| ==> prefix[k] == labels[k];
      ResolveStopsAtError(prefix, n, src);
    } else {
      assert labels[..n] == labels;
    }
  }

  /** execute_generation's loop over the labels: each label's column is
      assigned to res_df in turn; the first unserved label aborts the run. */
  method ResolveLabels(labels: seq<string>, src: Sources) returns (r: Result<seq<ResRow>, LabelError>)
    requires HasCanonicalColumns(src) && RatioReady(labels, src)
    ensures r == Resolve(labels, src)
  {
    var rows := seq(|src.pop|, i requires 0 <= i < |src.pop| => ResRow(src.pop[i].location, src.pop[i].sex, map[]));
    assert labels[..0] == [];
    for n := 0 to |labels|
      invariant RatioReady(labels[..n], src)
      invariant Resolve(labels[..n], src) == Ok(rows)
    {
      var s := ChooseStrategy(labels[n], src);
      assert labels[..n + 1][..n] == labels[..n];
      assert forall k :: 0 <= k < n + 1 ==> labels[..n + 1][k] == labels[k];
      if !Resolvable(s) {
        ResolveStopsAtError(labels, n + 1, src);
        return Err(ErrorFor(labels[n], s));
      }
      ChosenStrategyServes(labels[n], src);
      rows := AssignColumn(rows, labels[n], s, src);
    }
    assert labels[..|labels|] == labels;
    return Ok(rows);
  }

  /** The per-location total of lines 77-78: the Total of every row of the
      location, both sexes together. */
  function LocationTotal(pop: seq<PopRow>, ageCats: seq<string>, location: string): int
    requires forall i, c :: 0 <= i < |pop| && c in ageCats ==> c in pop[i].counts
  {
    if pop == [] then 0
    else
      (if pop[0].location == location then RowTotal(pop[0], ageCats) else 0)
      + LocationTotal(pop[1..], ageCats, location)
  }

  lemma {:induction false} LocationTotalNonNegative(pop: seq<PopRow>, ageCats: seq<string>, location: string)
    requires forall i, c :: 0 <= i < |pop| && c in ageCats ==> c in pop[i].counts
    requires forall i :: 0 <= i < |pop| ==> NonNegativeCounts(pop[i].counts)
    ensures LocationTotal(pop, ageCats, location) >= 0
  {
    if pop != [] {
      SumColsNonNegative(pop[0].counts, ageCats);
      LocationTotalNonNegative(pop[1..], ageCats, location);
    }
  }

  /** With non-negative counts, a row's total is at most its location's total. */
  lemma {:induction false} RowWithinLocationTotal(pop: seq<PopRow>, ageCats: seq<string>, i: nat)
    requires i < |pop|
    requires forall j, c :: 0 <= j < |pop| && c in ageCats ==> c in pop[j].counts
    requires forall j :: 0 <= j < |pop| ==> NonNegativeCounts(pop[j].counts)
    ensures RowTotal(pop[i], ageCats) <= LocationTotal(pop, ageCats, pop[i].location)
  {
    SumColsNonNegative(pop[0].counts, ageCats);
    LocationTotalNonNegative(pop[1..], ageCats, pop[i].location);
    if i > 0 {
      assert pop[1..][i - 1] == pop[i];
      RowWithinLocationTotal(pop[1..], ageCats, i - 1);
    }
  }

  /** Every location has a positive population; the source divides by it and
      yields NaN or inf otherwise. */
  predicate PositiveTotals(src: Sources)
    requires HasCanonicalColumns(src)
  {
    forall i :: 0 <= i < |src.pop| ==> LocationTotal(src.pop, src.ageCats, src.pop[i].location) > 0
  }

  /** Line 80: a value as a percentage of its location's total. */
  function Percent(v: real, total: int): real
    requires total > 0
  {
    v / (total as real) * 100.0
  }

  lemma PercentWithin(v: real, total: int)
    requires total > 0 && 0.0 <= v <= total as real
    ensures 0.0 <= Percent(v, total) <= 100.0
  {
    var t := total as real;
    assert v / t <= 1.0 by {
      assert v / t * t == v;
    }
  }

  /** Lines 77-80: every label value of a row divided by the total of the
      row's location and multiplied by 100. */
  function Normalize(rows: seq<ResRow>, src: Sources): (r: seq<ResRow>)
    requires HasCanonicalColumns(src) && |rows| == |src.pop| && PositiveTotals(src)
    ensures |r| == |rows|
    ensures forall i :: 0 <= i < |rows| ==>
      r[i].location == rows[i].location && r[i].sex == rows[i].sex && r[i].values.Keys == rows[i].values.Keys
    ensures forall i, l :: 0 <= i < |rows| && l in rows[i].values ==>
      r[i].values[l] == Percent(rows[i].values[l], LocationTotal(src.pop, src.ageCats, src.pop[i].location))
  {
    seq(|rows|, i requires 0 <= i < |rows| =>
      var total := LocationTotal(src.pop, src.ageCats, src.pop[i].location);
      rows[i].(values := map l | l in rows[i].values :: Percent(rows[i].values[l], total)))
  }

  /** With non-negative counts and ratios within [0, 100], every percentage
      the run produces lies within [0, 100], whichever strategy served it. */
  lemma PercentagesWithin0And100(labels: seq<string>, src: Sources)
    requires HasCanonicalColumns(src) && RatioReady(labels, src) && PositiveTotals(src)
    requires NonNegativeSources(src)
    requires Resolve(labels, src).Ok?
    ensures forall i, l :: 0 <= i < |src.pop| && l in labels ==>
      l in Normalize(Resolve(labels, src).value, src)[i].values &&
      0.0 <= Normalize(Resolve(labels, src).value, src)[i].values[l] <= 100.0
  {
    ResolveCorrect(labels, src);
    var rows := Resolve(labels, src).value;
    var pct := Normalize(rows, src);
    forall i, l | 0 <= i < |src.pop| && l in labels
      ensures l in pct[i].values && 0.0 <= pct[i].values[l] <= 100.0
    {
      var k := IndexOf(labels, l);
      assert Resolvable(ChooseStrategy(labels[k], src));
      LabelValueWithinRowTotal(src, i, l);
      RowWithinLocationTotal(src.pop, src.ageCats, i);
      var total := LocationTotal(src.pop, src.ageCats, src.pop[i].location);
      PercentWithin(rows[i].values[l], total);
    }
  }
}
