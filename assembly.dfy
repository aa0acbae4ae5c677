/** Output assembly (automatic_generation.py:138-150): rows whose stripped
    location the mapping knows are annotated with their identity, one "Total"
    row per identity sums the label columns, and all rows are sorted by short
    name. */
module Assembly {
  import opened Wrappers
  import opened Text
  import opened AgeResolver
  import opened CountryIdentity

  /** An output row: identity columns, sex, and one value per age label. */
  datatype OutRow = OutRow(id: Identity, sex: string, values: map<string, real>)

  /** Line 138: every location stripped of surrounding whitespace; sex and
      values are kept. */
  function StripLocations(rows: seq<ResRow>): (r: seq<ResRow>)
    ensures |r| == |rows|
    ensures forall i :: 0 <= i < |rows| ==>
      r[i].location == Strip(rows[i].location) && r[i].sex == rows[i].sex && r[i].values == rows[i].values
  {
    seq(|rows|, i requires 0 <= i < |rows| => rows[i].(location := Strip(rows[i].location)))
  }

  /** Stripping the locations a second time changes nothing. */
  lemma StripLocationsIdempotent(rows: seq<ResRow>)
    ensures StripLocations(StripLocations(rows)) == StripLocations(rows)
  {
    var once := StripLocations(rows);
    forall i | 0 <= i < |rows|
      ensures StripLocations(once)[i] == once[i]
    {
      StripIdempotent(rows[i].location);
    }
  }

  /** Lines 139-143: keep the rows whose location is a key of the mapping,
      and replace the location by its identity. */
  function Annotate(rows: seq<ResRow>, mapping: map<string, Identity>): (r: seq<OutRow>)
    ensures |r| <= |rows|
  {
    if rows == [] then []
    else
      var n := |rows| - 1;
      var name := rows[n].location;
      if name in mapping then Annotate(rows[..n], mapping) + [OutRow(mapping[name], rows[n].sex, rows[n].values)]
      else Annotate(rows[..n], mapping)
  }

  /** The row a kept input row becomes. */
  function Annotated(row: ResRow, mapping: map<string, Identity>): OutRow
    requires row.location in mapping
  {
    OutRow(mapping[row.location], row.sex, row.values)
  }

  /** Filtering keeps the order of the rows: it distributes over concatenation. */
  lemma {:induction false} AnnotateAppend(a: seq<ResRow>, b: seq<ResRow>, mapping: map<string, Identity>)
    ensures Annotate(a + b, mapping) == Annotate(a, mapping) + Annotate(b, mapping)
  {
    if b == [] {
      assert a + b == a;
    } else {
      var n := |b| - 1;
      var ab := a + b;
      assert ab[..|a| + n] == a + b[..n];
      assert ab[|a| + n] == b[n];
      AnnotateAppend(a, b[..n], mapping);
      var front := Annotate(a, mapping);
      var name := b[n].location;
      if name in mapping {
        var o := OutRow(mapping[name], b[n].sex, b[n].values);
        assert Annotate(ab, mapping) == Annotate(a + b[..n], mapping) + [o];
        assert Annotate(b, mapping) == Annotate(b[..n], mapping) + [o];
        assert (front + Annotate(b[..n], mapping)) + [o] == front + (Annotate(b[..n], mapping) + [o]);
      } else {
        assert Annotate(ab, mapping) == Annotate(a + b[..n], mapping);
        assert Annotate(b, mapping) == Annotate(b[..n], mapping);
      }
    }
  }

  /** An output row comes from an input row whose stripped location the
      mapping knows, and every such input row yields one. */
  lemma {:induction false} AnnotateMembership(rows: seq<ResRow>, mapping: map<string, Identity>, o: OutRow)
    ensures o in Annotate(rows, mapping) <==>
      exists i :: 0 <= i < |rows| && rows[i].location in mapping && o == Annotated(rows[i], mapping)
  {
    if rows != [] {
      var n := |rows| - 1;
      AnnotateMembership(rows[..n], mapping, o);
      if o in Annotate(rows, mapping) && o !in Annotate(rows[..n], mapping) {
        assert o == Annotated(rows[n], mapping);
      }
      if i :| 0 <= i < |rows| && rows[i].location in mapping && o == Annotated(rows[i], mapping) {
        if i < n {
          assert rows[..n][i] == rows[i];
        }
      }
    }
  }

  /** Every row of the input rows whose name the mapping knows is kept, so a
      mapping that knows every name keeps all rows. */
  lemma {:induction false} AnnotateKeepsMapped(rows: seq<ResRow>, mapping: map<string, Identity>)
    requires forall i :: 0 <= i < |rows| ==> rows[i].location in mapping
    ensures |Annotate(rows, mapping)| == |rows|
    ensures forall i :: 0 <= i < |rows| ==> Annotate(rows, mapping)[i] == Annotated(rows[i], mapping)
  {
    if rows != [] {
      var n := |rows| - 1;
      assert forall i :: 0 <= i < n ==> rows[..n][i] == rows[i];
      AnnotateKeepsMapped(rows[..n], mapping);
    }
  }

  /** Lines 138-143: the location column is stripped as a whole (line 138),
      then a loop keeps each row the mapping knows and gives it its identity
      in place of the location. */
  method AnnotateRows(rows: seq<ResRow>, mapping: map<string, Identity>) returns (out: seq<OutRow>)
    ensures out == Annotate(StripLocations(rows), mapping)
  {
    var stripped := StripLocations(rows);
    out := [];
    var i := 0;
    while i < |stripped|
      invariant 0 <= i <= |stripped|
      invariant out == Annotate(stripped[..i], mapping)
    {
      AnnotateStep(stripped, i, mapping);
      if stripped[i].location in mapping {
        out := out + [Annotated(stripped[i], mapping)];
      }
      i := i + 1;
    }
    assert stripped[..|stripped|] == stripped;
  }

  /** One more row appended: it is annotated when mapped and dropped otherwise. */
  lemma AnnotateStep(rows: seq<ResRow>, i: nat, mapping: map<string, Identity>)
    requires i < |rows|
    ensures Annotate(rows[..i + 1], mapping) ==
      Annotate(rows[..i], mapping) + (if rows[i].location in mapping then [Annotated(rows[i], mapping)] else [])
  {
    assert rows[..i + 1][..i] == rows[..i];
  }

  function Identities(rows: seq<OutRow>): (ids: seq<Identity>)
    ensures forall i, j :: 0 <= i < j < |ids| ==> ids[i] != ids[j]
    ensures forall id :: id in ids <==> exists k :: 0 <= k < |rows| && rows[k].id == id
  {
    if rows == [] then []
    else
      var n := |rows| - 1;
      var front := Identities(rows[..n]);
      assert forall k :: 0 <= k < n ==> rows[..n][k] == rows[k];
      if rows[n].id in front then front else front + [rows[n].id]
  }

  /** A row's value for a label; rows built by the model hold every label. */
  function Value(row: OutRow, l: string): real {
    if l in row.values then row.values[l] else 0.0
  }

  /** np.sum over the rows of one group. */
  function GroupSum(rows: seq<OutRow>, id: Identity, l: string): real {
    if rows == [] then 0.0
    else
      var n := |rows| - 1;
      GroupSum(rows[..n], id, l) + (if rows[n].id == id then Value(rows[n], l) else 0.0)
  }

  /** The column sum over all rows. */
  function ColumnSum(rows: seq<OutRow>, l: string): real {
    if rows == [] then 0.0
    else
      var n := |rows| - 1;
      ColumnSum(rows[..n], l) + Value(rows[n], l)
  }

  /** Lines 146-149: the aggregated row of one group; Sex is "Total". */
  function TotalRow(rows: seq<OutRow>, labels: seq<string>, id: Identity): OutRow {
    OutRow(id, "Total", map l | l in labels :: GroupSum(rows, id, l))
  }

  function TotalsFor(ids: seq<Identity>, rows: seq<OutRow>, labels: seq<string>): (r: seq<OutRow>)
    ensures |r| == |ids|
    ensures forall k :: 0 <= k < |ids| ==> r[k] == TotalRow(rows, labels, ids[k])
  {
    if ids == [] then []
    else
      var n := |ids| - 1;
      TotalsFor(ids[..n], rows, labels) + [TotalRow(rows, labels, ids[n])]
  }

  /** The groupby of line 149: one Total row per identity of the rows. */
  function TotalRows(rows: seq<OutRow>, labels: seq<string>): seq<OutRow> {
    TotalsFor(Identities(rows), rows, labels)
  }

  /** Each identity of the rows has exactly one Total row, holding every label,
      and no other identity has one. */
  lemma OneTotalPerIdentity(rows: seq<OutRow>, labels: seq<string>, id: Identity)
    ensures (exists k :: 0 <= k < |rows| && rows[k].id == id) <==>
      exists t :: 0 <= t < |TotalRows(rows, labels)| && TotalRows(rows, labels)[t].id == id
    ensures forall s, t :: 0 <= s < t < |TotalRows(rows, labels)| ==>
      TotalRows(rows, labels)[s].id != TotalRows(rows, labels)[t].id
    ensures forall t :: 0 <= t < |TotalRows(rows, labels)| ==>
      TotalRows(rows, labels)[t].sex == "Total" && TotalRows(rows, labels)[t].values.Keys == set l | l in labels
  {
    var ids := Identities(rows);
    if exists t :: 0 <= t < |TotalRows(rows, labels)| && TotalRows(rows, labels)[t].id == id {
      var t :| 0 <= t < |TotalRows(rows, labels)| && TotalRows(rows, labels)[t].id == id;
      assert ids[t] == id;
      assert id in ids;
    }
    if exists k :: 0 <= k < |rows| && rows[k].id == id {
      var t := IndexOf(ids, id);
      assert TotalRows(rows, labels)[t].id == id;
    }
  }

  /** Each Total row holds, for every label, the sum of that label over the
      rows of its identity. */
  lemma TotalRowsHoldGroupSums(rows: seq<OutRow>, labels: seq<string>)
    ensures forall t, l :: 0 <= t < |TotalRows(rows, labels)| && l in labels ==>
      l in TotalRows(rows, labels)[t].values &&
      TotalRows(rows, labels)[t].values[l] == GroupSum(rows, TotalRows(rows, labels)[t].id, l)
  {
  }

  /** A group sum counts only the rows of its identity. */
  lemma {:induction false} GroupSumOfOthers(rows: seq<OutRow>, id: Identity, l: string)
    requires forall k :: 0 <= k < |rows| ==> rows[k].id != id
    ensures GroupSum(rows, id, l) == 0.0
  {
    if rows != [] {
      GroupSumOfOthers(rows[..|rows| - 1], id, l);
    }
  }

  lemma {:induction false} TotalsOfNothing(ids: seq<Identity>, labels: seq<string>, l: string)
    requires l in labels
    ensures ColumnSum(TotalsFor(ids, [], labels), l) == 0.0
  {
    if ids != [] {
      var n := |ids| - 1;
      TotalsOfNothing(ids[..n], labels, l);
    }
  }

  /** Appending a row adds its value to the Total row of its own identity
      only. */
  lemma {:induction false} TotalsAppend(ids: seq<Identity>, rows: seq<OutRow>, x: OutRow, labels: seq<string>, l: string)
    requires l in labels
    requires forall i, j :: 0 <= i < j < |ids| ==> ids[i] != ids[j]
    ensures ColumnSum(TotalsFor(ids, rows + [x], labels), l)
      == ColumnSum(TotalsFor(ids, rows, labels), l) + (if x.id in ids then Value(x, l) else 0.0)
  {
    if ids != [] {
      var n := |ids| - 1;
      TotalsAppend(ids[..n], rows, x, labels, l);
      assert (rows + [x])[..|rows|] == rows;
      assert x.id in ids <==> x.id in ids[..n] || x.id == ids[n];
      if x.id == ids[n] {
        assert x.id !in ids[..n];
      }
    }
  }

  /** Grouping partitions the rows: over any label, the Total rows sum to
      what the annotated rows sum to. */
  lemma {:induction false} TotalsConserveColumnSums(rows: seq<OutRow>, labels: seq<string>, l: string)
    requires l in labels
    ensures ColumnSum(TotalRows(rows, labels), l) == ColumnSum(rows, l)
  {
    var ids := Identities(rows);
    TotalsCover(ids, rows, labels, l);
  }

  lemma {:induction false} TotalsCover(ids: seq<Identity>, rows: seq<OutRow>, labels: seq<string>, l: string)
    requires l in labels
    requires forall i, j :: 0 <= i < j < |ids| ==> ids[i] != ids[j]
    requires forall k :: 0 <= k < |rows| ==> rows[k].id in ids
    ensures ColumnSum(TotalsFor(ids, rows, labels), l) == ColumnSum(rows, l)
  {
    if rows == [] {
      TotalsOfNothing(ids, labels, l);
    } else {
      var n := |rows| - 1;
      assert rows == rows[..n] + [rows[n]];
      TotalsCover(ids, rows[..n], labels, l);
      TotalsAppend(ids, rows[..n], rows[n], labels, l);
    }
  }

  /** Rows in non-decreasing order of short name, as Python compares strings. */
  predicate SortedByShortName(rows: seq<OutRow>) {
    forall i, j :: 0 <= i < j < |rows| ==> LexLe(rows[i].id.shortName, rows[j].id.shortName)
  }

  /** A row no later than every row of a sorted sequence can head it. */
  lemma SortedCons(a: OutRow, t: seq<OutRow>)
    requires SortedByShortName(t)
    requires forall j :: 0 <= j < |t| ==> LexLe(a.id.shortName, t[j].id.shortName)
    ensures SortedByShortName([a] + t)
  {
    var r := [a] + t;
    forall i, j | 0 <= i < j < |r| ensures LexLe(r[i].id.shortName, r[j].id.shortName) {
      if i > 0 {
        assert r[i] == t[i - 1] && r[j] == t[j - 1];
      } else {
        assert r[j] == t[j - 1];
      }
    }
  }

  /** If x is no later than the head of a sorted s, it is no later than all of s. */
  lemma BelowHead(x: OutRow, s: seq<OutRow>)
    requires SortedByShortName(s) && s != [] && LexLe(x.id.shortName, s[0].id.shortName)
    ensures forall j :: 0 <= j < |s| ==> LexLe(x.id.shortName, s[j].id.shortName)
  {
    forall j | 0 < j < |s| ensures LexLe(x.id.shortName, s[j].id.shortName) {
      LexLeTransitive(x.id.shortName, s[0].id.shortName, s[j].id.shortName);
    }
  }

  /** The head of a sorted s that x comes after is no later than every row of
      a sequence holding only x and rows of s's tail. */
  lemma HeadBelowAll(x: OutRow, s: seq<OutRow>, tail: seq<OutRow>)
    requires SortedByShortName(s) && s != [] && !LexLe(x.id.shortName, s[0].id.shortName)
    requires multiset(tail) == multiset(s[1..]) + multiset{x}
    ensures forall j :: 0 <= j < |tail| ==> LexLe(s[0].id.shortName, tail[j].id.shortName)
  {
    LexLeTotal(x.id.shortName, s[0].id.shortName);
    forall j | 0 <= j < |tail| ensures LexLe(s[0].id.shortName, tail[j].id.shortName) {
      assert tail[j] in multiset(tail);
      if tail[j] != x {
        assert tail[j] in multiset(s[1..]);
        var k :| 1 <= k < |s| && s[k] == tail[j];
      }
    }
  }

  function Insert(x: OutRow, s: seq<OutRow>): (r: seq<OutRow>)
    requires SortedByShortName(s)
    ensures SortedByShortName(r)
    ensures multiset(r) == multiset(s) + multiset{x}
  {
    if s == [] then [x]
    else if LexLe(x.id.shortName, s[0].id.shortName) then
      BelowHead(x, s);
      SortedCons(x, s);
      [x] + s
    else
      assert SortedByShortName(s[1..]) by {
        forall i, j | 0 <= i < j < |s| - 1 ensures LexLe(s[1..][i].id.shortName, s[1..][j].id.shortName) {
          assert s[1..][i] == s[i + 1] && s[1..][j] == s[j + 1];
        }
      }
      var tail := Insert(x, s[1..]);
      HeadBelowAll(x, s, tail);
      SortedCons(s[0], tail);
      assert s == [s[0]] + s[1..];
      [s[0]] + tail
  }

  /** sort_values(by = 'idmc_short_name'): sorted, and a permutation. */
  function SortByShortName(s: seq<OutRow>): (r: seq<OutRow>)
    ensures SortedByShortName(r)
    ensures multiset(r) == multiset(s)
  {
    if s == [] then []
    else
      assert s == [s[0]] + s[1..];
      Insert(s[0], SortByShortName(s[1..]))
  }

  /** Lines 138-150 on the normalised rows: themselves, then their Total rows. */
  function Assemble(rows: seq<ResRow>, mapping: map<string, Identity>, labels: seq<string>): seq<OutRow> {
    var annotated := Annotate(StripLocations(rows), mapping);
    annotated + TotalRows(annotated, labels)
  }

  function PopLocations(src: Sources): seq<string> {
    seq(|src.pop|, i requires 0 <= i < |src.pop| => src.pop[i].location)
  }

  /** What makes the run stop: a label no strategy serves, or an override
      code absent from the reference table. */
  datatype RunError = LabelFailure(error: LabelError) | MissingIsoCode

  /** The whole generation run, from the loaded tables to the rows written. */
  method ExecuteGeneration(labels: seq<string>, src: Sources, geo: seq<GeoRow>, overrides: seq<(string, string)>)
    returns (r: Result<seq<OutRow>, RunError>)
    requires HasCanonicalColumns(src) && RatioReady(labels, src) && PositiveTotals(src)
    ensures Resolve(labels, src).Err? ==> r == Err(LabelFailure(Resolve(labels, src).error))
    ensures Resolve(labels, src).Ok? && !OverridesKnown(geo, overrides) ==> r == Err(MissingIsoCode)
    ensures r.Ok? <==> Resolve(labels, src).Ok? && OverridesKnown(geo, overrides)
    ensures r.Ok? ==>
      && Resolve(labels, src).Ok? && OverridesKnown(geo, overrides)
      && SortedByShortName(r.value)
      && multiset(r.value) == multiset(Assemble(
           Normalize(Resolve(labels, src).value, src),
           ReferenceMapping(DataNames(PopLocations(src)), geo, overrides),
           labels))
  {
    var resolved := ResolveLabels(labels, src);
    if resolved.Err? {
      return Err(LabelFailure(resolved.error));
    }
    var pct := Normalize(resolved.value, src);
    var mapping := BuildMapping(PopLocations(src), geo, overrides);
    if mapping.None? {
      return Err(MissingIsoCode);
    }
    var annotated := AnnotateRows(pct, mapping.value);
    r := Ok(SortByShortName(annotated + TotalRows(annotated, labels)));
  }
}
