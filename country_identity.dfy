/** Country identity resolution (automatic_generation.py:89-128): every
    stripped location name is matched against the reference table's full
    names, then the names still unmatched against its short names, and a
    fixed override list of (name, iso3) pairs is applied last. */
module CountryIdentity {
  import opened Wrappers
  import opened Text

  /** A row of the geographic reference table. */
  datatype GeoRow = GeoRow(fullName: string, shortName: string, iso3: string, region: string)

  /** The canonical identity a name resolves to: iso3, short name, region. */
  datatype Identity = Identity(iso3: string, shortName: string, region: string)

  function FullNames(geo: seq<GeoRow>): (r: seq<string>)
    ensures |r| == |geo| && forall k :: 0 <= k < |geo| ==> r[k] == geo[k].fullName
  {
    seq(|geo|, k requires 0 <= k < |geo| => geo[k].fullName)
  }

  function ShortNames(geo: seq<GeoRow>): (r: seq<string>)
    ensures |r| == |geo| && forall k :: 0 <= k < |geo| ==> r[k] == geo[k].shortName
  {
    seq(|geo|, k requires 0 <= k < |geo| => geo[k].shortName)
  }

  function IsoCodes(geo: seq<GeoRow>): (r: seq<string>)
    ensures |r| == |geo| && forall k :: 0 <= k < |geo| ==> r[k] == geo[k].iso3
  {
    seq(|geo|, k requires 0 <= k < |geo| => geo[k].iso3)
  }

  /** k is the first reference row whose column value is x. */
  predicate FirstRow(column: seq<string>, k: int, x: string) {
    0 <= k < |column| && column[k] == x && forall j :: 0 <= j < k ==> column[j] != x
  }

  /** Lines 101-105: the first row with that full name gives all three fields. */
  function ByFullName(geo: seq<GeoRow>, name: string): Identity
    requires name in FullNames(geo)
  {
    var k := IndexOf(FullNames(geo), name);
    Identity(geo[k].iso3, geo[k].shortName, geo[k].region)
  }

  /** Lines 112-115: the first row with that short name gives iso3 and region;
      the name itself is kept as the short name. */
  function ByShortName(geo: seq<GeoRow>, name: string): Identity
    requires name in ShortNames(geo)
  {
    var k := IndexOf(ShortNames(geo), name);
    Identity(geo[k].iso3, name, geo[k].region)
  }

  /** Lines 125-128: the first row with that iso3 gives short name and region. */
  function ByIso(geo: seq<GeoRow>, code: string): Identity
    requires code in IsoCodes(geo)
  {
    var k := IndexOf(IsoCodes(geo), code);
    Identity(code, geo[k].shortName, geo[k].region)
  }

  /** Each lookup reads the first reference row holding its key. */
  lemma LookupsReadFirstRow(geo: seq<GeoRow>, x: string)
    ensures x in FullNames(geo) ==>
      exists k :: (FirstRow(FullNames(geo), k, x) && ByFullName(geo, x) == Identity(geo[k].iso3, geo[k].shortName, geo[k].region))
    ensures x in ShortNames(geo) ==>
      exists k :: (FirstRow(ShortNames(geo), k, x) && ByShortName(geo, x) == Identity(geo[k].iso3, x, geo[k].region))
    ensures x in IsoCodes(geo) ==>
      exists k :: (FirstRow(IsoCodes(geo), k, x) && ByIso(geo, x) == Identity(x, geo[k].shortName, geo[k].region))
  {
    FirstOfIndexOf(FullNames(geo), x);
    FirstOfIndexOf(ShortNames(geo), x);
    FirstOfIndexOf(IsoCodes(geo), x);
  }

  lemma FirstOfIndexOf(column: seq<string>, x: string)
    ensures x in column ==> FirstRow(column, IndexOf(column, x), x)
  {
    if x in column {
      var k := IndexOf(column, x);
      forall j | 0 <= j < k ensures column[j] != x {
        assert column[..k][j] == column[j];
      }
    }
  }

  lemma FirstRowIsIndexOf(column: seq<string>, k: int, x: string)
    requires FirstRow(column, k, x)
    ensures x in column && IndexOf(column, x) == k
  {
    assert x !in column[..k];
    IndexOfIsFirst(column, x, k);
  }

  /** The code the override list gives a name: that of its LAST pair, since
      each pair overwrites the entry (line 128). */
  function OverrideFor(overrides: seq<(string, string)>, name: string): (r: Option<string>)
    ensures r.None? <==> forall i :: 0 <= i < |overrides| ==> overrides[i].0 != name
    ensures r.Some? ==> (name, r.value) in overrides
  {
    if overrides == [] then None
    else
      var n := |overrides| - 1;
      assert forall i :: 0 <= i < n ==> overrides[..n][i] == overrides[i];
      if overrides[n].0 == name then Some(overrides[n].1)
      else OverrideFor(overrides[..n], name)
  }

  lemma {:induction false} OverrideForIsLast(overrides: seq<(string, string)>, name: string, i: int)
    requires 0 <= i < |overrides| && overrides[i].0 == name
    requires forall j :: i < j < |overrides| ==> overrides[j].0 != name
    ensures OverrideFor(overrides, name) == Some(overrides[i].1)
  {
    var n := |overrides| - 1;
    if i < n {
      assert overrides[..n][i] == overrides[i];
      OverrideForIsLast(overrides[..n], name, i);
    }
  }

  /** Every override code names a reference row; otherwise line 126 raises. */
  predicate OverridesKnown(geo: seq<GeoRow>, overrides: seq<(string, string)>) {
    forall i :: 0 <= i < |overrides| ==> overrides[i].1 in IsoCodes(geo)
  }

  function OverrideNames(overrides: seq<(string, string)>): set<string> {
    set i | 0 <= i < |overrides| :: overrides[i].0
  }

  /** Reference definition of the mapping, one name at a time: an override
      wins; otherwise a name of the data found among the full names, then
      among the short names; otherwise the name is left out. */
  function ResolveName(name: string, names: set<string>, geo: seq<GeoRow>, overrides: seq<(string, string)>): Option<Identity>
    requires OverridesKnown(geo, overrides)
  {
    match OverrideFor(overrides, name)
    case Some(code) => Some(ByIso(geo, code))
    case None =>
      if name in names && name in FullNames(geo) then Some(ByFullName(geo, name))
      else if name in names && name in ShortNames(geo) then Some(ByShortName(geo, name))
      else None
  }

  /** The mapping dict after line 128, defined name by name. */
  function ReferenceMapping(names: set<string>, geo: seq<GeoRow>, overrides: seq<(string, string)>): (m: map<string, Identity>)
    requires OverridesKnown(geo, overrides)
  {
    map n | n in names + OverrideNames(overrides) && ResolveName(n, names, geo, overrides).Some? ::
      ResolveName(n, names, geo, overrides).value
  }

  /** The keys of the mapping are exactly the names that resolve. */
  lemma ReferenceMappingKeys(names: set<string>, geo: seq<GeoRow>, overrides: seq<(string, string)>, name: string)
    requires OverridesKnown(geo, overrides)
    ensures name in ReferenceMapping(names, geo, overrides) <==> ResolveName(name, names, geo, overrides).Some?
    ensures name in ReferenceMapping(names, geo, overrides) ==>
      ReferenceMapping(names, geo, overrides)[name] == ResolveName(name, names, geo, overrides).value
  {
    match OverrideFor(overrides, name)
    case Some(code) =>
      var i :| 0 <= i < |overrides| && overrides[i] == (name, code);
      assert name in OverrideNames(overrides);
    case None =>
  }

  /** Stage isolation: a data name found among the full names (and not
      overridden) takes the three fields of the FIRST reference row with that
      full name, and never reaches the short-name stage. */
  lemma FullNameStage(name: string, names: set<string>, geo: seq<GeoRow>, overrides: seq<(string, string)>, k: int)
    requires OverridesKnown(geo, overrides)
    requires name in names && OverrideFor(overrides, name).None?
    requires FirstRow(FullNames(geo), k, name)
    ensures ResolveName(name, names, geo, overrides) == Some(Identity(geo[k].iso3, geo[k].shortName, geo[k].region))
  {
    FirstRowIsIndexOf(FullNames(geo), k, name);
  }

  /** A data name absent from the full names but present among the short
      names keeps itself as the short name and takes iso3 and region of the
      first reference row with that short name. */
  lemma ShortNameStage(name: string, names: set<string>, geo: seq<GeoRow>, overrides: seq<(string, string)>, k: int)
    requires OverridesKnown(geo, overrides)
    requires name in names && OverrideFor(overrides, name).None?
    requires forall j :: 0 <= j < |geo| ==> geo[j].fullName != name
    requires FirstRow(ShortNames(geo), k, name)
    ensures ResolveName(name, names, geo, overrides) == Some(Identity(geo[k].iso3, name, geo[k].region))
  {
    assert name !in FullNames(geo);
    FirstRowIsIndexOf(ShortNames(geo), k, name);
  }

  /** An overridden name takes the code of its last override pair, and short
      name and region of the first reference row with that iso3, whatever
      the earlier stages found and even if the data lacks the name. */
  lemma OverrideStage(name: string, names: set<string>, geo: seq<GeoRow>, overrides: seq<(string, string)>, i: int, k: int)
    requires OverridesKnown(geo, overrides)
    requires 0 <= i < |overrides| && overrides[i].0 == name
    requires forall j :: i < j < |overrides| ==> overrides[j].0 != name
    requires FirstRow(IsoCodes(geo), k, overrides[i].1)
    ensures ResolveName(name, names, geo, overrides) == Some(Identity(overrides[i].1, geo[k].shortName, geo[k].region))
  {
    OverrideForIsLast(overrides, name, i);
    FirstRowIsIndexOf(IsoCodes(geo), k, overrides[i].1);
  }

  /** A name is left out exactly when no stage knows it. */
  lemma UnresolvedName(name: string, names: set<string>, geo: seq<GeoRow>, overrides: seq<(string, string)>)
    requires OverridesKnown(geo, overrides)
    ensures ResolveName(name, names, geo, overrides).None? <==>
      && (forall i :: 0 <= i < |overrides| ==> overrides[i].0 != name)
      && (name !in names || forall j :: 0 <= j < |geo| ==> geo[j].fullName != name && geo[j].shortName != name)
  {
    if name in names && OverrideFor(overrides, name).None? {
      if name in FullNames(geo) {
        var j := IndexOf(FullNames(geo), name);
        assert geo[j].fullName == name;
      } else if name in ShortNames(geo) {
        var j := IndexOf(ShortNames(geo), name);
        assert geo[j].shortName == name;
      } else {
        assert forall j :: 0 <= j < |geo| ==> geo[j].fullName != name && geo[j].shortName != name by {
          forall j | 0 <= j < |geo| ensures geo[j].fullName != name && geo[j].shortName != name {
            assert FullNames(geo)[j] == geo[j].fullName && ShortNames(geo)[j] == geo[j].shortName;
          }
        }
      }
    }
  }

  /** Lines 98-105: names found among the full names, and the rest. */
  method MatchFullNames(names: set<string>, geo: seq<GeoRow>) returns (mapping: map<string, Identity>, rest: set<string>)
    ensures mapping == (map n | n in names && n in FullNames(geo) :: ByFullName(geo, n))
    ensures rest == set n | n in names && n !in FullNames(geo)
  {
    var inter := set n | n in names && n in FullNames(geo);
    rest := set n | n in names && n !in FullNames(geo);
    mapping := map[];
    var todo := inter;
    while todo != {}
      invariant todo <= inter
      invariant mapping == FullMatches(geo, inter - todo)
      decreases todo
    {
      var n :| n in todo;
      FullMatchesAdd(geo, inter - todo, n);
      assert inter - (todo - {n}) == (inter - todo) + {n};
      mapping := mapping[n := ByFullName(geo, n)];
      todo := todo - {n};
    }
    assert inter - todo == inter;
    FullMatchesOf(geo, names);
  }

  /** The full-name entries of the given names. */
  function FullMatches(geo: seq<GeoRow>, done: set<string>): map<string, Identity>
    requires forall n :: n in done ==> n in FullNames(geo)
  {
    map n | n in done :: ByFullName(geo, n)
  }

  lemma FullMatchesOf(geo: seq<GeoRow>, names: set<string>)
    ensures FullMatches(geo, set n | n in names && n in FullNames(geo))
      == map n | n in names && n in FullNames(geo) :: ByFullName(geo, n)
  {
  }

  lemma FullMatchesAdd(geo: seq<GeoRow>, done: set<string>, n: string)
    requires forall m :: m in done ==> m in FullNames(geo)
    requires n in FullNames(geo)
    ensures FullMatches(geo, done + {n}) == FullMatches(geo, done)[n := ByFullName(geo, n)]
  {
  }

  /** Lines 108-115: of the remaining names, those found among the short names. */
  method MatchShortNames(mapping: map<string, Identity>, rest: set<string>, geo: seq<GeoRow>)
    returns (mapping': map<string, Identity>, rest': set<string>)
    ensures mapping' == mapping + (map n | n in rest && n in ShortNames(geo) :: ByShortName(geo, n))
    ensures rest' == set n | n in rest && n !in ShortNames(geo)
  {
    var inter := set n | n in rest && n in ShortNames(geo);
    rest' := set n | n in rest && n !in ShortNames(geo);
    var added: map<string, Identity> := map[];
    var todo := inter;
    while todo != {}
      invariant todo <= inter
      invariant added == ShortMatches(geo, inter - todo)
      decreases todo
    {
      var n :| n in todo;
      ShortMatchesAdd(geo, inter - todo, n);
      assert inter - (todo - {n}) == (inter - todo) + {n};
      added := added[n := ByShortName(geo, n)];
      todo := todo - {n};
    }
    assert inter - todo == inter;
    ShortMatchesOf(geo, rest);
    mapping' := mapping + added;
  }

  /** The short-name entries of the given names. */
  function ShortMatches(geo: seq<GeoRow>, done: set<string>): map<string, Identity>
    requires forall n :: n in done ==> n in ShortNames(geo)
  {
    map n | n in done :: ByShortName(geo, n)
  }

  lemma ShortMatchesOf(geo: seq<GeoRow>, rest: set<string>)
    ensures ShortMatches(geo, set n | n in rest && n in ShortNames(geo))
      == map n | n in rest && n in ShortNames(geo) :: ByShortName(geo, n)
  {
  }

  lemma ShortMatchesAdd(geo: seq<GeoRow>, done: set<string>, n: string)
    requires forall m :: m in done ==> m in ShortNames(geo)
    requires n in ShortNames(geo)
    ensures ShortMatches(geo, done + {n}) == ShortMatches(geo, done)[n := ByShortName(geo, n)]
  {
  }

  /** One entry once the given override pairs have been applied in order. */
  function EntryAfter(mapping: map<string, Identity>, geo: seq<GeoRow>, overrides: seq<(string, string)>, n: string): Identity
    requires OverridesKnown(geo, overrides)
    requires n in mapping || n in OverrideNames(overrides)
  {
    match OverrideFor(overrides, n)
    case Some(code) => ByIso(geo, code)
    case None =>
      if n in mapping then mapping[n]
      else assert false; Identity("", "", "")
  }

  /** The mapping once the given override pairs have been applied in order. */
  function Overridden(mapping: map<string, Identity>, geo: seq<GeoRow>, overrides: seq<(string, string)>): map<string, Identity>
    requires OverridesKnown(geo, overrides)
  {
    map n | n in mapping.Keys + OverrideNames(overrides) :: EntryAfter(mapping, geo, overrides, n)
  }

  /** Lines 123-128: each override pair sets its name's entry from the first
      reference row with its code; a code without such a row raises, which is
      None. */
  method ApplyOverrides(mapping: map<string, Identity>, geo: seq<GeoRow>, overrides: seq<(string, string)>)
    returns (r: Option<map<string, Identity>>)
    ensures r.Some? <==> OverridesKnown(geo, overrides)
    ensures r.Some? ==> OverridesKnown(geo, overrides) && r.value == Overridden(mapping, geo, overrides)
  {
    var m := mapping;
    for i := 0 to |overrides|
      invariant OverridesKnown(geo, overrides[..i])
      invariant m == Overridden(mapping, geo, overrides[..i])
    {
      var (name, code) := overrides[i];
      if code !in IsoCodes(geo) {
        return None;
      }
      m := m[name := ByIso(geo, code)];
      OverriddenStep(mapping, geo, overrides, i);
    }
    assert overrides[..|overrides|] == overrides;
    return Some(m);
  }

  lemma OverriddenStep(mapping: map<string, Identity>, geo: seq<GeoRow>, overrides: seq<(string, string)>, i: int)
    requires 0 <= i < |overrides| && OverridesKnown(geo, overrides[..i]) && overrides[i].1 in IsoCodes(geo)
    ensures OverridesKnown(geo, overrides[..i + 1])
    ensures Overridden(mapping, geo, overrides[..i + 1])
      == Overridden(mapping, geo, overrides[..i])[overrides[i].0 := ByIso(geo, overrides[i].1)]
  {
    var pre, post := overrides[..i], overrides[..i + 1];
    var name, code := overrides[i].0, overrides[i].1;
    assert post == pre + [(name, code)];
    OverrideNamesSnoc(pre, name, code);
    var a := Overridden(mapping, geo, post);
    var b := Overridden(mapping, geo, pre)[name := ByIso(geo, code)];
    assert a.Keys == b.Keys;
    forall n | n in a ensures a[n] == b[n] {
      EntryAfterSnoc(mapping, geo, pre, name, code, n);
    }
  }

  lemma EntryAfterSnoc(mapping: map<string, Identity>, geo: seq<GeoRow>, pre: seq<(string, string)>, name: string, code: string, n: string)
    requires OverridesKnown(geo, pre) && code in IsoCodes(geo) && OverridesKnown(geo, pre + [(name, code)])
    requires n in mapping || n in OverrideNames(pre) || n == name
    ensures OverrideNames(pre + [(name, code)]) == OverrideNames(pre) + {name}
    ensures EntryAfter(mapping, geo, pre + [(name, code)], n)
      == if n == name then ByIso(geo, code) else EntryAfter(mapping, geo, pre, n)
  {
    OverrideNamesSnoc(pre, name, code);
    OverrideForSnoc(pre, name, code, n);
  }

  lemma OverrideNamesSnoc(pre: seq<(string, string)>, name: string, code: string)
    ensures OverrideNames(pre + [(name, code)]) == OverrideNames(pre) + {name}
  {
    var post := pre + [(name, code)];
    assert forall j :: 0 <= j < |pre| ==> post[j] == pre[j];
    assert post[|pre|] == (name, code);
  }

  lemma OverrideForSnoc(pre: seq<(string, string)>, name: string, code: string, n: string)
    ensures OverrideFor(pre + [(name, code)], n) == if n == name then Some(code) else OverrideFor(pre, n)
  {
    assert (pre + [(name, code)])[..|pre|] == pre;
  }

  /** The mapping the first two stages leave: full-name matches, then
      short-name matches among the names the first stage left over. */
  function StagedMapping(names: set<string>, geo: seq<GeoRow>): map<string, Identity> {
    (map n | n in names && n in FullNames(geo) :: ByFullName(geo, n))
    + (map n | n in names && n !in FullNames(geo) && n in ShortNames(geo) :: ByShortName(geo, n))
  }

  /** The three stages, run in order, build the reference mapping. */
  lemma StagesMatchReference(names: set<string>, geo: seq<GeoRow>, overrides: seq<(string, string)>)
    requires OverridesKnown(geo, overrides)
    ensures Overridden(StagedMapping(names, geo), geo, overrides) == ReferenceMapping(names, geo, overrides)
  {
    var a := Overridden(StagedMapping(names, geo), geo, overrides);
    var b := ReferenceMapping(names, geo, overrides);
    forall n
      ensures n in a <==> n in b
      ensures n in a ==> a[n] == b[n]
    {
      ReferenceMappingKeys(names, geo, overrides, n);
      StagedEntry(names, geo, overrides, n);
    }
    assert a.Keys == b.Keys;
  }

  /** One name: it has an entry after the three stages exactly when it
      resolves, and the entry is what it resolves to. */
  lemma StagedEntry(names: set<string>, geo: seq<GeoRow>, overrides: seq<(string, string)>, n: string)
    requires OverridesKnown(geo, overrides)
    ensures n in Overridden(StagedMapping(names, geo), geo, overrides) <==> ResolveName(n, names, geo, overrides).Some?
    ensures n in Overridden(StagedMapping(names, geo), geo, overrides) ==>
      Overridden(StagedMapping(names, geo), geo, overrides)[n] == ResolveName(n, names, geo, overrides).value
  {
    if OverrideFor(overrides, n).Some? {
      var i :| 0 <= i < |overrides| && overrides[i] == (n, OverrideFor(overrides, n).value);
      assert n in OverrideNames(overrides);
    }
  }

  lemma StagesCompose(names: set<string>, geo: seq<GeoRow>, m1: map<string, Identity>, rest: set<string>, m2: map<string, Identity>)
    requires m1 == (map n | n in names && n in FullNames(geo) :: ByFullName(geo, n))
    requires rest == set n | n in names && n !in FullNames(geo)
    requires m2 == m1 + (map n | n in rest && n in ShortNames(geo) :: ByShortName(geo, n))
    ensures m2 == StagedMapping(names, geo)
  {
    var short := map n | n in rest && n in ShortNames(geo) :: ByShortName(geo, n);
    var short' := map n | n in names && n !in FullNames(geo) && n in ShortNames(geo) :: ByShortName(geo, n);
    assert short.Keys == short'.Keys;
    assert short == short';
  }

  /** The distinct location names of the data, stripped (lines 90-92). */
  function DataNames(locations: seq<string>): (r: set<string>)
    ensures forall x :: x in r ==> Strip(x) == x
    ensures forall l :: l in locations ==> Strip(l) in r
    ensures forall x :: x in r ==> exists l :: l in locations && x == Strip(l)
  {
    var r := set l | l in locations :: Strip(l);
    forall x | x in r ensures Strip(x) == x {
      var l :| l in locations && x == Strip(l);
      StripIdempotent(l);
    }
    r
  }

  /** Lines 89-128: the whole mapping, or None when an override code is
      missing from the reference table. */
  method BuildMapping(locations: seq<string>, geo: seq<GeoRow>, overrides: seq<(string, string)>)
    returns (r: Option<map<string, Identity>>)
    ensures r.Some? <==> OverridesKnown(geo, overrides)
    ensures r.Some? ==> OverridesKnown(geo, overrides) && r.value == ReferenceMapping(DataNames(locations), geo, overrides)
  {
    var names := DataNames(locations);
    var m1, rest := MatchFullNames(names, geo);
    var m2, rest2 := MatchShortNames(m1, rest, geo);
    StagesCompose(names, geo, m1, rest, m2);
    r := ApplyOverrides(m2, geo, overrides);
    if r.Some? {
      StagesMatchReference(names, geo, overrides);
    }
  }

  /** The five overrides of lines 123-124. */
  const ManualOverrides: seq<(string, string)> := [
    ("China, Hong Kong SAR", "HKG"), ("China, Macao SAR", "MAC"),
    ("China, Taiwan Province of China", "TWN"), ("Dem. People's Republic of Korea", "PRK"),
    ("Micronesia (Fed. States of)", "FSM")]

  /** The five override names are distinct, so each one is given the code
      zipped with it at line 125. */
  lemma ManualOverridesLookup()
    ensures forall i :: 0 <= i < |ManualOverrides| ==>
      OverrideFor(ManualOverrides, ManualOverrides[i].0) == Some(ManualOverrides[i].1)
  {
    forall i | 0 <= i < |ManualOverrides|
      ensures OverrideFor(ManualOverrides, ManualOverrides[i].0) == Some(ManualOverrides[i].1)
    {
      OverrideForIsLast(ManualOverrides, ManualOverrides[i].0, i);
    }
  }
}
