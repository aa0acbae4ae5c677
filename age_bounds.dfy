/** Age-interval labels ("0-4", "65+") and the matcher that covers a requested
    label with a contiguous run of canonical buckets (automatic_generation.py,
    get_bounds, wrap_bounds, can_be_aggregated). Bounds are compared as
    strings, never as numbers. */
module AgeBounds {
  import opened Wrappers
  import opened Text

  /** An upper bound: a finite bound as written, or unbounded (np.inf). */
  datatype Upper = Fin(bound: string) | Inf

  datatype Bounds = Bounds(lower: string, upper: Upper)

  /** get_bounds: a label holding '+' loses its last character and is
      unbounded above; otherwise it must split at exactly one '-'. The
      ValueError raised by the tuple unpacking is None. */
  function GetBounds(cat: string): (r: Option<Bounds>)
    ensures '+' in cat ==> r == Some(Bounds(cat[..|cat| - 1], Inf))
    ensures '+' !in cat ==> (r.Some? <==> multiset(cat)['-'] == 1)
    ensures '+' !in cat && r.Some? ==>
      && r.value.upper.Fin?
      && cat == r.value.lower + "-" + r.value.upper.bound
      && '-' !in r.value.lower && '-' !in r.value.upper.bound
  {
    if '+' in cat then Some(Bounds(cat[..|cat| - 1], Inf))
    else
      var parts := Split(cat, '-');
      if |parts| == 2 then
        assert Join(parts, '-') == parts[0] + "-" + parts[1];
        Some(Bounds(parts[0], Fin(parts[1])))
      else None
  }

  /** The interval notation: "lo-hi" for a finite upper bound, "lo+" otherwise. */
  function Label(b: Bounds): string {
    match b.upper
    case Fin(hi) => b.lower + "-" + hi
    case Inf => b.lower + "+"
  }

  /** Parsing the notation gives the bounds back, for bounds written without
      '-' and '+'; for an open label the lower bound may be anything. */
  lemma LabelRoundTrip(b: Bounds)
    requires b.upper.Fin? ==> '-' !in b.lower && '+' !in b.lower
    requires b.upper.Fin? ==> '-' !in b.upper.bound && '+' !in b.upper.bound
    ensures GetBounds(Label(b)) == Some(b)
  {
    match b.upper
    case Fin(hi) =>
      var s := b.lower + "-" + hi;
      assert s == Join([b.lower, hi], '-');
      SplitJoin([b.lower, hi], '-');
    case Inf =>
      var s := b.lower + "+";
      assert s[..|s| - 1] == b.lower;
      assert s[|s| - 1] == '+';
  }

  /** Every label parses, positionally; None when one of them does not. */
  function ParseAll(cats: seq<string>): (r: Option<seq<Bounds>>)
    ensures r.Some? <==> forall k :: 0 <= k < |cats| ==> GetBounds(cats[k]).Some?
    ensures r.Some? ==> |r.value| == |cats|
    ensures r.Some? ==> forall k {:trigger GetBounds(cats[k])} :: 0 <= k < |cats| ==> GetBounds(cats[k]) == Some(r.value[k])
  {
    if cats == [] then Some([])
    else
      match (GetBounds(cats[0]), ParseAll(cats[1..]))
      case (Some(b), Some(bs)) =>
        assert forall k :: 1 <= k < |cats| ==> cats[k] == cats[1..][k - 1];
        Some([b] + bs)
      case (None, _) => None
      case (_, None) =>
        assert forall k :: 0 <= k < |cats| - 1 ==> cats[1..][k] == cats[k + 1];
        None
  }

  function Lowers(bs: seq<Bounds>): (r: seq<string>)
    ensures |r| == |bs| && forall k :: 0 <= k < |bs| ==> r[k] == bs[k].lower
  {
    seq(|bs|, k requires 0 <= k < |bs| => bs[k].lower)
  }

  function Uppers(bs: seq<Bounds>): (r: seq<Upper>)
    ensures |r| == |bs| && forall k :: 0 <= k < |bs| ==> r[k] == bs[k].upper
  {
    seq(|bs|, k requires 0 <= k < |bs| => bs[k].upper)
  }

  /** wrap_bounds: one pass over the labels, appending each label's lower and
      upper bound to two lists; None when a label does not parse. */
  method WrapBounds(cats: seq<string>) returns (r: Option<(seq<string>, seq<Upper>)>)
    ensures r.Some? <==> forall k :: 0 <= k < |cats| ==> GetBounds(cats[k]).Some?
    ensures r.Some? ==> |r.value.0| == |cats| && |r.value.1| == |cats|
    ensures r.Some? ==> forall k :: 0 <= k < |cats| ==>
      GetBounds(cats[k]) == Some(Bounds(r.value.0[k], r.value.1[k]))
    ensures r.Some? <==> ParseAll(cats).Some?
    ensures r.Some? ==> r.value == (Lowers(ParseAll(cats).value), Uppers(ParseAll(cats).value))
  {
    var lws: seq<string> := [];
    var ups: seq<Upper> := [];
    for i := 0 to |cats|
      invariant |lws| == i && |ups| == i
      invariant forall k :: 0 <= k < i ==> GetBounds(cats[k]) == Some(Bounds(lws[k], ups[k]))
    {
      var b := GetBounds(cats[i]);
      if b.None? {
        return None;
      }
      lws := lws + [b.value.lower];
      ups := ups + [b.value.upper];
    }
    var bs := ParseAll(cats).value;
    assert lws == Lowers(bs) && ups == Uppers(bs);
    return Some((lws, ups));
  }

  /** can_be_aggregated. None: a bound failed to parse (the exception escapes,
      since both parses stand outside the try). Otherwise the matched run of
      buckets, possibly empty. */
  function CanBeAggregated(ageLabel: string, cats: seq<string>): (r: Option<seq<string>>)
    ensures r.None? <==> ParseAll(cats).None? || GetBounds(ageLabel).None?
    ensures r.Some? ==> |r.value| <= |cats|
    ensures r.Some? ==> forall c :: c in r.value ==> c in cats
  {
    match (ParseAll(cats), GetBounds(ageLabel))
    case (Some(bs), Some(b)) => Some(MatchedRun(cats, bs, b))
    case _ => None
  }

  /** Lines 30-33 on parsed bounds: the slice between the first bucket with
      the label's lower bound and the first with its upper bound, both
      included; empty (the caught case) when either bound is absent. */
  function MatchedRun(cats: seq<string>, bs: seq<Bounds>, b: Bounds): (r: seq<string>)
    requires |bs| == |cats|
    ensures |r| <= |cats|
    ensures forall c :: c in r ==> c in cats
  {
    var lows, ups := Lowers(bs), Uppers(bs);
    if b.lower in lows && b.upper in ups then
      var i, j := IndexOf(lows, b.lower), IndexOf(ups, b.upper);
      if i <= j then
        assert forall c :: c in cats[i..j + 1] ==> c in cats;
        cats[i..j + 1]
      else []
    else []
  }

  /** i is the first canonical bucket whose lower bound is lo. */
  predicate FirstLower(bs: seq<Bounds>, i: int, lo: string) {
    0 <= i < |bs| && bs[i].lower == lo && forall k :: 0 <= k < i ==> bs[k].lower != lo
  }

  /** j is the first canonical bucket whose upper bound is hi. */
  predicate FirstUpper(bs: seq<Bounds>, j: int, hi: Upper) {
    0 <= j < |bs| && bs[j].upper == hi && forall k :: 0 <= k < j ==> bs[k].upper != hi
  }

  /** When both bounds of the label occur among the canonical bounds, the
      result is cats[i..j] inclusive for the FIRST such positions i and j,
      and empty when i > j. */
  lemma AggregateIsFirstMatchSlice(ageLabel: string, cats: seq<string>, bs: seq<Bounds>, b: Bounds, i: int, j: int)
    requires ParseAll(cats) == Some(bs) && GetBounds(ageLabel) == Some(b)
    requires FirstLower(bs, i, b.lower) && FirstUpper(bs, j, b.upper)
    ensures CanBeAggregated(ageLabel, cats) == Some(if i <= j then cats[i..j + 1] else [])
  {
    MatchedRunFirst(cats, bs, b, i, j);
  }

  lemma MatchedRunFirst(cats: seq<string>, bs: seq<Bounds>, b: Bounds, i: int, j: int)
    requires |bs| == |cats|
    requires FirstLower(bs, i, b.lower) && FirstUpper(bs, j, b.upper)
    ensures MatchedRun(cats, bs, b) == if i <= j then cats[i..j + 1] else []
  {
    var lows, ups := Lowers(bs), Uppers(bs);
    assert lows[i] == b.lower && ups[j] == b.upper;
    assert b.lower !in lows[..i];
    assert b.upper !in ups[..j];
    IndexOfIsFirst(lows, b.lower, i);
    IndexOfIsFirst(ups, b.upper, j);
  }

  /** No numeric containment: a label bound that no canonical bound equals as
      written gives the empty list. */
  lemma AggregateEmptyWithoutExactBound(ageLabel: string, cats: seq<string>, bs: seq<Bounds>, b: Bounds)
    requires ParseAll(cats) == Some(bs) && GetBounds(ageLabel) == Some(b)
    requires (forall k :: 0 <= k < |bs| ==> bs[k].lower != b.lower)
          || (forall k :: 0 <= k < |bs| ==> bs[k].upper != b.upper)
    ensures CanBeAggregated(ageLabel, cats) == Some([])
  {
    MatchedRunAbsent(cats, bs, b);
  }

  lemma MatchedRunAbsent(cats: seq<string>, bs: seq<Bounds>, b: Bounds)
    requires |bs| == |cats|
    requires (forall k :: 0 <= k < |bs| ==> bs[k].lower != b.lower)
          || (forall k :: 0 <= k < |bs| ==> bs[k].upper != b.upper)
    ensures MatchedRun(cats, bs, b) == []
  {
    var lows, ups := Lowers(bs), Uppers(bs);
    assert b.lower !in lows || b.upper !in ups;
  }

  /** A non-empty result is a contiguous run of the canonical buckets, in
      canonical order, starting at a bucket with the label's lower bound and
      ending at a bucket with the label's upper bound. */
  lemma AggregateEndpoints(ageLabel: string, cats: seq<string>, r: seq<string>) returns (i: nat)
    requires CanBeAggregated(ageLabel, cats) == Some(r) && r != []
    ensures i + |r| <= |cats| && r == cats[i..i + |r|]
    ensures GetBounds(r[0]).Some? && GetBounds(ageLabel).Some?
    ensures GetBounds(r[0]).value.lower == GetBounds(ageLabel).value.lower
    ensures GetBounds(r[|r| - 1]).Some?
    ensures GetBounds(r[|r| - 1]).value.upper == GetBounds(ageLabel).value.upper
  {
    var bs, b := ParseAll(cats).value, GetBounds(ageLabel).value;
    assert r == MatchedRun(cats, bs, b);
    var j: nat;
    i, j := MatchedRunEnds(cats, bs, b);
    SliceEnds(cats, i, j, r);
    assert GetBounds(cats[i]) == Some(bs[i]);
    assert GetBounds(cats[j]) == Some(bs[j]);
  }

  /** A non-empty matched run spans buckets i..j with the label's lower bound
      at i and its upper bound at j. */
  lemma MatchedRunEnds(cats: seq<string>, bs: seq<Bounds>, b: Bounds) returns (i: nat, j: nat)
    requires |bs| == |cats| && MatchedRun(cats, bs, b) != []
    ensures i <= j < |cats| && MatchedRun(cats, bs, b) == cats[i..j + 1]
    ensures bs[i].lower == b.lower && bs[j].upper == b.upper
  {
    var lows, ups := Lowers(bs), Uppers(bs);
    assert b.lower in lows && b.upper in ups;
    j := IndexOf(ups, b.upper);
    i := IndexOf(lows, b.lower);
  }

  lemma SliceEnds<T>(s: seq<T>, i: nat, j: nat, r: seq<T>)
    requires i <= j < |s| && r == s[i..j + 1]
    ensures i + |r| <= |s| && r == s[i..i + |r|]
    ensures r[0] == s[i] && r[|r| - 1] == s[j]
  {
  }

  /** Worked case: a bucket with two '-' stops the run rather than being
      skipped. */
  lemma AggregateExampleMalformed()
    ensures CanBeAggregated("0-4", ["0-4", "5-9-1"]).None?
  {
    assert multiset("5-9-1")['-'] == 2;
    assert GetBounds("5-9-1").None?;
  }
}
