/** `computePermitStats` (utils/computeStats.js): one counting pass over
    parsed permit records into a total, an "issued" count and three
    histograms keyed by borough, permit type and job type. */
module PermitStats {
  import opened Strings
  import opened ParsePermit

  datatype Stats = Stats(
    total: nat,
    active: nat,
    byBorough: map<string, nat>,
    byPermitType: map<string, nat>,
    byJobType: map<string, nat>)

  /** `(x || fallback) || fallback` for a string field. */
  function OrFallback(x: string, fallback: string): string {
    if x != "" then x else fallback
  }

  function BoroughKey(f: Permit): string { OrFallback(f.borough, "UNKNOWN") }
  function PermitTypeKey(f: Permit): string { OrFallback(f.permitType, "OTHER") }
  function JobTypeKey(f: Permit): string { OrFallback(f.jobType, "OTHER") }

  /** `(f.permitStatus || '').toUpperCase() === 'ISSUED'` */
  predicate IsIssued(f: Permit) { Upper(f.permitStatus) == "ISSUED" }

  function BoroughKeys(fs: seq<Permit>): (ks: seq<string>)
    ensures |ks| == |fs| && forall i :: 0 <= i < |fs| ==> ks[i] == BoroughKey(fs[i])
  {
    seq(|fs|, i requires 0 <= i < |fs| => BoroughKey(fs[i]))
  }

  function PermitTypeKeys(fs: seq<Permit>): (ks: seq<string>)
    ensures |ks| == |fs| && forall i :: 0 <= i < |fs| ==> ks[i] == PermitTypeKey(fs[i])
  {
    seq(|fs|, i requires 0 <= i < |fs| => PermitTypeKey(fs[i]))
  }

  function JobTypeKeys(fs: seq<Permit>): (ks: seq<string>)
    ensures |ks| == |fs| && forall i :: 0 <= i < |fs| ==> ks[i] == JobTypeKey(fs[i])
  {
    seq(|fs|, i requires 0 <= i < |fs| => JobTypeKey(fs[i]))
  }

  /** The number of issued permits among `fs`. */
  function CountIssued(fs: seq<Permit>): nat {
    if fs == [] then 0 else CountIssued(fs[..|fs| - 1]) + (if IsIssued(fs[|fs| - 1]) then 1 else 0)
  }

  /** `m[k] = (m[k] || 0) + 1` */
  function Bump(m: map<string, nat>, k: string): map<string, nat> {
    m[k := (if k in m then m[k] else 0) + 1]
  }

  /** The dictionary the loop builds from a sequence of keys. */
  function Histogram(keys: seq<string>): map<string, nat> {
    if keys == [] then map[] else Bump(Histogram(keys[..|keys| - 1]), keys[|keys| - 1])
  }

  /** What `computePermitStats(fs)` returns. */
  function StatsOf(fs: seq<Permit>): Stats {
    Stats(|fs|, CountIssued(fs), Histogram(BoroughKeys(fs)), Histogram(PermitTypeKeys(fs)),
          Histogram(JobTypeKeys(fs)))
  }

  /** How the summary of a prefix grows by one feature. */
  lemma PrefixStep(fs: seq<Permit>, i: nat)
    requires i < |fs|
    ensures CountIssued(fs[..i + 1]) == CountIssued(fs[..i]) + (if IsIssued(fs[i]) then 1 else 0)
    ensures Histogram(BoroughKeys(fs[..i + 1])) == Bump(Histogram(BoroughKeys(fs[..i])), BoroughKey(fs[i]))
    ensures Histogram(PermitTypeKeys(fs[..i + 1])) == Bump(Histogram(PermitTypeKeys(fs[..i])), PermitTypeKey(fs[i]))
    ensures Histogram(JobTypeKeys(fs[..i + 1])) == Bump(Histogram(JobTypeKeys(fs[..i])), JobTypeKey(fs[i]))
  {
    assert fs[..i + 1][..i] == fs[..i];
    assert BoroughKeys(fs[..i + 1])[..i] == BoroughKeys(fs[..i]);
    assert PermitTypeKeys(fs[..i + 1])[..i] == PermitTypeKeys(fs[..i]);
    assert JobTypeKeys(fs[..i + 1])[..i] == JobTypeKeys(fs[..i]);
  }

  method ComputePermitStats(features: seq<Permit>) returns (stats: Stats)
    ensures stats == StatsOf(features)
  {
    var total, active := 0, 0;
    var byBorough, byPermitType, byJobType := map[], map[], map[];
    var i := 0;
    while i < |features|
      invariant 0 <= i <= |features|
      invariant total == i
      invariant active == CountIssued(features[..i])
      invariant byBorough == Histogram(BoroughKeys(features[..i]))
      invariant byPermitType == Histogram(PermitTypeKeys(features[..i]))
      invariant byJobType == Histogram(JobTypeKeys(features[..i]))
    {
      var f := features[i];
      PrefixStep(features, i);
      total := total + 1;
      if IsIssued(f) {
        active := active + 1;
      }
      byBorough := Bump(byBorough, BoroughKey(f));
      byPermitType := Bump(byPermitType, PermitTypeKey(f));
      byJobType := Bump(byJobType, JobTypeKey(f));
      i := i + 1;
    }
    assert features[..i] == features;
    stats := Stats(total, active, byBorough, byPermitType, byJobType);
  }

  // ---------------------------------------------------------------------------
  // What the counts mean.
  // ---------------------------------------------------------------------------

  /** Empty input gives zero counts and empty dictionaries. */
  lemma StatsOfEmpty()
    ensures StatsOf([]) == Stats(0, 0, map[], map[], map[])
  {
  }

  /** The positions of the issued permits among the first `n`. */
  ghost function IssuedIndices(fs: seq<Permit>, n: nat): set<nat>
    requires n <= |fs|
  {
    set i: nat | i < n && IsIssued(fs[i])
  }

  /** The index set grows by index n - 1 exactly when that permit is issued. */
  lemma IssuedIndicesStep(fs: seq<Permit>, n: nat)
    requires 0 < n <= |fs|
    ensures IssuedIndices(fs, n) == IssuedIndices(fs, n - 1) + (if IsIssued(fs[n - 1]) then {n - 1} else {})
  {
  }

  /** The issued count of a prefix grows by one exactly when its last permit is issued. */
  lemma CountIssuedStep(fs: seq<Permit>, n: nat)
    requires 0 < n <= |fs|
    ensures CountIssued(fs[..n]) == CountIssued(fs[..n - 1]) + (if IsIssued(fs[n - 1]) then 1 else 0)
  {
    assert fs[..n][..n - 1] == fs[..n - 1];
  }

  lemma {:induction false} CountIssuedIndices(fs: seq<Permit>, n: nat)
    requires n <= |fs|
    ensures CountIssued(fs[..n]) == |IssuedIndices(fs, n)| <= n
  {
    if n > 0 {
      CountIssuedIndices(fs, n - 1);
      CountIssuedStep(fs, n);
      IssuedIndicesStep(fs, n);
    }
  }

  /** `active` counts exactly the issued permits, so it never exceeds `total`. */
  lemma ActiveCountsIssued(fs: seq<Permit>)
    ensures StatsOf(fs).active == |set i: nat | i < |fs| && IsIssued(fs[i])|
    ensures StatsOf(fs).active <= StatsOf(fs).total
  {
    CountIssuedIndices(fs, |fs|);
    assert fs[..|fs|] == fs;
  }

  /** A histogram holds, for each key, the number of its occurrences, and no
      key that does not occur: every count present is at least 1. */
  lemma {:induction false} HistogramCounts(keys: seq<string>, k: string)
    ensures k in Histogram(keys) <==> k in multiset(keys)
    ensures k in Histogram(keys) ==> Histogram(keys)[k] == multiset(keys)[k] >= 1
  {
    if keys != [] {
      var n := |keys| - 1;
      HistogramCounts(keys[..n], k);
      assert keys == keys[..n] + [keys[n]];
      assert multiset(keys) == multiset(keys[..n]) + multiset{keys[n]};
    }
  }

  /** The sum of the values of a dictionary of counts. */
  ghost function SumValues(m: map<string, nat>): nat
    decreases |m|
  {
    if m == map[] then 0
    else
      var k :| k in m;
      m[k] + SumValues(m - {k})
  }

  /** Any key can be taken out first: the sum does not depend on the order. */
  lemma {:induction false} SumValuesRemove(m: map<string, nat>, k: string)
    requires k in m
    ensures SumValues(m) == m[k] + SumValues(m - {k})
    decreases |m|
  {
    var j :| j in m && SumValues(m) == m[j] + SumValues(m - {j});
    if j != k {
      var mj, mk := m - {j}, m - {k};
      assert |mj| < |m| && k in mj;
      SumValuesRemove(mj, k);
      assert mj - {k} == mk - {j};
      assert |mk| < |m| && j in mk;
      SumValuesRemove(mk, j);
    }
  }

  lemma SumValuesBump(m: map<string, nat>, k: string)
    ensures SumValues(Bump(m, k)) == SumValues(m) + 1
  {
    var b := Bump(m, k);
    SumValuesRemove(b, k);
    assert b - {k} == m - {k};
    if k in m {
      SumValuesRemove(m, k);
    } else {
      assert m - {k} == m;
    }
  }

  /** The counts of a histogram add up to the number of keys counted. */
  lemma {:induction false} HistogramSum(keys: seq<string>)
    ensures SumValues(Histogram(keys)) == |keys|
  {
    if keys != [] {
      HistogramSum(keys[..|keys| - 1]);
      SumValuesBump(Histogram(keys[..|keys| - 1]), keys[|keys| - 1]);
    }
  }

  /** No feature is dropped: each of the three dictionaries sums to `total`. */
  lemma DictionariesSumToTotal(fs: seq<Permit>)
    ensures SumValues(StatsOf(fs).byBorough) == StatsOf(fs).total
    ensures SumValues(StatsOf(fs).byPermitType) == StatsOf(fs).total
    ensures SumValues(StatsOf(fs).byJobType) == StatsOf(fs).total
  {
    HistogramSum(BoroughKeys(fs));
    HistogramSum(PermitTypeKeys(fs));
    HistogramSum(JobTypeKeys(fs));
  }

  /** `byBorough[k]` is the number of features whose borough key is `k`; a
      feature with an empty borough is counted under "UNKNOWN". */
  lemma BoroughCount(fs: seq<Permit>, k: string)
    ensures k in StatsOf(fs).byBorough <==> exists i :: 0 <= i < |fs| && BoroughKey(fs[i]) == k
    ensures k in StatsOf(fs).byBorough ==>
              StatsOf(fs).byBorough[k] == multiset(BoroughKeys(fs))[k] >= 1
  {
    var ks := BoroughKeys(fs);
    HistogramCounts(ks, k);
    if k in multiset(ks) {
      var i :| 0 <= i < |ks| && ks[i] == k;
    }
  }

  lemma SingleKeyHistogram(k: string)
    ensures Histogram([k]) == map[k := 1]
  {
    assert [k][..0] == [];
    assert Histogram([k]) == Bump(map[], k);
  }

  /** A parsed feature without a borough is counted under "UNKNOWN", one
      without a permit or job type under "OTHER". */
  lemma MissingCategoriesUseFallbacks(f: Permit)
    ensures f.borough == "" ==> BoroughKey(f) == "UNKNOWN"
    ensures f.permitType == "" ==> PermitTypeKey(f) == "OTHER"
    ensures f.jobType == "" ==> JobTypeKey(f) == "OTHER"
    ensures var s := StatsOf([f]);
            s.total == 1 && s.byBorough == map[BoroughKey(f) := 1]
            && s.byPermitType == map[PermitTypeKey(f) := 1] && s.byJobType == map[JobTypeKey(f) := 1]
  {
    assert BoroughKeys([f]) == [BoroughKey(f)] && [BoroughKey(f)][..0] == [];
    assert PermitTypeKeys([f]) == [PermitTypeKey(f)] && [PermitTypeKey(f)][..0] == [];
    assert JobTypeKeys([f]) == [JobTypeKey(f)] && [JobTypeKey(f)][..0] == [];
    SingleKeyHistogram(BoroughKey(f));
    SingleKeyHistogram(PermitTypeKey(f));
    SingleKeyHistogram(JobTypeKey(f));
  }

  /** One more feature adds exactly 1 to `total` and to one key of each
      dictionary and leaves every other count as it was. */
  lemma {:induction false} OneMoreFeature(fs: seq<Permit>, f: Permit, k: string)
    ensures StatsOf(fs + [f]).total == StatsOf(fs).total + 1
    ensures StatsOf(fs + [f]).active == StatsOf(fs).active + (if IsIssued(f) then 1 else 0)
    ensures k != BoroughKey(f) ==>
              (k in StatsOf(fs + [f]).byBorough <==> k in StatsOf(fs).byBorough)
              && (k in StatsOf(fs).byBorough ==> StatsOf(fs + [f]).byBorough[k] == StatsOf(fs).byBorough[k])
    ensures StatsOf(fs + [f]).byBorough[BoroughKey(f)] ==
              (if BoroughKey(f) in StatsOf(fs).byBorough then StatsOf(fs).byBorough[BoroughKey(f)] else 0) + 1
  {
    var gs := fs + [f];
    assert gs[..|gs| - 1] == fs;
    assert BoroughKeys(gs) == BoroughKeys(fs) + [BoroughKey(f)];
    assert BoroughKeys(gs)[..|gs| - 1] == BoroughKeys(fs);
  }

  /** The example of a stats summary: two Brooklyn permits and one without a
      borough. */
  lemma ExampleBoroughs(a: Permit, b: Permit, c: Permit)
    requires a.borough == "BK" && b.borough == "BK" && c.borough == ""
    ensures StatsOf([a, b, c]).total == 3
    ensures StatsOf([a, b, c]).byBorough == map["BK" := 2, "UNKNOWN" := 1]
  {
    var ks := BoroughKeys([a, b, c]);
    assert ks == ["BK", "BK", "UNKNOWN"];
    assert ks[..2] == ["BK", "BK"] && ks[..2][..1] == ["BK"] && ks[..2][..1][..0] == [];
    assert Histogram(ks[..2][..1]) == map["BK" := 1];
    assert Histogram(ks[..2]) == map["BK" := 2];
  }
}
