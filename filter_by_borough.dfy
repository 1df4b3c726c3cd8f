/** `filterByBorough` (utils/filterByBorough.js): the permit records of one
    borough, chosen by a short borough code that is expanded to the full
    borough name. */
module BoroughFilter {
  import opened Strings
  import opened JsValues
  import opened ParsePermit
  import opened Sequences

  /** `shortToFull` */
  const ShortToFull: map<string, string> := map[
    "MN" := "MANHATTAN",
    "BK" := "BROOKLYN",
    "BX" := "BRONX",
    "QN" := "QUEENS",
    "SI" := "STATEN ISLAND"
  ]

  /** `shortToFull[code] || code`: every name in the table is non-empty, so a
      known code always expands. */
  function FullName(code: string): (full: string)
    ensures code in ShortToFull ==> full == ShortToFull[code]
    ensures code !in ShortToFull ==> full == code
  {
    if code in ShortToFull && ShortToFull[code] != "" then ShortToFull[code] else code
  }

  /** `(f.borough || '').toUpperCase() === full` */
  predicate InBorough(f: Permit, full: string) {
    Upper(f.borough) == full
  }

  /** `features.filter(f => InBorough(f, full))` */
  function Select(features: seq<Permit>, full: string): seq<Permit> {
    if features == [] then []
    else
      var rest := Select(features[..|features| - 1], full);
      var f := features[|features| - 1];
      if InBorough(f, full) then rest + [f] else rest
  }

  /** `filterByBorough(features, code)`; `None` and `Some("")` stand for a
      falsy code (`null`, `undefined`, `''`). */
  function FilterByBorough(features: seq<Permit>, code: Option<string>): seq<Permit> {
    if code.None? || code.value == "" then features
    else Select(features, FullName(code.value))
  }

  // ---------------------------------------------------------------------------
  // What the result is.
  // ---------------------------------------------------------------------------

  /** The selection keeps the input order and leaves elements out, no more:
      an order-preserving subsequence, so never longer than the input. */
  lemma {:induction false} SelectIsSubsequence(features: seq<Permit>, full: string)
    ensures IsSubsequence(Select(features, full), features)
    ensures |Select(features, full)| <= |features|
  {
    if features != [] {
      var init := features[..|features| - 1];
      var f := features[|features| - 1];
      SelectIsSubsequence(init, full);
      var rest := Select(init, full);
      if InBorough(f, full) {
        var r := rest + [f];
        assert r[..|r| - 1] == rest;
      } else {
        SubsequenceOfLonger(rest, init, f);
      }
    }
    SubsequenceIsShorter(Select(features, full), features);
  }

  /** The selection holds each feature of the borough as many times as the
      input does, and nothing else. */
  lemma {:induction false} SelectCounts(features: seq<Permit>, full: string, f: Permit)
    ensures multiset(Select(features, full))[f] == if InBorough(f, full) then multiset(features)[f] else 0
  {
    if features != [] {
      var init := features[..|features| - 1];
      var last := features[|features| - 1];
      SelectCounts(init, full, f);
      assert features == init + [last];
      assert multiset(features) == multiset(init) + multiset{last};
      var rest := Select(init, full);
      if InBorough(last, full) {
        assert multiset(rest + [last]) == multiset(rest) + multiset{last};
      }
    }
  }

  lemma {:induction false} SelectAllMatch(features: seq<Permit>, full: string)
    ensures forall i :: 0 <= i < |Select(features, full)| ==> InBorough(Select(features, full)[i], full)
  {
    if features != [] {
      SelectAllMatch(features[..|features| - 1], full);
    }
  }

  lemma {:induction false} SelectKeepsMatching(features: seq<Permit>, full: string)
    requires forall i :: 0 <= i < |features| ==> InBorough(features[i], full)
    ensures Select(features, full) == features
  {
    if features != [] {
      var init := features[..|features| - 1];
      SelectKeepsMatching(init, full);
      assert init + [features[|features| - 1]] == features;
    }
  }

  /** `filterByBorough` returns exactly the features whose upper-cased borough
      is the full name of the code, in input order; with no code, the whole
      input. */
  lemma FilterByBoroughResult(features: seq<Permit>, code: Option<string>, f: Permit)
    ensures code.None? || code.value == "" ==> FilterByBorough(features, code) == features
    ensures code.Some? && code.value != "" ==>
              multiset(FilterByBorough(features, code))[f]
              == if InBorough(f, FullName(code.value)) then multiset(features)[f] else 0
    ensures IsSubsequence(FilterByBorough(features, code), features)
    ensures |FilterByBorough(features, code)| <= |features|
  {
    if code.None? || code.value == "" {
      IsSubsequenceReflexive(features);
    } else {
      SelectCounts(features, FullName(code.value), f);
      SelectIsSubsequence(features, FullName(code.value));
    }
  }

  /** Filtering a filtered list again with the same code changes nothing. */
  lemma FilterByBoroughIdempotent(features: seq<Permit>, code: Option<string>)
    ensures FilterByBorough(FilterByBorough(features, code), code) == FilterByBorough(features, code)
  {
    if code.Some? && code.value != "" {
      var full := FullName(code.value);
      SelectAllMatch(features, full);
      SelectKeepsMatching(Select(features, full), full);
    }
  }

  /** `MN`, `BK`, `BX`, `QN` and `SI` select by their full names; any other
      code is compared as it is. */
  lemma ShortCodesExpand()
    ensures FullName("MN") == "MANHATTAN" && FullName("BK") == "BROOKLYN"
    ensures FullName("BX") == "BRONX" && FullName("QN") == "QUEENS"
    ensures FullName("SI") == "STATEN ISLAND"
    ensures forall c :: c !in ShortToFull ==> FullName(c) == c
  {
  }

  /** Records from `parsePermitFeature` already have upper-cased boroughs, so
      for them the filter is a plain comparison of the borough field. */
  lemma ParsedRecordsCompareDirectly(f: JsValue, parseFloat: string -> Number, full: string)
    requires !IsNullish(f)
    ensures InBorough(ParsePermitFeature(f, parseFloat), full) <==> ParsePermitFeature(f, parseFloat).borough == full
  {
    UpperCasedIsFixed(ParsePermitFeature(f, parseFloat).borough);
  }
}
