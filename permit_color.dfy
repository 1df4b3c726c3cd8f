/** `getPermitColor` (utils/getPermitColor.js): the display colour of a
    permit type, looked up in a fixed table of two-letter codes by exact
    match, then by prefix in table order, then a default grey. */
module PermitColor {
  import opened Strings
  import opened JsValues

  /** `permitColors`, in the order `Object.keys` lists it. */
  const PermitColors: seq<(string, string)> := [
    ("PL", "#e67e22"),
    ("EW", "#2e86c1"),
    ("NB", "#27ae60"),
    ("AL", "#8e44ad"),
    ("FO", "#c0392b"),
    ("EQ", "#34495e"),
    ("DM", "#ffffff"),
    ("SG", "#7f5315")
  ]

  const DefaultColor := "#7f8c8d"

  predicate IsTableColor(c: string) {
    exists i :: 0 <= i < |PermitColors| && PermitColors[i].1 == c
  }

  /** `permitColors[t]`, `None` for `undefined`. */
  function Lookup(t: string): (r: Option<string>)
    ensures r.Some? ==> exists i :: 0 <= i < |PermitColors| && PermitColors[i] == (t, r.value)
    ensures r.None? ==> forall i :: 0 <= i < |PermitColors| ==> PermitColors[i].0 != t
  {
    LookupIn(PermitColors, t)
  }

  function LookupIn(table: seq<(string, string)>, t: string): (r: Option<string>)
    ensures r.Some? ==> exists i :: 0 <= i < |table| && table[i] == (t, r.value)
    ensures r.None? ==> forall i :: 0 <= i < |table| ==> table[i].0 != t
  {
    if table == [] then None
    else if table[0].0 == t then Some(table[0].1)
    else LookupIn(table[1..], t)
  }

  /** `Object.keys(permitColors).find(k => t.indexOf(k) === 0)` */
  function FindPrefixKey(table: seq<(string, string)>, t: string): (r: Option<nat>)
    ensures r.Some? ==> r.value < |table| && StartsWith(t, table[r.value].0)
                        && forall j :: 0 <= j < r.value ==> !StartsWith(t, table[j].0)
    ensures r.None? ==> forall j :: 0 <= j < |table| ==> !StartsWith(t, table[j].0)
  {
    if table == [] then None
    else if StartsWith(t, table[0].0) then Some(0)
    else
      match FindPrefixKey(table[1..], t)
      case None => None
      case Some(j) => Some(j + 1)
  }

  /** `permitType.toString().toUpperCase().trim()` */
  function Normalize(permitType: JsValue): string {
    Trim(Upper(ToStr(permitType)))
  }

  function GetPermitColor(permitType: JsValue): (color: string)
    ensures color == DefaultColor || IsTableColor(color)
    ensures !Truthy(permitType) ==> color == DefaultColor
  {
    if !Truthy(permitType) then DefaultColor else ColorOfText(Normalize(permitType))
  }

  /** The table search on the normalised text `t`. */
  function ColorOfText(t: string): (color: string)
    ensures color == DefaultColor || IsTableColor(color)
  {
    match Lookup(t)
    case Some(c) => c
    case None =>
      match FindPrefixKey(PermitColors, t)
      case Some(i) => PermitColors[i].1
      case None => DefaultColor
  }

  // ---------------------------------------------------------------------------
  // Properties of the table and the lookup.
  // ---------------------------------------------------------------------------

  /** The keys are distinct two-letter codes, so at most one of them is a
      prefix of any string. */
  lemma KeysArePrefixFree(t: string, i: nat, j: nat)
    requires i < |PermitColors| && j < |PermitColors|
    requires StartsWith(t, PermitColors[i].0) && StartsWith(t, PermitColors[j].0)
    ensures i == j
  {
    assert forall k :: 0 <= k < |PermitColors| ==> |PermitColors[k].0| == 2;
    assert t[..2] == PermitColors[i].0 == PermitColors[j].0;
  }

  /** The colour of a permit type is the colour of the one key that begins
      its normalised text, whatever the order of the table; the default when
      no key does. An exact match is the case where the key is the whole text. */
  lemma {:induction false} ColorOfKeyPrefix(permitType: JsValue, i: nat)
    requires Truthy(permitType) && i < |PermitColors|
    requires StartsWith(Normalize(permitType), PermitColors[i].0)
    ensures GetPermitColor(permitType) == PermitColors[i].1
  {
    TextWithKeyPrefix(Normalize(permitType), i);
  }

  lemma {:induction false} TextWithKeyPrefix(t: string, i: nat)
    requires i < |PermitColors| && StartsWith(t, PermitColors[i].0)
    ensures ColorOfText(t) == PermitColors[i].1
  {
    match Lookup(t)
    case Some(c) =>
      var j :| 0 <= j < |PermitColors| && PermitColors[j] == (t, c);
      assert StartsWith(t, PermitColors[j].0);
      KeysArePrefixFree(t, i, j);
    case None =>
      var k := FindPrefixKey(PermitColors, t);
      assert k.Some?;
      KeysArePrefixFree(t, i, k.value);
  }

  lemma {:induction false} ColorWithoutKeyPrefix(permitType: JsValue)
    requires forall i :: 0 <= i < |PermitColors| ==> !StartsWith(Normalize(permitType), PermitColors[i].0)
    ensures GetPermitColor(permitType) == DefaultColor
  {
    if Truthy(permitType) {
      TextWithoutKeyPrefix(Normalize(permitType));
    }
  }

  lemma {:induction false} TextWithoutKeyPrefix(t: string)
    requires forall i :: 0 <= i < |PermitColors| ==> !StartsWith(t, PermitColors[i].0)
    ensures ColorOfText(t) == DefaultColor
  {
  }

  lemma NormalizeIgnoresCaseAndPadding(w1: string, s: string, w2: string)
    requires AllSpace(w1) && AllSpace(w2)
    ensures Normalize(Str(w1 + Lower(s) + w2)) == Normalize(Str(s))
  {
    var padded := w1 + Lower(s) + w2;
    UpperAppend(w1 + Lower(s), w2);
    UpperAppend(w1, Lower(s));
    UpperOfSpace(w1);
    UpperOfSpace(w2);
    UpperOfLower(s);
    assert Upper(padded) == w1 + Upper(s) + w2;
    TrimIgnoresPadding(w1, Upper(s), w2);
  }

  lemma EmptyTextIsDefault()
    ensures ColorOfText("") == DefaultColor
  {
    assert forall i :: 0 <= i < |PermitColors| ==> |PermitColors[i].0| == 2;
    TextWithoutKeyPrefix("");
  }

  /** The lookup ignores letter case and surrounding whitespace. */
  lemma {:induction false} ColorIgnoresCaseAndPadding(w1: string, s: string, w2: string)
    requires AllSpace(w1) && AllSpace(w2)
    ensures GetPermitColor(Str(w1 + Lower(s) + w2)) == GetPermitColor(Str(s))
  {
    NormalizeIgnoresCaseAndPadding(w1, s, w2);
    if s == [] {
      assert Normalize(Str(s)) == "";
      EmptyTextIsDefault();
    }
  }

  /** For a string already upper-cased and trimmed, the search runs on the
      string itself. */
  lemma ColorOfPlainCode(t: string)
    requires t != [] && IsUpperCased(t) && !IsSpace(t[0]) && !IsSpace(t[|t| - 1])
    ensures GetPermitColor(Str(t)) == ColorOfText(t)
  {
    UpperCasedIsFixed(t);
    assert Normalize(Str(t)) == t;
  }
}
