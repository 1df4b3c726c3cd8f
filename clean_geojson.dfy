/** The GeoJSON cleaner (tools/clean_geojson.js). For each input path that
    exists it replaces the whole words `NaN`, `NAN` and `Infinity` with
    `null`, drops commas that stand before a closing bracket or brace, and
    writes the result to the path with a `.geojson` suffix (in any letter
    case) changed to `.cleaned.geojson`; a path without that suffix is
    overwritten. As written, the `-Infinity` pattern needs a word character
    before the minus sign, so `[-Infinity]` becomes `[-null]`:
    `CleanTextAsWritten` keeps that pattern, and `CleanText`, which the file
    loop uses, has it corrected. The file system is a map from path to text. */
module GeoJsonCleaner {
  import opened Strings
  import opened Sequences

  const DefaultInputs: seq<string> := ["./data/districts.geojson", "./data/construction_data.geojson"]

  // ---------------------------------------------------------------------------
  // The list of inputs.
  // ---------------------------------------------------------------------------

  /** `parts.map(s => s.trim())` */
  function TrimAll(parts: seq<string>): (r: seq<string>)
    ensures |r| == |parts|
    ensures forall i :: 0 <= i < |parts| ==> r[i] == Trim(parts[i])
  {
    seq(|parts|, i requires 0 <= i < |parts| => Trim(parts[i]))
  }

  /** `parts.filter(Boolean)`: every non-empty string, as often as it occurs
      and in its order, and nothing else. */
  function NonEmpty(parts: seq<string>): (r: seq<string>)
    ensures |r| <= |parts|
    ensures forall i :: 0 <= i < |r| ==> r[i] != "" && r[i] in parts
    ensures "" !in r
    ensures forall x :: x != "" ==> multiset(r)[x] == multiset(parts)[x]
    ensures IsSubsequence(r, parts)
  {
    if parts == [] then []
    else
      var init := parts[..|parts| - 1];
      var last := parts[|parts| - 1];
      var rest := NonEmpty(init);
      assert parts == init + [last];
      if last != "" then
        var r := rest + [last];
        assert r[..|r| - 1] == rest;
        r
      else
        SubsequenceOfLonger(rest, init, last);
        rest
  }

  /** The input paths for `process.argv.slice(2)`: the defaults without
      arguments, otherwise the comma-separated pieces of the first argument,
      trimmed, empty ones dropped. */
  function Inputs(argv: seq<string>): (r: seq<string>)
    ensures |argv| == 0 ==> r == DefaultInputs
    ensures "" !in r
    ensures |argv| > 0 ==> IsSubsequence(r, TrimAll(Split(argv[0], ',')))
    ensures |argv| > 0 ==>
              forall x :: x != "" ==> multiset(r)[x] == multiset(TrimAll(Split(argv[0], ',')))[x]
  {
    if |argv| == 0 then DefaultInputs else NonEmpty(TrimAll(Split(argv[0], ',')))
  }

  /** A string with no whitespace at either end. */
  predicate IsTrimmed(s: string) {
    s == [] || (!IsSpace(s[0]) && !IsSpace(s[|s| - 1]))
  }

  lemma TrimmedIsFixed(s: string)
    requires IsTrimmed(s)
    ensures Trim(s) == s
  {
    if s != [] {
      assert TrimStart(s) == s;
    }
  }

  /** A piece without a comma is, once trimmed, still without a comma and
      has no whitespace at either end. */
  lemma TrimmedPiece(p: string)
    requires ',' !in p
    ensures ',' !in Trim(p) && IsTrimmed(Trim(p))
  {
    TrimKeepsNoComma(p);
    TrimIsTrimmed(p);
  }

  lemma TrimKeepsNoComma(p: string)
    requires ',' !in p
    ensures ',' !in Trim(p)
  {
    TrimStartKeepsNoComma(p);
    TrimEndKeepsNoComma(TrimStart(p));
  }

  lemma TrimStartKeepsNoComma(p: string)
    requires ',' !in p
    ensures ',' !in TrimStart(p)
  {
    var t := TrimStart(p);
    forall k | 0 <= k < |t|
      ensures t[k] != ','
    {
      assert t[k] == p[|p| - |t| + k];
    }
  }

  lemma TrimEndKeepsNoComma(p: string)
    requires ',' !in p
    ensures ',' !in TrimEnd(p)
  {
    var t := TrimEnd(p);
    forall k | 0 <= k < |t|
      ensures t[k] != ','
    {
      assert t[k] == p[k];
    }
  }

  lemma TrimIsTrimmed(p: string)
    ensures IsTrimmed(Trim(p))
  {
    var t := TrimStart(p);
    var r := TrimEnd(t);
    if r != [] {
      assert r[0] == t[0];
    }
  }

  /** Every input is a non-empty, trimmed piece without a comma; further
      arguments are not read. */
  lemma InputsArePlainPaths(argv: seq<string>)
    requires |argv| >= 1
    ensures forall i :: 0 <= i < |Inputs(argv)| ==>
              Inputs(argv)[i] != "" && ',' !in Inputs(argv)[i] && IsTrimmed(Inputs(argv)[i])
    ensures Inputs(argv) == Inputs([argv[0]])
  {
    var pieces := Split(argv[0], ',');
    TrimmedPiecesArePlain(pieces);
    var trimmed := TrimAll(pieces);
    var inputs := NonEmpty(trimmed);
    forall i | 0 <= i < |inputs|
      ensures ',' !in inputs[i] && IsTrimmed(inputs[i])
    {
      assert inputs[i] in trimmed;
    }
  }

  /** Trimming pieces without a comma gives trimmed pieces without a comma. */
  lemma TrimmedPiecesArePlain(pieces: seq<string>)
    requires forall j :: 0 <= j < |pieces| ==> ',' !in pieces[j]
    ensures forall x :: x in TrimAll(pieces) ==> ',' !in x && IsTrimmed(x)
  {
    var trimmed := TrimAll(pieces);
    forall j | 0 <= j < |trimmed|
      ensures ',' !in trimmed[j] && IsTrimmed(trimmed[j])
    {
      TrimmedPiece(pieces[j]);
    }
  }

  lemma OnePlainPath(p: string)
    requires p != "" && ',' !in p && IsTrimmed(p)
    ensures Inputs([p]) == [p]
  {
    calc {
      Inputs([p]);
      NonEmpty(TrimAll(Split(p, ',')));
      { SplitWithoutSeparator(p, ','); }
      NonEmpty(TrimAll([p]));
      { TrimmedIsFixed(p); assert TrimAll([p]) == [p]; }
      NonEmpty([p]);
      { assert [p][..0] == []; }
      [p];
    }
  }

  // ---------------------------------------------------------------------------
  // `cleanText`
  // ---------------------------------------------------------------------------

  /** A character of the regular-expression class `\w`. */
  predicate IsWordChar(c: char) {
    'a' <= c <= 'z' || 'A' <= c <= 'Z' || '0' <= c <= '9' || c == '_'
  }

  /** `\b` at position `k`: a word character on exactly one side. */
  predicate IsBoundary(s: string, k: nat)
    requires k <= |s|
  {
    (k > 0 && IsWordChar(s[k - 1])) != (k < |s| && IsWordChar(s[k]))
  }

  /** The pattern `\b<tok>\b` (or `<tok>\b` when `leading` is false) matches
      at position `i`. */
  predicate MatchesAt(s: string, tok: string, leading: bool, i: nat) {
    i + |tok| <= |s| && s[i..i + |tok|] == tok
    && (!leading || IsBoundary(s, i)) && IsBoundary(s, i + |tok|)
  }

  /** The part from `i` on of `s.replace(pattern, rep)` with the `g` flag:
      matches are found left to right in the original text, and the search
      goes on after each match. */
  function ReplaceFrom(s: string, tok: string, leading: bool, rep: string, i: nat): string
    requires |tok| > 0 && i <= |s|
    decreases |s| - i
  {
    if i == |s| then []
    else if MatchesAt(s, tok, leading, i) then rep + ReplaceFrom(s, tok, leading, rep, i + |tok|)
    else [s[i]] + ReplaceFrom(s, tok, leading, rep, i + 1)
  }

  function ReplaceAll(s: string, tok: string, leading: bool, rep: string): string
    requires |tok| > 0
  {
    ReplaceFrom(s, tok, leading, rep, 0)
  }

  /** The first index from `j` on that is not whitespace, or `|s|`. */
  function SkipSpaces(s: string, j: nat): (k: nat)
    requires j <= |s|
    ensures j <= k <= |s| && (k == |s| || !IsSpace(s[k]))
    ensures forall m :: j <= m < k ==> IsSpace(s[m])
    decreases |s| - j
  {
    if j < |s| && IsSpace(s[j]) then SkipSpaces(s, j + 1) else j
  }

  /** The part from `i` on of `s.replace(/,\s*([\]}])/g, '$1')`: a comma,
      any whitespace and a closing bracket or brace become that bracket or
      brace. */
  function StripTrailingCommasFrom(s: string, i: nat): string
    requires i <= |s|
    decreases |s| - i
  {
    if i == |s| then []
    else if StripsAt(s, i) then
      var k := SkipSpaces(s, i + 1);
      [s[k]] + StripTrailingCommasFrom(s, k + 1)
    else [s[i]] + StripTrailingCommasFrom(s, i + 1)
  }

  /** `/,\s*([\]}])/` matches at position `i`. */
  predicate StripsAt(s: string, i: nat)
    requires i < |s|
  {
    s[i] == ',' && SkipSpaces(s, i + 1) < |s| && s[SkipSpaces(s, i + 1)] in "]}"
  }

  function StripTrailingCommas(s: string): string {
    StripTrailingCommasFrom(s, 0)
  }

  /** `cleanText(text)` as written: four word replacements, then the commas. */
  function CleanTextAsWritten(text: string): string {
    var noNaN := ReplaceAll(text, "NaN", true, "null");
    var noNAN := ReplaceAll(noNaN, "NAN", true, "null");
    var noNegInf := ReplaceAll(noNAN, "-Infinity", true, "null");
    var noInf := ReplaceAll(noNegInf, "Infinity", true, "null");
    StripTrailingCommas(noInf)
  }

  /** `cleanText` with the third pattern written `-Infinity\b`, so that a
      minus sign after a bracket, colon, comma or space is replaced with the
      word it belongs to. */
  function CleanText(text: string): string {
    var noNaN := ReplaceAll(text, "NaN", true, "null");
    var noNAN := ReplaceAll(noNaN, "NAN", true, "null");
    var noNegInf := ReplaceAll(noNAN, "-Infinity", false, "null");
    var noInf := ReplaceAll(noNegInf, "Infinity", true, "null");
    StripTrailingCommas(noInf)
  }

  // ---------------------------------------------------------------------------
  // Properties of the replacements.
  // ---------------------------------------------------------------------------

  /** Text without a match is copied. */
  lemma {:induction false} ReplaceWithoutMatch(s: string, tok: string, leading: bool, rep: string, i: nat)
    requires |tok| > 0 && i <= |s|
    requires forall k :: i <= k < |s| ==> !MatchesAt(s, tok, leading, k)
    ensures ReplaceFrom(s, tok, leading, rep, i) == s[i..]
    decreases |s| - i
  {
    if i < |s| {
      ReplaceWithoutMatch(s, tok, leading, rep, i + 1);
      assert s[i..] == [s[i]] + s[i + 1..];
    }
  }

  /** A position where the word does not match is copied as it is, ahead of
      whatever the rest of the text becomes. */
  lemma ReplaceCopiesOne(s: string, tok: string, leading: bool, rep: string, i: nat, k: nat, tail: string)
    requires |tok| > 0 && i < k <= |s| && !MatchesAt(s, tok, leading, i)
    requires ReplaceFrom(s, tok, leading, rep, i + 1) == s[i + 1..k] + tail
    ensures ReplaceFrom(s, tok, leading, rep, i) == s[i..k] + tail
  {
    calc {
      ReplaceFrom(s, tok, leading, rep, i);
      [s[i]] + ReplaceFrom(s, tok, leading, rep, i + 1);
      [s[i]] + (s[i + 1..k] + tail);
      { assert s[i..k] == [s[i]] + s[i + 1..k]; }
      s[i..k] + tail;
    }
  }

  /** The first match from `i` on: the text before it is copied, the match
      is replaced, and the search goes on right after it. */
  lemma {:induction false} ReplaceFirstMatch(s: string, tok: string, leading: bool, rep: string, i: nat, k: nat)
    requires |tok| > 0 && i <= k && MatchesAt(s, tok, leading, k)
    requires forall m :: i <= m < k ==> !MatchesAt(s, tok, leading, m)
    ensures ReplaceFrom(s, tok, leading, rep, i)
            == s[i..k] + (rep + ReplaceFrom(s, tok, leading, rep, k + |tok|))
    decreases k - i
  {
    if i < k {
      ReplaceFirstMatch(s, tok, leading, rep, i + 1, k);
      ReplaceCopiesOne(s, tok, leading, rep, i, k, rep + ReplaceFrom(s, tok, leading, rep, k + |tok|));
    } else {
      assert s[k..k] == [];
    }
  }

  /** Text holding one match from `i` on: the text before it is copied, the
      match is replaced and the text after it is copied. */
  lemma ReplaceOneMatchFrom(s: string, tok: string, leading: bool, rep: string, i: nat, k: nat)
    requires |tok| > 0 && i <= k && MatchesAt(s, tok, leading, k)
    requires forall m :: i <= m < |s| && m != k ==> !MatchesAt(s, tok, leading, m)
    ensures ReplaceFrom(s, tok, leading, rep, i) == s[i..k] + (rep + s[k + |tok|..])
  {
    ReplaceFirstMatch(s, tok, leading, rep, i, k);
    ReplaceWithoutMatch(s, tok, leading, rep, k + |tok|);
  }

  /** Text holding one match: the match is replaced, everything else copied. */
  lemma ReplaceOneMatch(s: string, tok: string, leading: bool, rep: string, k: nat)
    requires |tok| > 0 && MatchesAt(s, tok, leading, k)
    requires forall m :: 0 <= m < |s| && m != k ==> !MatchesAt(s, tok, leading, m)
    ensures ReplaceAll(s, tok, leading, rep) == s[..k] + rep + s[k + |tok|..]
  {
    ReplaceOneMatchFrom(s, tok, leading, rep, 0, k);
    assert s[0..k] + (rep + s[k + |tok|..]) == s[..k] + rep + s[k + |tok|..];
  }

  /** A text that does not hold the first character of the word is copied. */
  lemma WithoutFirstCharacter(s: string, tok: string, leading: bool, rep: string)
    requires |tok| > 0 && tok[0] !in s
    ensures ReplaceAll(s, tok, leading, rep) == s
  {
    forall k | 0 <= k < |s|
      ensures !MatchesAt(s, tok, leading, k)
    {
      if k + |tok| <= |s| {
        assert s[k..k + |tok|][0] == s[k];
      }
    }
    ReplaceWithoutMatch(s, tok, leading, rep, 0);
  }

  /** A text without a comma keeps all its characters. */
  lemma {:induction false} StripWithoutComma(s: string, i: nat)
    requires i <= |s| && ',' !in s
    ensures StripTrailingCommasFrom(s, i) == s[i..]
    decreases |s| - i
  {
    if i < |s| {
      StripWithoutComma(s, i + 1);
      assert s[i..] == [s[i]] + s[i + 1..];
    }
  }

  /** A position where no trailing comma starts is copied as it is. */
  lemma StripCopiesOne(s: string, i: nat, k: nat, tail: string)
    requires i < k <= |s| && !StripsAt(s, i)
    requires StripTrailingCommasFrom(s, i + 1) == s[i + 1..k] + tail
    ensures StripTrailingCommasFrom(s, i) == s[i..k] + tail
  {
    calc {
      StripTrailingCommasFrom(s, i);
      [s[i]] + StripTrailingCommasFrom(s, i + 1);
      [s[i]] + (s[i + 1..k] + tail);
      { assert s[i..k] == [s[i]] + s[i + 1..k]; }
      s[i..k] + tail;
    }
  }

  /** The first trailing comma from `i` on: the text before it is copied, the
      comma and the whitespace after it are dropped, the bracket or brace is
      kept, and the search goes on after it. */
  lemma {:induction false} StripFirstComma(s: string, i: nat, k: nat)
    requires i <= k < |s| && StripsAt(s, k)
    requires forall m :: i <= m < k ==> !StripsAt(s, m)
    ensures StripTrailingCommasFrom(s, i)
            == s[i..k] + ([s[SkipSpaces(s, k + 1)]] + StripTrailingCommasFrom(s, SkipSpaces(s, k + 1) + 1))
    decreases k - i
  {
    var tail := [s[SkipSpaces(s, k + 1)]] + StripTrailingCommasFrom(s, SkipSpaces(s, k + 1) + 1);
    if i < k {
      StripFirstComma(s, i + 1, k);
      assert !StripsAt(s, i);
      StripCopiesOne(s, i, k, tail);
    } else {
      StripAtComma(s, k);
      assert s[k..k] == [];
    }
  }

  /** At a trailing comma the bracket or brace is kept and the rest follows. */
  lemma StripAtComma(s: string, k: nat)
    requires k < |s| && StripsAt(s, k)
    ensures StripTrailingCommasFrom(s, k)
            == [s[SkipSpaces(s, k + 1)]] + StripTrailingCommasFrom(s, SkipSpaces(s, k + 1) + 1)
  {
  }

  /** A word surrounded by characters outside `\w` is replaced. */
  lemma LoneWordReplaced(l: char, tok: string, r: char, rep: string)
    requires |tok| >= 2 && IsWordChar(tok[0]) && IsWordChar(tok[|tok| - 1])
    requires !IsWordChar(l) && !IsWordChar(r)
    ensures ReplaceAll([l] + tok + [r], tok, true, rep) == [l] + rep + [r]
  {
    var s := [l] + tok + [r];
    assert s[1..1 + |tok|] == tok;
    forall m | 0 <= m < |s| && m != 1
      ensures !MatchesAt(s, tok, true, m)
    {
      if m == 0 && |tok| + 0 <= |s| {
        assert s[0..|tok|][0] == l;
      }
    }
    ReplaceOneMatch(s, tok, true, rep, 1);
    assert s[..1] == [l] && s[1 + |tok|..] == [r];
  }

  /** `NaN` between two punctuation characters, for example `[NaN]` or
      `:NaN,`, becomes `null`. */
  lemma NaNBecomesNull(l: char, r: char)
    requires !IsWordChar(l) && !IsWordChar(r) && l != ',' && r != ',' && l != '-' && r != '-'
    ensures CleanText([l] + "NaN" + [r]) == [l] + "null" + [r]
    ensures CleanTextAsWritten([l] + "NaN" + [r]) == [l] + "null" + [r]
  {
    var s := [l] + "NaN" + [r];
    LoneWordReplaced(l, "NaN", r, "null");
    var t := [l] + "null" + [r];
    assert 'N' !in t && '-' !in t && 'I' !in t && ',' !in t;
    WithoutFirstCharacter(t, "NAN", true, "null");
    WithoutFirstCharacter(t, "-Infinity", true, "null");
    WithoutFirstCharacter(t, "-Infinity", false, "null");
    WithoutFirstCharacter(t, "Infinity", true, "null");
    StripWithoutComma(t, 0);
  }

  /** The cleaner does not change a text without any of the four words and
      without a comma. */
  lemma CleanTextWithoutWordsOrCommas(s: string)
    requires 'N' !in s && '-' !in s && 'I' !in s && ',' !in s
    ensures CleanTextAsWritten(s) == s && CleanText(s) == s
  {
    WithoutFirstCharacter(s, "NaN", true, "null");
    WithoutFirstCharacter(s, "NAN", true, "null");
    WithoutFirstCharacter(s, "-Infinity", true, "null");
    WithoutFirstCharacter(s, "-Infinity", false, "null");
    WithoutFirstCharacter(s, "Infinity", true, "null");
    StripWithoutComma(s, 0);
  }

  /** As written, `-Infinity` after a bracket, colon, comma or space loses
      only its word: the leading `\b` needs a word character before the
      minus sign, so the fourth pattern then replaces `Infinity` alone and
      the minus sign stays. */
  lemma NegativeInfinityKeepsItsMinus(l: char, r: char)
    requires !IsWordChar(l) && !IsWordChar(r) && l != ',' && r != ',' && l != '-' && r != '-'
    ensures CleanTextAsWritten([l] + "-Infinity" + [r]) == [l] + "-null" + [r]
  {
    var s := [l] + "-Infinity" + [r];
    assert 'N' !in s;
    WithoutFirstCharacter(s, "NaN", true, "null");
    WithoutFirstCharacter(s, "NAN", true, "null");
    LeadingMinusNotMatched(l, r);
    InfinityAfterMinusReplaced(l, r);
    var t := [l] + "-null" + [r];
    assert ',' !in t;
    StripWithoutComma(t, 0);
  }

  /** `\b-Infinity\b` does not match `-Infinity` between two non-word
      characters. */
  lemma LeadingMinusNotMatched(l: char, r: char)
    requires !IsWordChar(l) && !IsWordChar(r) && l != '-' && r != '-'
    ensures ReplaceAll([l] + "-Infinity" + [r], "-Infinity", true, "null") == [l] + "-Infinity" + [r]
  {
    var s := [l] + "-Infinity" + [r];
    forall m | 0 <= m < |s|
      ensures !MatchesAt(s, "-Infinity", true, m)
    {
      if m != 1 && m + 9 <= |s| {
        assert s[m..m + 9][0] == s[m];
      }
    }
    ReplaceWithoutMatch(s, "-Infinity", true, "null", 0);
  }

  /** `\bInfinity\b` matches the word after the minus sign, and only there. */
  lemma InfinityAfterMinusReplaced(l: char, r: char)
    requires !IsWordChar(l) && !IsWordChar(r)
    ensures ReplaceAll([l] + "-Infinity" + [r], "Infinity", true, "null") == [l] + "-null" + [r]
  {
    var s := [l] + "-Infinity" + [r];
    assert s[2..10] == "Infinity";
    forall m | 0 <= m < |s| && m != 2
      ensures !MatchesAt(s, "Infinity", true, m)
    {
      if m + 8 <= |s| {
        assert s[m..m + 8][0] == s[m];
      }
    }
    ReplaceOneMatch(s, "Infinity", true, "null", 2);
    assert s[..2] + "null" + s[10..] == [l] + "-null" + [r];
  }

  /** With the corrected third pattern the whole `-Infinity` becomes `null`. */
  lemma NegativeInfinityBecomesNull(l: char, r: char)
    requires !IsWordChar(l) && !IsWordChar(r) && l != ',' && r != ',' && l != '-' && r != '-'
    ensures CleanText([l] + "-Infinity" + [r]) == [l] + "null" + [r]
  {
    var s := [l] + "-Infinity" + [r];
    assert 'N' !in s;
    WithoutFirstCharacter(s, "NaN", true, "null");
    WithoutFirstCharacter(s, "NAN", true, "null");
    MinusInfinityReplaced(l, r);
    var t := [l] + "null" + [r];
    assert 'I' !in t && ',' !in t;
    WithoutFirstCharacter(t, "Infinity", true, "null");
    StripWithoutComma(t, 0);
  }

  /** `-Infinity\b` matches the whole word with its minus sign, and only
      there. */
  lemma MinusInfinityReplaced(l: char, r: char)
    requires !IsWordChar(r) && l != '-'
    ensures ReplaceAll([l] + "-Infinity" + [r], "-Infinity", false, "null") == [l] + "null" + [r]
  {
    var s := [l] + "-Infinity" + [r];
    assert s[1..10] == "-Infinity";
    forall m | 0 <= m < |s| && m != 1
      ensures !MatchesAt(s, "-Infinity", false, m)
    {
      if m + 9 <= |s| {
        assert s[m..m + 9][0] == s[m];
      }
    }
    ReplaceOneMatch(s, "-Infinity", false, "null", 1);
    assert s[..1] + "null" + s[10..] == [l] + "null" + [r];
  }

  /** A character in neither the text nor the replacement is not in the
      result. */
  lemma {:induction false} ReplaceAddsNothing(s: string, tok: string, leading: bool, rep: string, i: nat, c: char)
    requires |tok| > 0 && i <= |s| && c !in s && c !in rep
    ensures c !in ReplaceFrom(s, tok, leading, rep, i)
    decreases |s| - i
  {
    if i < |s| {
      if MatchesAt(s, tok, leading, i) {
        ReplaceAddsNothing(s, tok, leading, rep, i + |tok|, c);
      } else {
        ReplaceAddsNothing(s, tok, leading, rep, i + 1, c);
      }
    }
  }

  /** The correction matters only where the text holds a minus sign. */
  lemma CorrectionNeedsMinus(text: string)
    requires '-' !in text
    ensures CleanText(text) == CleanTextAsWritten(text)
  {
    var noNaN := ReplaceAll(text, "NaN", true, "null");
    ReplaceAddsNothing(text, "NaN", true, "null", 0, '-');
    var noNAN := ReplaceAll(noNaN, "NAN", true, "null");
    ReplaceAddsNothing(noNaN, "NAN", true, "null", 0, '-');
    WithoutFirstCharacter(noNAN, "-Infinity", true, "null");
    WithoutFirstCharacter(noNAN, "-Infinity", false, "null");
  }

  /** A comma before a closing bracket goes, with the whitespace after it. */
  lemma TrailingCommaRemoved(w: string, closer: char)
    requires AllSpace(w) && closer in "]}"
    ensures StripTrailingCommas([','] + w + [closer]) == [closer]
  {
    var s := [','] + w + [closer];
    assert forall m :: 1 <= m < 1 + |w| ==> IsSpace(s[m]);
    assert s[1 + |w|] == closer && !IsSpace(closer);
    SkipSpacesOver(s, 1, 1 + |w|);
    assert StripTrailingCommasFrom(s, |s|) == [];
  }

  lemma {:induction false} SkipSpacesOver(s: string, j: nat, k: nat)
    requires j <= k < |s| && !IsSpace(s[k])
    requires forall m :: j <= m < k ==> IsSpace(s[m])
    ensures SkipSpaces(s, j) == k
    decreases k - j
  {
    if j < k {
      SkipSpacesOver(s, j + 1, k);
    }
  }

  /** One pass does not reach commas that a removed comma uncovers: `,,]`
      leaves `,]`, so cleaning twice can change the text again. */
  lemma StrippingIsNotIdempotent()
    ensures StripTrailingCommas(",,]") == ",]"
    ensures StripTrailingCommas(StripTrailingCommas(",,]")) == "]"
  {
    var s := ",,]";
    assert SkipSpaces(s, 1) == 1;
    assert SkipSpaces(s, 2) == 2;
    var t := ",]";
    assert SkipSpaces(t, 1) == 1;
  }

  // ---------------------------------------------------------------------------
  // No whole-word `NaN`, `NAN` or `Infinity` is left.
  // ---------------------------------------------------------------------------

  predicate AllWord(t: string) {
    forall k :: 0 <= k < |t| ==> IsWordChar(t[k])
  }

  /** The character before position `i` of `s` is a word character. */
  predicate WordBefore(s: string, i: nat)
    requires i <= |s|
  {
    i > 0 && IsWordChar(s[i - 1])
  }

  /** The run of word characters at the start of `u`. */
  function Lead(u: string): (r: string)
    ensures |r| <= |u| && r == u[..|r|] && AllWord(r)
    ensures |r| == |u| || !IsWordChar(u[|r|])
  {
    if u != [] && IsWordChar(u[0]) then [u[0]] + Lead(u[1..]) else []
  }

  /** No word of `u` is `w`: no run of word characters that starts after a
      character outside `\w` (or after the start, when `lw` says the text
      before `u` does not end in a word character) spells `w` and ends there. */
  predicate NoWholeWord(u: string, w: string, lw: bool) {
    forall p :: 0 <= p <= |u| && (if p == 0 then !lw else !IsWordChar(u[p - 1])) ==> LeadAt(u, p) != w
  }

  /** The run of word characters of `u` starting at position `p`. */
  function LeadAt(u: string, p: nat): string
    requires p <= |u|
  {
    Lead(u[p..])
  }

  lemma LeadCons(c: char, v: string)
    ensures Lead([c] + v) == if IsWordChar(c) then [c] + Lead(v) else []
  {
    assert ([c] + v)[1..] == v;
  }

  lemma LeadOfSuffix(s: string, i: nat)
    requires i < |s|
    ensures Lead(s[i..]) == if IsWordChar(s[i]) then [s[i]] + Lead(s[i + 1..]) else []
  {
    assert s[i..] == [s[i]] + s[i + 1..];
    LeadCons(s[i], s[i + 1..]);
  }

  lemma {:induction false} LeadOfWordPrefix(x: string, v: string)
    requires AllWord(x)
    ensures Lead(x + v) == x + Lead(v)
  {
    if x == [] {
      assert x + v == v;
    } else {
      calc {
        Lead(x + v);
        { assert x + v == [x[0]] + (x[1..] + v); }
        Lead([x[0]] + (x[1..] + v));
        { LeadCons(x[0], x[1..] + v); }
        [x[0]] + Lead(x[1..] + v);
        { LeadOfWordPrefix(x[1..], v); }
        [x[0]] + (x[1..] + Lead(v));
        ([x[0]] + x[1..]) + Lead(v);
        { assert [x[0]] + x[1..] == x; }
        x + Lead(v);
      }
    }
  }

  /** After the end of the text or a character outside `\w` the run is empty. */
  lemma LeadAtWordEnd(s: string, i: nat)
    requires i <= |s| && (i == |s| || !IsWordChar(s[i]))
    ensures Lead(s[i..]) == []
  {
    if i < |s| {
      LeadOfSuffix(s, i);
    }
  }

  /** A match of `\b<w>\b` for a word `w` is a whole word `w`. */
  lemma MatchIsWholeWord(s: string, w: string, p: nat)
    requires AllWord(w) && |w| > 0 && MatchesAt(s, w, true, p)
    ensures !WordBefore(s, p) && Lead(s[p..]) == w && LeadAt(s, p) == w
  {
    var e := p + |w|;
    assert s[p] == s[p..e][0] && s[e - 1] == s[p..e][|w| - 1];
    LeadAtWordEnd(s, e);
    LeadOfWordPrefix(w, s[e..]);
    assert s[p..] == w + s[e..];
  }

  /** A whole word `w` is a match of `\b<w>\b`. */
  lemma WholeWordIsMatch(s: string, w: string, p: nat)
    requires AllWord(w) && |w| > 0 && p <= |s| && !WordBefore(s, p) && Lead(s[p..]) == w
    ensures MatchesAt(s, w, true, p)
  {
    var e := p + |w|;
    assert s[p..e] == s[p..][..|w|] == w;
    assert s[p] == w[0] && s[e - 1] == w[|w| - 1];
    if e < |s| {
      assert s[e] == s[p..][|w|];
    }
  }

  lemma NoWholeWordInEmpty(w: string, lw: bool)
    requires w != []
    ensures NoWholeWord([], w, lw)
  {
    var e: string := [];
    assert e[0..] == e;
    assert LeadAt(e, 0) == [];
  }

  /** A character in front of a text without the word `w`. */
  lemma NoWholeWordCons(c: char, v: string, w: string, lw: bool)
    requires NoWholeWord(v, w, IsWordChar(c))
    requires lw || Lead([c] + v) != w
    ensures NoWholeWord([c] + v, w, lw)
  {
    var u := [c] + v;
    forall p | 0 <= p <= |u| && (if p == 0 then !lw else !IsWordChar(u[p - 1]))
      ensures LeadAt(u, p) != w
    {
      if p == 0 {
        assert u[0..] == u;
      } else {
        assert u[p..] == v[p - 1..];
        assert LeadAt(u, p) == LeadAt(v, p - 1);
        assert u[p - 1] == if p == 1 then c else v[p - 2];
      }
    }
  }

  /** A run of word characters in front of a text without the word `w`. */
  lemma NoWholeWordAfterWord(x: string, v: string, w: string, lw: bool)
    requires AllWord(x) && |x| > 0
    requires NoWholeWord(v, w, true)
    requires lw || Lead(x + v) != w
    ensures NoWholeWord(x + v, w, lw)
  {
    var u := x + v;
    forall k | 0 <= k < |x|
      ensures IsWordChar(u[k])
    {
      assert u[k] == x[k];
    }
    forall p | 0 <= p <= |u| && (if p == 0 then !lw else !IsWordChar(u[p - 1]))
      ensures LeadAt(u, p) != w
    {
      if p == 0 {
        assert u[0..] == u;
      } else if p > |x| {
        assert u[p..] == v[p - |x|..];
        assert LeadAt(u, p) == LeadAt(v, p - |x|);
        assert u[p - 1] == v[p - |x| - 1];
      }
    }
  }

  /** A text without the word `w` has no match of `\b<w>\b`. */
  lemma NoWholeWordNoMatch(u: string, w: string)
    requires AllWord(w) && |w| > 0 && NoWholeWord(u, w, false)
    ensures forall p: nat :: !MatchesAt(u, w, true, p)
  {
    forall p: nat | MatchesAt(u, w, true, p)
      ensures false
    {
      MatchIsWholeWord(u, w, p);
    }
  }

  /** Replacing the word `tok` leaves no word `tok` behind, as long as the
      replacement is a different word: every word is either copied or, when
      it was `tok`, becomes `rep`. */
  lemma {:induction false} ReplaceRemovesWord(s: string, tok: string, rep: string, i: nat)
    requires AllWord(tok) && |tok| > 0 && AllWord(rep) && |rep| > 0 && rep != tok && i <= |s|
    ensures RemovedAfter(s, tok, rep, i)
    decreases |s| - i
  {
    if i == |s| {
      NoWholeWordInEmpty(tok, WordBefore(s, i));
    } else {
      ReplaceRemovesWord(s, tok, rep, NextScan(s, tok, true, i));
      RemovedStep(s, tok, rep, i);
    }
  }

  /** Where the scan of `ReplaceFrom` goes on after position `i`. */
  function NextScan(s: string, tok: string, leading: bool, i: nat): (j: nat)
    requires |tok| > 0 && i < |s|
    ensures i < j <= |s|
  {
    if MatchesAt(s, tok, leading, i) then i + |tok| else i + 1
  }

  lemma RemovedStep(s: string, tok: string, rep: string, i: nat)
    requires AllWord(tok) && |tok| > 0 && AllWord(rep) && |rep| > 0 && rep != tok && i < |s|
    requires RemovedAfter(s, tok, rep, NextScan(s, tok, true, i))
    ensures RemovedAfter(s, tok, rep, i)
  {
    if MatchesAt(s, tok, true, i) {
      RemovedAtMatch(s, tok, rep, i);
    } else {
      RemovedAtCopy(s, tok, rep, i);
    }
  }

  /** The replaced text from `i` on holds no word `tok`, and its leading
      word is the one of the original or the replacement standing for a whole
      word `tok`. */
  predicate RemovedAfter(s: string, tok: string, rep: string, i: nat)
    requires |tok| > 0 && i <= |s|
  {
    var u := ReplaceFrom(s, tok, true, rep, i);
    NoWholeWord(u, tok, WordBefore(s, i))
    && (Lead(u) == Lead(s[i..]) || (!WordBefore(s, i) && Lead(u) == rep))
  }

  /** A replaced match of `tok` is the whole word `rep`. */
  lemma RemovedAtMatch(s: string, tok: string, rep: string, i: nat)
    requires AllWord(tok) && |tok| > 0 && AllWord(rep) && |rep| > 0 && rep != tok
    requires MatchesAt(s, tok, true, i)
    requires RemovedAfter(s, tok, rep, i + |tok|)
    ensures RemovedAfter(s, tok, rep, i)
  {
    var e := i + |tok|;
    var v := ReplaceFrom(s, tok, true, rep, e);
    assert ReplaceFrom(s, tok, true, rep, i) == rep + v;
    MatchIsWholeWord(s, tok, i);
    assert s[e - 1] == s[i..e][|tok| - 1];
    LeadAtWordEnd(s, e);
    LeadOfWordPrefix(rep, v);
    NoWholeWordAfterWord(rep, v, tok, WordBefore(s, i));
  }

  /** A copied character keeps the text free of the word `tok`. */
  lemma RemovedAtCopy(s: string, tok: string, rep: string, i: nat)
    requires AllWord(tok) && |tok| > 0 && i < |s| && !MatchesAt(s, tok, true, i)
    requires RemovedAfter(s, tok, rep, i + 1)
    ensures RemovedAfter(s, tok, rep, i)
  {
    var v := ReplaceFrom(s, tok, true, rep, i + 1);
    assert ReplaceFrom(s, tok, true, rep, i) == [s[i]] + v;
    LeadCons(s[i], v);
    LeadOfSuffix(s, i);
    if !WordBefore(s, i) && Lead([s[i]] + v) == tok {
      WholeWordIsMatch(s, tok, i);
    }
    NoWholeWordCons(s[i], v, tok, WordBefore(s, i));
  }

  /** A replacement whose pattern ends in a word character, and whose
      replacement ends in a character other than the last one of `w`, makes
      no word `w` in a text that had none: a word it changes ends with the
      replacement. */
  lemma {:induction false} ReplaceKeepsWordAway(s: string, tok: string, leading: bool, rep: string, w: string, i: nat)
    requires |tok| > 0 && IsWordChar(tok[|tok| - 1]) && AllWord(rep) && |rep| > 0
    requires AllWord(w) && |w| > 0 && w[|w| - 1] != rep[|rep| - 1] && i <= |s|
    requires NoWholeWord(s, w, false)
    ensures KeptAwayAfter(s, tok, leading, rep, w, i)
    decreases |s| - i
  {
    if i == |s| {
      NoWholeWordInEmpty(w, WordBefore(s, i));
    } else {
      ReplaceKeepsWordAway(s, tok, leading, rep, w, NextScan(s, tok, leading, i));
      KeptAwayStep(s, tok, leading, rep, w, i);
    }
  }

  lemma KeptAwayStep(s: string, tok: string, leading: bool, rep: string, w: string, i: nat)
    requires |tok| > 0 && IsWordChar(tok[|tok| - 1]) && AllWord(rep) && |rep| > 0
    requires AllWord(w) && |w| > 0 && w[|w| - 1] != rep[|rep| - 1] && i < |s|
    requires NoWholeWord(s, w, false)
    requires KeptAwayAfter(s, tok, leading, rep, w, NextScan(s, tok, leading, i))
    ensures KeptAwayAfter(s, tok, leading, rep, w, i)
  {
    if MatchesAt(s, tok, leading, i) {
      KeptAwayAtMatch(s, tok, leading, rep, w, i);
    } else {
      KeptAwayAtCopy(s, tok, leading, rep, w, i);
    }
  }

  /** The replaced text from `i` on holds no word `w`, and its leading word
      is the one of the original or ends with the last character of `rep`. */
  predicate KeptAwayAfter(s: string, tok: string, leading: bool, rep: string, w: string, i: nat)
    requires |tok| > 0 && |rep| > 0 && i <= |s|
  {
    var u := ReplaceFrom(s, tok, leading, rep, i);
    NoWholeWord(u, w, WordBefore(s, i))
    && (Lead(u) == Lead(s[i..]) || (Lead(u) != [] && Lead(u)[|Lead(u)| - 1] == rep[|rep| - 1]))
  }

  lemma KeptAwayAtMatch(s: string, tok: string, leading: bool, rep: string, w: string, i: nat)
    requires |tok| > 0 && IsWordChar(tok[|tok| - 1]) && AllWord(rep) && |rep| > 0
    requires AllWord(w) && |w| > 0 && w[|w| - 1] != rep[|rep| - 1]
    requires MatchesAt(s, tok, leading, i)
    requires KeptAwayAfter(s, tok, leading, rep, w, i + |tok|)
    ensures KeptAwayAfter(s, tok, leading, rep, w, i)
  {
    var e := i + |tok|;
    var v := ReplaceFrom(s, tok, leading, rep, e);
    assert ReplaceFrom(s, tok, leading, rep, i) == rep + v;
    assert s[e - 1] == s[i..e][|tok| - 1];
    LeadAtWordEnd(s, e);
    LeadOfWordPrefix(rep, v);
    assert Lead(rep + v)[|Lead(rep + v)| - 1] == rep[|rep| - 1];
    NoWholeWordAfterWord(rep, v, w, WordBefore(s, i));
  }

  lemma KeptAwayAtCopy(s: string, tok: string, leading: bool, rep: string, w: string, i: nat)
    requires |tok| > 0 && |rep| > 0 && AllWord(w) && |w| > 0 && w[|w| - 1] != rep[|rep| - 1]
    requires i < |s| && !MatchesAt(s, tok, leading, i)
    requires NoWholeWord(s, w, false)
    requires KeptAwayAfter(s, tok, leading, rep, w, i + 1)
    ensures KeptAwayAfter(s, tok, leading, rep, w, i)
  {
    var v := ReplaceFrom(s, tok, leading, rep, i + 1);
    assert ReplaceFrom(s, tok, leading, rep, i) == [s[i]] + v;
    LeadCons(s[i], v);
    LeadOfSuffix(s, i);
    if !WordBefore(s, i) {
      assert (if i == 0 then !false else !IsWordChar(s[i - 1]));
      assert LeadAt(s, i) != w;
    }
    NoWholeWordCons(s[i], v, w, WordBefore(s, i));
  }

  /** Dropping trailing commas leaves every word as it was. */
  lemma {:induction false} StripKeepsWordAway(s: string, w: string, i: nat)
    requires AllWord(w) && |w| > 0 && i <= |s| && NoWholeWord(s, w, false)
    ensures StrippedKeeps(s, w, i)
    decreases |s| - i
  {
    if i == |s| {
      NoWholeWordInEmpty(w, WordBefore(s, i));
    } else {
      StripKeepsWordAway(s, w, NextStrip(s, i));
      StripKeptStep(s, w, i);
    }
  }

  /** Where the scan of `StripTrailingCommasFrom` goes on after position `i`. */
  function NextStrip(s: string, i: nat): (j: nat)
    requires i < |s|
    ensures i < j <= |s|
  {
    if StripsAt(s, i) then SkipSpaces(s, i + 1) + 1 else i + 1
  }

  lemma StripKeptStep(s: string, w: string, i: nat)
    requires |w| > 0 && i < |s| && NoWholeWord(s, w, false)
    requires StrippedKeeps(s, w, NextStrip(s, i))
    ensures StrippedKeeps(s, w, i)
  {
    if StripsAt(s, i) {
      StripKeptAtComma(s, w, i);
    } else {
      StripKeptAtCopy(s, w, i);
    }
  }

  /** The stripped text from `i` on holds no word `w`, and its leading word
      is the one of the original. */
  predicate StrippedKeeps(s: string, w: string, i: nat)
    requires i <= |s|
  {
    var u := StripTrailingCommasFrom(s, i);
    NoWholeWord(u, w, WordBefore(s, i)) && Lead(u) == Lead(s[i..])
  }

  lemma StripKeptAtComma(s: string, w: string, i: nat)
    requires |w| > 0 && i < |s| && StripsAt(s, i)
    requires StrippedKeeps(s, w, SkipSpaces(s, i + 1) + 1)
    ensures StrippedKeeps(s, w, i)
  {
    var k := SkipSpaces(s, i + 1);
    var v := StripTrailingCommasFrom(s, k + 1);
    assert StripTrailingCommasFrom(s, i) == [s[k]] + v;
    assert !IsWordChar(s[k]);
    LeadCons(s[k], v);
    LeadOfSuffix(s, i);
    NoWholeWordCons(s[k], v, w, WordBefore(s, i));
  }

  lemma StripKeptAtCopy(s: string, w: string, i: nat)
    requires |w| > 0 && i < |s| && !StripsAt(s, i) && NoWholeWord(s, w, false)
    requires StrippedKeeps(s, w, i + 1)
    ensures StrippedKeeps(s, w, i)
  {
    var v := StripTrailingCommasFrom(s, i + 1);
    assert StripTrailingCommasFrom(s, i) == [s[i]] + v;
    LeadCons(s[i], v);
    LeadOfSuffix(s, i);
    if !WordBefore(s, i) {
      assert (if i == 0 then !false else !IsWordChar(s[i - 1]));
      assert LeadAt(s, i) != w;
    }
    NoWholeWordCons(s[i], v, w, WordBefore(s, i));
  }

  /** The words the cleaner removes are words, and `null` is none of them and
      ends in a character none of them ends in. */
  lemma NumberWords()
    ensures AllWord("NaN") && AllWord("NAN") && AllWord("Infinity") && AllWord("null")
    ensures "null" != "NaN" && "null" != "NAN" && "null" != "Infinity"
    ensures "NaN"[2] != 'l' && "NAN"[2] != 'l' && "Infinity"[7] == 'y' && "null"[3] == 'l'
  {
  }

  /** `cleanText` leaves no `NaN` that `\bNaN\b` would find: the first pass
      removes them and the later passes create none. */
  lemma CleanTextHasNoNaN(text: string)
    ensures forall p: nat :: !MatchesAt(CleanText(text), "NaN", true, p)
  {
    NumberWords();
    var noNaN := ReplaceAll(text, "NaN", true, "null");
    var noNAN := ReplaceAll(noNaN, "NAN", true, "null");
    var noNegInf := ReplaceAll(noNAN, "-Infinity", false, "null");
    var noInf := ReplaceAll(noNegInf, "Infinity", true, "null");
    ReplaceRemovesWord(text, "NaN", "null", 0);
    ReplaceKeepsWordAway(noNaN, "NAN", true, "null", "NaN", 0);
    ReplaceKeepsWordAway(noNAN, "-Infinity", false, "null", "NaN", 0);
    ReplaceKeepsWordAway(noNegInf, "Infinity", true, "null", "NaN", 0);
    StripKeepsWordAway(noInf, "NaN", 0);
    NoWholeWordNoMatch(CleanText(text), "NaN");
  }

  /** `cleanText` leaves no `NAN` that `\bNAN\b` would find. */
  lemma CleanTextHasNoNAN(text: string)
    ensures forall p: nat :: !MatchesAt(CleanText(text), "NAN", true, p)
  {
    NumberWords();
    var noNaN := ReplaceAll(text, "NaN", true, "null");
    var noNAN := ReplaceAll(noNaN, "NAN", true, "null");
    var noNegInf := ReplaceAll(noNAN, "-Infinity", false, "null");
    var noInf := ReplaceAll(noNegInf, "Infinity", true, "null");
    ReplaceRemovesWord(noNaN, "NAN", "null", 0);
    ReplaceKeepsWordAway(noNAN, "-Infinity", false, "null", "NAN", 0);
    ReplaceKeepsWordAway(noNegInf, "Infinity", true, "null", "NAN", 0);
    StripKeepsWordAway(noInf, "NAN", 0);
    NoWholeWordNoMatch(CleanText(text), "NAN");
  }

  /** `cleanText` leaves no `Infinity` that `\bInfinity\b` would find. */
  lemma CleanTextHasNoInfinity(text: string)
    ensures forall p: nat :: !MatchesAt(CleanText(text), "Infinity", true, p)
  {
    NumberWords();
    var noNaN := ReplaceAll(text, "NaN", true, "null");
    var noNAN := ReplaceAll(noNaN, "NAN", true, "null");
    var noNegInf := ReplaceAll(noNAN, "-Infinity", false, "null");
    var noInf := ReplaceAll(noNegInf, "Infinity", true, "null");
    ReplaceRemovesWord(noNegInf, "Infinity", "null", 0);
    StripKeepsWordAway(noInf, "Infinity", 0);
    NoWholeWordNoMatch(CleanText(text), "Infinity");
  }

  /** `cleanText` as written leaves no `NaN` that `\bNaN\b` would find. */
  lemma CleanTextAsWrittenHasNoNaN(text: string)
    ensures forall p: nat :: !MatchesAt(CleanTextAsWritten(text), "NaN", true, p)
  {
    NumberWords();
    var noNaN := ReplaceAll(text, "NaN", true, "null");
    var noNAN := ReplaceAll(noNaN, "NAN", true, "null");
    var noNegInf := ReplaceAll(noNAN, "-Infinity", true, "null");
    var noInf := ReplaceAll(noNegInf, "Infinity", true, "null");
    ReplaceRemovesWord(text, "NaN", "null", 0);
    ReplaceKeepsWordAway(noNaN, "NAN", true, "null", "NaN", 0);
    ReplaceKeepsWordAway(noNAN, "-Infinity", true, "null", "NaN", 0);
    ReplaceKeepsWordAway(noNegInf, "Infinity", true, "null", "NaN", 0);
    StripKeepsWordAway(noInf, "NaN", 0);
    NoWholeWordNoMatch(CleanTextAsWritten(text), "NaN");
  }

  /** `cleanText` as written leaves no `NAN` that `\bNAN\b` would find. */
  lemma CleanTextAsWrittenHasNoNAN(text: string)
    ensures forall p: nat :: !MatchesAt(CleanTextAsWritten(text), "NAN", true, p)
  {
    NumberWords();
    var noNaN := ReplaceAll(text, "NaN", true, "null");
    var noNAN := ReplaceAll(noNaN, "NAN", true, "null");
    var noNegInf := ReplaceAll(noNAN, "-Infinity", true, "null");
    var noInf := ReplaceAll(noNegInf, "Infinity", true, "null");
    ReplaceRemovesWord(noNaN, "NAN", "null", 0);
    ReplaceKeepsWordAway(noNAN, "-Infinity", true, "null", "NAN", 0);
    ReplaceKeepsWordAway(noNegInf, "Infinity", true, "null", "NAN", 0);
    StripKeepsWordAway(noInf, "NAN", 0);
    NoWholeWordNoMatch(CleanTextAsWritten(text), "NAN");
  }

  /** `cleanText` as written leaves no `Infinity` that `\bInfinity\b` would
      find; a minus sign before it may stay, as in `[-null]`. */
  lemma CleanTextAsWrittenHasNoInfinity(text: string)
    ensures forall p: nat :: !MatchesAt(CleanTextAsWritten(text), "Infinity", true, p)
  {
    NumberWords();
    var noNaN := ReplaceAll(text, "NaN", true, "null");
    var noNAN := ReplaceAll(noNaN, "NAN", true, "null");
    var noNegInf := ReplaceAll(noNAN, "-Infinity", true, "null");
    var noInf := ReplaceAll(noNegInf, "Infinity", true, "null");
    ReplaceRemovesWord(noNegInf, "Infinity", "null", 0);
    StripKeepsWordAway(noInf, "Infinity", 0);
    NoWholeWordNoMatch(CleanTextAsWritten(text), "Infinity");
  }

  /** A match of `-Infinity\b` holds a match of `\bInfinity\b` right after
      its minus sign. */
  lemma MinusInfinityHoldsInfinity(u: string, p: nat)
    requires MatchesAt(u, "-Infinity", false, p)
    ensures MatchesAt(u, "Infinity", true, p + 1)
  {
    var t: string := "-Infinity";
    assert u[p..p + 9] == t;
    assert u[p] == t[0] && u[p + 1] == t[1];
    assert u[p + 1..p + 9] == t[1..];
  }

  /** `cleanText` leaves no `-Infinity` that `-Infinity\b` would find. */
  lemma CleanTextHasNoNegativeInfinity(text: string)
    ensures forall p: nat :: !MatchesAt(CleanText(text), "-Infinity", false, p)
  {
    CleanTextHasNoInfinity(text);
    forall p: nat | MatchesAt(CleanText(text), "-Infinity", false, p)
      ensures false
    {
      MinusInfinityHoldsInfinity(CleanText(text), p);
    }
  }

  // ---------------------------------------------------------------------------
  // The output path and the run over the inputs.
  // ---------------------------------------------------------------------------

  const Suffix := ".geojson"

  /** `input.replace(/\.geojson$/i, '.cleaned.geojson')` */
  function OutputPath(input: string): string {
    if |input| >= |Suffix| && Lower(input[|input| - |Suffix|..]) == Suffix then
      input[..|input| - |Suffix|] + ".cleaned.geojson"
    else input
  }

  /** A `.geojson` suffix in any letter case becomes `.cleaned.geojson`, so
      the output never overwrites the input; any other path is its own output,
      and the cleaned text overwrites the input. */
  lemma SuffixIsLowerCase()
    ensures Lower(Suffix) == Suffix
  {
    LowerCasedIsFixed(Suffix);
  }

  lemma OutputPathOfSuffix(name: string, suffix: string)
    requires |suffix| == |Suffix| && Lower(suffix) == Suffix
    ensures OutputPath(name + suffix) == name + ".cleaned.geojson"
    ensures OutputPath(name + suffix) != name + suffix
  {
    var p := name + suffix;
    assert p[|p| - |Suffix|..] == suffix;
    assert p[..|p| - |Suffix|] == name;
    assert |name + ".cleaned.geojson"| == |p| + 8;
  }

  lemma OutputPathWithoutSuffix(input: string)
    requires |input| < |Suffix| || Lower(input[|input| - |Suffix|..]) != Suffix
    ensures OutputPath(input) == input
  {
  }

  /** The file system after the loop has handled the inputs: an input that
      exists is read, cleaned (with the corrected `CleanText`) and written to
      its output path; a missing one is skipped. */
  function AfterCleaning(inputs: seq<string>, files: map<string, string>): map<string, string> {
    if inputs == [] then files
    else
      var before := AfterCleaning(inputs[..|inputs| - 1], files);
      var input := inputs[|inputs| - 1];
      if input in before then before[OutputPath(input) := CleanText(before[input])] else before
  }

  /** The loop over the inputs. */
  method CleanFiles(inputs: seq<string>, files: map<string, string>) returns (result: map<string, string>)
    ensures result == AfterCleaning(inputs, files)
  {
    result := files;
    var i := 0;
    while i < |inputs|
      invariant 0 <= i <= |inputs|
      invariant result == AfterCleaning(inputs[..i], files)
    {
      assert inputs[..i + 1][..i] == inputs[..i];
      var input := inputs[i];
      if input in result {
        var raw := result[input];
        var cleaned := CleanText(raw);
        result := result[OutputPath(input) := cleaned];
      }
      i := i + 1;
    }
    assert inputs[..i] == inputs;
  }

  /** Cleaning adds or replaces only output paths of existing inputs. */
  lemma {:induction false} OnlyOutputPathsWritten(inputs: seq<string>, files: map<string, string>, p: string)
    requires forall i :: 0 <= i < |inputs| ==> OutputPath(inputs[i]) != p
    ensures p in AfterCleaning(inputs, files) <==> p in files
    ensures p in files ==> AfterCleaning(inputs, files)[p] == files[p]
  {
    if inputs != [] {
      OnlyOutputPathsWritten(inputs[..|inputs| - 1], files, p);
    }
  }

  /** One existing `.geojson` input: the cleaned copy appears beside it and
      the input is kept. */
  lemma CleaningOneFile(name: string, files: map<string, string>)
    requires name + Suffix in files
    ensures var out := AfterCleaning([name + Suffix], files);
            && name + ".cleaned.geojson" in out && name + Suffix in out
            && out[name + ".cleaned.geojson"] == CleanText(files[name + Suffix])
            && out[name + Suffix] == files[name + Suffix]
  {
    var input := name + Suffix;
    var cleaned := name + ".cleaned.geojson";
    SuffixIsLowerCase();
    OutputPathOfSuffix(name, Suffix);
    assert [input][..0] == [];
    assert AfterCleaning([input], files) == files[cleaned := CleanText(files[input])];
    assert |cleaned| != |input|;
  }

  /** A missing input leaves the file system as it is. */
  lemma MissingInputSkipped(input: string, files: map<string, string>)
    requires input !in files
    ensures AfterCleaning([input], files) == files
  {
    assert [input][..0] == [];
  }
}
