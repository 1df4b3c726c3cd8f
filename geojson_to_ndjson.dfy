/** The GeoJSON-to-NDJSON converter (tools/geojson_to_ndjson.js). It reads a
    FeatureCollection and writes its features, one JSON text per line, into
    numbered `.ndjson` files of at most `chunk` lines each. The file system
    and the JSON reader and writer are parameters: `exists` for
    `fs.existsSync`, `load` for reading and parsing the input (`None` when
    `JSON.parse` throws) and `stringify` for `JSON.stringify` (`None` when it
    throws). */
module NdjsonConverter {
  import opened Strings
  import opened JsValues

  const DefaultInput := "./data/construction_data.cleaned.geojson"
  const DefaultChunk: int := 10000
  const DefaultOutDir := "./data/ndjson"

  // ---------------------------------------------------------------------------
  // Command-line options.
  // ---------------------------------------------------------------------------

  datatype Options = Options(input: string, chunk: int, outDir: string, help: bool)

  /** `parseInt(s, 10)`: leading whitespace, an optional sign and the longest
      run of decimal digits after it; `None` (NaN) when there is no digit. */
  function ParseInt(s: string): (r: Option<int>)
    ensures r.None? <==> LeadingDigits(SignlessPart(TrimStart(s))) == []
  {
    var t := TrimStart(s);
    var digits := LeadingDigits(SignlessPart(t));
    if digits == [] then None
    else
      var magnitude: int := DigitsValue(digits);
      if |t| > 0 && t[0] == '-' then Some(-magnitude) else Some(magnitude)
  }

  /** The text after a leading `+` or `-`. */
  function SignlessPart(t: string): string {
    if |t| > 0 && (t[0] == '-' || t[0] == '+') then t[1..] else t
  }

  /** `parseInt` reads back the decimal text of a number. */
  lemma ParseIntOfNatToString(n: nat)
    ensures ParseInt(NatToString(n)) == Some(n)
  {
    var s := NatToString(n);
    assert !IsSpace(s[0]);
    assert TrimStart(s) == s;
    LeadingDigitsOfDigits(s);
    DigitsValueOfNatToString(n);
  }

  /** `a.split('=')[1]`; when there is no second piece the value is
      `undefined`, which both uses below treat exactly like `""`. */
  function ValueAfterEquals(a: string): string {
    var parts := Split(a, '=');
    if |parts| > 1 then parts[1] else ""
  }

  /** The options before any flag is read: the first argument, if non-empty,
      is the input path. */
  function InitialOptions(argv: seq<string>): Options {
    Options(if |argv| > 0 && argv[0] != "" then argv[0] else DefaultInput, DefaultChunk, DefaultOutDir, false)
  }

  /** The three tests of the `forEach` body, in order, on one argument. */
  function ApplyArg(o: Options, a: string): (r: Options)
    ensures r.input == o.input
    ensures o.chunk != 0 ==> r.chunk != 0
  {
    var afterChunk :=
      if StartsWith(a, "--chunk=") then
        var n := ParseInt(ValueAfterEquals(a));
        o.(chunk := if n.Some? && n.value != 0 then n.value else o.chunk)
      else o;
    var afterOutDir :=
      if StartsWith(a, "--out-dir=") then
        afterChunk.(outDir := if ValueAfterEquals(a) != "" then ValueAfterEquals(a) else afterChunk.outDir)
      else afterChunk;
    if a == "--help" || a == "-h" then afterOutDir.(help := true) else afterOutDir
  }

  /** The arguments read in order; `--help` ends the program, so nothing after
      it is read. */
  function ScanArgs(o: Options, args: seq<string>): (r: Options)
    ensures r.input == o.input
    ensures o.chunk != 0 ==> r.chunk != 0
    ensures o.help ==> r == o
  {
    if args == [] then o
    else
      var before := ScanArgs(o, args[..|args| - 1]);
      if before.help then before else ApplyArg(before, args[|args| - 1])
  }

  /** `argv.slice(1)` */
  function Flags(argv: seq<string>): seq<string> {
    if |argv| <= 1 then [] else argv[1..]
  }

  /** The options the converter runs with, for `process.argv.slice(2)`. */
  function OptionsOf(argv: seq<string>): (o: Options)
    ensures o.input == if |argv| > 0 && argv[0] != "" then argv[0] else DefaultInput
    ensures o.chunk != 0
  {
    ScanArgs(InitialOptions(argv), Flags(argv))
  }

  /** Reading arguments in two runs is reading them in one. */
  lemma {:induction false} ScanArgsAppend(o: Options, a: seq<string>, b: seq<string>)
    ensures ScanArgs(o, a + b) == ScanArgs(ScanArgs(o, a), b)
  {
    if b != [] {
      var ab := a + b;
      var arg := b[|b| - 1];
      assert ab[..|ab| - 1] == a + b[..|b| - 1] && ab[|ab| - 1] == arg;
      var before := ScanArgs(o, a + b[..|b| - 1]);
      calc {
        ScanArgs(o, ab);
        if before.help then before else ApplyArg(before, arg);
        { ScanArgsAppend(o, a, b[..|b| - 1]); }
        ScanArgs(ScanArgs(o, a), b);
      }
    } else {
      assert a + b == a;
    }
  }

  /** Nothing after `--help` or `-h` changes the options. */
  lemma ArgumentsAfterHelpIgnored(argv: seq<string>, more: seq<string>)
    requires |argv| >= 1 && OptionsOf(argv).help
    ensures OptionsOf(argv + more) == OptionsOf(argv)
  {
    assert Flags(argv + more) == Flags(argv) + more;
    assert InitialOptions(argv + more) == InitialOptions(argv);
    ScanArgsAppend(InitialOptions(argv), Flags(argv), more);
  }

  /** Appending one argument when no help flag came before. */
  lemma OneMoreArgument(argv: seq<string>, a: string)
    requires |argv| >= 1 && !OptionsOf(argv).help
    ensures OptionsOf(argv + [a]) == ApplyArg(OptionsOf(argv), a)
  {
    var flags := Flags(argv + [a]);
    assert flags == Flags(argv) + [a];
    assert flags[..|flags| - 1] == Flags(argv);
    assert InitialOptions(argv + [a]) == InitialOptions(argv);
  }

  /** How the option loop reads `--chunk=<v>`. */
  lemma ChunkArgument(o: Options, v: string)
    requires '=' !in v
    ensures var n := ParseInt(v);
            ApplyArg(o, "--chunk=" + v) == o.(chunk := if n.Some? && n.value != 0 then n.value else o.chunk)
  {
    var a := "--chunk=" + v;
    assert a == "--chunk" + ['='] + v;
    SplitAtFirst("--chunk", '=', v);
    SplitWithoutSeparator(v, '=');
    assert ValueAfterEquals(a) == v;
    assert a[..8] == "--chunk=";
    assert a[2] == 'c' && "--out-dir="[2] == 'o' && "--help"[2] == 'h';
    assert StartsWith(a, "--chunk=") && !StartsWith(a, "--out-dir=");
    assert a != "--help" && a != "-h";
  }

  /** How the option loop reads `--out-dir=<d>`. */
  lemma OutDirArgument(o: Options, d: string)
    requires '=' !in d
    ensures ApplyArg(o, "--out-dir=" + d) == o.(outDir := if d != "" then d else o.outDir)
  {
    var a := "--out-dir=" + d;
    assert a == "--out-dir" + ['='] + d;
    SplitAtFirst("--out-dir", '=', d);
    SplitWithoutSeparator(d, '=');
    assert ValueAfterEquals(a) == d;
    assert a[..10] == "--out-dir=";
    assert a[2] == 'o' && "--chunk="[2] == 'c' && "--help"[2] == 'h';
  }

  /** A later `--chunk=N` with N > 0 sets the chunk size to N. */
  lemma ChunkFlagSetsChunk(argv: seq<string>, n: nat)
    requires |argv| >= 1 && !OptionsOf(argv).help && n > 0
    ensures OptionsOf(argv + ["--chunk=" + NatToString(n)]).chunk == n
  {
    OneMoreArgument(argv, "--chunk=" + NatToString(n));
    ParseIntOfNatToString(n);
    ChunkArgument(OptionsOf(argv), NatToString(n));
  }

  /** A `--chunk=` value that is not a number, or is zero, keeps the chunk
      size. */
  lemma ChunkFlagWithoutNumberIgnored(argv: seq<string>, v: string)
    requires |argv| >= 1 && !OptionsOf(argv).help && '=' !in v
    requires ParseInt(v).None? || ParseInt(v) == Some(0)
    ensures OptionsOf(argv + ["--chunk=" + v]) == OptionsOf(argv)
  {
    OneMoreArgument(argv, "--chunk=" + v);
    ChunkArgument(OptionsOf(argv), v);
  }

  /** A later `--out-dir=D` sets the output directory to D unless D is empty. */
  lemma OutDirFlagSetsOutDir(argv: seq<string>, d: string)
    requires |argv| >= 1 && !OptionsOf(argv).help && '=' !in d
    ensures OptionsOf(argv + ["--out-dir=" + d]).outDir == if d != "" then d else OptionsOf(argv).outDir
    ensures OptionsOf(argv + ["--out-dir=" + d]).chunk == OptionsOf(argv).chunk
  {
    OneMoreArgument(argv, "--out-dir=" + d);
    OutDirArgument(OptionsOf(argv), d);
  }

  /** The first argument is the input path even when it looks like a flag. */
  lemma FirstArgumentIsInput(a: string)
    requires a != ""
    ensures OptionsOf([a]) == Options(a, DefaultChunk, DefaultOutDir, false)
  {
  }

  lemma {:induction false} HelpStopsScan(o: Options, args: seq<string>, k: nat)
    requires k <= |args| && ScanArgs(o, args[..k]).help
    ensures ScanArgs(o, args) == ScanArgs(o, args[..k])
    decreases |args| - k
  {
    if k < |args| {
      assert args[..k + 1][..k] == args[..k];
      HelpStopsScan(o, args, k + 1);
    } else {
      assert args[..k] == args;
    }
  }

  /** The option loop: reads `argv.slice(1)` in order and stops at the first
      help flag. */
  method ParseOptions(argv: seq<string>) returns (opts: Options)
    ensures opts == OptionsOf(argv)
  {
    var input := if |argv| > 0 && argv[0] != "" then argv[0] else DefaultInput;
    var chunk := DefaultChunk;
    var outDir := DefaultOutDir;
    var help := false;
    var flags := Flags(argv);
    var i := 0;
    while i < |flags| && !help
      invariant 0 <= i <= |flags|
      invariant Options(input, chunk, outDir, help) == ScanArgs(InitialOptions(argv), flags[..i])
    {
      var a := flags[i];
      assert flags[..i + 1][..i] == flags[..i];
      if StartsWith(a, "--chunk=") {
        var n := ParseInt(ValueAfterEquals(a));
        if n.Some? && n.value != 0 {
          chunk := n.value;
        }
      }
      if StartsWith(a, "--out-dir=") {
        var d := ValueAfterEquals(a);
        if d != "" {
          outDir := d;
        }
      }
      if a == "--help" || a == "-h" {
        help := true;
      }
      i := i + 1;
    }
    opts := Options(input, chunk, outDir, help);
    if help {
      HelpStopsScan(InitialOptions(argv), flags, i);
    } else {
      assert flags[..i] == flags;
    }
  }

  // ---------------------------------------------------------------------------
  // `sanitizeFeature`: non-finite numbers become `null` before serialising.
  // ---------------------------------------------------------------------------

  /** The value the replacer of `sanitizeFeature` hands to the serialiser. */
  function Sanitize(v: JsValue): (r: JsValue)
    ensures v.Arr? <==> r.Arr?
    ensures v.Obj? <==> r.Obj?
    ensures v.Arr? ==> |r.items| == |v.items|
    ensures v.Obj? ==> r.props.Keys == v.props.Keys
    ensures v.Num? ==> r == if v.n.IsFinite() then v else Null
    ensures !v.Num? && !v.Arr? && !v.Obj? ==> r == v
    ensures v.Arr? ==> forall i :: 0 <= i < |v.items| ==> r.items[i] == Sanitize(v.items[i])
    ensures v.Obj? ==> forall k :: k in v.props ==> r.props[k] == Sanitize(v.props[k])
  {
    match v
    case Num(n) => if n.IsFinite() then v else Null
    case Arr(items) => Arr(seq(|items|, i requires 0 <= i < |items| => Sanitize(items[i])))
    case Obj(props) => Obj(map k | k in props :: Sanitize(props[k]))
    case _ => v
  }

  /** No NaN or infinity anywhere in the value. */
  predicate AllFinite(v: JsValue) {
    match v
    case Num(n) => n.IsFinite()
    case Arr(items) => forall i :: 0 <= i < |items| ==> AllFinite(items[i])
    case Obj(props) => forall k :: k in props ==> AllFinite(props[k])
    case _ => true
  }

  /** The sanitised value holds no NaN or infinity. */
  lemma {:induction false} SanitizedIsFinite(v: JsValue)
    ensures AllFinite(Sanitize(v))
  {
    match v
    case Arr(items) =>
      forall i | 0 <= i < |items| {
        SanitizedIsFinite(items[i]);
      }
    case Obj(props) =>
      forall k | k in props {
        SanitizedIsFinite(props[k]);
      }
    case _ =>
  }

  /** A value without NaN or infinity is passed on unchanged; so sanitising
      twice is sanitising once. */
  lemma {:induction false} SanitizeKeepsFiniteValues(v: JsValue)
    requires AllFinite(v)
    ensures Sanitize(v) == v
  {
    match v
    case Arr(items) =>
      forall i | 0 <= i < |items| {
        SanitizeKeepsFiniteValues(items[i]);
      }
      assert Sanitize(v).items == items;
    case Obj(props) =>
      forall k | k in props {
        SanitizeKeepsFiniteValues(props[k]);
      }
      assert Sanitize(v).props == props;
    case _ =>
  }

  lemma SanitizeIdempotent(v: JsValue)
    ensures Sanitize(Sanitize(v)) == Sanitize(v)
  {
    SanitizedIsFinite(v);
    SanitizeKeepsFiniteValues(Sanitize(v));
  }

  // ---------------------------------------------------------------------------
  // The output files.
  // ---------------------------------------------------------------------------

  /** An output stream: its path and the lines written to it. */
  datatype OutFile = OutFile(path: string, lines: seq<string>)

  /** `path.join(outDir, 'construction_<index>.ndjson')`, joined with a single
      `/`. */
  function ChunkPath(outDir: string, index: nat): string {
    outDir + "/construction_" + NatToString(index) + ".ndjson"
  }

  /** Different streams never share a path. */
  lemma ChunkPathsDistinct(outDir: string, i: nat, j: nat)
    requires ChunkPath(outDir, i) == ChunkPath(outDir, j)
    ensures i == j
  {
    var pi, pj := ChunkPath(outDir, i), ChunkPath(outDir, j);
    var front := |outDir + "/construction_"|;
    assert |NatToString(i)| == |pi| - front - 7 == |NatToString(j)|;
    assert pi[front..|pi| - 7] == NatToString(i);
    assert pj[front..|pj| - 7] == NatToString(j);
    NatToStringInjective(i, j);
  }

  /** The outcome of serialising each feature. */
  function Serialized(features: seq<JsValue>, stringify: JsValue -> Option<string>): (outs: seq<Option<string>>)
    ensures |outs| == |features|
  {
    seq(|features|, i requires 0 <= i < |features| => stringify(Sanitize(features[i])))
  }

  /** `openNewStream()`: a new, empty stream numbered by the streams before it. */
  function WithNewFile(outDir: string, files: seq<OutFile>): seq<OutFile> {
    files + [OutFile(ChunkPath(outDir, |files|), [])]
  }

  function Last(files: seq<OutFile>): OutFile
    requires files != []
  {
    files[|files| - 1]
  }

  /** `outStream.write(line + '\n')` */
  function WithLine(files: seq<OutFile>, line: string): (r: seq<OutFile>)
    requires files != []
    ensures |r| == |files|
    ensures Last(r).lines == Last(files).lines + [line + "\n"]
  {
    var last := files[|files| - 1];
    files[..|files| - 1] + [last.(lines := last.lines + [line + "\n"])]
  }

  /** The streams after the loop has handled the given outcomes: the first
      stream is ready before the loop, a new one whenever the current one
      holds `chunk` lines or more when a feature comes, and a feature whose
      serialisation throws is skipped. */
  function Layout(outDir: string, outs: seq<Option<string>>, chunk: int): (files: seq<OutFile>)
    ensures |files| >= 1
  {
    if outs == [] then WithNewFile(outDir, [])
    else Step(outDir, Layout(outDir, outs[..|outs| - 1], chunk), chunk, outs[|outs| - 1])
  }

  /** One turn of the loop: a new stream when the current one is full, then
      the line, if serialising did not throw. */
  function Step(outDir: string, files: seq<OutFile>, chunk: int, out: Option<string>): (r: seq<OutFile>)
    requires files != []
    ensures |r| == |files| || |r| == |files| + 1
    ensures forall i :: 0 <= i < |files| ==> r[i].path == files[i].path
    ensures |r| == |files| + 1 ==> r[|files|].path == ChunkPath(outDir, |files|)
  {
    var ready := if |Last(files).lines| >= chunk then WithNewFile(outDir, files) else files;
    match out
    case None => ready
    case Some(line) => WithLine(ready, line)
  }

  /** Stream `i` is `construction_<i>.ndjson` in the output directory. */
  lemma {:induction false} LayoutPath(outDir: string, outs: seq<Option<string>>, chunk: int, i: nat)
    requires i < |Layout(outDir, outs, chunk)|
    ensures Layout(outDir, outs, chunk)[i].path == ChunkPath(outDir, i)
  {
    if outs != [] {
      var before := Layout(outDir, outs[..|outs| - 1], chunk);
      var after := Step(outDir, before, chunk, outs[|outs| - 1]);
      assert Layout(outDir, outs, chunk) == after;
      if i < |before| {
        LayoutPath(outDir, outs[..|outs| - 1], chunk, i);
        assert after[i].path == before[i].path;
      }
    }
  }

  /** The lines that reach the output, in order. */
  function Lines(outs: seq<Option<string>>): seq<string> {
    if outs == [] then []
    else
      Lines(outs[..|outs| - 1])
      + match outs[|outs| - 1] case None => [] case Some(line) => [line + "\n"]
  }

  /** All lines of all streams, stream after stream. */
  function Concat(files: seq<OutFile>): seq<string> {
    if files == [] then [] else Concat(files[..|files| - 1]) + files[|files| - 1].lines
  }

  /** The number of features written. */
  function CountWritten(outs: seq<Option<string>>): (n: nat)
    ensures n <= |outs|
  {
    if outs == [] then 0 else CountWritten(outs[..|outs| - 1]) + (if outs[|outs| - 1].Some? then 1 else 0)
  }

  lemma ConcatAppend(files: seq<OutFile>, f: OutFile)
    ensures Concat(files + [f]) == Concat(files) + f.lines
  {
    assert (files + [f])[..|files|] == files;
  }

  /** Read one after another, the streams hold exactly the serialised
      features that did not throw, in input order, and `written` counts them. */
  lemma {:induction false} LayoutKeepsLines(outDir: string, outs: seq<Option<string>>, chunk: int)
    ensures Concat(Layout(outDir, outs, chunk)) == Lines(outs)
    ensures |Lines(outs)| == CountWritten(outs)
  {
    if outs == [] {
      ConcatAppend([], OutFile(ChunkPath(outDir, 0), []));
    } else {
      var init := outs[..|outs| - 1];
      LayoutKeepsLines(outDir, init, chunk);
      StepKeepsLines(outDir, Layout(outDir, init, chunk), chunk, outs[|outs| - 1]);
    }
  }

  /** One turn of the loop appends the line, if any, after all earlier ones. */
  lemma StepKeepsLines(outDir: string, files: seq<OutFile>, chunk: int, out: Option<string>)
    requires files != []
    ensures Concat(Step(outDir, files, chunk, out))
            == Concat(files) + match out case None => [] case Some(line) => [line + "\n"]
  {
    var ready := if |Last(files).lines| >= chunk then WithNewFile(outDir, files) else files;
    if |Last(files).lines| >= chunk {
      ConcatAppend(files, OutFile(ChunkPath(outDir, |files|), []));
    }
    assert Concat(ready) == Concat(files);
    if out.Some? {
      WithLineAppends(ready, out.value);
    }
  }

  /** Writing a line appends it after all the lines already written. */
  lemma WithLineAppends(files: seq<OutFile>, line: string)
    requires files != []
    ensures Concat(WithLine(files, line)) == Concat(files) + [line + "\n"]
  {
    var last := files[|files| - 1];
    var front := files[..|files| - 1];
    assert files == front + [last];
    ConcatAppend(front, last);
    ConcatAppend(front, last.(lines := last.lines + [line + "\n"]));
  }

  /** No stream holds more than `chunk` lines, and every stream but the last
      holds exactly `chunk`. */
  predicate ChunkedBy(files: seq<OutFile>, chunk: int) {
    && (forall i :: 0 <= i < |files| ==> |files[i].lines| <= chunk)
    && (forall i :: 0 <= i < |files| - 1 ==> |files[i].lines| == chunk)
  }

  lemma StepChunkSizes(outDir: string, files: seq<OutFile>, chunk: int, out: Option<string>)
    requires files != [] && chunk >= 1 && ChunkedBy(files, chunk)
    ensures ChunkedBy(Step(outDir, files, chunk, out), chunk)
  {
  }

  /** The streams and the count after one more turn of the loop. */
  lemma LayoutPrefixStep(outDir: string, outs: seq<Option<string>>, chunk: int, i: nat)
    requires i < |outs|
    ensures Layout(outDir, outs[..i + 1], chunk) == Step(outDir, Layout(outDir, outs[..i], chunk), chunk, outs[i])
    ensures CountWritten(outs[..i + 1]) == CountWritten(outs[..i]) + if outs[i].Some? then 1 else 0
  {
    assert outs[..i + 1][..i] == outs[..i];
  }

  /** With a chunk size of at least one, no stream holds more than `chunk`
      lines and every stream but the last holds exactly `chunk`. */
  lemma {:induction false} LayoutChunkSizes(outDir: string, outs: seq<Option<string>>, chunk: int)
    requires chunk >= 1
    ensures ChunkedBy(Layout(outDir, outs, chunk), chunk)
  {
    if outs != [] {
      LayoutChunkSizes(outDir, outs[..|outs| - 1], chunk);
      StepChunkSizes(outDir, Layout(outDir, outs[..|outs| - 1], chunk), chunk, outs[|outs| - 1]);
    }
  }

  /** With a chunk size of zero or less, every feature opens a new stream. */
  lemma {:induction false} LayoutWithoutChunkBound(outDir: string, outs: seq<Option<string>>, chunk: int)
    requires chunk <= 0
    ensures |Layout(outDir, outs, chunk)| == |outs| + 1
  {
    if outs != [] {
      LayoutWithoutChunkBound(outDir, outs[..|outs| - 1], chunk);
    }
  }

  /** A feature that fails to serialise when the current stream is full still
      opens a new stream, which stays empty when it is the last feature. */
  lemma SkipAtFullStreamLeavesEmptyFile(outDir: string, line: string)
    ensures Layout(outDir, [Some(line), None], 1)
            == [OutFile(ChunkPath(outDir, 0), [line + "\n"]), OutFile(ChunkPath(outDir, 1), [])]
  {
    var outs := [Some(line), None];
    assert outs[..1] == [Some(line)];
    assert [Some(line)][..0] == [];
    var first := Layout(outDir, [], 1);
    assert first == [OutFile(ChunkPath(outDir, 0), [])];
    var second := Step(outDir, first, 1, Some(line));
    assert second == WithLine(first, line);
    assert first[..0] == [] && [] + [line + "\n"] == [line + "\n"];
    assert second == [OutFile(ChunkPath(outDir, 0), [line + "\n"])];
    assert Layout(outDir, outs, 1) == Step(outDir, second, 1, None);
  }

  // ---------------------------------------------------------------------------
  // The writer and the whole run.
  // ---------------------------------------------------------------------------

  /** `input` after `JSON.parse` passes the check `obj && obj.type ===
      'FeatureCollection' && Array.isArray(obj.features)`. */
  predicate IsFeatureCollection(obj: JsValue) {
    Truthy(obj) && Get(obj, "type") == Str("FeatureCollection") && Get(obj, "features").Arr?
  }

  /** How a run ends: `process.exit(code)`, or the end of the script after
      writing the streams. */
  datatype Outcome = Exited(code: nat) | Finished(files: seq<OutFile>, written: nat)

  /** The run for the given arguments and environment. */
  function Conversion(argv: seq<string>, fileExists: string -> bool, load: string -> Option<JsValue>,
                      stringify: JsValue -> Option<string>): (r: Outcome)
    ensures r.Exited? ==> r.code in {0, 2, 3, 4}
    ensures r == Exited(0) <==> OptionsOf(argv).help
    ensures r == Exited(2) <==> !OptionsOf(argv).help && !fileExists(OptionsOf(argv).input)
    ensures r == Exited(3) <==>
      !OptionsOf(argv).help && fileExists(OptionsOf(argv).input) && load(OptionsOf(argv).input).None?
    ensures r == Exited(4) <==>
      !OptionsOf(argv).help && fileExists(OptionsOf(argv).input) && load(OptionsOf(argv).input).Some?
      && !IsFeatureCollection(load(OptionsOf(argv).input).value)
    ensures r.Finished? <==>
      !OptionsOf(argv).help && fileExists(OptionsOf(argv).input) && load(OptionsOf(argv).input).Some?
      && IsFeatureCollection(load(OptionsOf(argv).input).value)
    ensures r.Finished? ==>
      |r.files| >= 1 && r.written <= |Get(load(OptionsOf(argv).input).value, "features").items|
  {
    var opts := OptionsOf(argv);
    if opts.help then Exited(0)
    else if !fileExists(opts.input) then Exited(2)
    else
      match load(opts.input)
      case None => Exited(3)
      case Some(obj) =>
        if !IsFeatureCollection(obj) then Exited(4)
        else
          var outs := Serialized(Get(obj, "features").items, stringify);
          Finished(Layout(opts.outDir, outs, opts.chunk), CountWritten(outs))
  }

  /** The writer's state: `fileIndex`, `fileCount`, `written` and the streams
      ready so far, the last of which is `outStream`. */
  class NdjsonWriter {
    const outDir: string
    var fileIndex: nat
    var fileCount: nat
    var written: nat
    var files: seq<OutFile>

    /** Before the first stream is ready. */
    constructor(outDir: string)
      ensures this.outDir == outDir && files == [] && fileIndex == 0 && fileCount == 0 && written == 0
    {
      this.outDir := outDir;
      fileIndex := 0;
      fileCount := 0;
      written := 0;
      files := [];
    }

    /** `openNewStream()`: the next numbered stream, empty. */
    method OpenNewStream()
      requires fileIndex == |files|
      modifies this
      ensures files == WithNewFile(outDir, old(files))
      ensures fileIndex == old(fileIndex) + 1 && fileIndex == |files|
      ensures fileCount == 0 && written == old(written)
    {
      files := files + [OutFile(ChunkPath(outDir, fileIndex), [])];
      fileIndex := fileIndex + 1;
      fileCount := 0;
    }

    /** The loop over the features, after the first stream is ready. */
    method WriteFeatures(features: seq<JsValue>, chunk: int, stringify: JsValue -> Option<string>)
      requires files == WithNewFile(outDir, []) && fileIndex == 1 && fileCount == 0 && written == 0
      modifies this
      ensures files == Layout(outDir, Serialized(features, stringify), chunk)
      ensures written == CountWritten(Serialized(features, stringify))
    {
      ghost var outs := Serialized(features, stringify);
      assert outs[..0] == [];
      var i := 0;
      while i < |features|
        invariant 0 <= i <= |features|
        invariant files == Layout(outDir, outs[..i], chunk)
        invariant fileIndex == |files| && fileCount == |Last(files).lines|
        invariant written == CountWritten(outs[..i])
      {
        WriteFeature(features[i], chunk, stringify);
        LayoutPrefixStep(outDir, outs, chunk, i);
        i := i + 1;
      }
      assert outs[..i] == outs;
    }

    /** One turn of the loop: a new stream when the current one is full, then
        the sanitised feature as one line, unless serialising throws. */
    method WriteFeature(feat: JsValue, chunk: int, stringify: JsValue -> Option<string>)
      requires files != [] && fileIndex == |files| && fileCount == |Last(files).lines|
      modifies this
      ensures files == Step(outDir, old(files), chunk, stringify(Sanitize(feat)))
      ensures fileIndex == |files| && fileCount == |Last(files).lines|
      ensures written == old(written) + if stringify(Sanitize(feat)).Some? then 1 else 0
    {
      if fileCount >= chunk {
        OpenNewStream();
      }
      var line := stringify(Sanitize(feat));
      if line.Some? {
        files := WithLine(files, line.value);
        written := written + 1;
        fileCount := fileCount + 1;
      }
    }
  }

  /** The whole script after `process.argv.slice(2)`. */
  method Convert(argv: seq<string>, fileExists: string -> bool, load: string -> Option<JsValue>,
                 stringify: JsValue -> Option<string>) returns (outcome: Outcome)
    ensures outcome == Conversion(argv, fileExists, load, stringify)
  {
    var opts := ParseOptions(argv);
    if opts.help {
      return Exited(0);
    }
    if !fileExists(opts.input) {
      return Exited(2);
    }
    var obj := load(opts.input);
    if obj.None? {
      return Exited(3);
    }
    if !IsFeatureCollection(obj.value) {
      return Exited(4);
    }
    var writer := new NdjsonWriter(opts.outDir);
    writer.OpenNewStream();
    writer.WriteFeatures(Get(obj.value, "features").items, opts.chunk, stringify);
    outcome := Finished(writer.files, writer.written);
  }
}
