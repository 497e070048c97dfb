/** The command line of main.cpp:17-67: the `report` and `align` argument
    folds, method validation, the help exit code, and the strategy
    dispatch of main.cpp:109 and 141. `argv[0]` is the program name. */
module Cli {
  import opened Results
  import opened Text

  /** Settings of an `align` run. */
  datatype AlignOptions = AlignOptions(
    kirsFile: string,
    readsFile: string,
    methodName: string,
    numRepresentatives: int,
    incPair: bool,
    nThreads: int,
    outputFile: string)

  /** Settings of a `report` run. */
  datatype ReportOptions = ReportOptions(
    alignmentsFile: string,
    kirId: string,
    alleleId: string,
    readId: int,
    numResults: int)

  /** Why an argument fold stops early: the help text, or an abnormal end.
      The latter is `stoi` throwing, or a value-taking flag in last
      position, whose `argv[++i]` reads the null pointer `argv[argc]`
      (undefined behaviour). */
  datatype Stop = ShowHelp | Crash

  /** What `main` does with its arguments. */
  datatype Command = Help | RunReport(report: ReportOptions) | RunAlign(align: AlignOptions) | Fault

  /** The methods `--method` accepts. */
  const Methods: set<string> := {"naive", "regional", "categorical"}

  /** The value after the flag at `i`, when there is one. */
  function Value(argv: seq<string>, i: nat): (r: Result<string, Stop>)
    ensures r.Ok? <==> i + 1 < |argv|
    ensures r.Ok? ==> r.value == argv[i + 1]
  {
    if i + 1 < |argv| then Ok(argv[i + 1]) else Err(Crash)
  }

  /** The value after the flag at `i`, read with `stoi`. */
  function IntValue(argv: seq<string>, i: nat): (r: Result<int, Stop>)
    ensures r.Ok? <==> i + 1 < |argv| && StoI(argv[i + 1]).Some?
    ensures r.Ok? ==> Some(r.value) == StoI(argv[i + 1]) && IsInt(r.value)
  {
    if i + 1 >= |argv| then Err(Crash)
    else match StoI(argv[i + 1])
      case None => Err(Crash)
      case Some(v) => Ok(v)
  }

  /** `stoi` reads back a numeral `to_string` wrote. */
  lemma IntValueOf(argv: seq<string>, i: nat, n: int)
    requires IsInt(n) && i + 1 < |argv| && argv[i + 1] == IntToString(n)
    ensures IntValue(argv, i) == Ok(n)
  {
    StoIToString(n);
  }

  /** A window of `argv` holding `a + b` holds `a`, then `b`. */
  lemma SliceSplit(argv: seq<string>, i: nat, a: seq<string>, b: seq<string>)
    requires i + |a + b| <= |argv| && argv[i..i + |a + b|] == a + b
    ensures argv[i..i + |a|] == a
    ensures i + |a| + |b| <= |argv| && argv[i + |a|..i + |a| + |b|] == b
  {
    assert argv[i..i + |a|] == argv[i..i + |a + b|][..|a|];
    assert argv[i + |a|..i + |a| + |b|] == argv[i..i + |a + b|][|a|..];
  }

  // ---------------------------------------------------------------------
  // `align` (main.cpp:43-67)
  // ---------------------------------------------------------------------

  /** The flags `align` recognises. */
  const AlignFlagNames: set<string> := {"--method", "-r", "--pair", "-t", "-o"}

  /** One step of the `align` option loop (main.cpp:56-67): the token at
      `i` with its value, if it takes one. A method outside `Methods`
      stops with the help text at once. The result is the new options and
      the position of the next token. */
  function AlignToken(argv: seq<string>, i: nat, o: AlignOptions): (r: Result<(AlignOptions, nat), Stop>)
    requires i < |argv|
    ensures r.Ok? ==> i < r.value.1 <= |argv|
    ensures r.Ok? ==> r.value.0.kirsFile == o.kirsFile && r.value.0.readsFile == o.readsFile
    ensures r.Ok? ==> r.value.0.methodName == o.methodName || r.value.0.methodName in Methods
    ensures r.Err? ==> argv[i] in AlignFlagNames
  {
    if argv[i] == "--method" then
      var m :- Value(argv, i);
      if m !in Methods then Err(ShowHelp) else Ok((o.(methodName := m), i + 2))
    else if argv[i] == "-r" then
      var n :- IntValue(argv, i);
      Ok((o.(numRepresentatives := n), i + 2))
    else if argv[i] == "--pair" then
      Ok((o.(incPair := true), i + 1))
    else if argv[i] == "-t" then
      var n :- IntValue(argv, i);
      Ok((o.(nThreads := n), i + 2))
    else if argv[i] == "-o" then
      var p :- Value(argv, i);
      Ok((o.(outputFile := p), i + 2))
    else Ok((o, i + 1))
  }

  /** The `align` option loop from position `i`: the positional files are
      never changed, and a completed loop leaves a valid method whenever it
      started with one. */
  function AlignFlags(argv: seq<string>, i: nat, o: AlignOptions): (r: Result<AlignOptions, Stop>)
    ensures r.Ok? ==> r.value.kirsFile == o.kirsFile && r.value.readsFile == o.readsFile
    ensures r.Ok? && o.methodName in Methods ==> r.value.methodName in Methods
    decreases |argv| - i
  {
    if i >= |argv| then Ok(o)
    else
      var (next, j) :- AlignToken(argv, i, o);
      AlignFlags(argv, j, next)
  }

  /** The `align` defaults: regional, one representative, no mates, all
      hardware threads, no output file. */
  function AlignDefaults(kirsFile: string, readsFile: string, hwThreads: int): AlignOptions
  {
    AlignOptions(kirsFile, readsFile, "regional", 1, false, hwThreads, "")
  }

  // ---------------------------------------------------------------------
  // `report` (main.cpp:23-42)
  // ---------------------------------------------------------------------

  /** The flags `report` recognises. */
  const ReportFlagNames: set<string> := {"--head", "-r", "-k", "-a"}

  /** One step of the `report` option loop (main.cpp:33-41). */
  function ReportToken(argv: seq<string>, i: nat, o: ReportOptions): (r: Result<(ReportOptions, nat), Stop>)
    requires i < |argv|
    ensures r.Ok? ==> i < r.value.1 <= |argv|
    ensures r.Ok? ==> r.value.0.alignmentsFile == o.alignmentsFile
    ensures r.Err? ==> r.error == Crash && argv[i] in ReportFlagNames
  {
    if argv[i] == "--head" then
      var n :- IntValue(argv, i);
      Ok((o.(numResults := n), i + 2))
    else if argv[i] == "-r" then
      var n :- IntValue(argv, i);
      Ok((o.(readId := n), i + 2))
    else if argv[i] == "-k" then
      var k :- Value(argv, i);
      Ok((o.(kirId := k), i + 2))
    else if argv[i] == "-a" then
      var a :- Value(argv, i);
      Ok((o.(alleleId := a), i + 2))
    else Ok((o, i + 1))
  }

  /** The `report` option loop from position `i`. It never asks for the
      help text and never changes the alignments file. */
  function ReportFlags(argv: seq<string>, i: nat, o: ReportOptions): (r: Result<ReportOptions, Stop>)
    ensures r.Err? ==> r.error == Crash
    ensures r.Ok? ==> r.value.alignmentsFile == o.alignmentsFile
    decreases |argv| - i
  {
    if i >= |argv| then Ok(o)
    else
      var (next, j) :- ReportToken(argv, i, o);
      ReportFlags(argv, j, next)
  }

  /** The `report` defaults: any read, all lines, any gene, any allele. */
  function ReportDefaults(alignmentsFile: string): ReportOptions
  {
    ReportOptions(alignmentsFile, "", "", -1, -1)
  }

  // ---------------------------------------------------------------------
  // `main`
  // ---------------------------------------------------------------------

  /** A fold's early stop as a command. */
  function Stopped(s: Stop): Command
  {
    match s
    case ShowHelp => Help
    case Crash => Fault
  }

  /** How `main` reads its arguments (main.cpp:17-67, 188-189). Too few
      arguments, a help word, an unknown command or an invalid method give
      the help text. `hwThreads` is what `thread::hardware_concurrency`
      reports. */
  function Parse(argv: seq<string>, hwThreads: int): (c: Command)
    ensures |argv| < 2 ==> c == Help
    ensures |argv| >= 2 && argv[1] != "report" && argv[1] != "align" ==> c == Help
    ensures |argv| >= 2 && argv[1] == "report" && |argv| < 3 ==> c == Help
    ensures |argv| >= 2 && argv[1] == "align" && |argv| < 4 ==> c == Help
    ensures c.RunReport? ==> argv[1] == "report" && c.report.alignmentsFile == argv[2]
    ensures c.RunAlign? ==> (argv[1] == "align" && c.align.kirsFile == argv[2] && c.align.readsFile == argv[3]
      && c.align.methodName in Methods)
  {
    if |argv| < 2 then Help
    else if argv[1] == "-h" || argv[1] == "--help" || argv[1] == "help" then Help
    else if argv[1] == "report" then
      if |argv| < 3 then Help else ReportCommand(argv)
    else if argv[1] == "align" then
      if |argv| < 4 then Help else AlignCommand(argv, hwThreads)
    else Help
  }

  /** `report` with its file: the option loop from the fourth argument. */
  function ReportCommand(argv: seq<string>): (c: Command)
    requires |argv| >= 3
    ensures c.RunReport? || c.Fault?
    ensures c.RunReport? ==> c.report.alignmentsFile == argv[2]
  {
    match ReportFlags(argv, 3, ReportDefaults(argv[2]))
    case Ok(o) => RunReport(o)
    case Err(s) => Stopped(s)
  }

  /** `align` with its two files: the option loop from the fifth
      argument. */
  function AlignCommand(argv: seq<string>, hwThreads: int): (c: Command)
    requires |argv| >= 4
    ensures c.RunAlign? || c.Help? || c.Fault?
    ensures c.RunAlign? ==> c.align.kirsFile == argv[2] && c.align.readsFile == argv[3] && c.align.methodName in Methods
  {
    match AlignFlags(argv, 4, AlignDefaults(argv[2], argv[3], hwThreads))
    case Ok(o) => RunAlign(o)
    case Err(s) => Stopped(s)
  }

  /** The exit status once the command has run: `show_help` returns 1,
      a completed `report` or `align` returns 0, and an abnormal end has no
      status of the program's choosing. */
  function ExitCode(c: Command): (code: Option<int>)
    ensures code == Some(1) <==> c.Help?
    ensures code == Some(0) <==> c.RunReport? || c.RunAlign?
    ensures code.None? <==> c.Fault?
  {
    match c
    case Help => Some(1)
    case RunReport(_) => Some(0)
    case RunAlign(_) => Some(0)
    case Fault => None
  }

  // ---------------------------------------------------------------------
  // Arguments as settings: the partner of the folds
  // ---------------------------------------------------------------------

  /** One `align` argument, or an argument the loop ignores. */
  datatype AlignSetting =
    | SetMethod(name: string)
    | SetRepresentatives(count: int)
    | SetPair
    | SetThreads(threads: int)
    | SetOutput(path: string)
    | IgnoredAlign(token: string)

  /** The argument tokens of one setting. */
  function AlignTokens(s: AlignSetting): seq<string>
  {
    match s
    case SetMethod(m) => ["--method", m]
    case SetRepresentatives(n) => ["-r", IntToString(n)]
    case SetPair => ["--pair"]
    case SetThreads(n) => ["-t", IntToString(n)]
    case SetOutput(p) => ["-o", p]
    case IgnoredAlign(t) => [t]
  }

  /** A setting the fold reads back as itself. */
  predicate AlignSettingOk(s: AlignSetting)
  {
    match s
    case SetMethod(m) => m in Methods
    case SetRepresentatives(n) => IsInt(n)
    case SetThreads(n) => IsInt(n)
    case IgnoredAlign(t) => t !in AlignFlagNames
    case _ => true
  }

  /** The effect of one setting. */
  function ApplyAlign(o: AlignOptions, s: AlignSetting): AlignOptions
  {
    match s
    case SetMethod(m) => o.(methodName := m)
    case SetRepresentatives(n) => o.(numRepresentatives := n)
    case SetPair => o.(incPair := true)
    case SetThreads(n) => o.(nThreads := n)
    case SetOutput(p) => o.(outputFile := p)
    case IgnoredAlign(_) => o
  }

  /** Settings applied left to right, so a later one overrides an earlier
      one. */
  function ApplyAligns(o: AlignOptions, ss: seq<AlignSetting>): AlignOptions
    decreases |ss|
  {
    if ss == [] then o else ApplyAligns(ApplyAlign(o, ss[0]), ss[1..])
  }

  /** The argument tokens of a list of settings. */
  function RenderAligns(ss: seq<AlignSetting>): seq<string>
  {
    if ss == [] then [] else AlignTokens(ss[0]) + RenderAligns(ss[1..])
  }

  /** The fold consumes the tokens of valid settings exactly as their
      effects say, whatever follows them. */
  lemma {:induction false} AlignFlagsRender(argv: seq<string>, i: nat, j: nat, ss: seq<AlignSetting>, o: AlignOptions)
    requires forall k :: 0 <= k < |ss| ==> AlignSettingOk(ss[k])
    requires j == i + |RenderAligns(ss)| <= |argv| && argv[i..j] == RenderAligns(ss)
    ensures AlignFlags(argv, i, o) == AlignFlags(argv, j, ApplyAligns(o, ss))
    decreases |ss|
  {
    hide AlignFlags;
    if ss != [] {
      var head := AlignTokens(ss[0]);
      var tail := RenderAligns(ss[1..]);
      SliceSplit(argv, i, head, tail);
      var o1 := ApplyAlign(o, ss[0]);
      AlignStep(argv, i, ss[0], o);
      AlignFlagsRender(argv, i + |head|, j, ss[1..], o1);
      assert ApplyAligns(o, ss) == ApplyAligns(o1, ss[1..]);
    }
  }

  lemma {:induction false} AlignTokenOf(argv: seq<string>, i: nat, s: AlignSetting, o: AlignOptions)
    requires AlignSettingOk(s)
    requires i + |AlignTokens(s)| <= |argv| && argv[i..i + |AlignTokens(s)|] == AlignTokens(s)
    ensures AlignToken(argv, i, o) == Ok((ApplyAlign(o, s), i + |AlignTokens(s)|))
  {
    assert argv[i] == AlignTokens(s)[0];
    match s
    case SetRepresentatives(n) =>
      IntValueOf(argv, i, n);
    case SetThreads(n) =>
      IntValueOf(argv, i, n);
    case SetMethod(m) =>
      assert argv[i + 1] == m;
    case SetOutput(p) =>
      assert argv[i + 1] == p;
    case SetPair =>
    case IgnoredAlign(t) =>
  }

  lemma {:induction false} AlignStep(argv: seq<string>, i: nat, s: AlignSetting, o: AlignOptions)
    requires AlignSettingOk(s)
    requires i + |AlignTokens(s)| <= |argv| && argv[i..i + |AlignTokens(s)|] == AlignTokens(s)
    ensures AlignFlags(argv, i, o) == AlignFlags(argv, i + |AlignTokens(s)|, ApplyAlign(o, s))
  {
    AlignTokenOf(argv, i, s, o);
  }

  /** `align` with valid settings after the two files runs with the
      defaults overridden by the settings, the last one winning. */
  lemma {:induction false} ParseAlign(program: string, kirsFile: string, readsFile: string, ss: seq<AlignSetting>, hwThreads: int)
    requires forall k :: 0 <= k < |ss| ==> AlignSettingOk(ss[k])
    ensures Parse([program, "align", kirsFile, readsFile] + RenderAligns(ss), hwThreads)
         == RunAlign(ApplyAligns(AlignDefaults(kirsFile, readsFile, hwThreads), ss))
  {
    hide Parse, AlignFlags, RenderAligns, ApplyAligns;
    var argv := [program, "align", kirsFile, readsFile] + RenderAligns(ss);
    assert argv[4..] == RenderAligns(ss);
    ParseAlignArgs(argv, ss, hwThreads);
  }

  lemma {:induction false} ParseAlignArgs(argv: seq<string>, ss: seq<AlignSetting>, hwThreads: int)
    requires forall k :: 0 <= k < |ss| ==> AlignSettingOk(ss[k])
    requires |argv| >= 4 && argv[1] == "align" && argv[4..] == RenderAligns(ss)
    ensures Parse(argv, hwThreads) == RunAlign(ApplyAligns(AlignDefaults(argv[2], argv[3], hwThreads), ss))
  {
    hide AlignFlags, RenderAligns, ApplyAligns;
    AlignFlagsAll(argv, ss, AlignDefaults(argv[2], argv[3], hwThreads));
    assert argv[1] != "-h" && argv[1] != "--help" && argv[1] != "help" && argv[1] != "report";
  }

  /** The fold over a tail made of valid settings only. */
  lemma {:induction false} AlignFlagsAll(argv: seq<string>, ss: seq<AlignSetting>, o: AlignOptions)
    requires forall k :: 0 <= k < |ss| ==> AlignSettingOk(ss[k])
    requires |argv| >= 4 && argv[4..] == RenderAligns(ss)
    ensures AlignFlags(argv, 4, o) == Ok(ApplyAligns(o, ss))
  {
    hide AlignFlags, ApplyAligns;
    var n := |RenderAligns(ss)|;
    assert argv[4..4 + n] == RenderAligns(ss);
    AlignFlagsRender(argv, 4, 4 + |RenderAligns(ss)|, ss, o);
    AlignFlagsEnd(argv, |argv|, ApplyAligns(o, ss));
  }
  /** The loop ends at the end of the arguments. */
  lemma AlignFlagsEnd(argv: seq<string>, i: nat, o: AlignOptions)
    requires i >= |argv|
    ensures AlignFlags(argv, i, o) == Ok(o)
  {
  }

  lemma {:induction false} AlignMethodValid(o: AlignOptions, ss: seq<AlignSetting>)
    requires o.methodName in Methods && forall k :: 0 <= k < |ss| ==> AlignSettingOk(ss[k])
    ensures ApplyAligns(o, ss).methodName in Methods
    decreases |ss|
  {
    if ss != [] {
      AlignMethodValid(ApplyAlign(o, ss[0]), ss[1..]);
    }
  }

  /** After valid settings, a method outside `Methods` gives the help
      text. */
  lemma {:induction false} AlignBadMethod(program: string, kirsFile: string, readsFile: string, ss: seq<AlignSetting>, hwThreads: int, name: string)
    requires forall k :: 0 <= k < |ss| ==> AlignSettingOk(ss[k])
    requires name !in Methods
    ensures Parse([program, "align", kirsFile, readsFile] + RenderAligns(ss) + ["--method", name], hwThreads) == Help
  {
    hide Parse, AlignFlags, ApplyAligns, RenderAligns;
    var argv := [program, "align", kirsFile, readsFile] + RenderAligns(ss) + ["--method", name];
    var p := 4 + |RenderAligns(ss)|;
    assert argv[1] == "align" && argv[4..p] == RenderAligns(ss);
    assert argv[p] == "--method" && argv[p + 1] == name && |argv| == p + 2;
    AlignStopsAfter(argv, ss, hwThreads);
  }

  /** After valid settings, a value-taking flag with nothing after it ends
      abnormally. */
  lemma {:induction false} AlignMissingValue(program: string, kirsFile: string, readsFile: string, ss: seq<AlignSetting>, hwThreads: int, flag: string)
    requires forall k :: 0 <= k < |ss| ==> AlignSettingOk(ss[k])
    requires flag in AlignFlagNames - {"--pair"}
    ensures Parse([program, "align", kirsFile, readsFile] + RenderAligns(ss) + [flag], hwThreads) == Fault
  {
    hide Parse, AlignFlags, ApplyAligns, RenderAligns;
    var argv := [program, "align", kirsFile, readsFile] + RenderAligns(ss) + [flag];
    var p := 4 + |RenderAligns(ss)|;
    assert argv[1] == "align" && argv[4..p] == RenderAligns(ss);
    assert argv[p] == flag && |argv| == p + 1;
    AlignStopsAfter(argv, ss, hwThreads);
  }

  lemma AlignStopsAfter(argv: seq<string>, ss: seq<AlignSetting>, hwThreads: int)
    requires forall k :: 0 <= k < |ss| ==> AlignSettingOk(ss[k])
    requires |argv| >= 4 && argv[1] == "align"
    requires 4 + |RenderAligns(ss)| < |argv| && argv[4..4 + |RenderAligns(ss)|] == RenderAligns(ss)
    ensures var p := 4 + |RenderAligns(ss)|;
      (argv[p] == "--method" && p + 2 == |argv| && argv[p + 1] !in Methods ==> Parse(argv, hwThreads) == Help)
      && (argv[p] in AlignFlagNames - {"--pair"} && p + 1 == |argv| ==> Parse(argv, hwThreads) == Fault)
  {
    var o := AlignDefaults(argv[2], argv[3], hwThreads);
    assert Parse(argv, hwThreads) == AlignCommand(argv, hwThreads);
    AlignFlagsRender(argv, 4, 4 + |RenderAligns(ss)|, ss, o);
  }

  /** Given twice, a flag keeps its last value; an unknown token in between
      changes nothing. */
  lemma AlignLastWins(program: string, kirsFile: string, readsFile: string, hwThreads: int)
    ensures var c := Parse([program, "align", kirsFile, readsFile, "-t", "2", "-x", "-t", "8"], hwThreads);
      c.RunAlign? && c.align.nThreads == 8
  {
    var ss := [SetThreads(2), IgnoredAlign("-x"), SetThreads(8)];
    assert RenderAligns(ss[2..]) == ["-t", "8"];
    assert RenderAligns(ss[1..]) == ["-x", "-t", "8"];
    assert RenderAligns(ss) == ["-t", "2", "-x", "-t", "8"] by {
      assert IntToString(2) == "2" && IntToString(8) == "8";
    }
    var argv := [program, "align", kirsFile, readsFile, "-t", "2", "-x", "-t", "8"];
    assert argv[4..] == RenderAligns(ss);
    ParseAlignArgs(argv, ss, hwThreads);
    var o := AlignDefaults(kirsFile, readsFile, hwThreads);
    assert ApplyAligns(o, ss) == ApplyAligns(ApplyAlign(o, ss[0]), ss[1..]);
    assert ApplyAligns(ApplyAlign(o, ss[0]), ss[1..]) == ApplyAligns(ApplyAlign(o, ss[0]), ss[2..]);
    assert ApplyAligns(ApplyAlign(o, ss[0]), ss[2..]).nThreads == 8;
  }

  /** One `report` argument, or an argument the loop ignores. */
  datatype ReportSetting =
    | SetHead(count: int)
    | SetRead(id: int)
    | SetKir(kir: string)
    | SetAllele(allele: string)
    | IgnoredReport(token: string)

  function ReportTokens(s: ReportSetting): seq<string>
  {
    match s
    case SetHead(n) => ["--head", IntToString(n)]
    case SetRead(n) => ["-r", IntToString(n)]
    case SetKir(k) => ["-k", k]
    case SetAllele(a) => ["-a", a]
    case IgnoredReport(t) => [t]
  }

  predicate ReportSettingOk(s: ReportSetting)
  {
    match s
    case SetHead(n) => IsInt(n)
    case SetRead(n) => IsInt(n)
    case IgnoredReport(t) => t !in ReportFlagNames
    case _ => true
  }

  function ApplyReport(o: ReportOptions, s: ReportSetting): ReportOptions
  {
    match s
    case SetHead(n) => o.(numResults := n)
    case SetRead(n) => o.(readId := n)
    case SetKir(k) => o.(kirId := k)
    case SetAllele(a) => o.(alleleId := a)
    case IgnoredReport(_) => o
  }

  function ApplyReports(o: ReportOptions, ss: seq<ReportSetting>): ReportOptions
    decreases |ss|
  {
    if ss == [] then o else ApplyReports(ApplyReport(o, ss[0]), ss[1..])
  }

  function RenderReports(ss: seq<ReportSetting>): seq<string>
  {
    if ss == [] then [] else ReportTokens(ss[0]) + RenderReports(ss[1..])
  }

  lemma {:induction false} ReportTokenOf(argv: seq<string>, i: nat, s: ReportSetting, o: ReportOptions)
    requires ReportSettingOk(s)
    requires i + |ReportTokens(s)| <= |argv| && argv[i..i + |ReportTokens(s)|] == ReportTokens(s)
    ensures ReportToken(argv, i, o) == Ok((ApplyReport(o, s), i + |ReportTokens(s)|))
  {
    assert argv[i] == ReportTokens(s)[0];
    match s
    case SetHead(n) =>
      IntValueOf(argv, i, n);
    case SetRead(n) =>
      IntValueOf(argv, i, n);
    case SetKir(k) =>
      assert argv[i + 1] == k;
    case SetAllele(a) =>
      assert argv[i + 1] == a;
    case IgnoredReport(t) =>
  }

  lemma {:induction false} ReportStep(argv: seq<string>, i: nat, s: ReportSetting, o: ReportOptions)
    requires ReportSettingOk(s)
    requires i + |ReportTokens(s)| <= |argv| && argv[i..i + |ReportTokens(s)|] == ReportTokens(s)
    ensures ReportFlags(argv, i, o) == ReportFlags(argv, i + |ReportTokens(s)|, ApplyReport(o, s))
  {
    ReportTokenOf(argv, i, s, o);
  }

  lemma {:induction false} ReportFlagsRender(argv: seq<string>, i: nat, j: nat, ss: seq<ReportSetting>, o: ReportOptions)
    requires forall k :: 0 <= k < |ss| ==> ReportSettingOk(ss[k])
    requires j == i + |RenderReports(ss)| <= |argv| && argv[i..j] == RenderReports(ss)
    ensures ReportFlags(argv, i, o) == ReportFlags(argv, j, ApplyReports(o, ss))
    decreases |ss|
  {
    hide ReportFlags;
    if ss != [] {
      var head := ReportTokens(ss[0]);
      var tail := RenderReports(ss[1..]);
      assert RenderReports(ss) == head + tail;
      SliceSplit(argv, i, head, tail);
      assert ReportSettingOk(ss[0]);
      assert forall k :: 0 <= k < |ss[1..]| ==> ReportSettingOk(ss[1..][k]) by {
        forall k | 0 <= k < |ss[1..]| ensures ReportSettingOk(ss[1..][k]) {
          assert ss[1..][k] == ss[k + 1];
        }
      }
      var o1 := ApplyReport(o, ss[0]);
      ReportStep(argv, i, ss[0], o);
      ReportFlagsRender(argv, i + |head|, j, ss[1..], o1);
      assert ApplyReports(o, ss) == ApplyReports(o1, ss[1..]);
    }
  }

  /** `report` with valid settings after the file runs with the defaults
      overridden by the settings, the last one winning. */
  lemma {:induction false} ParseReport(program: string, alignmentsFile: string, ss: seq<ReportSetting>, hwThreads: int)
    requires forall k :: 0 <= k < |ss| ==> ReportSettingOk(ss[k])
    ensures Parse([program, "report", alignmentsFile] + RenderReports(ss), hwThreads)
         == RunReport(ApplyReports(ReportDefaults(alignmentsFile), ss))
  {
    hide Parse, ReportFlags, RenderReports, ApplyReports;
    var argv := [program, "report", alignmentsFile] + RenderReports(ss);
    assert argv[3..] == RenderReports(ss);
    ParseReportArgs(argv, ss, hwThreads);
  }

  lemma {:induction false} ParseReportArgs(argv: seq<string>, ss: seq<ReportSetting>, hwThreads: int)
    requires forall k :: 0 <= k < |ss| ==> ReportSettingOk(ss[k])
    requires |argv| >= 3 && argv[1] == "report" && argv[3..] == RenderReports(ss)
    ensures Parse(argv, hwThreads) == RunReport(ApplyReports(ReportDefaults(argv[2]), ss))
  {
    hide ReportFlags, RenderReports, ApplyReports;
    ReportFlagsAll(argv, ss, ReportDefaults(argv[2]));
    assert argv[1] != "-h" && argv[1] != "--help" && argv[1] != "help";
  }

  /** The fold over a tail made of valid settings only. */
  lemma {:induction false} ReportFlagsAll(argv: seq<string>, ss: seq<ReportSetting>, o: ReportOptions)
    requires forall k :: 0 <= k < |ss| ==> ReportSettingOk(ss[k])
    requires |argv| >= 3 && argv[3..] == RenderReports(ss)
    ensures ReportFlags(argv, 3, o) == Ok(ApplyReports(o, ss))
  {
    hide ReportFlags, ApplyReports;
    var n := |RenderReports(ss)|;
    assert argv[3..3 + n] == RenderReports(ss);
    ReportFlagsRender(argv, 3, 3 + |RenderReports(ss)|, ss, o);
    ReportFlagsEnd(argv, |argv|, ApplyReports(o, ss));
  }
  /** The loop ends at the end of the arguments. */
  lemma ReportFlagsEnd(argv: seq<string>, i: nat, o: ReportOptions)
    requires i >= |argv|
    ensures ReportFlags(argv, i, o) == Ok(o)
  {
  }

  // ---------------------------------------------------------------------
  // Strategy dispatch
  // ---------------------------------------------------------------------

  /** The three worker bodies of align_thread.hpp. */
  datatype Strategy = NaiveStrategy | RegionalStrategy | CategoricalStrategy

  /** The dispatch as written: `name == "naive"` selects the naive
      workers (main.cpp:109); otherwise the condition of main.cpp:141 is the
      string literal "regional", a non-null pointer and so always true, and
      the regional workers run. Categorical is never selected. */
  function DispatchAsWritten(name: string): (s: Strategy)
    ensures s != CategoricalStrategy
    ensures s == NaiveStrategy <==> name == "naive"
  {
    if name == "naive" then NaiveStrategy else RegionalStrategy
  }

  /** The method name of a strategy. */
  function MethodName(s: Strategy): (m: string)
    ensures m in Methods
  {
    match s
    case NaiveStrategy => "naive"
    case RegionalStrategy => "regional"
    case CategoricalStrategy => "categorical"
  }

  /** The evidently intended dispatch: the strategy the method names. */
  function Dispatch(name: string): (s: Strategy)
    requires name in Methods
    ensures MethodName(s) == name
  {
    if name == "naive" then NaiveStrategy
    else if name == "regional" then RegionalStrategy
    else CategoricalStrategy
  }

  /** Names and strategies correspond one to one. */
  lemma DispatchMethodName(s: Strategy)
    ensures Dispatch(MethodName(s)) == s
  {
  }

  /** The written dispatch agrees with the intended one except on
      "categorical", which it runs as regional. */
  lemma CategoricalUnreachable(name: string)
    requires name in Methods
    ensures DispatchAsWritten(name) == Dispatch(name) <==> name != "categorical"
    ensures DispatchAsWritten("categorical") == RegionalStrategy
  {
  }
}
