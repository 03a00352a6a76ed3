/** The argument construction of `runIjhttp` in `backend/src/services/ijhttp.js`: the command line
    handed to the `ijhttp` executable, built from the `.http` file paths and an options object. */
module Ijhttp {
  import opened Wrappers

  /** The options object. A string option is `None` when the key is absent; `extraArgs` is
      `None` when absent or not an array. */
  datatype RunOptions = RunOptions(
    envName: Option<string>,
    reportPath: Option<string>,
    logLevel: Option<string>,
    envFile: Option<string>,
    privateEnvFile: Option<string>,
    extraArgs: Option<seq<string>>)

  /** `runIjhttp(files, options = {})` called without options. */
  const NoOptions := RunOptions(None, None, None, None, None, None)

  datatype RunError = FilesRequired

  function Message(e: RunError): string {
    match e
    case FilesRequired => "files 参数不能为空"
  }

  /** JavaScript truthiness of a string option: present and not the empty string. */
  predicate Truthy(v: Option<string>) {
    v.Some? && v.value != ""
  }

  /** The flags, in the order the options are examined. */
  const Flags: seq<string> := ["-e", "-r", "-L", "-v", "-p"]

  /** The five string options in flag order, each kept only when truthy. */
  function FlagValues(o: RunOptions): (vs: seq<Option<string>>)
    ensures |vs| == |Flags|
  {
    [Keep(o.envName), Keep(o.reportPath), Keep(o.logLevel), Keep(o.envFile), Keep(o.privateEnvFile)]
  }

  /** A string option as `if (v)` sees it: kept when truthy, otherwise as good as absent. */
  function Keep(v: Option<string>): Option<string> {
    if Truthy(v) then v else None
  }

  /** How many of the five string options are truthy. */
  function TruthyCount(o: RunOptions): nat {
    (if Truthy(o.envName) then 1 else 0) + (if Truthy(o.reportPath) then 1 else 0)
    + (if Truthy(o.logLevel) then 1 else 0) + (if Truthy(o.envFile) then 1 else 0)
    + (if Truthy(o.privateEnvFile) then 1 else 0)
  }

  /** `if (v) args.push(flag, v)`. */
  function FlagPair(flag: string, v: Option<string>): seq<string> {
    if Truthy(v) then [flag, v.value] else []
  }

  /** The option-derived part of the command line, as the five `if` lines build it. */
  function FlagArgs(o: RunOptions): seq<string> {
    FlagPair("-e", o.envName) + FlagPair("-r", o.reportPath) + FlagPair("-L", o.logLevel)
    + FlagPair("-v", o.envFile) + FlagPair("-p", o.privateEnvFile)
  }

  /** `extraArgs` when it is an array, else nothing. */
  function ExtraArgs(o: RunOptions): seq<string> {
    o.extraArgs.GetOr([])
  }

  /** The argument list of `runIjhttp`: the option flags, then `extraArgs` verbatim, then the
      files. A missing, non-array or empty file list is rejected before anything is built. */
  function BuildArgs(files: Option<seq<string>>, o: RunOptions): (r: Result<seq<string>, RunError>)
    ensures r.Failure? <==> files.None? || |files.value| == 0
    ensures r.Failure? ==> r.error == FilesRequired
    ensures r.Success? ==>
      var n := 2 * TruthyCount(o);
      && |r.value| == n + |ExtraArgs(o)| + |files.value|
      && ParseFlags(r.value[..n], 0) == Some(FlagValues(o))
      && r.value[n..n + |ExtraArgs(o)|] == ExtraArgs(o)
      && r.value[n + |ExtraArgs(o)|..] == files.value
  {
    if files.None? || |files.value| == 0 then Failure(FilesRequired)
    else
      var args := FlagArgs(o) + ExtraArgs(o) + files.value;
      FlagArgsLength(o);
      FlagArgsRoundTrip(o);
      assert args[..2 * TruthyCount(o)] == FlagArgs(o);
      Success(args)
  }

  lemma FlagArgsLength(o: RunOptions)
    ensures |FlagArgs(o)| == 2 * TruthyCount(o)
  {
  }

  /** Position of a flag in `Flags`, or `|Flags|` when the string is not one. */
  function FlagRank(a: string): (k: nat)
    ensures k <= |Flags| && (k < |Flags| ==> Flags[k] == a)
  {
    if a == "-e" then 0 else if a == "-r" then 1 else if a == "-L" then 2
    else if a == "-v" then 3 else if a == "-p" then 4 else 5
  }

  const NoValues: seq<Option<string>> := [None, None, None, None, None]

  /** Reads a flag section back: a sequence of flag/value pairs whose flags come in strictly
      increasing `Flags` order, none before position `from`, each with a non-empty value. Yields
      the value found for each flag, or `None` when the section is not of that shape. */
  function ParseFlags(args: seq<string>, from: nat): (r: Option<seq<Option<string>>>)
    ensures r.Some? ==> |r.value| == |Flags|
    decreases |args|
  {
    if |args| == 0 then Some(NoValues)
    else if |args| == 1 then None
    else
      var k := FlagRank(args[0]);
      if k == |Flags| || k < from || args[1] == "" then None
      else match ParseFlags(args[2..], k + 1)
        case None => None
        case Some(vs) => Some(vs[k := Some(args[1])])
  }

  /** The flag section a table of values produces from position `k` on. */
  function FlagsFrom(vs: seq<Option<string>>, k: nat): seq<string>
    requires |vs| == |Flags| && k <= |Flags|
    decreases |Flags| - k
  {
    if k == |Flags| then []
    else (if vs[k].Some? then [Flags[k], vs[k].value] else []) + FlagsFrom(vs, k + 1)
  }

  /** Values before position `k` blanked out. */
  function From(vs: seq<Option<string>>, k: nat): seq<Option<string>>
    requires |vs| == |Flags|
  {
    seq(|Flags|, i requires 0 <= i < |Flags| => if i < k then None else vs[i])
  }

  /** Parsing the section built from position `k` on recovers the values from `k` on. */
  lemma {:induction false} ParseFlagsFrom(vs: seq<Option<string>>, k: nat, from: nat)
    requires |vs| == |Flags| && from <= k <= |Flags|
    requires forall i :: 0 <= i < |vs| ==> vs[i] != Some("")
    ensures ParseFlags(FlagsFrom(vs, k), from) == Some(From(vs, k))
    decreases |Flags| - k
  {
    if k == |Flags| {
      assert From(vs, k) == NoValues;
    } else if vs[k].Some? {
      ParseFlagsFrom(vs, k + 1, k + 1);
      assert FlagsFrom(vs, k) == [Flags[k], vs[k].value] + FlagsFrom(vs, k + 1);
      ParsePair(k, vs[k].value, FlagsFrom(vs, k + 1), from);
      FromStep(vs, k);
    } else {
      ParseFlagsFrom(vs, k + 1, from);
      assert FlagsFrom(vs, k) == FlagsFrom(vs, k + 1);
      FromSkip(vs, k);
    }
  }

  /** Each flag's rank is its position. */
  lemma RankOfFlag(k: nat)
    requires k < |Flags|
    ensures FlagRank(Flags[k]) == k
  {
  }

  /** Reading one flag/value pair in order, then the rest from the next position on. */
  lemma ParsePair(k: nat, value: string, rest: seq<string>, from: nat)
    requires from <= k < |Flags| && value != ""
    ensures ParseFlags([Flags[k], value] + rest, from)
         == if ParseFlags(rest, k + 1).None? then None
            else Some(ParseFlags(rest, k + 1).value[k := Some(value)])
  {
    var args := [Flags[k], value] + rest;
    assert args[0] == Flags[k] && args[1] == value && args[2..] == rest;
    RankOfFlag(k);
  }

  lemma FromSkip(vs: seq<Option<string>>, k: nat)
    requires |vs| == |Flags| && k < |Flags| && vs[k].None?
    ensures From(vs, k + 1) == From(vs, k)
  {
    assert forall i :: 0 <= i < |Flags| ==> From(vs, k + 1)[i] == From(vs, k)[i];
  }

  lemma FromStep(vs: seq<Option<string>>, k: nat)
    requires |vs| == |Flags| && k < |Flags|
    ensures From(vs, k + 1)[k := vs[k]] == From(vs, k)
  {
  }

  /** The flag section of the command line reads back as exactly the truthy options, each under
      its own flag: every flag is followed by its option's value and appears only when that
      option is truthy, in the order `-e`, `-r`, `-L`, `-v`, `-p`. */
  lemma FlagArgsRoundTrip(o: RunOptions)
    ensures ParseFlags(FlagArgs(o), 0) == Some(FlagValues(o))
  {
    var vs := FlagValues(o);
    FlagArgsAsTable(o);
    ParseFlagsFrom(vs, 0, 0);
    assert From(vs, 0) == vs;
  }

  /** The five `if` lines produce the flag section of the table of truthy values. */
  lemma FlagArgsAsTable(o: RunOptions)
    ensures FlagArgs(o) == FlagsFrom(FlagValues(o), 0)
  {
    var vs := FlagValues(o);
    var p := FlagPair("-p", o.privateEnvFile);
    var v := FlagPair("-v", o.envFile);
    var l := FlagPair("-L", o.logLevel);
    var r := FlagPair("-r", o.reportPath);
    var e := FlagPair("-e", o.envName);
    assert FlagsFrom(vs, 5) == [];
    FlagsFromStep(vs, 4, o.privateEnvFile);
    FlagsFromStep(vs, 3, o.envFile);
    FlagsFromStep(vs, 2, o.logLevel);
    FlagsFromStep(vs, 1, o.reportPath);
    FlagsFromStep(vs, 0, o.envName);
    Regroup(e, r, l, v, p);
  }

  lemma Regroup(e: seq<string>, r: seq<string>, l: seq<string>, v: seq<string>, p: seq<string>)
    ensures e + r + l + v + p == e + (r + (l + (v + (p + []))))
  {
    assert p + [] == p;
  }

  /** One position of the table contributes its flag pair, as the `if` line for it does. */
  lemma FlagsFromStep(vs: seq<Option<string>>, k: nat, v: Option<string>)
    requires |vs| == |Flags| && k < |Flags| && vs[k] == Keep(v)
    ensures FlagsFrom(vs, k) == FlagPair(Flags[k], v) + FlagsFrom(vs, k + 1)
  {
  }

  /** Example: environment `prod` and one extra flag. */
  lemma ProdInsecureExample(f: string)
    ensures BuildArgs(Some([f]), NoOptions.(envName := Some("prod"), extraArgs := Some(["--insecure"])))
         == Success(["-e", "prod", "--insecure", f])
  {
    var o := NoOptions.(envName := Some("prod"), extraArgs := Some(["--insecure"]));
    assert FlagArgs(o) == ["-e", "prod"];
    assert ExtraArgs(o) == ["--insecure"];
    assert FlagArgs(o) + ExtraArgs(o) + [f] == ["-e", "prod", "--insecure", f];
  }

  /** Options that are empty strings contribute nothing, exactly as absent ones. */
  lemma EmptyOptionsIgnored(files: Option<seq<string>>)
    ensures BuildArgs(files, RunOptions(Some(""), Some(""), Some(""), Some(""), Some(""), None))
         == BuildArgs(files, NoOptions)
  {
  }
}
