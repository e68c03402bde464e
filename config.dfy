/** Settings of the diff-sync package (mazrica/config.py): the values read from the
    environment, their validation, and the `.env` loader that fills the environment. */
module MazricaConfig {
  import opened Base
  import opened Text

  const DefaultBaseUrl: string := "https://senses-open-api.mazrica.com/v1"
  const DefaultSheetName: string := "案件一覧"
  const DefaultFilterProductName: string := "civilink"
  const DefaultFilterPhaseName: string := "受注"
  const ApiPageSize: int := 100

  const ApiKeyMissing: string := "MAZRICA_API_KEY が設定されていません"
  const AppsScriptUrlMissing: string := "APPS_SCRIPT_URL が設定されていません"

  /** The class attributes of `Config`. */
  datatype Settings = Settings(
    apiKey: string,
    baseUrl: string,
    appsScriptUrl: string,
    appsScriptSecret: string,
    sheetName: string,
    dealTypeId: Option<int>,
    filterProductName: string,
    filterPhaseName: string,
    pageSize: int)

  /** `os.environ.get(key, default)` */
  function EnvGet(env: map<string, string>, key: string, default: string): (v: string)
    ensures key in env ==> v == env[key]
    ensures key !in env ==> v == default
  {
    if key in env then env[key] else default
  }

  /** `DEAL_TYPE_ID`: `None` when the variable is unset or empty, otherwise `int(value)`,
      which raises (here `Err`) when the value is not an integer. */
  function ParseDealTypeId(env: map<string, string>): (r: Result<Option<int>, string>)
    ensures ("DEAL_TYPE_ID" !in env || env["DEAL_TYPE_ID"] == "") ==> r == Ok(None)
    ensures "DEAL_TYPE_ID" in env && env["DEAL_TYPE_ID"] != "" ==>
      var parsed := ParseInt(Strip(env["DEAL_TYPE_ID"]));
      (r.Ok? <==> parsed.Some?) && (r.Ok? ==> r.value == Some(parsed.value))
  {
    if "DEAL_TYPE_ID" in env && env["DEAL_TYPE_ID"] != "" then
      match ParseInt(Strip(env["DEAL_TYPE_ID"]))
      case Some(n) => Ok(Some(n))
      case None => Err("invalid literal for int(): " + env["DEAL_TYPE_ID"])
    else
      Ok(None)
  }

  /** A `DEAL_TYPE_ID` written as `str(n)` reads back as `n`. */
  lemma DealTypeIdRoundTrip(env: map<string, string>, n: int)
    requires "DEAL_TYPE_ID" in env && env["DEAL_TYPE_ID"] == IntToString(n)
    ensures ParseDealTypeId(env) == Ok(Some(n))
  {
    var s := IntToString(n);
    assert !IsSpace(s[0]);
    assert !IsSpace(s[|s| - 1]) by {
      if |s| > 1 {
        assert IsDigit(s[|s| - 1]);
      }
    }
    StripUnpadded(s);
    IntToStringRoundTrip(n);
  }

  /** The class body of `Config`, evaluated against the environment at import time. */
  function LoadSettings(env: map<string, string>): (r: Result<Settings, string>)
    ensures r.Ok? <==> ParseDealTypeId(env).Ok?
    ensures r.Ok? ==> r.value.dealTypeId == ParseDealTypeId(env).value
    ensures r.Ok? ==> r.value.apiKey == EnvGet(env, "MAZRICA_API_KEY", "")
    ensures r.Ok? ==> r.value.baseUrl == DefaultBaseUrl
    ensures r.Ok? ==> r.value.appsScriptUrl == EnvGet(env, "APPS_SCRIPT_URL", "")
    ensures r.Ok? ==> r.value.appsScriptSecret == EnvGet(env, "APPS_SCRIPT_SECRET", "")
    ensures r.Ok? ==> r.value.sheetName == EnvGet(env, "SHEET_NAME", DefaultSheetName)
    ensures r.Ok? ==> r.value.filterProductName == EnvGet(env, "FILTER_PRODUCT_NAME", DefaultFilterProductName)
    ensures r.Ok? ==> r.value.filterPhaseName == EnvGet(env, "FILTER_PHASE_NAME", DefaultFilterPhaseName)
    ensures r.Ok? ==> r.value.pageSize == ApiPageSize
  {
    match ParseDealTypeId(env)
    case Err(e) => Err(e)
    case Ok(dealTypeId) =>
      Ok(Settings(
        EnvGet(env, "MAZRICA_API_KEY", ""),
        DefaultBaseUrl,
        EnvGet(env, "APPS_SCRIPT_URL", ""),
        EnvGet(env, "APPS_SCRIPT_SECRET", ""),
        EnvGet(env, "SHEET_NAME", DefaultSheetName),
        dealTypeId,
        EnvGet(env, "FILTER_PRODUCT_NAME", DefaultFilterProductName),
        EnvGet(env, "FILTER_PHASE_NAME", DefaultFilterPhaseName),
        ApiPageSize))
  }

  /** The messages `validate` reports: one per missing required setting, the API key first. */
  function MissingSettings(settings: Settings): (errors: seq<string>)
    ensures errors == [] <==> settings.apiKey != "" && settings.appsScriptUrl != ""
    ensures ApiKeyMissing in errors <==> settings.apiKey == ""
    ensures AppsScriptUrlMissing in errors <==> settings.appsScriptUrl == ""
    ensures |errors| <= 2 && (|errors| == 2 ==> errors == [ApiKeyMissing, AppsScriptUrlMissing])
  {
    (if settings.apiKey == "" then [ApiKeyMissing] else [])
    + (if settings.appsScriptUrl == "" then [AppsScriptUrlMissing] else [])
  }

  /** `Config.validate`: appends a message for each missing required setting, in turn. */
  method Validate(settings: Settings) returns (errors: seq<string>)
    ensures errors == MissingSettings(settings)
  {
    errors := [];
    if settings.apiKey == "" {
      errors := errors + [ApiKeyMissing];
    }
    if settings.appsScriptUrl == "" {
      errors := errors + [AppsScriptUrlMissing];
    }
  }

  /** The position of the first `c` in `s` at or after `k`. */
  function IndexFrom(s: string, c: char, k: nat): (i: nat)
    requires k <= |s| && c in s[k..]
    decreases |s| - k
    ensures k <= i < |s| && s[i] == c
    ensures forall j :: k <= j < i ==> s[j] != c
  {
    if s[k] == c then k else
      assert c in s[k + 1..] by {
        assert s[k..] == [s[k]] + s[k + 1..];
      }
      IndexFrom(s, c, k + 1)
  }

  /** `s.split(c, 1)` when `c` occurs in `s`: the part before the first `c` and everything after it. */
  function SplitOnce(s: string, c: char): (parts: (string, string))
    requires c in s
    ensures parts.0 + [c] + parts.1 == s
    ensures c !in parts.0
  {
    assert s[0..] == s;
    var i := IndexFrom(s, c, 0);
    assert s[..i] + [c] + s[i + 1..] == s;
    (s[..i], s[i + 1..])
  }

  /** Whether `load_dotenv` skips a line: blank after stripping, a comment, or without `=`. */
  predicate SkippedLine(line: string) {
    var t := Strip(line);
    t == [] || t[0] == '#' || '=' !in t
  }

  /** The `(key, value)` a `.env` line sets, or `None` for a skipped line. */
  function ParseEnvLine(line: string): (r: Option<(string, string)>)
    ensures r.Some? ==> '=' !in r.value.0
  {
    if SkippedLine(line) then None
    else
      var (key, value) := SplitOnce(Strip(line), '=');
      StripKeepsOut(key, '=');
      Some((Strip(key), Strip(value)))
  }

  /** The first non-space character of the line is `#`. */
  predicate CommentLine(line: string) {
    exists i :: 0 <= i < |line| && line[i] == '#' && forall k :: 0 <= k < i ==> IsSpace(line[k])
  }

  /** Position `j` holds the first `=` of the line. */
  predicate FirstEqualsAt(line: string, j: int) {
    0 <= j < |line| && line[j] == '=' && forall k :: 0 <= k < j ==> line[k] != '='
  }

  /** A line is skipped exactly when it is blank, its first non-space character is `#`,
      or it has no `=`; otherwise it sets the text before its first `=` to the text after
      it, each without its surrounding whitespace. */
  lemma ParseEnvLineSpec(line: string)
    ensures ParseEnvLine(line).None? <==>
      (forall i :: 0 <= i < |line| ==> IsSpace(line[i])) || CommentLine(line) || '=' !in line
    ensures ParseEnvLine(line).Some? ==>
      (exists j :: FirstEqualsAt(line, j) && ParseEnvLine(line).value == (Strip(line[..j]), Strip(line[j + 1..])))
  {
    SkippedLineIff(line);
    if !SkippedLine(line) {
      var j := SetLineSplit(line);
    }
  }

  /** The skip test on the stripped line, restated on the raw line. */
  lemma SkippedLineIff(line: string)
    ensures SkippedLine(line) <==>
      (forall i :: 0 <= i < |line| ==> IsSpace(line[i])) || CommentLine(line) || '=' !in line
  {
    var t := Strip(line);
    var a, b := StripBounds(line);
    if t != [] {
      CommentIffHash(line, a, b);
      EqualsInsideTrim(line, a, b);
    }
  }

  /** For a line that is not skipped: its first `=` and the pair it sets. */
  lemma SetLineSplit(line: string) returns (j: nat)
    requires !SkippedLine(line)
    ensures FirstEqualsAt(line, j) && ParseEnvLine(line).value == (Strip(line[..j]), Strip(line[j + 1..]))
  {
    var t := Strip(line);
    var (key, value) := SplitOnce(t, '=');
    assert ParseEnvLine(line) == Some((Strip(key), Strip(value)));
    var a, b := StripBounds(line);
    j := a + |key|;
    SplitInsideTrim(line, a, b, key, value, j);
    KeyInsideTrim(line, a, b, key, value, j);
    ValueInsideTrim(line, a, b, key, value, j);
  }

  /** The stripped key is the stripped text before the line's first `=`, at `j`. */
  lemma KeyInsideTrim(line: string, a: int, b: int, key: string, value: string, j: int)
    requires Trimmed(line, a, b) && key + "=" + value == line[a..b] && '=' !in key && j == a + |key|
    ensures Strip(line[..j]) == Strip(key)
  {
    SplitInsideTrim(line, a, b, key, value, j);
    StripSlice(line, 0, a, j, j, line[..j], key);
  }

  /** The stripped value is the stripped text after the line's first `=`, at `j`. */
  lemma ValueInsideTrim(line: string, a: int, b: int, key: string, value: string, j: int)
    requires Trimmed(line, a, b) && key + "=" + value == line[a..b] && '=' !in key && j == a + |key|
    ensures Strip(line[j + 1..]) == Strip(value)
  {
    SplitInsideTrim(line, a, b, key, value, j);
    StripSlice(line, j + 1, j + 1, b, |line|, line[j + 1..], value);
  }

  /** The split of the stripped text, located in the raw line. */
  lemma SplitInsideTrim(line: string, a: int, b: int, key: string, value: string, j: int)
    requires Trimmed(line, a, b) && key + "=" + value == line[a..b] && '=' !in key && j == a + |key|
    ensures FirstEqualsAt(line, j)
    ensures forall k :: 0 <= k < |key| ==> key[k] == line[a + k]
    ensures |value| == b - (j + 1) && forall k :: 0 <= k < |value| ==> value[k] == line[j + 1 + k]
  {
    var t := line[a..b];
    assert forall k :: 0 <= k < |key| ==> key[k] != '=';
    assert forall k :: 0 <= k < |key| ==> line[a + k] == key[k] by {
      forall k | 0 <= k < |key| ensures line[a + k] == key[k] {
        assert t[k] == (key + "=" + value)[k];
      }
    }
    assert line[j] == t[|key|];
    assert forall k :: 0 <= k < |value| ==> line[j + 1 + k] == value[k] by {
      forall k | 0 <= k < |value| ensures line[j + 1 + k] == value[k] {
        assert t[|key| + 1 + k] == (key + "=" + value)[|key| + 1 + k];
      }
    }
  }

  /** Inside a non-blank line, the first non-space character is `#` exactly when the line is a comment. */
  lemma CommentIffHash(line: string, a: int, b: int)
    requires Trimmed(line, a, b) && a < b
    ensures CommentLine(line) <==> line[a] == '#'
  {
    if CommentLine(line) {
      var i :| 0 <= i < |line| && line[i] == '#' && forall k :: 0 <= k < i ==> IsSpace(line[k]);
      assert !IsSpace(line[i]) && !IsSpace(line[a]);
      assert i == a;
    }
  }

  /** An `=` is never whitespace, so the line has one exactly when its stripped text has one. */
  lemma EqualsInsideTrim(line: string, a: int, b: int)
    requires Trimmed(line, a, b)
    ensures '=' in line <==> '=' in line[a..b]
  {
    if '=' in line {
      var k :| 0 <= k < |line| && line[k] == '=';
      assert !IsSpace(line[k]);
      assert line[a..b][k - a] == '=';
    }
  }

  /** A line written as `key=value`, with a key that is not a comment, has no `=` and no
      surrounding whitespace, and a value without surrounding whitespace, reads back as that pair. */
  lemma EnvLineRoundTrip(key: string, value: string)
    requires key != [] && !IsSpace(key[0]) && !IsSpace(key[|key| - 1]) && key[0] != '#' && '=' !in key
    requires value == [] || (!IsSpace(value[0]) && !IsSpace(value[|value| - 1]))
    ensures ParseEnvLine(key + "=" + value) == Some((key, value))
  {
    var line := key + "=" + value;
    assert line[0] == key[0] && line[|line| - 1] == if value == [] then '=' else value[|value| - 1];
    StripUnpadded(line);
    assert '=' in line by {
      assert line[|key|] == '=';
    }
    SplitOnceAt(line, '=', key, value);
    StripUnpadded(key);
    StripUnpadded(value);
  }

  /** `SplitOnce` cuts at the first `c`: a string made of a `c`-free part, `c` and a rest
      splits into exactly those two parts. */
  lemma SplitOnceAt(s: string, c: char, before: string, after: string)
    requires s == before + [c] + after && c !in before
    ensures c in s && SplitOnce(s, c) == (before, after)
  {
    assert s[|before|] == c;
    var (p, q) := SplitOnce(s, c);
    assert forall i :: 0 <= i < |before| ==> s[i] != c by {
      forall i | 0 <= i < |before| ensures s[i] != c {
        assert s[i] == before[i];
      }
    }
    assert forall i :: 0 <= i < |p| ==> s[i] != c by {
      forall i | 0 <= i < |p| ensures s[i] != c {
        assert s[i] == p[i];
      }
    }
    assert s[|p|] == c;
    assert |p| == |before|;
    assert p == s[..|p|] && before == s[..|before|];
    assert q == s[|p| + 1..] && after == s[|before| + 1..];
  }

  /** The refusal `os.putenv` makes on POSIX (a `ValueError`): an empty name, a name
      containing `=`, or a NUL character in the name or the value. */
  predicate Refused(key: string, value: string) {
    key == [] || '=' in key || '\0' in key || '\0' in value
  }

  /** The environment `load_dotenv` leaves, and whether it stopped on an exception. */
  datatype LoadState = LoadState(vars: map<string, string>, raised: bool)

  /** `os.environ.setdefault(key, value)` for one parsed line. */
  function ApplyParsed(vars: map<string, string>, parsed: Option<(string, string)>): LoadState {
    match parsed
    case None => LoadState(vars, false)
    case Some((key, value)) =>
      if key in vars then LoadState(vars, false)
      else if Refused(key, value) then LoadState(vars, true)
      else LoadState(vars[key := value], false)
  }

  /** What one line does to the environment. */
  function ApplyLine(vars: map<string, string>, line: string): LoadState {
    ApplyParsed(vars, ParseEnvLine(line))
  }

  /** What one parsed line does to one variable, and when it raises. */
  lemma ApplyParsedAt(vars: map<string, string>, parsed: Option<(string, string)>, key: string)
    ensures key in vars ==> key in ApplyParsed(vars, parsed).vars && ApplyParsed(vars, parsed).vars[key] == vars[key]
    ensures key !in vars ==>
      (key in ApplyParsed(vars, parsed).vars <==> parsed.Some? && parsed.value.0 == key && !Refused(key, parsed.value.1))
    ensures key !in vars && key in ApplyParsed(vars, parsed).vars ==> ApplyParsed(vars, parsed).vars[key] == parsed.value.1
    ensures ApplyParsed(vars, parsed).raised <==>
      parsed.Some? && parsed.value.0 !in vars && Refused(parsed.value.0, parsed.value.1)
  {
  }

  /** What one line does to one variable: a variable already set keeps its value, and an
      unset one is set exactly when the line parses to that key with a value the
      environment accepts; the line raises exactly when it parses to an unset key the
      environment refuses. */
  lemma ApplyLineAt(vars: map<string, string>, line: string, key: string)
    ensures key in vars ==> key in ApplyLine(vars, line).vars && ApplyLine(vars, line).vars[key] == vars[key]
    ensures key !in vars ==>
      (key in ApplyLine(vars, line).vars <==>
        ParseEnvLine(line).Some? && ParseEnvLine(line).value.0 == key && !Refused(key, ParseEnvLine(line).value.1))
    ensures key !in vars && key in ApplyLine(vars, line).vars ==> ApplyLine(vars, line).vars[key] == ParseEnvLine(line).value.1
    ensures ApplyLine(vars, line).raised <==>
      ParseEnvLine(line).Some? && ParseEnvLine(line).value.0 !in vars &&
      Refused(ParseEnvLine(line).value.0, ParseEnvLine(line).value.1)
  {
    ApplyParsedAt(vars, ParseEnvLine(line), key);
  }

  /** The state after reading `lines` in order, each line parsed by `parse`; once a line
      has raised, the later lines are not read. */
  function LoadedWith(parse: string -> Option<(string, string)>, vars: map<string, string>, lines: seq<string>): LoadState
    decreases |lines|
  {
    if lines == [] then LoadState(vars, false)
    else
      var before := LoadedWith(parse, vars, lines[..|lines| - 1]);
      if before.raised then before else ApplyParsed(before.vars, parse(lines[|lines| - 1]))
  }

  /** The state after `load_dotenv` has read `lines` in order. */
  function Loaded(vars: map<string, string>, lines: seq<string>): LoadState {
    LoadedWith(ParseEnvLine, vars, lines)
  }

  /** The process environment, which `load_dotenv` updates in place. */
  class Environ {
    var vars: map<string, string>

    constructor (initial: map<string, string>)
      ensures vars == initial
    {
      vars := initial;
    }

    /** `os.environ.setdefault`: returns the stored value of a variable that is set;
        otherwise stores the pair and returns the value, unless `os.putenv` refuses it,
        which raises and changes nothing. */
    method SetDefault(key: string, value: string) returns (r: Result<string, string>)
      modifies this
      ensures key in old(vars) ==> vars == old(vars) && r == Ok(old(vars)[key])
      ensures key !in old(vars) && Refused(key, value) ==> vars == old(vars) && r.Err?
      ensures key !in old(vars) && !Refused(key, value) ==> vars == old(vars)[key := value] && r == Ok(value)
    {
      if key in vars {
        r := Ok(vars[key]);
      } else if key == [] || '=' in key {
        r := Err("illegal environment variable name");
      } else if '\0' in key || '\0' in value {
        r := Err("embedded null byte");
      } else {
        vars := vars[key := value];
        r := Ok(value);
      }
    }
  }

  /** `load_dotenv`, with the file's lines given: reads them in order and stops at the
      first line whose `setdefault` raises, reporting that it raised. */
  method LoadDotenv(env: Environ, lines: seq<string>) returns (raised: bool)
    modifies env
    ensures LoadState(env.vars, raised) == Loaded(old(env.vars), lines)
  {
    ghost var start := env.vars;
    raised := false;
    var i := 0;
    while i < |lines| && !raised
      invariant 0 <= i <= |lines|
      invariant LoadState(env.vars, raised) == Loaded(start, lines[..i])
    {
      ghost var before := env.vars;
      var parsed := ParseEnvLine(lines[i]);
      if parsed.Some? {
        var r := env.SetDefault(parsed.value.0, parsed.value.1);
        raised := r.Err?;
      }
      LoadedStep(start, lines, i, before, LoadState(env.vars, raised));
      assert LoadState(env.vars, raised) == Loaded(start, lines[..i + 1]);
      i := i + 1;
    }
    if i < |lines| {
      RaisedStopsWith(ParseEnvLine, start, lines, i);
    } else {
      assert lines[..i] == lines;
    }
  }

  /** Reading one more line, when the earlier ones did not raise, applies that line to the
      environment they left. */
  lemma LoadedStep(vars: map<string, string>, lines: seq<string>, i: nat, before: map<string, string>, after: LoadState)
    requires i < |lines| && Loaded(vars, lines[..i]) == LoadState(before, false)
    requires after == ApplyLine(before, lines[i])
    ensures Loaded(vars, lines[..i + 1]) == after
  {
    assert lines[..i + 1][..i] == lines[..i];
  }

  /** A line sets `key` under the parser. */
  predicate SetsKey(parse: string -> Option<(string, string)>, line: string, key: string) {
    parse(line).Some? && parse(line).value.0 == key
  }

  /** A parsed line the environment refuses. */
  predicate RefusedLine(parse: string -> Option<(string, string)>, line: string) {
    parse(line).Some? && Refused(parse(line).value.0, parse(line).value.1)
  }

  lemma {:induction false} RaisedStopsWith(parse: string -> Option<(string, string)>, vars: map<string, string>, lines: seq<string>, i: nat)
    requires i <= |lines| && LoadedWith(parse, vars, lines[..i]).raised
    ensures LoadedWith(parse, vars, lines) == LoadedWith(parse, vars, lines[..i])
    decreases |lines|
  {
    if i < |lines| {
      var prefix := lines[..|lines| - 1];
      assert prefix[..i] == lines[..i];
      RaisedStopsWith(parse, vars, prefix, i);
    } else {
      assert lines[..i] == lines;
    }
  }

  lemma {:induction false} KeepsExistingWith(parse: string -> Option<(string, string)>, vars: map<string, string>, lines: seq<string>, key: string)
    requires key in vars
    ensures key in LoadedWith(parse, vars, lines).vars && LoadedWith(parse, vars, lines).vars[key] == vars[key]
  {
    if lines != [] {
      var prefix := lines[..|lines| - 1];
      KeepsExistingWith(parse, vars, prefix, key);
      ApplyParsedAt(LoadedWith(parse, vars, prefix).vars, parse(lines[|lines| - 1]), key);
    }
  }

  lemma {:induction false} AddsOnlyParsedKeysWith(parse: string -> Option<(string, string)>, vars: map<string, string>, lines: seq<string>, key: string)
    requires key in LoadedWith(parse, vars, lines).vars && key !in vars
    ensures exists i :: 0 <= i < |lines| && SetsKey(parse, lines[i], key)
  {
    var prefix := lines[..|lines| - 1];
    var last := lines[|lines| - 1];
    var before := LoadedWith(parse, vars, prefix);
    ApplyParsedAt(before.vars, parse(last), key);
    if key in before.vars {
      AddsOnlyParsedKeysWith(parse, vars, prefix, key);
      var i :| 0 <= i < |prefix| && SetsKey(parse, prefix[i], key);
      assert prefix[i] == lines[i];
    } else {
      assert SetsKey(parse, lines[|lines| - 1], key);
    }
  }

  lemma {:induction false} WithoutKeyWith(parse: string -> Option<(string, string)>, vars: map<string, string>, lines: seq<string>, key: string)
    requires key !in vars
    requires forall j :: 0 <= j < |lines| ==> !SetsKey(parse, lines[j], key)
    ensures key !in LoadedWith(parse, vars, lines).vars
  {
    if lines != [] {
      var prefix := lines[..|lines| - 1];
      forall j | 0 <= j < |prefix| ensures !SetsKey(parse, prefix[j], key) {
        assert prefix[j] == lines[j];
      }
      WithoutKeyWith(parse, vars, prefix, key);
      ApplyParsedAt(LoadedWith(parse, vars, prefix).vars, parse(lines[|lines| - 1]), key);
    }
  }

  lemma {:induction false} FirstWinsWith(parse: string -> Option<(string, string)>, vars: map<string, string>, lines: seq<string>, i: nat, key: string, value: string)
    requires key !in vars
    requires i < |lines| && parse(lines[i]) == Some((key, value)) && !Refused(key, value)
    requires forall j :: 0 <= j < i ==> !SetsKey(parse, lines[j], key)
    requires !LoadedWith(parse, vars, lines[..i]).raised
    ensures key in LoadedWith(parse, vars, lines).vars && LoadedWith(parse, vars, lines).vars[key] == value
  {
    var prefix := lines[..|lines| - 1];
    var last := lines[|lines| - 1];
    var before := LoadedWith(parse, vars, prefix);
    forall j | 0 <= j < i && j < |prefix| ensures !SetsKey(parse, prefix[j], key) {
      assert prefix[j] == lines[j];
    }
    if i == |lines| - 1 {
      assert prefix == lines[..i];
      WithoutKeyWith(parse, vars, prefix, key);
    } else {
      assert prefix[i] == lines[i] && prefix[..i] == lines[..i];
      FirstWinsWith(parse, vars, prefix, i, key, value);
    }
    ApplyParsedAt(before.vars, parse(last), key);
  }

  lemma {:induction false} NeverRaisesWith(parse: string -> Option<(string, string)>, vars: map<string, string>, lines: seq<string>)
    requires forall j :: 0 <= j < |lines| ==> !RefusedLine(parse, lines[j])
    ensures !LoadedWith(parse, vars, lines).raised
  {
    if lines != [] {
      var prefix := lines[..|lines| - 1];
      forall j | 0 <= j < |prefix| ensures !RefusedLine(parse, prefix[j]) {
        assert prefix[j] == lines[j];
      }
      NeverRaisesWith(parse, vars, prefix);
    }
  }

  lemma {:induction false} RefusedRaisesWith(parse: string -> Option<(string, string)>, vars: map<string, string>, lines: seq<string>, i: nat)
    requires i < |lines| && RefusedLine(parse, lines[i]) && parse(lines[i]).value.0 !in vars
    requires forall j :: 0 <= j < i ==> !SetsKey(parse, lines[j], parse(lines[i]).value.0)
    ensures LoadedWith(parse, vars, lines).raised
  {
    var key := parse(lines[i]).value.0;
    var prefix := lines[..|lines| - 1];
    var before := LoadedWith(parse, vars, prefix);
    if i == |lines| - 1 {
      forall j | 0 <= j < |prefix| ensures !SetsKey(parse, prefix[j], key) {
        assert prefix[j] == lines[j];
      }
      WithoutKeyWith(parse, vars, prefix, key);
    } else {
      forall j | 0 <= j < i ensures !SetsKey(parse, prefix[j], key) {
        assert prefix[j] == lines[j];
      }
      assert prefix[i] == lines[i];
      RefusedRaisesWith(parse, vars, prefix, i);
    }
  }

  /** A variable already in the environment is never overwritten. */
  lemma LoadedKeepsExisting(vars: map<string, string>, lines: seq<string>, key: string)
    requires key in vars
    ensures key in Loaded(vars, lines).vars && Loaded(vars, lines).vars[key] == vars[key]
  {
    KeepsExistingWith(ParseEnvLine, vars, lines, key);
  }

  /** Every variable loading adds is the key of some line of the file. */
  lemma LoadedAddsOnlyParsedKeys(vars: map<string, string>, lines: seq<string>, key: string)
    requires key in Loaded(vars, lines).vars && key !in vars
    ensures exists i :: 0 <= i < |lines| && ParseEnvLine(lines[i]).Some? && ParseEnvLine(lines[i]).value.0 == key
  {
    AddsOnlyParsedKeysWith(ParseEnvLine, vars, lines, key);
    var i :| 0 <= i < |lines| && SetsKey(ParseEnvLine, lines[i], key);
  }

  /** A variable the environment lacks stays unset when no line sets it. */
  lemma LoadedWithoutKey(vars: map<string, string>, lines: seq<string>, key: string)
    requires key !in vars
    requires forall j :: 0 <= j < |lines| ==> ParseEnvLine(lines[j]).None? || ParseEnvLine(lines[j]).value.0 != key
    ensures key !in Loaded(vars, lines).vars
  {
    WithoutKeyWith(ParseEnvLine, vars, lines, key);
  }

  /** For a variable the environment lacks, the first line that sets it decides its value,
      provided no earlier line raised. */
  lemma LoadedFirstWins(vars: map<string, string>, lines: seq<string>, i: nat, key: string, value: string)
    requires key !in vars
    requires i < |lines| && ParseEnvLine(lines[i]) == Some((key, value)) && !Refused(key, value)
    requires forall j :: 0 <= j < i ==> ParseEnvLine(lines[j]).None? || ParseEnvLine(lines[j]).value.0 != key
    requires !Loaded(vars, lines[..i]).raised
    ensures key in Loaded(vars, lines).vars && Loaded(vars, lines).vars[key] == value
  {
    FirstWinsWith(ParseEnvLine, vars, lines, i, key, value);
  }

  /** A file whose every line the environment accepts never raises. */
  lemma LoadedNeverRaises(vars: map<string, string>, lines: seq<string>)
    requires forall j :: 0 <= j < |lines| ==>
      ParseEnvLine(lines[j]).None? || !Refused(ParseEnvLine(lines[j]).value.0, ParseEnvLine(lines[j]).value.1)
    ensures !Loaded(vars, lines).raised
  {
    NeverRaisesWith(ParseEnvLine, vars, lines);
  }

  /** A line whose key is unset and refused, such as `=x` with its empty key, raises
      unless an earlier line set that key. */
  lemma LoadedRefusedRaises(vars: map<string, string>, lines: seq<string>, i: nat)
    requires i < |lines| && ParseEnvLine(lines[i]).Some?
    requires Refused(ParseEnvLine(lines[i]).value.0, ParseEnvLine(lines[i]).value.1)
    requires ParseEnvLine(lines[i]).value.0 !in vars
    requires forall j :: 0 <= j < i ==>
      ParseEnvLine(lines[j]).None? || ParseEnvLine(lines[j]).value.0 != ParseEnvLine(lines[i]).value.0
    ensures Loaded(vars, lines).raised
  {
    RefusedRaisesWith(ParseEnvLine, vars, lines, i);
  }

  /** A first line `=value` reads as the empty key, which the environment refuses: loading
      raises at once and leaves the environment as it was. */
  lemma EmptyKeyRaises(vars: map<string, string>, lines: seq<string>, value: string)
    requires "" !in vars
    requires value == [] || (!IsSpace(value[0]) && !IsSpace(value[|value| - 1]))
    requires lines != [] && lines[0] == "=" + value
    ensures ParseEnvLine(lines[0]) == Some(("", value))
    ensures Loaded(vars, lines).raised && Loaded(vars, lines).vars == vars
  {
    EmptyKeyParses(lines[0], value);
    FirstLineRaisesWith(ParseEnvLine, vars, lines);
  }

  /** A refused first line raises at once and leaves the environment as it was. */
  lemma FirstLineRaisesWith(parse: string -> Option<(string, string)>, vars: map<string, string>, lines: seq<string>)
    requires lines != [] && RefusedLine(parse, lines[0]) && parse(lines[0]).value.0 !in vars
    ensures LoadedWith(parse, vars, lines) == LoadState(vars, true)
  {
    assert lines[..1][..0] == [];
    assert LoadedWith(parse, vars, lines[..1]) == LoadState(vars, true);
    RaisedStopsWith(parse, vars, lines, 1);
  }

  lemma EmptyKeyParses(line: string, value: string)
    requires value == [] || (!IsSpace(value[0]) && !IsSpace(value[|value| - 1]))
    requires line == "=" + value
    ensures ParseEnvLine(line) == Some(("", value))
  {
    assert line == [] + "=" + value;
    assert line[|line| - 1] == if value == [] then '=' else value[|value| - 1];
    StripUnpadded(line);
    SplitOnceAt(line, '=', [], value);
    StripUnpadded([]);
    StripUnpadded(value);
  }

  // ---------------------------------------------------------------------------
  // Start-up order of `main`

  /** The settings `main` validates, as written: `Config`'s class body ran when the module
      was imported, so it read the environment before `load_dotenv`, which only decides
      whether start-up raises. */
  function StartupSettingsAsWritten(env: map<string, string>, lines: seq<string>): Result<Settings, string> {
    if Loaded(env, lines).raised then Err("load_dotenv raised") else LoadSettings(env)
  }

  /** The settings `main` evidently means to validate: those of the environment after the
      `.env` file has been loaded. */
  function StartupSettings(env: map<string, string>, lines: seq<string>): Result<Settings, string> {
    var loaded := Loaded(env, lines);
    if loaded.raised then Err("load_dotenv raised") else LoadSettings(loaded.vars)
  }

  /** Loading a `.env` file that sets the two required settings, to values without
      surrounding whitespace or NUL, into an empty environment sets both. */
  lemma SampleDotenvLoads(env: map<string, string>, lines: seq<string>, apiKey: string, url: string)
    requires env == map[] && lines == ["MAZRICA_API_KEY" + "=" + apiKey, "APPS_SCRIPT_URL" + "=" + url]
    requires apiKey != [] && !IsSpace(apiKey[0]) && !IsSpace(apiKey[|apiKey| - 1]) && '\0' !in apiKey
    requires url != [] && !IsSpace(url[0]) && !IsSpace(url[|url| - 1]) && '\0' !in url
    ensures Loaded(env, lines) == LoadState(map["MAZRICA_API_KEY" := apiKey, "APPS_SCRIPT_URL" := url], false)
  {
    TwoSettingsLoad(env, lines, "MAZRICA_API_KEY", apiKey, "APPS_SCRIPT_URL", url);
  }

  /** Two `key=value` lines for two different unset keys set both. */
  lemma TwoSettingsLoad(env: map<string, string>, lines: seq<string>, key1: string, value1: string, key2: string, value2: string)
    requires lines == [key1 + "=" + value1, key2 + "=" + value2]
    requires key1 != [] && !IsSpace(key1[0]) && !IsSpace(key1[|key1| - 1]) && key1[0] != '#' && '=' !in key1 && '\0' !in key1
    requires key2 != [] && !IsSpace(key2[0]) && !IsSpace(key2[|key2| - 1]) && key2[0] != '#' && '=' !in key2 && '\0' !in key2
    requires value1 == [] || (!IsSpace(value1[0]) && !IsSpace(value1[|value1| - 1]))
    requires value2 == [] || (!IsSpace(value2[0]) && !IsSpace(value2[|value2| - 1]))
    requires '\0' !in value1 && '\0' !in value2
    requires key1 !in env && key2 !in env && key1 != key2
    ensures Loaded(env, lines) == LoadState(env[key1 := value1][key2 := value2], false)
  {
    EnvLineRoundTrip(key1, value1);
    EnvLineRoundTrip(key2, value2);
    TwoLinesWith(ParseEnvLine, env, lines, key1, value1, key2, value2);
  }

  /** Two lines setting two different unset keys to accepted values set both. */
  lemma TwoLinesWith(parse: string -> Option<(string, string)>, vars: map<string, string>, lines: seq<string>,
                     key1: string, value1: string, key2: string, value2: string)
    requires |lines| == 2 && parse(lines[0]) == Some((key1, value1)) && parse(lines[1]) == Some((key2, value2))
    requires key1 !in vars && key2 !in vars && key1 != key2
    requires !Refused(key1, value1) && !Refused(key2, value2)
    ensures LoadedWith(parse, vars, lines) == LoadState(vars[key1 := value1][key2 := value2], false)
  {
    assert lines[..1][..0] == [];
    assert LoadedWith(parse, vars, lines[..1]) == LoadState(vars[key1 := value1], false);
    assert lines[..1] == lines[..|lines| - 1];
  }

  /** As written, with the required settings only in the `.env` file, `validate` still
      reports both of them missing. */
  lemma DotenvUnseenAsWritten(env: map<string, string>, lines: seq<string>, apiKey: string, url: string)
    requires env == map[] && lines == ["MAZRICA_API_KEY" + "=" + apiKey, "APPS_SCRIPT_URL" + "=" + url]
    requires apiKey != [] && !IsSpace(apiKey[0]) && !IsSpace(apiKey[|apiKey| - 1]) && '\0' !in apiKey
    requires url != [] && !IsSpace(url[0]) && !IsSpace(url[|url| - 1]) && '\0' !in url
    ensures "MAZRICA_API_KEY" in Loaded(env, lines).vars && "APPS_SCRIPT_URL" in Loaded(env, lines).vars
    ensures StartupSettingsAsWritten(env, lines).Ok?
    ensures MissingSettings(StartupSettingsAsWritten(env, lines).value) == [ApiKeyMissing, AppsScriptUrlMissing]
  {
    SampleDotenvLoads(env, lines, apiKey, url);
  }

  /** Loading the file before reading the settings lets the same file satisfy `validate`. */
  lemma DotenvReachesConfig(env: map<string, string>, lines: seq<string>, apiKey: string, url: string)
    requires env == map[] && lines == ["MAZRICA_API_KEY" + "=" + apiKey, "APPS_SCRIPT_URL" + "=" + url]
    requires apiKey != [] && !IsSpace(apiKey[0]) && !IsSpace(apiKey[|apiKey| - 1]) && '\0' !in apiKey
    requires url != [] && !IsSpace(url[0]) && !IsSpace(url[|url| - 1]) && '\0' !in url
    ensures StartupSettings(env, lines).Ok?
    ensures StartupSettings(env, lines).value.apiKey == apiKey && StartupSettings(env, lines).value.appsScriptUrl == url
    ensures MissingSettings(StartupSettings(env, lines).value) == []
  {
    var vars := map["MAZRICA_API_KEY" := apiKey, "APPS_SCRIPT_URL" := url];
    SampleDotenvLoads(env, lines, apiKey, url);
    StartupAfterLoad(env, lines, vars);
    RequiredSettingsSet(vars, apiKey, url);
  }

  /** When loading does not raise, the settings read after it are those of the loaded
      environment. */
  lemma StartupAfterLoad(env: map<string, string>, lines: seq<string>, vars: map<string, string>)
    requires Loaded(env, lines) == LoadState(vars, false)
    ensures StartupSettings(env, lines) == LoadSettings(vars)
  {
  }

  /** An environment holding only the two required settings loads, and `validate` finds
      nothing missing. */
  lemma RequiredSettingsSet(vars: map<string, string>, apiKey: string, url: string)
    requires vars == map["MAZRICA_API_KEY" := apiKey, "APPS_SCRIPT_URL" := url]
    requires apiKey != [] && url != []
    ensures LoadSettings(vars).Ok?
    ensures LoadSettings(vars).value.apiKey == apiKey && LoadSettings(vars).value.appsScriptUrl == url
    ensures MissingSettings(LoadSettings(vars).value) == []
  {
    assert "DEAL_TYPE_ID" !in vars;
  }

  /** A variable the environment lacks, set by a line of the file to a value the
      environment accepts, is what the settings read after loading, provided no earlier
      line set it or raised and the whole file loads. */
  lemma StartupSeesDotenv(env: map<string, string>, lines: seq<string>, i: nat, value: string)
    requires "MAZRICA_API_KEY" !in env
    requires i < |lines| && ParseEnvLine(lines[i]) == Some(("MAZRICA_API_KEY", value)) && !Refused("MAZRICA_API_KEY", value)
    requires forall j :: 0 <= j < i ==> ParseEnvLine(lines[j]).None? || ParseEnvLine(lines[j]).value.0 != "MAZRICA_API_KEY"
    requires !Loaded(env, lines[..i]).raised
    ensures StartupSettings(env, lines).Ok? ==> StartupSettings(env, lines).value.apiKey == value
  {
    LoadedFirstWins(env, lines, i, "MAZRICA_API_KEY", value);
    var loaded := Loaded(env, lines);
    if !loaded.raised {
      assert StartupSettings(env, lines) == LoadSettings(loaded.vars);
    }
  }

  /** Whitespace around the `=` is stripped from the key and the value, and only the
      first `=` splits: the value may itself contain `=`. */
  lemma EnvLinePadded(key: string, before: string, after: string, value: string)
    requires key != [] && !IsSpace(key[0]) && !IsSpace(key[|key| - 1]) && key[0] != '#' && '=' !in key
    requires value != [] && !IsSpace(value[0]) && !IsSpace(value[|value| - 1])
    requires forall k :: 0 <= k < |before| ==> IsSpace(before[k])
    requires forall k :: 0 <= k < |after| ==> IsSpace(after[k])
    ensures ParseEnvLine(key + before + "=" + after + value) == Some((key, value))
  {
    var line := key + before + "=" + after + value;
    assert line[0] == key[0] && line[|line| - 1] == value[|value| - 1];
    StripUnpadded(line);
    NoEqualsBeforeSign(key, before);
    assert line == (key + before) + "=" + (after + value);
    SplitOnceAt(line, '=', key + before, after + value);
    StripDropsTrailing(key + before, |key|, key);
    StripUnpadded(key);
    StripDropsLeading(after + value, |after|, value);
    StripUnpadded(value);
  }

  /** A key without `=` followed by whitespace has no `=`. */
  lemma NoEqualsBeforeSign(key: string, before: string)
    requires '=' !in key
    requires forall k :: 0 <= k < |before| ==> IsSpace(before[k])
    ensures '=' !in key + before
  {
    forall k | 0 <= k < |key + before| ensures (key + before)[k] != '=' {
      if k >= |key| {
        assert (key + before)[k] == before[k - |key|];
      } else {
        assert (key + before)[k] == key[k];
      }
    }
  }
}
