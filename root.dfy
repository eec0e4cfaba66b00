/**
  The `run` command of cmd/root.go: set the log level, reject the first invalid
  pattern, get the working directory, start the walk there, and print every Match
  the stream yields until it is closed.

  What `run` does to the outside world is recorded as a trace of effects. The
  pattern validator, the working directory and the directory tree rooted at a path
  are parameters.
*/
module Cmd {
  import opened Base
  import Find

  datatype Effect =
    | SetLevel(level: nat)
    | GetWd
    | StartFind(root: string, patterns: seq<string>)
    | Print(line: string)

  const InvalidPrefix := "invalid pattern: "
  const WorkingDirPrefix := "get working directory: "

  /** The error of a rejected pattern: the fixed prefix, then the pattern verbatim. */
  function InvalidPattern(pattern: string): (r: string)
    ensures |r| == |InvalidPrefix| + |pattern|
    ensures r[..|InvalidPrefix|] == InvalidPrefix && r[|InvalidPrefix|..] == pattern
  {
    InvalidPrefix + pattern
  }

  /** The error of a failed `os.Getwd`, wrapping its message after the fixed prefix. */
  function WorkingDirError(err: string): (r: string)
    ensures |r| == |WorkingDirPrefix| + |err|
    ensures r[..|WorkingDirPrefix|] == WorkingDirPrefix && r[|WorkingDirPrefix|..] == err
  {
    WorkingDirPrefix + err
  }

  /** The line printed for a Match: `path: url` and a newline. */
  function Line(m: Find.Match): (r: string)
    ensures |r| == |m.path| + |m.url| + 3
    ensures forall k :: 0 <= k < |m.path| ==> r[k] == m.path[k]
    ensures r[|m.path|] == ':' && r[|m.path| + 1] == ' '
    ensures forall k :: 0 <= k < |m.url| ==> r[|m.path| + 2 + k] == m.url[k]
    ensures r[|r| - 1] == '\n'
  {
    m.path + ": " + m.url + "\n"
  }

  function Printed(ms: seq<Find.Match>): (r: seq<Effect>)
    ensures |r| == |ms|
  {
    if ms == [] then [] else Printed(ms[..|ms| - 1]) + [Print(Line(ms[|ms| - 1]))]
  }

  /** The first argument the validator rejects, if any. */
  function FirstInvalid(args: seq<string>, valid: string -> bool): (r: Option<nat>)
    ensures r.Some? ==> (r.value < |args| && !valid(args[r.value])
                         && forall j :: 0 <= j < r.value ==> valid(args[j]))
    ensures r.None? ==> forall j :: 0 <= j < |args| ==> valid(args[j])
  {
    if args == [] then None
    else if !valid(args[0]) then Some(0)
    else match FirstInvalid(args[1..], valid)
      case None => None
      case Some(k) => Some(k + 1)
  }

  /** The loop of `run` over its arguments: the first one `doublestar.ValidatePathPattern` rejects. */
  method Validate(args: seq<string>, valid: string -> bool) returns (bad: Option<nat>)
    ensures bad == FirstInvalid(args, valid)
  {
    for i := 0 to |args|
      invariant forall j :: 0 <= j < i ==> valid(args[j])
    {
      if !valid(args[i]) {
        assert FirstInvalid(args, valid) == Some(i) by {
          var r := FirstInvalid(args, valid);
          assert r.Some? && r.value <= i;
        }
        return Some(i);
      }
    }
    return None;
  }

  /** Index of the last space in `s`, if any. */
  function LastSpace(s: string): (r: Option<nat>)
    ensures r.Some? ==> (r.value < |s| && s[r.value] == ' '
                         && forall j :: r.value < j < |s| ==> s[j] != ' ')
    ensures r.None? ==> forall j :: 0 <= j < |s| ==> s[j] != ' '
  {
    if s == [] then None
    else if s[|s| - 1] == ' ' then Some(|s| - 1)
    else LastSpace(s[..|s| - 1])
  }

  lemma LastSpaceAt(s: string, k: nat)
    requires k < |s| && s[k] == ' '
    requires forall j :: k < j < |s| ==> s[j] != ' '
    ensures LastSpace(s) == Some(k)
  {
    var r := LastSpace(s);
    assert r.Some? && r.value <= k;
  }

  /** Reads a printed line back: the URL is what follows the last space, the path what precedes the `": "`. */
  function ParseLine(line: string): Option<Find.Match> {
    if line == [] || line[|line| - 1] != '\n' then None
    else
      var body := line[..|line| - 1];
      match LastSpace(body)
      case None => None
      case Some(k) =>
        if 1 <= k && body[k - 1] == ':' then Some(Find.Match(body[k + 1..], body[..k - 1])) else None
  }

  lemma ParseJoined(path: string, url: string)
    requires ' ' !in url
    ensures ParseLine(path + ": " + url + "\n") == Some(Find.Match(url, path))
  {
    var line := path + ": " + url + "\n";
    var body := line[..|line| - 1];
    var k := |path| + 1;
    assert body == path + ": " + url;
    assert body[k] == ' ';
    forall j | k < j < |body| ensures body[j] != ' ' {
      assert body[j] == url[j - k - 1];
    }
    LastSpaceAt(body, k);
    assert body[k + 1..] == url;
    assert body[..k - 1] == path;
  }

  /** A Match whose URL holds no space is recovered from its printed line. */
  lemma LineRoundTrip(m: Find.Match)
    requires ' ' !in m.url
    ensures ParseLine(Line(m)) == Some(m)
  {
    ParseJoined(m.path, m.url);
  }

  /** Every line `run` prints for a walk's matches is read back as the Match it was printed for. */
  lemma PrintedLinesParse(read: string -> Result<seq<byte>>, paths: seq<string>, m: Find.Match)
    requires m in Find.Emitted(read, paths)
    ensures ParseLine(Line(m)) == Some(m)
  {
    Find.EmittedUrlHasNoSpace(read, paths, m);
    LineRoundTrip(m);
  }

  /** What the stream of a walk under `context.Background()` yields. */
  function Stream(root: Find.Tree, patterns: seq<string>, glob: Find.Glob): seq<Find.Match> {
    Find.Emitted(root.read, Find.Walk(root.entries, patterns, glob, Find.Background).spawned)
  }

  /** With no pattern arguments validation passes and the walk scans nothing, so nothing is printed. */
  lemma NoPatternsPrintNothing(root: Find.Tree, glob: Find.Glob, valid: string -> bool)
    ensures FirstInvalid([], valid).None?
    ensures Printed(Stream(root, [], glob)) == []
  {
    Find.EmptyPatternsScanNothing(root, glob, Find.Background);
  }

  lemma PrintedPrefix(ms: seq<Find.Match>, k: nat)
    requires k < |ms|
    ensures Printed(ms[..k + 1]) == Printed(ms[..k]) + [Print(Line(ms[k]))]
  {
    assert ms[..k + 1][..k] == ms[..k];
  }

  /**
    The `for`/`select` loop of `run`: print each Match received until the stream
    reports closed. The `ctx.Done()` case cannot fire for a background context.
  */
  method Drain(matches: Find.Session, ctx: Find.Context) returns (lines: seq<Effect>)
    requires ctx == Find.Background
    requires matches.closed && matches.received == 0
    modifies matches
    ensures lines == Printed(old(matches.sent))
    ensures matches.closed && matches.sent == old(matches.sent) && matches.received == |matches.sent|
    ensures matches.inFlight == old(matches.inFlight) && matches.cancelled == old(matches.cancelled)
  {
    lines := [];
    ghost var stream := matches.sent;
    while true
      invariant matches.closed && matches.sent == stream && matches.received <= |stream|
      invariant matches.inFlight == old(matches.inFlight) && matches.cancelled == old(matches.cancelled)
      invariant lines == Printed(stream[..matches.received])
      decreases |stream| - matches.received
    {
      if ctx.Cancelable? {
        // `case <-ctx.Done(): return ctx.Err()`: only a cancelable context is ever done.
        assert false;
      }
      var m, ok := matches.Receive();
      if !ok {
        assert stream[..matches.received] == stream;
        return;
      }
      PrintedPrefix(stream, matches.received - 1);
      lines := lines + [Print(Line(m))];
    }
  }

  /**
    `run(args)`: the log level is set first; the first invalid pattern ends the run
    before the working directory is asked for; otherwise every Match of the walk
    from the working directory is printed, and `run` returns nil once the stream
    is closed and drained.
  */
  method Run(
    args: seq<string>, verbose: nat, valid: string -> bool,
    getwd: Result<string>, dirFS: string -> Find.Tree, glob: Find.Glob)
    returns (err: Option<string>, trace: seq<Effect>)
    ensures |trace| >= 1 && trace[0] == SetLevel(verbose)
    ensures FirstInvalid(args, valid).Some? ==>
      && err == Some(InvalidPattern(args[FirstInvalid(args, valid).value]))
      && trace == [SetLevel(verbose)]
    ensures FirstInvalid(args, valid).None? && getwd.Err? ==>
      && err == Some(WorkingDirError(getwd.error))
      && trace == [SetLevel(verbose), GetWd]
    ensures FirstInvalid(args, valid).None? && getwd.Ok? ==>
      && err == None
      && trace == [SetLevel(verbose), GetWd, StartFind(getwd.value, args)] + Printed(Stream(dirFS(getwd.value), args, glob))
  {
    trace := [SetLevel(verbose)];

    var bad := Validate(args, valid);
    if bad.Some? {
      return Some(InvalidPattern(args[bad.value])), trace;
    }

    trace := trace + [GetWd];
    var wdErr: Option<string> := if getwd.Err? then Some(getwd.error) else None;
    if wdErr.Some? {
      return Some(WorkingDirError(wdErr.value)), trace;
    }
    var cwd := getwd.value;

    var ctx := Find.Background;
    trace := trace + [StartFind(cwd, args)];
    assert trace == [SetLevel(verbose), GetWd, StartFind(cwd, args)];
    var matches := Find.Find(ctx, dirFS(cwd), args, glob);
    if wdErr.Some? {
      // `log.Fatal("find: %s", err)`: err is nil here, or the run would have returned above.
      assert false;
    }

    var lines := Drain(matches, ctx);
    return None, trace + lines;
  }
}
