/**
  The walk of internal/find/find.go, run sequentially: every directory entry goes
  through the walk callback; a regular file whose path matches one of the patterns
  is scanned and each URL found in it is sent on the matches stream as a Match.
  The directory tree is the sequence of entries the walk visits, in visiting order,
  the glob matcher is an uninterpreted function, and reading a file yields its bytes
  or an error.
*/
module Find {
  import opened Base
  import opened UrlPattern

  /** One URL found in the file at `path` (`find.Match`, in Go's field order). */
  datatype Match = Match(url: string, path: string)

  /** What the walk reports for an entry: a regular file, anything else, or an error. */
  datatype EntryKind = Regular | NonRegular | Failed(err: string)

  datatype Entry = Entry(path: string, kind: EntryKind)

  /** The file tree: the entries the walk visits and what reading a path yields. */
  datatype Tree = Tree(entries: seq<Entry>, read: string -> Result<seq<byte>>)

  /** The `(matched, err)` pair of `doublestar.PathMatch(pattern, path)`. */
  datatype GlobResult = GlobResult(matched: bool, err: Option<string>)

  type Glob = (string, string) -> GlobResult

  /**
    The context the walk polls. A cancelable context's `done(i)` says whether it is
    done when the walk checks it at entry `i`; `context.Background()` never is.
  */
  datatype Context = Background | Cancelable(done: nat -> bool)

  predicate IsDone(ctx: Context, step: nat): (r: bool)
    ensures ctx.Background? ==> !r
  {
    match ctx
    case Background => false
    case Cancelable(done) => done(step)
  }

  /** `string(found)`: each byte of a URL becomes the character with that code. */
  function Text(u: seq<byte>): (r: string)
    ensures |r| == |u| && forall k :: 0 <= k < |u| ==> r[k] as int == u[k]
  {
    seq(|u|, k requires 0 <= k < |u| => u[k] as char)
  }

  // ---------------------------------------------------------------------------
  // The scan task of one file.

  function MatchesOf(urls: seq<seq<byte>>, p: string): (r: seq<Match>)
    ensures |r| == |urls|
  {
    seq(|urls|, k requires 0 <= k < |urls| => Match(Text(urls[k]), p))
  }

  /** What the scan task for `p` sends, given what reading `p` yields. */
  function FileMatches(p: string, r: Result<seq<byte>>): (ms: seq<Match>)
    ensures r.Err? ==> ms == []
    ensures r.Ok? ==> |ms| == |AllUrls(r.value)|
    ensures forall k :: 0 <= k < |ms| ==> ms[k].path == p
  {
    match r
    case Err(_) => []
    case Ok(buf) =>
      LimitNeverTruncates(buf);
      MatchesOf(Take(AllUrls(buf), |buf|), p)
  }

  /**
    A scanned file yields one Match per URL FindAll reports, in FindAll's order,
    each with the file's path; a read error yields none.
  */
  lemma FileMatchesSpec(p: string, r: Result<seq<byte>>)
    ensures r.Err? ==> FileMatches(p, r) == []
    ensures r.Ok? ==> var urls := AllUrls(r.value);
      && |FileMatches(p, r)| == |urls|
      && forall k :: 0 <= k < |urls| ==> FileMatches(p, r)[k] == Match(Text(urls[k]), p)
  {
    if r.Ok? {
      LimitNeverTruncates(r.value);
    }
  }

  /** The matches of the scan tasks for `paths`, run one after the other. */
  function Emitted(read: string -> Result<seq<byte>>, paths: seq<string>): (ms: seq<Match>)
    ensures forall k :: 0 <= k < |ms| ==> ms[k].path in paths
  {
    if paths == [] then []
    else
      var init, last := paths[..|paths| - 1], paths[|paths| - 1];
      var a, b := Emitted(read, init), FileMatches(last, read(last));
      PathsOfAppend(a, b, init, last, paths);
      a + b
  }

  lemma PathsOfAppend(a: seq<Match>, b: seq<Match>, init: seq<string>, last: string, paths: seq<string>)
    requires paths == init + [last]
    requires forall k :: 0 <= k < |a| ==> a[k].path in init
    requires forall k :: 0 <= k < |b| ==> b[k].path == last
    ensures forall k :: 0 <= k < |a + b| ==> (a + b)[k].path in paths
  {
    forall k | 0 <= k < |a + b| ensures (a + b)[k].path in paths {
      if k < |a| {
        assert (a + b)[k] == a[k];
      } else {
        assert (a + b)[k] == b[k - |a|];
      }
    }
  }

  lemma EmittedSnoc(read: string -> Result<seq<byte>>, paths: seq<string>, p: string)
    ensures Emitted(read, paths + [p]) == Emitted(read, paths) + FileMatches(p, read(p))
  {
    assert (paths + [p])[..|paths|] == paths;
  }

  /** Every emitted Match is one that the scan of its own path produces, and that path was scanned. */
  lemma {:induction false} EmittedBelongs(read: string -> Result<seq<byte>>, paths: seq<string>, m: Match)
    requires m in Emitted(read, paths)
    ensures m.path in paths && m in FileMatches(m.path, read(m.path))
    decreases |paths|
  {
    var init, last := paths[..|paths| - 1], paths[|paths| - 1];
    if m in Emitted(read, init) {
      EmittedBelongs(read, init, m);
    } else {
      var fm := FileMatches(last, read(last));
      assert m in fm;
      var k :| 0 <= k < |fm| && fm[k] == m;
      assert m.path == last;
    }
  }

  /** An emitted URL is the text of a URL found in its file, so it holds no space. */
  lemma EmittedUrlHasNoSpace(read: string -> Result<seq<byte>>, paths: seq<string>, m: Match)
    requires m in Emitted(read, paths)
    ensures ' ' !in m.url
  {
    EmittedBelongs(read, paths, m);
    var r := read(m.path);
    FileMatchesSpec(m.path, r);
    var fm := FileMatches(m.path, r);
    var k :| 0 <= k < |fm| && fm[k] == m;
    var s := r.value;
    UrlsAreMaximalMatches(s, k);
    UrlHasNoSpace(AllUrls(s)[k]);
  }

  // ---------------------------------------------------------------------------
  // The walk callback.

  /** Outcome of the pattern loop: a pattern matched, none did, or the matcher failed first. */
  datatype PatternOutcome = Matched | NoMatch | MatchError(err: string)

  /** The patterns tried in order, stopping at the first error or the first match. */
  function FirstMatch(patterns: seq<string>, p: string, glob: Glob): (r: PatternOutcome)
    ensures r == NoMatch <==> forall j :: 0 <= j < |patterns| ==> glob(patterns[j], p) == GlobResult(false, None)
    ensures r == Matched ==> exists j :: 0 <= j < |patterns| && glob(patterns[j], p) == GlobResult(true, None)
    ensures r.MatchError? ==> exists j :: 0 <= j < |patterns| && glob(patterns[j], p).err == Some(r.err)
  {
    if patterns == [] then NoMatch
    else
      var g := glob(patterns[0], p);
      if g.err.Some? then MatchError(g.err.value)
      else if g.matched then Matched
      else
        assert forall j :: 1 <= j < |patterns| ==> patterns[1..][j - 1] == patterns[j];
        FirstMatch(patterns[1..], p, glob)
  }

  /** Every pattern before `k` was tried and neither matched nor failed. */
  ghost predicate CleanBefore(patterns: seq<string>, p: string, glob: Glob, k: nat) {
    k <= |patterns| && forall j :: 0 <= j < k ==> glob(patterns[j], p) == GlobResult(false, None)
  }

  /**
    The pattern loop's outcome, stated through the first pattern `k` that does not
    miss cleanly (every input has exactly one such `k`): no match if there is none,
    else that pattern's error if it reports one, whatever it says about matching,
    else a match.
  */
  lemma {:induction false} FirstMatchAt(patterns: seq<string>, p: string, glob: Glob, k: nat)
    requires CleanBefore(patterns, p, glob, k)
    requires k < |patterns| ==> glob(patterns[k], p) != GlobResult(false, None)
    ensures FirstMatch(patterns, p, glob) ==
      if k == |patterns| then NoMatch
      else if glob(patterns[k], p).err.Some? then MatchError(glob(patterns[k], p).err.value)
      else Matched
    decreases k
  {
    if k > 0 {
      var tail := patterns[1..];
      assert glob(patterns[0], p) == GlobResult(false, None);
      forall j | 0 <= j < k - 1 ensures glob(tail[j], p) == GlobResult(false, None) {
        assert tail[j] == patterns[j + 1];
      }
      assert k - 1 < |tail| ==> tail[k - 1] == patterns[k];
      FirstMatchAt(tail, p, glob, k - 1);
    }
  }

  /** What the walk callback returns: continue, continue after spawning a scan, `fs.SkipAll`, or an error. */
  datatype Verdict = Continue | Spawn(path: string) | SkipAll | Abort(err: string)

  /** The walk callback's decision for one entry, given whether the context is done. */
  function Decide(e: Entry, patterns: seq<string>, glob: Glob, done: bool): (v: Verdict)
    ensures v.Spawn? <==> e.kind.Regular? && FirstMatch(patterns, e.path, glob) == Matched && !done
    ensures v.Spawn? ==> v.path == e.path
    ensures v.SkipAll? <==> e.kind.Regular? && FirstMatch(patterns, e.path, glob) == Matched && done
    ensures v.Abort? <==> e.kind.Failed? || (e.kind.Regular? && FirstMatch(patterns, e.path, glob).MatchError?)
    ensures e.kind.Failed? ==> v == Abort(e.kind.err)
  {
    match e.kind
    case Failed(err) => Abort(err)
    case NonRegular => Continue
    case Regular =>
      match FirstMatch(patterns, e.path, glob)
      case MatchError(err) => Abort(err)
      case NoMatch => Continue
      case Matched => if done then SkipAll else Spawn(e.path)
  }

  /** The callback's checks in order: the entry error, the regular-file filter, the pattern loop, the context. */
  method Select(e: Entry, patterns: seq<string>, glob: Glob, ctx: Context, step: nat) returns (v: Verdict)
    ensures v == Decide(e, patterns, glob, IsDone(ctx, step))
  {
    if e.kind.Failed? {
      return Abort(e.kind.err);
    }
    if !e.kind.Regular? {
      return Continue;
    }
    var matched := false;
    var i := 0;
    while i < |patterns|
      invariant i <= |patterns|
      invariant !matched
      invariant FirstMatch(patterns, e.path, glob) == FirstMatch(patterns[i..], e.path, glob)
    {
      var g := glob(patterns[i], e.path);
      matched := g.matched;
      if g.err.Some? {
        return Abort(g.err.value);
      } else if matched {
        break;
      }
      assert patterns[i..][1..] == patterns[i + 1..];
      i := i + 1;
    }
    if !matched {
      return Continue;
    }
    if IsDone(ctx, step) {
      return SkipAll;
    }
    return Spawn(e.path);
  }

  // ---------------------------------------------------------------------------
  // The walk.

  /** What a walk yields: the paths whose scans it spawned, in order, and its terminal error. */
  datatype WalkOutcome = WalkOutcome(spawned: seq<string>, err: Option<string>)

  /**
    `fs.WalkDir` from entry `from` on: the callback's nil continues, `fs.SkipAll` ends
    the walk without an error, and any other error ends it with that error.
  */
  function WalkFrom(entries: seq<Entry>, from: nat, patterns: seq<string>, glob: Glob, ctx: Context): (r: WalkOutcome)
    ensures from <= |entries| ==> |r.spawned| <= |entries| - from
    ensures forall k :: 0 <= k < |r.spawned| ==> FirstMatch(patterns, r.spawned[k], glob) == Matched
    decreases |entries| - from
  {
    if from >= |entries| then WalkOutcome([], None)
    else match Decide(entries[from], patterns, glob, IsDone(ctx, from))
      case Continue => WalkFrom(entries, from + 1, patterns, glob, ctx)
      case Spawn(p) =>
        var rest := WalkFrom(entries, from + 1, patterns, glob, ctx);
        assert forall k :: 1 <= k < 1 + |rest.spawned| ==> ([p] + rest.spawned)[k] == rest.spawned[k - 1];
        WalkOutcome([p] + rest.spawned, rest.err)
      case SkipAll => WalkOutcome([], None)
      case Abort(err) => WalkOutcome([], Some(err))
  }

  /** `fs.WalkDir(fsys, ".", …)`: the fold over every entry, from the root on. */
  function Walk(entries: seq<Entry>, patterns: seq<string>, glob: Glob, ctx: Context): (r: WalkOutcome)
    ensures |r.spawned| <= |entries|
    ensures forall k :: 0 <= k < |r.spawned| ==> FirstMatch(patterns, r.spawned[k], glob) == Matched
  {
    WalkFrom(entries, 0, patterns, glob, ctx)
  }

  /** The paths of the regular files among `entries` that some pattern matches, in order. */
  function SelectedPaths(entries: seq<Entry>, patterns: seq<string>, glob: Glob): seq<string> {
    if entries == [] then []
    else
      var e := entries[0];
      (if e.kind.Regular? && FirstMatch(patterns, e.path, glob) == Matched then [e.path] else [])
        + SelectedPaths(entries[1..], patterns, glob)
  }

  predicate Halts(v: Verdict) {
    v.SkipAll? || v.Abort?
  }

  function ErrorOf(v: Verdict): Option<string> {
    if v.Abort? then Some(v.err) else None
  }

  lemma {:induction false} WalkFromHaltsAt(entries: seq<Entry>, from: nat, h: nat, patterns: seq<string>, glob: Glob, ctx: Context)
    requires from <= h <= |entries|
    requires forall i :: from <= i < h ==> !Halts(Decide(entries[i], patterns, glob, IsDone(ctx, i)))
    requires h < |entries| ==> Halts(Decide(entries[h], patterns, glob, IsDone(ctx, h)))
    ensures WalkFrom(entries, from, patterns, glob, ctx) == WalkOutcome(
      SelectedPaths(entries[from..h], patterns, glob),
      if h < |entries| then ErrorOf(Decide(entries[h], patterns, glob, IsDone(ctx, h))) else None)
    decreases h - from
  {
    if from < h {
      WalkFromHaltsAt(entries, from + 1, h, patterns, glob, ctx);
      assert entries[from..h][1..] == entries[from + 1..h];
    }
  }

  /**
    The walk as a whole: if entry `h` is the first at which the callback stops the
    walk (or `h` is the end), the walk scans exactly the selected regular files before
    `h`, in order, and its error is the stopping entry's error, none for `fs.SkipAll`.
  */
  lemma WalkHaltsAt(entries: seq<Entry>, h: nat, patterns: seq<string>, glob: Glob, ctx: Context)
    requires h <= |entries|
    requires forall i :: 0 <= i < h ==> !Halts(Decide(entries[i], patterns, glob, IsDone(ctx, i)))
    requires h < |entries| ==> Halts(Decide(entries[h], patterns, glob, IsDone(ctx, h)))
    ensures Walk(entries, patterns, glob, ctx) == WalkOutcome(
      SelectedPaths(entries[..h], patterns, glob),
      if h < |entries| then ErrorOf(Decide(entries[h], patterns, glob, IsDone(ctx, h))) else None)
  {
    WalkFromHaltsAt(entries, 0, h, patterns, glob, ctx);
    assert entries[0..h] == entries[..h];
  }

  /** An entry error aborts the walk with that error; nothing at or after it is scanned. */
  lemma EntryErrorAborts(entries: seq<Entry>, i: nat, patterns: seq<string>, glob: Glob, ctx: Context)
    requires i < |entries| && entries[i].kind.Failed?
    requires forall j :: 0 <= j < i ==> !Halts(Decide(entries[j], patterns, glob, IsDone(ctx, j)))
    ensures Walk(entries, patterns, glob, ctx) == WalkOutcome(SelectedPaths(entries[..i], patterns, glob), Some(entries[i].kind.err))
  {
    WalkHaltsAt(entries, i, patterns, glob, ctx);
  }

  /** A matcher error on a regular file aborts the walk with that error. */
  lemma MatcherErrorAborts(entries: seq<Entry>, i: nat, patterns: seq<string>, glob: Glob, ctx: Context, err: string)
    requires i < |entries| && entries[i].kind.Regular?
    requires FirstMatch(patterns, entries[i].path, glob) == MatchError(err)
    requires forall j :: 0 <= j < i ==> !Halts(Decide(entries[j], patterns, glob, IsDone(ctx, j)))
    ensures Walk(entries, patterns, glob, ctx) == WalkOutcome(SelectedPaths(entries[..i], patterns, glob), Some(err))
  {
    WalkHaltsAt(entries, i, patterns, glob, ctx);
  }

  /**
    A matched file met with the context done ends the walk through `fs.SkipAll`:
    that file and everything after it go unscanned, and the walk reports no error.
  */
  lemma CancelEndsWalkWithoutError(entries: seq<Entry>, i: nat, patterns: seq<string>, glob: Glob, ctx: Context)
    requires i < |entries| && entries[i].kind.Regular?
    requires FirstMatch(patterns, entries[i].path, glob) == Matched && IsDone(ctx, i)
    requires forall j :: 0 <= j < i ==> !Halts(Decide(entries[j], patterns, glob, IsDone(ctx, j)))
    ensures Walk(entries, patterns, glob, ctx) == WalkOutcome(SelectedPaths(entries[..i], patterns, glob), None)
  {
    WalkHaltsAt(entries, i, patterns, glob, ctx);
  }

  /** A Go context, once done, stays done. */
  ghost predicate StaysDone(ctx: Context) {
    ctx.Cancelable? ==> forall i: nat, j: nat :: i <= j && ctx.done(i) ==> ctx.done(j)
  }

  lemma {:induction false} NoSpawnOnceDone(entries: seq<Entry>, from: nat, patterns: seq<string>, glob: Glob, ctx: Context, d: nat)
    requires StaysDone(ctx) && IsDone(ctx, d) && d <= from
    ensures WalkFrom(entries, from, patterns, glob, ctx).spawned == []
    decreases |entries| - from
  {
    if from < |entries| {
      assert IsDone(ctx, from);
      NoSpawnOnceDone(entries, from + 1, patterns, glob, ctx, d);
    }
  }

  lemma {:induction false} WalkFromDonePrefix(entries: seq<Entry>, from: nat, patterns: seq<string>, glob: Glob, ctx: Context, d: nat)
    requires StaysDone(ctx) && IsDone(ctx, d) && from <= d <= |entries|
    ensures WalkFrom(entries, from, patterns, glob, ctx).spawned == WalkFrom(entries[..d], from, patterns, glob, ctx).spawned
    decreases d - from
  {
    if from < d {
      assert entries[..d][from] == entries[from];
      WalkFromDonePrefix(entries, from + 1, patterns, glob, ctx, d);
    } else {
      NoSpawnOnceDone(entries, from, patterns, glob, ctx, d);
    }
  }

  /**
    Once a context that stays done is done at entry `d`, no entry at `d` or later is
    scanned: the walk spawns exactly what the walk of the entries before `d` spawns.
  */
  lemma NoScanOnceDone(entries: seq<Entry>, patterns: seq<string>, glob: Glob, ctx: Context, d: nat)
    requires StaysDone(ctx) && IsDone(ctx, d)
    ensures var cut := if d < |entries| then d else |entries|;
      Walk(entries, patterns, glob, ctx).spawned == Walk(entries[..cut], patterns, glob, ctx).spawned
  {
    if d < |entries| {
      WalkFromDonePrefix(entries, 0, patterns, glob, ctx, d);
    } else {
      assert entries[..|entries|] == entries;
    }
  }

  lemma {:induction false} WalkFromSpawnedAreSelected(entries: seq<Entry>, from: nat, patterns: seq<string>, glob: Glob, ctx: Context, p: string)
    requires p in WalkFrom(entries, from, patterns, glob, ctx).spawned
    ensures exists i :: from <= i < |entries| && entries[i] == Entry(p, Regular)
                   && FirstMatch(patterns, p, glob) == Matched && !IsDone(ctx, i)
    decreases |entries| - from
  {
    var v := Decide(entries[from], patterns, glob, IsDone(ctx, from));
    if !(v.Spawn? && v.path == p) {
      WalkFromSpawnedAreSelected(entries, from + 1, patterns, glob, ctx, p);
    }
  }

  /**
    A scan is spawned only for a regular file some pattern matches, visited while the
    context was not done: non-regular entries are never matched or scanned.
  */
  lemma SpawnedAreSelected(entries: seq<Entry>, patterns: seq<string>, glob: Glob, ctx: Context, p: string)
    requires p in Walk(entries, patterns, glob, ctx).spawned
    ensures exists i :: 0 <= i < |entries| && entries[i] == Entry(p, Regular)
                   && FirstMatch(patterns, p, glob) == Matched && !IsDone(ctx, i)
  {
    WalkFromSpawnedAreSelected(entries, 0, patterns, glob, ctx, p);
  }

  lemma {:induction false} WalkFromWithoutPatterns(entries: seq<Entry>, from: nat, glob: Glob, ctx: Context)
    ensures WalkFrom(entries, from, [], glob, ctx).spawned == []
    decreases |entries| - from
  {
    if from < |entries| {
      WalkFromWithoutPatterns(entries, from + 1, glob, ctx);
    }
  }

  /** An empty pattern list scans nothing, so nothing is emitted. */
  lemma EmptyPatternsScanNothing(tree: Tree, glob: Glob, ctx: Context)
    ensures Walk(tree.entries, [], glob, ctx).spawned == []
    ensures Emitted(tree.read, Walk(tree.entries, [], glob, ctx).spawned) == []
  {
    WalkFromWithoutPatterns(tree.entries, 0, glob, ctx);
  }

  lemma {:induction false} BackgroundWalkFrom(entries: seq<Entry>, from: nat, patterns: seq<string>, glob: Glob)
    requires from <= |entries|
    ensures WalkFrom(entries, from, patterns, glob, Background).err == None ==>
      WalkFrom(entries, from, patterns, glob, Background).spawned == SelectedPaths(entries[from..], patterns, glob)
    decreases |entries| - from
  {
    if from < |entries| {
      BackgroundWalkFrom(entries, from + 1, patterns, glob);
      assert entries[from..][1..] == entries[from + 1..];
    }
  }

  /**
    Under `context.Background()` the walk never ends through `fs.SkipAll`: when it
    completes without an error, every selected regular file is scanned.
  */
  lemma BackgroundScansAllSelected(entries: seq<Entry>, patterns: seq<string>, glob: Glob)
    requires Walk(entries, patterns, glob, Background).err == None
    ensures Walk(entries, patterns, glob, Background).spawned == SelectedPaths(entries, patterns, glob)
  {
    BackgroundWalkFrom(entries, 0, patterns, glob);
    assert entries[0..] == entries;
  }

  // ---------------------------------------------------------------------------
  // The scan session: the matches stream, the WaitGroup and the cancel function.

  class Session {
    /** Every Match sent on the matches stream so far, in order. */
    var sent: seq<Match>
    /** How many of `sent` the consumer has received. */
    var received: nat
    /** The WaitGroup's counter of outstanding scan tasks. */
    var inFlight: nat
    /** Whether `cancel()` has been called. */
    var cancelled: bool
    /** Whether the stream has been closed. */
    var closed: bool

    constructor ()
      ensures sent == [] && received == 0 && inFlight == 0 && !cancelled && !closed
    {
      sent, received, inFlight, cancelled, closed := [], 0, 0, false, false;
    }

    /** `wg.Add(1)` */
    method Add()
      modifies this
      ensures inFlight == old(inFlight) + 1
      ensures sent == old(sent) && received == old(received) && cancelled == old(cancelled) && closed == old(closed)
    {
      inFlight := inFlight + 1;
    }

    /** `wg.Done()` */
    method Done()
      requires inFlight > 0
      modifies this
      ensures inFlight == old(inFlight) - 1
      ensures sent == old(sent) && received == old(received) && cancelled == old(cancelled) && closed == old(closed)
    {
      inFlight := inFlight - 1;
    }

    /** `matches <- m`; a send on a closed channel would panic, so the stream must be open. */
    method Send(m: Match)
      requires !closed
      modifies this
      ensures sent == old(sent) + [m]
      ensures received == old(received) && inFlight == old(inFlight) && cancelled == old(cancelled) && closed == old(closed)
    {
      sent := sent + [m];
    }

    /** `cancel()` */
    method Cancel()
      modifies this
      ensures cancelled
      ensures sent == old(sent) && received == old(received) && inFlight == old(inFlight) && closed == old(closed)
    {
      cancelled := true;
    }

    /** `wg.Wait(); close(matches)`: the stream closes only once no scan task is outstanding. */
    method Close()
      requires !closed && inFlight == 0
      modifies this
      ensures closed
      ensures sent == old(sent) && received == old(received) && inFlight == old(inFlight) && cancelled == old(cancelled)
    {
      closed := true;
    }

    /**
      `match, ok := <-matches` on the closed stream: the next Match with `ok`, or, once
      every sent Match has been received, the zero Match without it.
    */
    method Receive() returns (m: Match, ok: bool)
      requires closed
      modifies this
      ensures ok <==> old(received) < |sent|
      ensures ok ==> m == sent[old(received)] && received == old(received) + 1
      ensures !ok ==> m == Match("", "") && received == old(received)
      ensures sent == old(sent) && inFlight == old(inFlight) && cancelled == old(cancelled) && closed
    {
      ok := received < |sent|;
      if ok {
        m := sent[received];
        received := received + 1;
      } else {
        m := Match("", "");
      }
    }

    /** The scan task for `p`: read the file, send one Match per URL found, then `wg.Done()`. */
    method Scan(p: string, read: string -> Result<seq<byte>>)
      requires inFlight > 0 && !closed
      modifies this
      ensures sent == old(sent) + FileMatches(p, read(p))
      ensures inFlight == old(inFlight) - 1
      ensures received == old(received) && cancelled == old(cancelled) && closed == old(closed)
    {
      var r := read(p);
      if r.Err? {
        Done();
        return;
      }
      var buf := r.value;
      var found := FindAll(buf, |buf|);
      for k := 0 to |found|
        invariant sent == old(sent) + MatchesOf(found[..k], p)
        invariant inFlight == old(inFlight) && !closed
        invariant received == old(received) && cancelled == old(cancelled)
      {
        assert MatchesOf(found[..k + 1], p) == MatchesOf(found[..k], p) + [Match(Text(found[k]), p)];
        Send(Match(Text(found[k]), p));
      }
      assert found[..|found|] == found;
      Done();
    }

    /** The walk callback: decide, and on a match with the context not done spawn the scan task. */
    method Callback(e: Entry, step: nat, patterns: seq<string>, glob: Glob, ctx: Context, read: string -> Result<seq<byte>>)
      returns (v: Verdict)
      requires !closed
      modifies this
      ensures v == Decide(e, patterns, glob, IsDone(ctx, step))
      ensures sent == old(sent) + (if v.Spawn? then FileMatches(v.path, read(v.path)) else [])
      ensures inFlight == old(inFlight) && received == old(received) && cancelled == old(cancelled) && closed == old(closed)
    {
      v := Select(e, patterns, glob, ctx, step);
      if v.Spawn? {
        Add();
        Scan(v.path, read);
      }
    }
  }

  /** One entry of the walk that does not stop it: the spawned paths so far grow by that entry's spawn, if any. */
  lemma WalkStep(entries: seq<Entry>, i: nat, patterns: seq<string>, glob: Glob, ctx: Context, whole: WalkOutcome, spawned: seq<string>, next: seq<string>)
    requires i < |entries|
    requires !Halts(Decide(entries[i], patterns, glob, IsDone(ctx, i)))
    requires whole == WalkOutcome(spawned + WalkFrom(entries, i, patterns, glob, ctx).spawned, WalkFrom(entries, i, patterns, glob, ctx).err)
    requires var v := Decide(entries[i], patterns, glob, IsDone(ctx, i));
      next == if v.Spawn? then spawned + [v.path] else spawned
    ensures whole == WalkOutcome(next + WalkFrom(entries, i + 1, patterns, glob, ctx).spawned, WalkFrom(entries, i + 1, patterns, glob, ctx).err)
  {
    var v := Decide(entries[i], patterns, glob, IsDone(ctx, i));
    var rest := WalkFrom(entries, i + 1, patterns, glob, ctx);
    if v.Spawn? {
      assert spawned + ([v.path] + rest.spawned) == (spawned + [v.path]) + rest.spawned;
    }
  }

  /**
    `fs.WalkDir` with the callback: the entries in visiting order until the callback
    stops the walk; the walk's error is the callback's, none for `fs.SkipAll`.
  */
  method WalkDir(s: Session, tree: Tree, patterns: seq<string>, glob: Glob, ctx: Context) returns (err: Option<string>)
    requires s.sent == [] && s.inFlight == 0 && s.received == 0 && !s.closed && !s.cancelled
    modifies s
    ensures s.sent == Emitted(tree.read, Walk(tree.entries, patterns, glob, ctx).spawned)
    ensures err == Walk(tree.entries, patterns, glob, ctx).err
    ensures s.inFlight == 0 && s.received == 0 && !s.closed && !s.cancelled
  {
    var entries := tree.entries;
    err := None;
    ghost var spawned: seq<string> := [];
    var i := 0;
    while i < |entries|
      invariant i <= |entries|
      invariant s.inFlight == 0 && s.received == 0 && !s.closed && !s.cancelled
      invariant s.sent == Emitted(tree.read, spawned)
      invariant err == None
      invariant Walk(entries, patterns, glob, ctx)
        == WalkOutcome(spawned + WalkFrom(entries, i, patterns, glob, ctx).spawned, WalkFrom(entries, i, patterns, glob, ctx).err)
    {
      var v := s.Callback(entries[i], i, patterns, glob, ctx, tree.read);
      if v.Abort? {
        err := Some(v.err);
        break;
      }
      if v.SkipAll? {
        break;
      }
      ghost var next := if v.Spawn? then spawned + [v.path] else spawned;
      WalkStep(entries, i, patterns, glob, ctx, Walk(entries, patterns, glob, ctx), spawned, next);
      if v.Spawn? {
        EmittedSnoc(tree.read, spawned, v.path);
      }
      spawned := next;
      i := i + 1;
    }
    assert Walk(entries, patterns, glob, ctx) == WalkOutcome(spawned, err);
  }

  /**
    `Find`: walk the tree, scanning every selected file; call `cancel()` if the walk
    ended with an error; close the stream once every scan has finished.
  */
  method Find(ctx: Context, tree: Tree, patterns: seq<string>, glob: Glob) returns (s: Session)
    ensures fresh(s)
    ensures s.sent == Emitted(tree.read, Walk(tree.entries, patterns, glob, ctx).spawned)
    ensures s.cancelled <==> Walk(tree.entries, patterns, glob, ctx).err.Some?
    ensures s.closed && s.inFlight == 0 && s.received == 0
  {
    s := new Session();
    var err := WalkDir(s, tree, patterns, glob, ctx);
    if err.Some? {
      s.Cancel();
    }
    s.Close();
  }
}
