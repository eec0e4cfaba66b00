# checklinks, modelled in Dafny

checklinks walks the working directory. It scans every regular file whose path
matches one of the glob patterns given as arguments. Each URL found in such a file
is printed as a `path: url` line. This project models and proves three parts of
it:

- **URL extraction** (module `UrlPattern`, `url.dfy`). The pattern
  `https?://[\w\.:\/%~_\-\+]+` runs on a file's bytes, with RE2's leftmost-first
  semantics and `FindAll`.
  - `MatchAt` is the match RE2 reports at a given position: `https://` is tried
    before `http://`, and the run of allowed bytes is greedy.
  - `FindFrom` is the left-to-right search; it resumes at each match's end.
  - The language of the pattern itself is `IsUrl`.
  - `IsScan` says, without reference to the search, what a correct
    non-overlapping leftmost-first scan is. `FindFrom` is proved to be the one and
    only scan.
  - The loops `SchemeEnd` (the greedy run) and `FindAll` (the search) are proved
    against these functions. `MatchEnd` composes two `SchemeEnd` calls, `https://`
    first.
- **The walk and its scan tasks** (module `Find`, `find.dfy`).
  - The walk callback's checks come in the source's order: entry error,
    regular-file filter, the pattern loop with `break`, the context poll. The
    method `Select` runs them; the function `Decide` specifies it.
  - `fs.WalkDir` becomes a fold over the entries, `WalkFrom`.
  - A `Session` class holds the state the goroutines share: the Matches sent on
    the stream, the WaitGroup counter, whether `cancel()` has run, and whether the
    stream is closed.
  - `Find` runs the walk, cancels on a walk error, and closes the stream only when
    no scan is outstanding.
- **`run`** (module `Cmd`, `root.dfy`). It sets the log level, validates the
  pattern arguments and gets the working directory. It then starts `Find` under
  `context.Background()` and prints every Match it receives until the stream is
  closed. Its effects are recorded as a trace of `Effect`s. The two branches that
  cannot fire are `assert false`:
  - the `log.Fatal` after `Find`;
  - the `ctx.Done()` case.

These are parameters of the model:

- the file tree, as the entries in the order `fs.WalkDir` visits them, plus a read
  function returning bytes or an error;
- the glob matcher `doublestar.PathMatch`, as a function returning
  `(matched, err)`;
- the validator `doublestar.ValidatePathPattern`;
- the result of `os.Getwd`;
- `os.DirFS`, as a function from a directory to a tree;
- a cancelable context, as the set of entry indices at which it is done.

Behaviour of the code worth noting:

- The allowed byte set includes `-`. The pattern has `\-`.
- A walk error is never surfaced by `run`. `Find` returns only the stream, so
  `Run` returns nil after any complete drain, even when the walk aborted.
- Scan tasks never observe the cancellation. `cancel()` is called only after
  `fs.WalkDir` has returned; the tasks never poll the context. The walk itself
  polls it only before spawning a scan.

## Model

| member | source | states |
|---|---|---|
| UrlPattern.Allowed | internal/find/find.go:19 | The character class `[\w\.:\/%~_\-\+]` on bytes. Every allowed byte is printable ASCII other than the space, and `-` is allowed. |
| UrlPattern.MatchAt | internal/find/find.go:19 | A match at a position ends more than seven bytes later, within the content. Its meaning is given by MatchAtSound and MatchAtComplete. |
| UrlPattern.RunEnd | internal/find/find.go:19 | The greedy `+` run: every byte up to the returned end is allowed, and the byte at the end, if any, is not. |
| UrlPattern.MatchAtSound | internal/find/find.go:19 | A reported match is in the pattern's language: `http://` or `https://`, then at least one byte, all of them allowed. It starts with `http` and is maximal (the next byte is not allowed). |
| UrlPattern.MatchAtComplete | internal/find/find.go:19 | Every URL of the pattern's language that starts at a position lies within the match reported there. With MatchAtSound, the match is the longest URL starting there. |
| UrlPattern.UrlHasNoSpace | internal/find/find.go:19 | No URL of the pattern's language contains a space byte. |
| UrlPattern.FindFrom | internal/find/find.go:73 | FindAll's search, resuming at each match's end. Each span starts at or after `from` and ends within the content, at least eight bytes later. Its meaning is given by FindFromIsScan and ScanIsFindFrom. |
| UrlPattern.AllUrls | internal/find/find.go:73 | Every URL of the content, in order: one per span of the search from the start, each at least eight bytes long. Its meaning is given by UrlsAreMaximalMatches and NoUrlInGaps. |
| UrlPattern.Take | internal/find/find.go:73 | FindAll's limit `n`: the prefix of the matches of length `n`, or all of them when there are fewer. |
| UrlPattern.FindFromIsScan | internal/find/find.go:73 | FindAll's left-to-right search is a correct scan: each span is a match at its start; spans are in increasing, non-overlapping order; no match starts before the first span, between two spans, or after the last. |
| UrlPattern.ScanIsFindFrom | internal/find/find.go:73 | A correct scan is unique: any sequence of spans meeting the scan definition is exactly the search's result. |
| UrlPattern.NoUrlInGaps | internal/find/find.go:73 | No URL of the pattern's language starts in a gap of FindAll's result. |
| UrlPattern.UrlsAreMaximalMatches | internal/find/find.go:73 | The k-th URL FindAll returns is the content between its span's bounds. It is in the pattern's language and cannot be extended by the following byte. |
| UrlPattern.MatchCountBound | internal/find/find.go:73 | Every match is at least eight bytes long, so the search from a position finds at most one eighth of the remaining bytes' worth of matches. |
| UrlPattern.LimitNeverTruncates | internal/find/find.go:73 | The limit `len(buf)` passed to FindAll never drops a match. |
| UrlPattern.NoHttpNoUrls | internal/find/find.go:73 | Content in which "http" does not occur yields no URL. |
| UrlPattern.SchemeEnd | internal/find/find.go:19 | The loop over one branch of `s?` (scheme, then the greedy run) returns exactly that branch's match end, or none. |
| UrlPattern.MatchEnd | internal/find/find.go:19 | Trying "https://" before "http://" yields exactly the leftmost-first match at that position. |
| UrlPattern.FindAll | internal/find/find.go:73 | The scanning loop with limit n returns the first n URLs of the search, in order. |
| Find.Text | internal/find/find.go:75 | `string(found)`: the text has one character per byte, with that byte's code. |
| Find.MatchesOf | internal/find/find.go:74-77 | By its definition, one Match per URL, in order, each with the URL's text and the given path; its contract states that there are exactly as many Matches as URLs. |
| Find.FileMatches | internal/find/find.go:67-78 | What one scan task sends. A read error gives nothing. Otherwise there is one Match per URL of the content, each with the scanned path. |
| Find.Emitted | internal/find/find.go:62-79 | The Matches of the scans of the given paths, run one after the other in spawn order. Every emitted Match has one of those paths. |
| Find.FileMatchesSpec | internal/find/find.go:67-78 | A read error yields no Match. Otherwise there is one Match per URL FindAll reports, in FindAll's order, each with `URL` the URL's text and `Path` the scanned path. |
| Find.EmittedBelongs | internal/find/find.go:62-79 | Every emitted Match comes from the scan of its own path, and that path was scanned. |
| Find.EmittedUrlHasNoSpace | internal/find/find.go:73-77 | An emitted URL holds no space. |
| Find.FirstMatch | internal/find/find.go:42-49 | The pattern loop. It reports no match exactly when every pattern misses without an error. A match implies some pattern matched cleanly. A matcher error implies some pattern reported that error. |
| Find.FirstMatchAt | internal/find/find.go:42-53 | The pattern loop, given the first pattern k that does not miss cleanly: no match if there is none; otherwise that pattern's error if it reports one, whatever its match flag; otherwise a match. |
| Find.IsDone | internal/find/find.go:55-56 | The `<-ctx.Done()` poll at an entry. `context.Background()` is never done; a cancelable context is done where its `done` function says. |
| Find.Decide | internal/find/find.go:33-60 | The callback's decision. An entry error aborts with that error. A spawn happens exactly for a regular file some pattern matches while the context is not done, and carries that file's path. `SkipAll` happens exactly for such a file once the context is done. An abort happens exactly on an entry error or a matcher error on a regular file. |
| Find.Select | internal/find/find.go:33-60 | The callback's checks run in order and return the decision of `Decide`: abort on an entry error, continue on a non-regular entry or no match, abort on a matcher error, `SkipAll` on a matched file once the context is done, else spawn a scan. |
| Find.WalkFrom | internal/find/find.go:33-82 | The `fs.WalkDir` fold from an entry on. It spawns at most one scan per remaining entry, and only for paths some pattern matches. |
| Find.Walk | internal/find/find.go:33 | `fs.WalkDir(fsys, ".", …)`: the fold from the first entry. It spawns at most one scan per entry, and only for paths some pattern matches. |
| Find.WalkHaltsAt | internal/find/find.go:33-82 | Let h be the first entry at which the callback stops the walk, or the end. The walk spawns scans for exactly the regular files before h that some pattern matches, in order. Its error is entry h's error, or none for `fs.SkipAll` or the end. |
| Find.EntryErrorAborts | internal/find/find.go:33-36 | An entry error aborts the walk with that error after the files selected before it; nothing at or after it is scanned. |
| Find.MatcherErrorAborts | internal/find/find.go:43-46 | A matcher error on a regular file aborts the walk with that error. |
| Find.CancelEndsWalkWithoutError | internal/find/find.go:55-60 | A matched file met when the context is done ends the walk with no error. It and all later entries go unscanned. |
| Find.NoScanOnceDone | internal/find/find.go:55-60 | For a context that stays done: once it is done at entry `d`, the walk spawns exactly what the walk of the entries before `d` spawns, so nothing at or after `d` is scanned. |
| Find.SpawnedAreSelected | internal/find/find.go:38-62 | A scan is spawned only for a regular file that some pattern matches, visited while the context was not done. Non-regular entries are never scanned. |
| Find.EmptyPatternsScanNothing | internal/find/find.go:42-53 | An empty pattern list spawns no scan and emits nothing. |
| Find.BackgroundScansAllSelected | internal/find/find.go:55-60 | Under `context.Background()`, a walk without an error scans every selected regular file. |
| Find.Session.constructor | internal/find/find.go:28-30 | A new session: nothing sent or received, no scan outstanding, not cancelled, stream open. |
| Find.Session.Add | internal/find/find.go:62 | `wg.Add(1)` raises the outstanding-scan counter by one and changes nothing else. |
| Find.Session.Done | internal/find/find.go:64 | `wg.Done()` lowers a positive counter by one and changes nothing else. |
| Find.Session.Cancel | internal/find/find.go:84-86 | `cancel()` marks the session cancelled and changes nothing else. |
| Find.Session.Send | internal/find/find.go:74-77 | A send appends one Match to the stream and is allowed only while the stream is open. |
| Find.Session.Close | internal/find/find.go:88-89 | The stream is closed only when no scan task is outstanding. |
| Find.Session.Receive | cmd/root.go:67-71 | A receive on the closed stream yields the next unreceived Match with `ok`, or `ok == false` exactly when every sent Match has been received. |
| Find.Session.Scan | internal/find/find.go:63-79 | A scan task appends exactly its file's Matches to the stream, in FindAll order, then decrements the WaitGroup counter. |
| Find.Session.Callback | internal/find/find.go:33-81 | The callback returns `Decide`'s verdict. The stream grows by the spawned file's Matches on a spawn and is unchanged otherwise. |
| Find.WalkDir | internal/find/find.go:33-82 | The walk loop sends exactly the Matches of the spawned scans, in spawn order, and returns the walk's terminal error. |
| Find.Find | internal/find/find.go:27-93 | `Find` leaves the stream closed with no scan outstanding, holding the Matches of every spawned scan. `cancel()` has run exactly when the walk ended with an error. |
| Cmd.FirstInvalid | cmd/root.go:45-49 | The index of the first argument the validator rejects, with every earlier one accepted; none only when every argument is accepted. |
| Cmd.Validate | cmd/root.go:45-49 | The validation loop with early return finds exactly the first invalid argument. |
| Cmd.InvalidPattern | cmd/root.go:47 | The message is `invalid pattern: ` followed by the pattern verbatim. |
| Cmd.WorkingDirError | cmd/root.go:53 | The message is `get working directory: ` followed by the wrapped error's message verbatim. |
| Cmd.Line | cmd/root.go:73 | The printed line is the path, then `:` and a space, then the URL, then a newline, and nothing else. |
| Cmd.Printed | cmd/root.go:73 | The lines the drain loop prints: one `Print` effect per Match, of that Match's line, in stream order. |
| Cmd.LineRoundTrip | cmd/root.go:73 | A printed `path: url` line of a Match whose URL holds no space parses back to that Match. |
| Cmd.PrintedLinesParse | cmd/root.go:73 | Every line printed for an emitted Match parses back to that Match. |
| Cmd.NoPatternsPrintNothing | cmd/root.go:45-58 | With no arguments, validation passes and the walk prints nothing. |
| Cmd.Drain | cmd/root.go:63-75 | The receive loop prints exactly the stream's Matches, in order, and returns once the closed stream is drained: every sent Match has been received, and the stream and the other session fields are unchanged. The `ctx.Done()` case cannot fire under `context.Background()`. |
| Cmd.Run | cmd/root.go:41-76 | The log level is set first. The first invalid pattern returns `invalid pattern: <p>` before `Getwd` or `Find`. A `Getwd` error returns `get working directory: <err>`. Otherwise `Find` starts at the working directory with the arguments as patterns, one `path: url` line is printed per streamed Match, and `run` returns nil. |

## Left out

- Concurrency: the goroutines, the unbuffered channel and the WaitGroup's blocking. Scan tasks run one after the other at spawn time, so the model fixes one interleaving. No cross-file order of the stream is claimed by the real program.
- Find.Session.Receive: the unbuffered channel becomes a buffer that `run` reads only after `close`. On the real channel, receives interleave with sends, and a receive after `close` always yields `ok == false`, since nothing is buffered.
- Glob semantics: `doublestar.PathMatch` and `doublestar.ValidatePathPattern` are an uninterpreted function and predicate.
- `fs.WalkDir` traversal order and filesystem access (`os.DirFS`, `os.Getwd`, `fs.ReadFile`) are I/O. The tree is a given entry sequence with a read function.
- UTF-8 decoding in RE2: content is bytes. No non-ASCII byte is allowed in a URL, so byte-level matching agrees with RE2's.
- Logging (internal/log/log.go and every `log.Debug`/`log.Verbose` call): only `SetLevel` is recorded in the trace.
- main.go, cobra flag parsing and the `--replace` map: the map is parsed but never used, so no replacement semantics are modelled.
- UrlPattern.FindAll: a negative limit `n` is not modelled, because the source passes `len(buf)`.
- Cancellation timing: the context is read only for a regular file some pattern matches, at that entry's index, as the `select` does. When it becomes done relative to other goroutines is not modelled. A cancelable context is any function from entry index to done. Properties that need it to stay done once done state that as a requirement (`StaysDone`).
- The `return ctx.Err()` path of `run` is unreachable under `context.Background()` and appears only as a dead branch.
