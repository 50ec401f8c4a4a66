/** The live server of both server revisions: the `BufferedCallback` that
    coalesces file-change events into rebuilds, the static file handler with
    its pretty-URL fallbacks, and the choice of port. `server.tsx` (the
    `Injecting` revision) appends a reload snippet to HTML pages and probes
    for a free port; `server.ts` (the `Plain` revision) serves files as they
    are on a fixed default port. Time is a virtual clock passed to each
    trigger, the file system is a map, and whether a port can be bound is a
    predicate. */
module Server {
  import opened Wrappers
  import opened Errors
  import opened Strings
  import opened Paths

  datatype ServerRevision = Injecting | Plain

  // ---------------------------------------------------------------------
  // BufferedCallback
  // ---------------------------------------------------------------------

  /** The state of a coalescer: the deadline pushed by each trigger, the
      number of triggers counted since the last reset, the lock held from the
      start of a callback to the end of its cooldown, the due times of the
      armed timers whose bodies have not started, the counts handed to the
      callback so far, and the number of timer bodies between their callback
      and the end of their cooldown. */
  datatype Coalescer = Coalescer(waitUntil: int, buffered: nat, locked: bool, timers: seq<int>, calls: seq<nat>, cooling: nat)

  /** A freshly constructed coalescer. */
  const Idle := Coalescer(0, 0, false, [], [], 0)

  /** `trigger()` at time `now`: dropped while locked; otherwise it counts
      the event, moves the deadline to `now + warmup`, and arms a timer due
      after `warmup` only when `now` is past the previous deadline. */
  function Triggered(s: Coalescer, now: int, warmup: int): (r: Coalescer)
    ensures s.locked ==> r == s
    ensures r.locked == s.locked && r.calls == s.calls && r.cooling == s.cooling
    ensures |s.timers| <= |r.timers| <= |s.timers| + 1 && r.timers[..|s.timers|] == s.timers
  {
    if s.locked then s
    else
      var armed := if now <= s.waitUntil then s.timers else s.timers + [now + warmup];
      Coalescer(now + warmup, s.buffered + 1, s.locked, armed, s.calls, s.cooling)
  }

  /** The first armed timer runs its body up to the cooldown wait: it takes
      the lock and hands the current count to the callback. Its body does not
      look at the lock. */
  function Fired(s: Coalescer): (r: Coalescer)
    requires |s.timers| > 0
    ensures r.locked && r.calls == s.calls + [s.buffered] && r.timers == s.timers[1..]
    ensures r.buffered == s.buffered && r.waitUntil == s.waitUntil && r.cooling == s.cooling + 1
  {
    Coalescer(s.waitUntil, s.buffered, true, s.timers[1..], s.calls + [s.buffered], s.cooling + 1)
  }

  /** A timer body whose cooldown has elapsed resets the count and releases
      the lock. */
  function Cooled(s: Coalescer): (r: Coalescer)
    requires s.cooling > 0
    ensures r.buffered == 0 && !r.locked && r.cooling == s.cooling - 1
    ensures r.waitUntil == s.waitUntil && r.timers == s.timers && r.calls == s.calls
  {
    Coalescer(s.waitUntil, 0, false, s.timers, s.calls, s.cooling - 1)
  }

  /** Triggers at the times `ts`, in order. */
  function Triggers(s: Coalescer, ts: seq<int>, warmup: int): Coalescer
    decreases |ts|
  {
    if |ts| == 0 then s else Triggered(Triggers(s, ts[..|ts| - 1], warmup), ts[|ts| - 1], warmup)
  }

  /** Each trigger comes no later than `warmup` after the one before it. */
  predicate Burst(ts: seq<int>, warmup: int) {
    forall i :: 0 < i < |ts| ==> ts[i] <= ts[i - 1] + warmup
  }

  /** While locked every trigger is lost: neither counted nor moving the
      deadline. */
  lemma {:induction false} LockedDropsTriggers(s: Coalescer, ts: seq<int>, warmup: int)
    requires s.locked
    ensures Triggers(s, ts, warmup) == s
    decreases |ts|
  {
    if |ts| > 0 {
      LockedDropsTriggers(s, ts[..|ts| - 1], warmup);
    }
  }

  /** A burst that starts past the deadline arms exactly one timer, due
      `warmup` after its FIRST trigger however long the burst lasts, counts
      every trigger, and leaves the deadline `warmup` after the last. */
  lemma {:induction false} BurstArmsOnce(s: Coalescer, ts: seq<int>, warmup: int)
    requires !s.locked && |ts| > 0 && s.waitUntil < ts[0] && Burst(ts, warmup)
    ensures var r := Triggers(s, ts, warmup);
      r.timers == s.timers + [ts[0] + warmup] && r.buffered == s.buffered + |ts| &&
      r.waitUntil == ts[|ts| - 1] + warmup && !r.locked && r.calls == s.calls
    decreases |ts|
  {
    if |ts| > 1 {
      var front := ts[..|ts| - 1];
      assert front[0] == ts[0];
      assert Burst(front, warmup) by {
        forall i | 0 < i < |front| ensures front[i] <= front[i - 1] + warmup {
          assert front[i] == ts[i] && front[i - 1] == ts[i - 1];
        }
      }
      BurstArmsOnce(s, front, warmup);
      assert ts[|ts| - 1] <= front[|front| - 1] + warmup;
    } else {
      assert ts[..0] == [];
    }
  }

  /** After a burst from rest, the timer's body reports the whole burst to
      the callback at once; once its cooldown is over the coalescer is at
      rest again, and the next trigger past the deadline arms a new timer. */
  lemma BurstReported(s: Coalescer, ts: seq<int>, warmup: int, later: int)
    requires !s.locked && s.buffered == 0 && s.timers == [] && s.cooling == 0
    requires |ts| > 0 && s.waitUntil < ts[0] && Burst(ts, warmup)
    requires later > ts[|ts| - 1] + warmup
    ensures Triggers(s, ts, warmup).timers == [ts[0] + warmup]
    ensures var done := Cooled(Fired(Triggers(s, ts, warmup)));
      done.calls == s.calls + [|ts|] && done.buffered == 0 && !done.locked && done.timers == [] &&
      Triggered(done, later, warmup).timers == [later + warmup]
  {
    BurstArmsOnce(s, ts, warmup);
  }

  /** The server's own settings, warm-up 100 ms and cooldown 500 ms: three
      changes 10 ms apart become one callback with a count of three, fired at
      1100 though the last change came at 1020; a change during the callback
      is lost; a change after the cooldown starts a new round. */
  lemma DefaultScenario()
    ensures var s := Triggers(Idle, [1000, 1010, 1020], 100);
      s.timers == [1100] && s.buffered == 3 && s.waitUntil == 1120
    ensures var s := Fired(Triggers(Idle, [1000, 1010, 1020], 100));
      Triggered(s, 1150, 100) == s && s.calls == [3]
    ensures var s := Cooled(Fired(Triggers(Idle, [1000, 1010, 1020], 100)));
      s.buffered == 0 && Triggered(s, 1700, 100).timers == [1800] && Triggered(s, 1700, 100).buffered == 1
  {
    BurstArmsOnce(Idle, [1000, 1010, 1020], 100);
  }

  /** `BufferedCallback`: the coalescer as an object whose timer bodies the
      event loop runs as `Fire` and `FinishCooldown`. */
  class BufferedCallback {
    const warmup: int
    const cooldown: int
    var waitUntil: int
    var buffered: nat
    var locked: bool
    var timers: seq<int>
    var calls: seq<nat>
    var cooling: nat

    function State(): Coalescer
      reads this
    {
      Coalescer(waitUntil, buffered, locked, timers, calls, cooling)
    }

    constructor(warmup: int, cooldown: int)
      ensures this.warmup == warmup && this.cooldown == cooldown && State() == Idle
    {
      this.warmup := warmup;
      this.cooldown := cooldown;
      waitUntil := 0;
      buffered := 0;
      locked := false;
      timers := [];
      calls := [];
      cooling := 0;
    }

    /** `trigger()`, with the clock reading `now`. */
    method Trigger(now: int)
      modifies this
      ensures State() == Triggered(old(State()), now, warmup)
    {
      if locked {
        return;
      }
      var until := waitUntil;
      waitUntil := now + warmup;
      buffered := buffered + 1;
      if now <= until {
        return;
      }
      timers := timers + [now + warmup];
    }

    /** The first armed timer's body, up to its cooldown wait; returns the
        count handed to the callback. */
    method Fire() returns (count: nat)
      requires |timers| > 0
      modifies this
      ensures State() == Fired(old(State())) && count == old(buffered)
    {
      timers := timers[1..];
      locked := true;
      count := buffered;
      calls := calls + [count];
      cooling := cooling + 1;
    }

    /** The rest of a timer body once its cooldown has elapsed. */
    method FinishCooldown()
      requires cooling > 0
      modifies this
      ensures State() == Cooled(old(State()))
    {
      cooling := cooling - 1;
      buffered := 0;
      locked := false;
    }
  }

  /** The watcher of `startServer`: one coalescer with the fixed settings. */
  method NewRebuildCallback() returns (c: BufferedCallback)
    ensures fresh(c) && c.warmup == 100 && c.cooldown == 500 && c.State() == Idle
  {
    c := new BufferedCallback(100, 500);
  }

  // ---------------------------------------------------------------------
  // handleFile
  // ---------------------------------------------------------------------

  newtype byte = x: int | 0 <= x < 256

  /** What `Deno.stat` finds at a path. */
  datatype Entry = File(bytes: seq<byte>) | Dir

  type FileSystem = map<string, Entry>

  /** A response: the file bytes with status 200, or status 404 with the
      debugging details its body prints. */
  datatype Response =
    | Found(body: seq<byte>)
    | NotFound(url: string, filePath: string, cwd: string)
  {
    function Status(): int {
      if Found? then 200 else 404
    }
  }

  /** `Deno.cwd()` for the working directory `cwd`. */
  function CwdPath(cwd: seq<string>): string {
    "/" + Join(cwd, "/")
  }

  /** The file the URL path names: the path relative to the URL root, joined
      onto the served directory. */
  function RequestedPath(cwd: seq<string>, fsRoot: string, urlRoot: string, pathname: string): string
    requires Canonical(cwd)
  {
    JoinPaths(fsRoot, Relative(cwd, urlRoot, pathname))
  }

  /** The single fallback after `stat`: a directory is replaced by its
      `index.html`, a path that does not exist by the path with `.html`
      appended, and a file is kept. */
  function Fallback(fs: FileSystem, p: string): string {
    if p !in fs then p + ".html"
    else if fs[p].Dir? then JoinPaths(p, "index.html")
    else p
  }

  /** The body of a file that was read: for `server.tsx`, a path ending in
      `html` gets `snippet` appended. */
  function Payload(rev: ServerRevision, path: string, bytes: seq<byte>, snippet: seq<byte>): seq<byte> {
    if rev.Injecting? && EndsWith(path, "html") then bytes + snippet else bytes
  }

  /** The response of `handleFile` to a request for `pathname`. */
  function Served(rev: ServerRevision, fs: FileSystem, cwd: seq<string>, fsRoot: string, urlRoot: string,
                  pathname: string, snippet: seq<byte>): Response
    requires Canonical(cwd)
  {
    var p := Fallback(fs, RequestedPath(cwd, fsRoot, urlRoot, pathname));
    if p in fs && fs[p].File? then Found(Payload(rev, p, fs[p].bytes, snippet))
    else NotFound(pathname, p, CwdPath(cwd))
  }

  /** `new Uint8Array(n)` filled by two `set` calls: the bytes, then the
      snippet after them. */
  method Combine(bytes: seq<byte>, snippet: seq<byte>) returns (combined: array<byte>)
    ensures fresh(combined)
    ensures combined[..] == bytes + snippet
  {
    combined := new byte[|bytes| + |snippet|];
    for i := 0 to |bytes|
      invariant forall j :: 0 <= j < i ==> combined[j] == bytes[j]
    {
      combined[i] := bytes[i];
    }
    for i := 0 to |snippet|
      invariant forall j :: 0 <= j < |bytes| ==> combined[j] == bytes[j]
      invariant forall j :: 0 <= j < i ==> combined[|bytes| + j] == snippet[j]
    {
      combined[|bytes| + i] := snippet[i];
    }
    assert combined[..] == bytes + snippet by {
      forall j | 0 <= j < combined.Length ensures combined[j] == (bytes + snippet)[j] {
        if j >= |bytes| {
          assert combined[|bytes| + (j - |bytes|)] == snippet[j - |bytes|];
        }
      }
    }
  }

  /** `handleFile`: `filePath` is computed, replaced at most once after
      `stat`, and read. */
  method HandleFile(rev: ServerRevision, fs: FileSystem, cwd: seq<string>, fsRoot: string, urlRoot: string,
                    pathname: string, snippet: seq<byte>) returns (response: Response)
    requires Canonical(cwd)
    ensures response == Served(rev, fs, cwd, fsRoot, urlRoot, pathname, snippet)
  {
    var filePath := JoinPaths(fsRoot, Relative(cwd, urlRoot, pathname));
    if filePath in fs {
      if fs[filePath].Dir? {
        filePath := JoinPaths(filePath, "index.html");
      }
    } else {
      filePath := filePath + ".html";
    }
    if filePath !in fs || fs[filePath].Dir? {
      return NotFound(pathname, filePath, CwdPath(cwd));
    }
    var bytes := fs[filePath].bytes;
    if rev.Injecting? && EndsWith(filePath, "html") {
      var combined := Combine(bytes, snippet);
      response := Found(combined[..]);
    } else {
      response := Found(bytes);
    }
  }

  /** Status 200 exactly when the path left after the fallback is a file,
      and then the body starts with that file's bytes; a 404 reports the
      URL path, that path and the working directory. */
  lemma ServedStatus(rev: ServerRevision, fs: FileSystem, cwd: seq<string>, fsRoot: string, urlRoot: string,
                     pathname: string, snippet: seq<byte>)
    requires Canonical(cwd)
    ensures var p := Fallback(fs, RequestedPath(cwd, fsRoot, urlRoot, pathname));
      var r := Served(rev, fs, cwd, fsRoot, urlRoot, pathname, snippet);
      (r.Status() == 200 <==> p in fs && fs[p].File?) &&
      (r.Found? ==> |fs[p].bytes| <= |r.body| && r.body[..|fs[p].bytes|] == fs[p].bytes) &&
      (r.NotFound? ==> r.url == pathname && r.filePath == p && r.cwd == CwdPath(cwd))
  {
    var p := Fallback(fs, RequestedPath(cwd, fsRoot, urlRoot, pathname));
    if p in fs && fs[p].File? {
      var b := fs[p].bytes;
      assert (b + snippet)[..|b|] == b;
    }
  }

  /** An HTML page served by `server.tsx` is the file followed by the
      snippet; every other file, and every file served by `server.ts`, is
      sent unchanged. */
  lemma PayloadInjects(rev: ServerRevision, path: string, bytes: seq<byte>, snippet: seq<byte>)
    ensures var body := Payload(rev, path, bytes, snippet);
      if rev.Injecting? && EndsWith(path, "html") then
        |body| == |bytes| + |snippet| && body[..|bytes|] == bytes && body[|bytes|..] == snippet
      else body == bytes
  {
    if rev.Injecting? && EndsWith(path, "html") {
      assert (bytes + snippet)[..|bytes|] == bytes;
      assert (bytes + snippet)[|bytes|..] == snippet;
    }
  }

  /** A missing path falls back to the same path with `.html`, whose body
      gets the snippet when `server.tsx` serves it. */
  lemma HtmlFallback(rev: ServerRevision, fs: FileSystem, p: string, snippet: seq<byte>)
    requires p !in fs && p + ".html" in fs && fs[p + ".html"].File?
    ensures Fallback(fs, p) == p + ".html"
    ensures Payload(rev, p + ".html", fs[p + ".html"].bytes, snippet) ==
      if rev.Injecting? then fs[p + ".html"].bytes + snippet else fs[p + ".html"].bytes
  {
    assert p + ".html" == (p + ".") + "html";
    EndsWithAppended(p + ".", "html");
  }

  /** A pretty URL: a path that does not exist is served from the same path
      with `.html` appended, and with the snippet when `server.tsx` serves
      it. */
  lemma PrettyUrlServed(rev: ServerRevision, fs: FileSystem, cwd: seq<string>, fsRoot: string, urlRoot: string,
                        pathname: string, snippet: seq<byte>)
    requires Canonical(cwd)
    requires var p := RequestedPath(cwd, fsRoot, urlRoot, pathname);
      p !in fs && p + ".html" in fs && fs[p + ".html"].File?
    ensures var p := RequestedPath(cwd, fsRoot, urlRoot, pathname);
      Served(rev, fs, cwd, fsRoot, urlRoot, pathname, snippet) ==
      Found(if rev.Injecting? then fs[p + ".html"].bytes + snippet else fs[p + ".html"].bytes)
  {
    HtmlFallback(rev, fs, RequestedPath(cwd, fsRoot, urlRoot, pathname), snippet);
  }

  /** Only one fallback is tried: a directory without an `index.html` file
      is not found even when the same path with `.html` is a file, and a
      missing path whose `.html` form is not a file is not found either. */
  lemma OneFallback(rev: ServerRevision, fs: FileSystem, cwd: seq<string>, fsRoot: string, urlRoot: string,
                    pathname: string, snippet: seq<byte>)
    requires Canonical(cwd)
    ensures var p := RequestedPath(cwd, fsRoot, urlRoot, pathname);
      var r := Served(rev, fs, cwd, fsRoot, urlRoot, pathname, snippet);
      var index := JoinPaths(p, "index.html");
      (p in fs && fs[p].Dir? ==> (r.Found? <==> index in fs && fs[index].File?)) &&
      (p !in fs ==> (r.Found? <==> p + ".html" in fs && fs[p + ".html"].File?))
  {
  }

  /** Made relative to the URL root, a URL path below the root is its
      segments under the root, and any other URL path starts by climbing
      out with `..`; nothing rejects such a path before it is joined onto
      the served directory. */
  lemma RequestBelowRoot(cwd: seq<string>, urlRoot: string, pathname: string)
    requires Canonical(cwd)
    ensures var root := Resolve(cwd, urlRoot); var target := Resolve(cwd, pathname);
      var segs := RelativeSegments(root, target);
      (root <= target ==> segs == target[|root|..]) &&
      (!(root <= target) ==> |segs| > 0 && segs[0] == "..")
  {
    var root, target := Resolve(cwd, urlRoot), Resolve(cwd, pathname);
    var n := CommonPrefixLength(root, target);
    if root <= target {
      assert n == |root|;
      assert Ups(0) == [];
    } else {
      assert n < |root|;
    }
  }

  // ---------------------------------------------------------------------
  // Ports and the URL root
  // ---------------------------------------------------------------------

  /** `getAvailablePort`: the first port from 3000 up to 3999 that
      `portFree` accepts, or an error when there is none. */
  method GetAvailablePort(portFree: int -> bool) returns (r: Result<int, Error>)
    ensures r.Ok? ==> 3000 <= r.value < 4000 && portFree(r.value) && forall p :: 3000 <= p < r.value ==> !portFree(p)
    ensures r.Err? <==> forall p :: 3000 <= p < 4000 ==> !portFree(p)
    ensures r.Err? ==> r.error == NoFreePort
  {
    var port := 3000;
    while port < 4000
      invariant 3000 <= port <= 4000
      invariant forall p :: 3000 <= p < port ==> !portFree(p)
    {
      if portFree(port) {
        return Ok(port);
      }
      port := port + 1;
    }
    r := Err(NoFreePort);
  }

  /** The port `startServer` listens on: a given port is used as it is;
      without one `server.tsx` probes and `server.ts` takes 8000. */
  method ChoosePort(rev: ServerRevision, port: Option<int>, portFree: int -> bool) returns (r: Result<int, Error>)
    ensures port.Some? ==> r == Ok(port.value)
    ensures port.None? && rev.Plain? ==> r == Ok(8000)
    ensures port.None? && rev.Injecting? ==>
      (r.Ok? ==> 3000 <= r.value < 4000 && portFree(r.value) && forall p :: 3000 <= p < r.value ==> !portFree(p)) &&
      (r.Err? <==> forall p :: 3000 <= p < 4000 ==> !portFree(p))
  {
    if port.Some? {
      return Ok(port.value);
    }
    if rev.Plain? {
      return Ok(8000);
    }
    r := GetAvailablePort(portFree);
  }

  /** `urlRoot = join("/", urlRoot)`, with `/` when it is not given: always
      an absolute path. */
  function UrlRoot(urlRoot: Option<string>): (r: string)
    ensures |r| > 0 && r[0] == '/'
  {
    JoinPaths("/", urlRoot.GetOr("/"))
  }

  /** Without a URL root the server is rooted at `/`. */
  lemma DefaultUrlRoot()
    ensures UrlRoot(None) == "/"
  {
    assert "/" + "/" + "/" == "///";
    assert JoinPaths("/", "/") == Normalize("///");
    assert Split("///", '/') == ["", "", "", ""];
    assert NormalizeSegments([], ["", "", "", ""], false) == [];
  }
}
