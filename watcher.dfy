/** `ExtensionWatcher`: the live-reload handler that reinstalls the
    extension when a relevant file is modified, at most once per debounce
    window. The clock is an input (`now`), and the installation itself is
    abstract: the watcher records when it started one. */
module Watcher {
  import opened Paths

  /** A watchdog modification event. */
  datatype FsEvent = FsEvent(srcPath: Path, isDirectory: bool)

  /** `ExtensionWatcher._should_trigger_rebuild`: a Lua script, or one of
      the two manifests. */
  predicate ShouldTriggerRebuild(p: Path)
  {
    Suffix(p) == ".lua" || Name(p) in ["extension.json", "package.json"]
  }

  /** Which files trigger a rebuild, by name alone: a name ending in `.lua`
      with something before it (so a file named just `.lua` does not), or
      exactly `extension.json` or `package.json`. */
  lemma ShouldTriggerRebuildNames(p: Path)
    ensures ShouldTriggerRebuild(p) <==>
              || (|Name(p)| > 4 && Name(p)[|Name(p)| - 4..] == ".lua")
              || Name(p) == "extension.json" || Name(p) == "package.json"
  {
    LuaSuffix(p);
  }

  /** An event that concerns a file whose change matters. */
  predicate Relevant(e: FsEvent)
  {
    !e.isDirectory && ShouldTriggerRebuild(e.srcPath)
  }

  /** Whether `on_modified` starts an install for `e` at time `now`, given
      the last build time and the debounce interval. */
  predicate Triggers(last: real, debounce: real, e: FsEvent, now: real)
  {
    Relevant(e) && !(now - last < debounce)
  }

  class ExtensionWatcher {
    var lastBuildTime: real
    const debounceSeconds: real
    /** The times at which installs were started, oldest first. */
    ghost var installs: seq<real>

    constructor (debounceSeconds: real)
      ensures this.debounceSeconds == debounceSeconds
      ensures lastBuildTime == 0.0 && installs == []
    {
      this.debounceSeconds := debounceSeconds;
      lastBuildTime := 0.0;
      installs := [];
    }

    /** `ExtensionWatcher.on_modified`: a relevant event outside the
        debounce window records `now` as the last build time and then
        starts an install; any other event changes nothing. The time is
        recorded before the install, so it stays recorded whatever the
        install does. */
    method OnModified(event: FsEvent, now: real) returns (installed: bool)
      modifies this
      ensures installed <==> Triggers(old(lastBuildTime), debounceSeconds, event, now)
      ensures lastBuildTime == if installed then now else old(lastBuildTime)
      ensures installs == if installed then old(installs) + [now] else old(installs)
    {
      installed := false;
      if event.isDirectory {
        return;
      }
      if !ShouldTriggerRebuild(event.srcPath) {
        return;
      }
      var currentTime := now;
      if currentTime - lastBuildTime < debounceSeconds {
        return;
      }
      lastBuildTime := currentTime;
      installs := installs + [currentTime];
      installed := true;
    }
  }

  /** A modification event and the time the handler sees it. */
  datatype Modification = Modification(event: FsEvent, time: real)

  /** The last build time and the number of installs after the handler has
      seen `ms` in order, starting from last build time `last`. */
  function Replay(last: real, debounce: real, ms: seq<Modification>): (real, nat)
    decreases |ms|
  {
    if ms == [] then (last, 0)
    else if Triggers(last, debounce, ms[0].event, ms[0].time) then
      var r := Replay(ms[0].time, debounce, ms[1..]);
      (r.0, r.1 + 1)
    else Replay(last, debounce, ms[1..])
  }

  /** The observer delivering `ms` to the handler in order: the watcher
      ends where `Replay` says, and its install log grows by one entry per
      install. */
  method DeliverAll(w: ExtensionWatcher, ms: seq<Modification>) returns (count: nat)
    modifies w
    ensures (w.lastBuildTime, count) == Replay(old(w.lastBuildTime), w.debounceSeconds, ms)
    ensures |w.installs| == |old(w.installs)| + count
    ensures w.installs[..|old(w.installs)|] == old(w.installs)
  {
    count := 0;
    ghost var last0 := w.lastBuildTime;
    ghost var log0 := w.installs;
    for i := 0 to |ms|
      invariant var r := Replay(w.lastBuildTime, w.debounceSeconds, ms[i..]);
                Replay(last0, w.debounceSeconds, ms) == (r.0, r.1 + count)
      invariant |w.installs| == |log0| + count && w.installs[..|log0|] == log0
    {
      assert ms[i..][0] == ms[i] && ms[i..][1..] == ms[i + 1..];
      var installed := w.OnModified(ms[i].event, ms[i].time);
      if installed {
        count := count + 1;
      }
    }
  }

  predicate TimesOrdered(ms: seq<Modification>)
  {
    forall i, j :: 0 <= i < j < |ms| ==> ms[i].time <= ms[j].time
  }

  /** Events that are irrelevant never change the state. */
  lemma {:induction false} IrrelevantIgnored(last: real, debounce: real, ms: seq<Modification>)
    requires forall i :: 0 <= i < |ms| ==> !Relevant(ms[i].event)
    ensures Replay(last, debounce, ms) == (last, 0)
    decreases |ms|
  {
    if ms != [] {
      IrrelevantIgnored(last, debounce, ms[1..]);
    }
  }

  /** Once an install has started at `last`, events that come less than the
      debounce interval after it start no other. */
  lemma {:induction false} QuietWithinWindow(last: real, debounce: real, ms: seq<Modification>)
    requires forall i :: 0 <= i < |ms| ==> ms[i].time - last < debounce
    ensures Replay(last, debounce, ms) == (last, 0)
    decreases |ms|
  {
    if ms != [] {
      QuietWithinWindow(last, debounce, ms[1..]);
    }
  }

  /** A burst of events, in time order, that spans less than the debounce
      interval starts at most one install. */
  lemma {:induction false} BurstInstallsAtMostOnce(last: real, debounce: real, ms: seq<Modification>)
    requires TimesOrdered(ms)
    requires ms != [] ==> ms[|ms| - 1].time - ms[0].time < debounce
    ensures Replay(last, debounce, ms).1 <= 1
    decreases |ms|
  {
    if ms != [] {
      var rest := ms[1..];
      if Triggers(last, debounce, ms[0].event, ms[0].time) {
        forall i | 0 <= i < |rest| ensures rest[i].time - ms[0].time < debounce {
          assert rest[i] == ms[i + 1];
        }
        QuietWithinWindow(ms[0].time, debounce, rest);
      } else {
        if rest != [] {
          assert rest[|rest| - 1] == ms[|ms| - 1];
          assert ms[0].time <= rest[0].time;
        }
        BurstInstallsAtMostOnce(last, debounce, rest);
      }
    }
  }

  /** Relevant events spaced at least the debounce interval apart, the first
      of them that far after the last build, each start an install, and the
      last build time ends at the last of them. */
  lemma {:induction false} SpacedEventsEachInstall(last: real, debounce: real, ms: seq<Modification>)
    requires forall i :: 0 <= i < |ms| ==> Relevant(ms[i].event)
    requires ms != [] ==> ms[0].time - last >= debounce
    requires forall i :: 0 < i < |ms| ==> ms[i].time - ms[i - 1].time >= debounce
    ensures Replay(last, debounce, ms).1 == |ms|
    ensures ms != [] ==> Replay(last, debounce, ms).0 == ms[|ms| - 1].time
    decreases |ms|
  {
    if ms != [] {
      var rest := ms[1..];
      forall i | 0 < i < |rest| ensures rest[i].time - rest[i - 1].time >= debounce {
        assert rest[i] == ms[i + 1] && rest[i - 1] == ms[i];
      }
      if rest != [] {
        assert rest[0] == ms[1];
        assert rest[|rest| - 1] == ms[|ms| - 1];
      }
      SpacedEventsEachInstall(ms[0].time, debounce, rest);
    }
  }
}
