/**
 The throttled purge of the addon's host registries: each directory is swept at most once every ten
 minutes, on its own clock, and a sweep drops the entries older than the caller's TTL.
 */
module Purge {
  import opened Prelude

  const MIN_INTERVAL: real := 600.0

  /** One registry directory: when it was last swept, and its entries' modification times. */
  datatype Dir = Dir(last: Option<real>, files: map<string, real>)

  /**
   What happens to a directory: a purge call, or the dispatcher writing or removing an entry. A purge
   call carries what its clocks read, whether the scan worked, and the entries that would not unlink.
   */
  datatype Event =
    | Sweep(dir: string, ttl: real, mono: real, wall: real, scans: bool, stuck: set<string>)
    | Write(dir: string, name: string, mtime: real)
    | Unlink(dir: string, name: string)

  // ---------------------------------------------------------------- one directory on its own

  predicate Throttled(d: Dir, mono: real)
  {
    d.last.Some? && mono - d.last.value < MIN_INTERVAL
  }

  /** What a sweep leaves: everything young enough, and everything that would not go. */
  function Survivors(files: map<string, real>, cutoff: real, stuck: set<string>): map<string, real>
  {
    map n | n in files && (files[n] >= cutoff || n in stuck) :: files[n]
  }

  function Apply(d: Dir, e: Event): Dir
  {
    match e
    case Sweep(_, ttl, mono, wall, scans, stuck) =>
      if Throttled(d, mono) then d
      else Dir(Some(mono), if scans then Survivors(d.files, wall - ttl, stuck) else d.files)
    case Write(_, name, mtime) => d.(files := d.files[name := mtime])
    case Unlink(_, name) => d.(files := d.files - {name})
  }

  function Replay(d: Dir, events: seq<Event>): Dir
  {
    if events == [] then d else Apply(Replay(d, events[..|events| - 1]), events[|events| - 1])
  }

  function Only(events: seq<Event>, dir: string): seq<Event>
  {
    if events == [] then []
    else Only(events[..|events| - 1], dir) + (if events[|events| - 1].dir == dir then [events[|events| - 1]] else [])
  }

  lemma ReplayPush(d: Dir, events: seq<Event>, e: Event)
    ensures Replay(d, events + [e]) == Apply(Replay(d, events), e)
  {
    assert (events + [e])[..|events|] == events;
  }

  // ---------------------------------------------------------------- the addon's shared state

  /** The process-wide throttle table and the host's directories. */
  class Purger {
    var lastPurge: map<string, real>
    var disk: map<string, map<string, real>>

    constructor (disk: map<string, map<string, real>>)
      ensures this.disk == disk && lastPurge == map[]
    {
      this.disk, lastPurge := disk, map[];
    }

    ghost function At(dir: string): Dir
      reads this
    {
      Dir(if dir in lastPurge then Some(lastPurge[dir]) else None, if dir in disk then disk[dir] else map[])
    }

    method Sweep(dir: string, ttl: real, mono: real, wall: real, scans: bool, stuck: set<string>)
      modifies this
      ensures At(dir) == Apply(old(At(dir)), Event.Sweep(dir, ttl, mono, wall, scans, stuck))
      ensures forall other :: other != dir ==> At(other) == old(At(other))
    {
      if dir in lastPurge && mono - lastPurge[dir] < MIN_INTERVAL { return; }
      lastPurge := lastPurge[dir := mono];
      var cutoff := wall - ttl;
      if !scans { return; }
      var files: map<string, real> := if dir in disk then disk[dir] else map[];
      var left, todo := files, files.Keys;
      while todo != {}
        invariant todo <= files.Keys
        invariant left.Keys == set n | n in files && (n in todo || files[n] >= cutoff || n in stuck)
        invariant forall n :: n in left ==> left[n] == files[n]
        decreases todo
      {
        var name :| name in todo;
        if files[name] < cutoff && name !in stuck { left := left - {name}; }
        todo := todo - {name};
      }
      assert left == Survivors(files, cutoff, stuck);
      disk := disk[dir := left];
    }

    method Handle(e: Event)
      modifies this
      ensures At(e.dir) == Apply(old(At(e.dir)), e)
      ensures forall other :: other != e.dir ==> At(other) == old(At(other))
    {
      var files: map<string, real> := if e.dir in disk then disk[e.dir] else map[];
      match e
      case Sweep(dir, ttl, mono, wall, scans, stuck) => Sweep(dir, ttl, mono, wall, scans, stuck);
      case Write(dir, name, mtime) => disk := disk[dir := files[name := mtime]];
      case Unlink(dir, name) => disk := disk[dir := files - {name}];
    }

    /**
     Non-interference: whatever the interleaving of calls over all directories, each directory ends as if
     only its own calls had been made.
     */
    method HandleAll(events: seq<Event>)
      modifies this
      ensures forall dir :: At(dir) == Replay(old(At(dir)), Only(events, dir))
    {
      for i := 0 to |events|
        invariant forall dir :: At(dir) == Replay(old(At(dir)), Only(events[..i], dir))
      {
        assert events[..i + 1][..i] == events[..i];
        var e := events[i];
        Handle(e);
        forall dir ensures At(dir) == Replay(old(At(dir)), Only(events[..i + 1], dir)) {
          if dir == e.dir {
            ReplayPush(old(At(dir)), Only(events[..i], dir), e);
          } else {
            assert Only(events[..i], dir) + [] == Only(events[..i], dir);
          }
        }
      }
      assert events[..|events|] == events;
    }
  }

  // ---------------------------------------------------------------- the throttle over a whole history

  /** The clock readings of the sweeps that went through. */
  function SweptAt(d: Dir, events: seq<Event>): seq<real>
  {
    if events == [] then []
    else
      var init, e := events[..|events| - 1], events[|events| - 1];
      SweptAt(d, init) + (if e.Sweep? && !Throttled(Replay(d, init), e.mono) then [e.mono] else [])
  }

  lemma {:induction false} LastSweep(d: Dir, events: seq<Event>)
    ensures SweptAt(d, events) == [] ==> Replay(d, events).last == d.last
    ensures SweptAt(d, events) != [] ==> Replay(d, events).last == Some(SweptAt(d, events)[|SweptAt(d, events)| - 1])
  {
    if events != [] { LastSweep(d, events[..|events| - 1]); }
  }

  /** Any two sweeps of one directory that went through are at least ten minutes apart for each step between them. */
  lemma {:induction false} SweepsAreSpaced(d: Dir, events: seq<Event>, i: nat, j: nat)
    requires i < j < |SweptAt(d, events)|
    ensures SweptAt(d, events)[j] - SweptAt(d, events)[i] >= MIN_INTERVAL * (j - i) as real
  {
    var init := events[..|events| - 1];
    if j < |SweptAt(d, init)| {
      SweepsAreSpaced(d, init, i, j);
    } else {
      LastSweep(d, init);
      if i < j - 1 { SweepsAreSpaced(d, init, i, j - 1); }
    }
  }

  /** A call goes through exactly when the directory was never swept or ten minutes have passed since it last was. */
  lemma SweepsWhenDue(d: Dir, events: seq<Event>, e: Event)
    requires e.Sweep?
    ensures SweptAt(d, events + [e]) == SweptAt(d, events) + [e.mono] <==>
      var last := if SweptAt(d, events) == [] then d.last else Some(SweptAt(d, events)[|SweptAt(d, events)| - 1]);
      last.None? || e.mono - last.value >= 600.0
  {
    assert (events + [e])[..|events|] == events;
    LastSweep(d, events);
  }

  /** The `k`-th event of this history is a sweep that goes through and can and must drop `name`. */
  ghost predicate Reaps(d: Dir, events: seq<Event>, k: nat, name: string, mtime: real)
    requires k < |events|
  {
    var e := events[k];
    e.Sweep? && e.scans && !Throttled(Replay(d, events[..k]), e.mono) && name !in e.stuck && mtime < e.wall - e.ttl
  }

  /**
   Over a whole history in which nobody rewrites or unlinks it, an entry is still there if and only if no
   sweep that went through found it older than that sweep's own TTL and able to go.
   */
  lemma {:induction false} SurvivesExactly(d: Dir, events: seq<Event>, name: string)
    requires name in d.files
    requires forall k :: 0 <= k < |events| ==> !events[k].Sweep? ==> events[k].name != name
    ensures name in Replay(d, events).files
      <==> !exists k :: 0 <= k < |events| && Reaps(d, events, k, name, d.files[name])
    ensures name in Replay(d, events).files ==> Replay(d, events).files[name] == d.files[name]
  {
    if events != [] {
      var n := |events| - 1;
      var init := events[..n];
      SurvivesExactly(d, init, name);
      forall k | 0 <= k < n ensures Reaps(d, events, k, name, d.files[name])
        <==> Reaps(d, init, k, name, d.files[name]) {
        assert init[..k] == events[..k];
      }
      assert name in Replay(d, events).files
        <==> name in Replay(d, init).files && !Reaps(d, events, n, name, d.files[name]);
    }
  }

  // ---------------------------------------------------------------- which entries are there

  predicate Touches(e: Event, name: string)
  {
    !e.Sweep? && e.name == name
  }

  /** From the `k`-th event on nobody writes or unlinks it and no sweep that goes through drops this stamp. */
  ghost predicate Stands(d: Dir, events: seq<Event>, k: nat, name: string, mtime: real)
  {
    forall j :: k <= j < |events| ==> !Touches(events[j], name) && !Reaps(d, events, j, name, mtime)
  }

  ghost predicate WrittenAt(d: Dir, events: seq<Event>, k: nat, name: string, mtime: real)
  {
    k < |events| && events[k].Write? && events[k].name == name && events[k].mtime == mtime
    && Stands(d, events, k + 1, name, mtime)
  }

  /** There from the beginning, or last written so, and left standing since. */
  ghost predicate Lasts(d: Dir, events: seq<Event>, name: string, mtime: real)
  {
    || (name in d.files && d.files[name] == mtime && Stands(d, events, 0, name, mtime))
    || exists k: nat :: WrittenAt(d, events, k, name, mtime)
  }

  ghost predicate IsThere(d: Dir, name: string, mtime: real)
  {
    name in d.files && d.files[name] == mtime
  }

  lemma ReapsBefore(d: Dir, init: seq<Event>, e: Event, j: nat, name: string, mtime: real)
    requires j < |init|
    ensures Reaps(d, init + [e], j, name, mtime) <==> Reaps(d, init, j, name, mtime)
  {
    assert (init + [e])[..j] == init[..j];
  }

  lemma StandsStep(d: Dir, init: seq<Event>, e: Event, k: nat, name: string, mtime: real)
    requires k <= |init|
    ensures Stands(d, init + [e], k, name, mtime) <==>
      Stands(d, init, k, name, mtime) && !Touches(e, name) && !Reaps(d, init + [e], |init|, name, mtime)
  {
    var events := init + [e];
    forall j | 0 <= j < |init| ensures Reaps(d, events, j, name, mtime) <==> Reaps(d, init, j, name, mtime) {
      ReapsBefore(d, init, e, j, name, mtime);
    }
    assert forall j :: 0 <= j < |init| ==> events[j] == init[j];
    assert events[|init|] == e;
  }

  lemma WrittenStep(d: Dir, init: seq<Event>, e: Event, name: string, mtime: real)
    ensures (exists k: nat :: WrittenAt(d, init + [e], k, name, mtime)) <==>
      || (e.Write? && e.name == name && e.mtime == mtime)
      || ((exists k: nat :: WrittenAt(d, init, k, name, mtime))
          && !Touches(e, name) && !Reaps(d, init + [e], |init|, name, mtime))
  {
    var events := init + [e];
    assert events[|init|] == e;
    if e.Write? && e.name == name && e.mtime == mtime { assert WrittenAt(d, events, |init|, name, mtime); }
    forall k: nat | k < |init|
      ensures WrittenAt(d, events, k, name, mtime) <==>
        WrittenAt(d, init, k, name, mtime) && !Touches(e, name) && !Reaps(d, events, |init|, name, mtime)
    {
      assert events[k] == init[k];
      StandsStep(d, init, e, k + 1, name, mtime);
    }
  }

  lemma ThereStep(d: Dir, init: seq<Event>, e: Event, name: string, mtime: real)
    ensures IsThere(Replay(d, init + [e]), name, mtime) <==>
      || (e.Write? && e.name == name && e.mtime == mtime)
      || (IsThere(Replay(d, init), name, mtime) && !Touches(e, name) && !Reaps(d, init + [e], |init|, name, mtime))
  {
    ReplayPush(d, init, e);
    assert (init + [e])[..|init|] == init && (init + [e])[|init|] == e;
  }

  /**
   After any history an entry is there with this stamp if and only if it was there with it from the
   beginning, or was last written with it, and since then nobody wrote or removed it and no sweep that went
   through found that stamp older than its own TTL and could remove it.
   */
  lemma {:induction false} ThereExactly(d: Dir, events: seq<Event>, name: string, mtime: real)
    ensures IsThere(Replay(d, events), name, mtime) <==> Lasts(d, events, name, mtime)
    decreases |events|
  {
    if events != [] {
      var init, e := events[..|events| - 1], events[|events| - 1];
      assert events == init + [e];
      ThereExactly(d, init, name, mtime);
      ThereStep(d, init, e, name, mtime);
      StandsStep(d, init, e, 0, name, mtime);
      WrittenStep(d, init, e, name, mtime);
    }
  }
}
