/**
 The path set: the keyed collection of paths one local identity owns, with
 its target pool size and the transaction id of the latest introduction
 publish. Methods change the table in place; functions answer queries.
 */
module PathSets {
  import opened PathTypes
  import opened PathTable

  class PathSet {
    /** The stored paths in iteration order; Table(paths) is the keyed container. */
    var paths: seq<Path>
    /** Target number of concurrently maintained paths. */
    var numPaths: nat
    /** Transaction id of the most recent introduction publish (0: none yet). */
    var currentPublishTX: nat

    /** Key uniqueness: no two stored paths share (upstream, rxid). */
    ghost predicate Valid()
      reads this
    {
      KeysDistinct(paths)
    }

    constructor (num: nat)
      ensures Valid()
      ensures paths == [] && Table(paths) == map[]
      ensures numPaths == num && currentPublishTX == 0
    {
      paths := [];
      numPaths := num;
      currentPublishTX := 0;
    }

    /** More paths are wanted exactly while the container holds fewer entries than the target. */
    function ShouldBuildMore(): (r: bool)
      reads this
      requires Valid()
      ensures r <==> |Table(paths)| < numPaths
    {
      TableSize(paths);
      |paths| < numPaths
    }

    /**
     Runs the per-tick maintenance of every established path; membership and
     keys do not change, and paths in any other status are left as they are.
     */
    method Tick(now: Time, tick: (Path, Time) -> Path)
      requires Valid()
      modifies this
      ensures Valid()
      ensures paths == TickAll(old(paths), now, tick)
      ensures Table(paths).Keys == Table(old(paths)).Keys
      ensures forall i :: 0 <= i < |paths| && old(paths)[i].status != Established ==> paths[i] == old(paths)[i]
      ensures numPaths == old(numPaths) && currentPublishTX == old(currentPublishTX)
    {
      var i := 0;
      while i < |paths|
        invariant 0 <= i <= |paths| == |old(paths)|
        invariant forall j :: 0 <= j < i ==> paths[j] == Ticked(old(paths)[j], now, tick)
        invariant forall j :: i <= j < |paths| ==> paths[j] == old(paths)[j]
        invariant numPaths == old(numPaths) && currentPublishTX == old(currentPublishTX)
      {
        if paths[i].status == Established {
          paths := paths[i := Ticked(paths[i], now, tick)];
        }
        i := i + 1;
      }
      TickAllKeys(old(paths), now, tick);
    }

    /**
     Erases, in one traversal, every path expired at now: the table becomes its
     unexpired entries in their order, so no stored path is expired and every
     unexpired path is still stored. ExpiryOutcome states the same of the keyed
     view: each survivor is under its old key, unchanged, and no key is new.
     */
    method ExpirePaths(now: Time, expired: (Path, Time) -> bool)
      requires Valid()
      modifies this
      ensures Valid()
      ensures paths == Filter(old(paths), NotExpired(now, expired))
      ensures forall p :: p in paths <==> p in old(paths) && !expired(p, now)
      ensures numPaths == old(numPaths) && currentPublishTX == old(currentPublishTX)
    {
      ghost var before := paths;
      ghost var keep := NotExpired(now, expired);
      var i := 0;
      ghost var visited := 0;
      while i < |paths|
        invariant 0 <= i <= |paths|
        invariant 0 <= visited <= |before|
        invariant paths[..i] == Filter(before[..visited], keep)
        invariant paths[i..] == before[visited..]
        invariant numPaths == old(numPaths) && currentPublishTX == old(currentPublishTX)
        decreases |paths| - i
      {
        EraseStep(before, visited, paths, i, keep);
        if expired(paths[i], now) {
          paths := paths[..i] + paths[i + 1..];
        } else {
          i := i + 1;
        }
        visited := visited + 1;
      }
      assert before[..visited] == before;
      assert paths[..i] == paths;
      FilterDistinct(before, keep);
      FilterMembers(before, keep);
    }

    /** The number of stored paths in status st, which is the number of keys whose path has that status. */
    method NumInStatus(st: PathStatus) returns (count: nat)
      requires Valid()
      ensures count == |Filter(paths, HasStatus(st))|
      ensures count == |set k | k in Table(paths) && Table(paths)[k].status == st|
      ensures count <= |Table(paths)|
    {
      var s := paths;
      count := 0;
      var i := 0;
      while i < |s|
        invariant 0 <= i <= |s|
        invariant count == |Filter(s[..i], HasStatus(st))|
      {
        FilterPrefixStep(s, i, HasStatus(st));
        if s[i].status == st {
          count := count + 1;
        }
        i := i + 1;
      }
      assert s[..i] == s;
      StatusCount(s, st);
    }

    /**
     Inserts p under its key unless the key is taken, in which case the stored
     entry is kept; either way the key is present and keys stay unique.
     */
    method AddPath(p: Path)
      requires Valid()
      modifies this
      ensures Valid()
      ensures paths == Added(old(paths), p)
      ensures KeyOf(p) in Table(paths)
      ensures Table(paths) ==
        if KeyOf(p) in Table(old(paths)) then Table(old(paths)) else Table(old(paths))[KeyOf(p) := p]
      ensures numPaths == old(numPaths) && currentPublishTX == old(currentPublishTX)
    {
      if Find(paths, KeyOf(p)).None? {
        paths := paths + [p];
      }
      AddedTable(old(paths), p);
    }

    /** Erases the entry under p's key, if there is one; every other entry is untouched. */
    method RemovePath(p: Path)
      requires Valid()
      modifies this
      ensures Valid()
      ensures paths == Removed(old(paths), KeyOf(p))
      ensures Table(paths) == Table(old(paths)) - {KeyOf(p)}
      ensures !HasKey(old(paths), KeyOf(p)) ==> paths == old(paths)
      ensures numPaths == old(numPaths) && currentPublishTX == old(currentPublishTX)
    {
      paths := Removed(paths, KeyOf(p));
      RemovedTable(old(paths), KeyOf(p));
      if !HasKey(old(paths), KeyOf(p)) {
        RemovedAbsent(old(paths), KeyOf(p));
      }
    }

    /** The path stored under (remote, rxid), or none when there is no such entry. */
    function GetByUpstream(remote: RouterID, rxid: PathID): (r: Option<Path>)
      reads this
      requires Valid()
      ensures r == if (remote, rxid) in Table(paths) then Some(Table(paths)[(remote, rxid)]) else None
    {
      FindInTable(paths, (remote, rxid));
      Find(paths, (remote, rxid))
    }

    /**
     Appends to intros the introduction of every ready path, in table order,
     keeping the earlier contents as a prefix; found tells whether anything was
     appended, which is whether some stored path is ready.
     */
    method GetCurrentIntroductions(intros: seq<Introduction>) returns (result: seq<Introduction>, found: bool)
      ensures |result| >= |intros| && result[..|intros|] == intros
      ensures result[|intros|..] == Intros(ReadyPaths(paths))
      ensures found <==> |result| > |intros|
      ensures found <==> exists p :: p in paths && IsReady(p)
    {
      var s := paths;
      result := intros;
      var count := 0;
      var i := 0;
      while i < |s|
        invariant 0 <= i <= |s|
        invariant result == intros + Intros(ReadyPaths(s[..i]))
        invariant count == |result| - |intros|
      {
        AppendIntroStep(s, i, intros, result);
        if IsReady(s[i]) {
          result := result + [s[i].intro];
          count := count + 1;
        }
        i := i + 1;
      }
      assert s[..i] == s;
      found := count > 0;
      AppendIntrosOutcome(s, intros);
    }

    /** The publish policy as written: publishing is always due. */
    function ShouldPublishDescriptors(): (r: bool)
      reads this
      ensures r
    {
      currentPublishTX == 0 || true
    }

    /**
     Collects the ready paths in table order and chooses one by rnd (standing
     for rand()); none exactly when no stored path is ready, and otherwise a
     stored, ready path.
     */
    method PickRandomEstablishedPath(rnd: nat) returns (r: Option<Path>)
      ensures r == Pick(ReadyPaths(paths), rnd)
      ensures r.None? <==> forall p :: p in paths ==> !IsReady(p)
      ensures r.Some? ==> r.value in paths && IsReady(r.value)
    {
      var established: seq<Path> := [];
      var i := 0;
      while i < |paths|
        invariant 0 <= i <= |paths|
        invariant established == ReadyPaths(paths[..i])
      {
        assert paths[..i + 1][..i] == paths[..i];
        if IsReady(paths[i]) {
          established := established + [paths[i]];
        }
        i := i + 1;
      }
      assert paths[..i] == paths;
      var size := |established|;
      if size > 0 {
        r := Some(established[rnd % size]);
      } else {
        r := None;
      }
      PickReady(paths, rnd);
    }

    /**
     Publishes introset through a randomly chosen ready path. With no ready
     path it fails and changes nothing. Otherwise it records txRand as the
     current publish transaction and reports whether send accepted the DHT
     publish message carrying introset and that transaction id.
     */
    method PublishIntroSet(introset: IntroSet, pickRand: nat, txRand: nat, send: (Path, RoutingMessage) -> bool)
      returns (ok: bool)
      requires Valid()
      modifies this
      ensures Valid() && paths == old(paths) && numPaths == old(numPaths)
      ensures var chosen := Pick(ReadyPaths(paths), pickRand);
        && (chosen.None? <==> forall p :: p in paths ==> !IsReady(p))
        && (chosen.None? ==> !ok && currentPublishTX == old(currentPublishTX))
        && (chosen.Some? ==>
              chosen.value in paths && IsReady(chosen.value) && currentPublishTX == txRand &&
              ok == send(chosen.value, DhtRoutingMessage([PublishIntroMessage(introset, txRand)])))
    {
      var path := PickRandomEstablishedPath(pickRand);
      if path.Some? {
        currentPublishTX := txRand;
        var msg := DhtRoutingMessage([PublishIntroMessage(introset, currentPublishTX)]);
        ok := send(path.value, msg);
      } else {
        ok := false;
      }
    }
  }

  /** A second insertion under a key already taken leaves the first path reachable. */
  method DuplicateKeyScenario(a: Path, dup: Path)
    requires KeyOf(dup) == KeyOf(a) && dup != a
  {
    var pool := new PathSet(3);
    pool.AddPath(a);
    pool.AddPath(dup);
    assert pool.GetByUpstream(a.upstream, a.rxid) == Some(a);
  }
}
