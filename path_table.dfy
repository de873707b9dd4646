/**
 The path table as a sequence of paths in iteration order, its map view keyed
 by (upstream, rxid), and the pure operations the path set's methods are
 specified by: lookup, insertion without overwrite, and order-keeping filters.
 */
module PathTable {
  import opened PathTypes

  /** Some stored path is filed under key k. */
  predicate HasKey(s: seq<Path>, k: Key)
  {
    exists p :: p in s && KeyOf(p) == k
  }

  /** No two entries share a key: the container's key uniqueness. */
  predicate KeysDistinct(s: seq<Path>)
  {
    forall i, j :: 0 <= i < j < |s| ==> KeyOf(s[i]) != KeyOf(s[j])
  }

  /** The map from key to path that the table stands for. */
  ghost function Table(s: seq<Path>): map<Key, Path>
    decreases |s|
  {
    if s == [] then map[]
    else Table(s[..|s| - 1])[KeyOf(s[|s| - 1]) := s[|s| - 1]]
  }

  lemma {:induction false} TableDomain(s: seq<Path>)
    ensures forall k :: k in Table(s) <==> HasKey(s, k)
    decreases |s|
  {
    if s != [] {
      var init, last := s[..|s| - 1], s[|s| - 1];
      assert s == init + [last];
      TableDomain(init);
      forall k
        ensures k in Table(s) <==> HasKey(s, k)
      {
        if HasKey(s, k) {
          var p :| p in s && KeyOf(p) == k;
          if p != last {
            assert p in init;
          }
        }
      }
    }
  }

  /** Each stored path is what the table maps its key to. */
  lemma {:induction false} TableAt(s: seq<Path>, i: nat)
    requires KeysDistinct(s)
    requires i < |s|
    ensures KeyOf(s[i]) in Table(s) && Table(s)[KeyOf(s[i])] == s[i]
    decreases |s|
  {
    var init := s[..|s| - 1];
    if i < |s| - 1 {
      assert KeysDistinct(init);
      TableAt(init, i);
      assert KeyOf(s[i]) != KeyOf(s[|s| - 1]);
    }
  }

  /** With distinct keys, the last entry's key occurs nowhere before it. */
  lemma LastKeyNew(s: seq<Path>)
    requires KeysDistinct(s) && s != []
    ensures forall p :: p in s[..|s| - 1] ==> KeyOf(p) != KeyOf(s[|s| - 1])
    ensures !HasKey(s[..|s| - 1], KeyOf(s[|s| - 1]))
  {
    var init := s[..|s| - 1];
    forall p | p in init
      ensures KeyOf(p) != KeyOf(s[|s| - 1])
    {
      var i :| 0 <= i < |init| && init[i] == p;
      assert KeyOf(s[i]) != KeyOf(s[|s| - 1]);
    }
  }

  /** With distinct keys, the table has one entry per stored path. */
  lemma {:induction false} TableSize(s: seq<Path>)
    requires KeysDistinct(s)
    ensures |Table(s)| == |s|
    decreases |s|
  {
    if s != [] {
      var init, last := s[..|s| - 1], s[|s| - 1];
      assert KeysDistinct(init);
      TableSize(init);
      TableDomain(init);
      LastKeyNew(s);
      assert Table(s).Keys == Table(init).Keys + {KeyOf(last)};
    }
  }

  /** Lookup by key, as the container's find does. */
  function Find(s: seq<Path>, k: Key): (r: Option<Path>)
    ensures r.Some? ==> r.value in s && KeyOf(r.value) == k
    ensures r.None? <==> !HasKey(s, k)
    decreases |s|
  {
    if s == [] then None
    else
      assert s == s[..|s| - 1] + [s[|s| - 1]];
      if KeyOf(s[|s| - 1]) == k then Some(s[|s| - 1])
      else Find(s[..|s| - 1], k)
  }

  /** With distinct keys, Find returns the table's entry for k, and none when k is absent. */
  lemma FindInTable(s: seq<Path>, k: Key)
    requires KeysDistinct(s)
    ensures Find(s, k) == if k in Table(s) then Some(Table(s)[k]) else None
  {
    TableDomain(s);
    var r := Find(s, k);
    if r.Some? {
      var i :| 0 <= i < |s| && s[i] == r.value;
      TableAt(s, i);
    }
  }

  /** The entries satisfying keep, in their original order. */
  function Filter(s: seq<Path>, keep: Path -> bool): seq<Path>
    decreases |s|
  {
    if s == [] then []
    else
      var init := Filter(s[..|s| - 1], keep);
      if keep(s[|s| - 1]) then init + [s[|s| - 1]] else init
  }

  /** A filter keeps exactly the entries that pass it, and never grows the table. */
  lemma {:induction false} FilterMembers(s: seq<Path>, keep: Path -> bool)
    ensures |Filter(s, keep)| <= |s|
    ensures forall x :: x in Filter(s, keep) <==> x in s && keep(x)
    decreases |s|
  {
    if s != [] {
      assert s == s[..|s| - 1] + [s[|s| - 1]];
      FilterMembers(s[..|s| - 1], keep);
    }
  }

  /** Appending a path whose key is new keeps the keys distinct. */
  lemma AppendDistinct(s: seq<Path>, p: Path)
    requires KeysDistinct(s) && !HasKey(s, KeyOf(p))
    ensures KeysDistinct(s + [p])
  {
    forall i, j | 0 <= i < j < |s + [p]|
      ensures KeyOf((s + [p])[i]) != KeyOf((s + [p])[j])
    {
      if j == |s| {
        assert s[i] in s;
      }
    }
  }

  /** Erasing entries never introduces a duplicate key. */
  lemma {:induction false} FilterDistinct(s: seq<Path>, keep: Path -> bool)
    requires KeysDistinct(s)
    ensures KeysDistinct(Filter(s, keep))
    decreases |s|
  {
    if s != [] {
      var init, last := s[..|s| - 1], s[|s| - 1];
      assert KeysDistinct(init);
      FilterDistinct(init, keep);
      if keep(last) {
        LastKeyNew(s);
        FilterMembers(init, keep);
        AppendDistinct(Filter(init, keep), last);
      }
    }
  }

  /**
   Filtering the table keeps exactly the entries whose path satisfies keep,
   each one under its old key and unchanged.
   */
  lemma FilterTable(s: seq<Path>, keep: Path -> bool)
    requires KeysDistinct(s)
    ensures KeysDistinct(Filter(s, keep))
    ensures forall k :: k in Table(Filter(s, keep)) <==> k in Table(s) && keep(Table(s)[k])
    ensures forall k :: k in Table(Filter(s, keep)) ==> Table(Filter(s, keep))[k] == Table(s)[k]
  {
    var f := Filter(s, keep);
    FilterDistinct(s, keep);
    FilterMembers(s, keep);
    TableDomain(s);
    TableDomain(f);
    forall k | k in Table(f)
      ensures k in Table(s) && keep(Table(s)[k]) && Table(f)[k] == Table(s)[k]
    {
      var p :| p in f && KeyOf(p) == k;
      var i :| 0 <= i < |f| && f[i] == p;
      var j :| 0 <= j < |s| && s[j] == p;
      TableAt(f, i);
      TableAt(s, j);
    }
    forall k | k in Table(s) && keep(Table(s)[k])
      ensures k in Table(f)
    {
      var p :| p in s && KeyOf(p) == k;
      var j :| 0 <= j < |s| && s[j] == p;
      TableAt(s, j);
      assert p in f;
    }
  }

  /** The number of entries kept by a filter is the number of table keys whose path satisfies it. */
  lemma FilterCount(s: seq<Path>, keep: Path -> bool)
    requires KeysDistinct(s)
    ensures |Filter(s, keep)| == |set k | k in Table(s) && keep(Table(s)[k])|
  {
    var f := Filter(s, keep);
    FilterTable(s, keep);
    TableSize(f);
    assert Table(f).Keys == set k | k in Table(s) && keep(Table(s)[k]);
  }

  /** Extending the scanned prefix by one entry extends the filter by that entry exactly when it passes. */
  lemma FilterPrefixStep(s: seq<Path>, n: nat, keep: Path -> bool)
    requires n < |s|
    ensures Filter(s[..n + 1], keep) == Filter(s[..n], keep) + if keep(s[n]) then [s[n]] else []
  {
    assert s[..n + 1][..n] == s[..n];
  }

  /**
   One step of erasing while traversing: cur is the table with the first
   visited entries of before already filtered into cur[..i]. Erasing cur[i]
   when it fails the test, or stepping past it when it passes, re-establishes
   that shape with one more entry visited.
   */
  lemma EraseStep(before: seq<Path>, visited: nat, cur: seq<Path>, i: nat, keep: Path -> bool)
    requires i < |cur| && visited < |before|
    requires cur[..i] == Filter(before[..visited], keep) && cur[i..] == before[visited..]
    ensures cur[i] == before[visited]
    ensures !keep(cur[i]) ==>
      (cur[..i] + cur[i + 1..])[..i] == Filter(before[..visited + 1], keep) &&
      (cur[..i] + cur[i + 1..])[i..] == before[visited + 1..]
    ensures keep(cur[i]) ==>
      cur[..i + 1] == Filter(before[..visited + 1], keep) && cur[i + 1..] == before[visited + 1..]
  {
    assert cur[i] == cur[i..][0];
    FilterPrefixStep(before, visited, keep);
    if keep(cur[i]) {
      assert cur[..i + 1] == cur[..i] + [cur[i]];
      assert cur[i + 1..] == cur[i..][1..];
    } else {
      assert (cur[..i] + cur[i + 1..])[..i] == cur[..i];
      assert (cur[..i] + cur[i + 1..])[i..] == cur[i + 1..] == cur[i..][1..];
    }
  }

  /**
   Erasing the paths expired at now leaves none that is expired, keeps every
   unexpired path under its key unchanged, adds no key, and keeps keys distinct.
   */
  lemma ExpiryOutcome(s: seq<Path>, now: Time, expired: (Path, Time) -> bool)
    requires KeysDistinct(s)
    ensures KeysDistinct(Filter(s, NotExpired(now, expired)))
    ensures forall p :: p in Filter(s, NotExpired(now, expired)) ==> !expired(p, now)
    ensures forall k :: k in Table(Filter(s, NotExpired(now, expired))) <==> k in Table(s) && !expired(Table(s)[k], now)
    ensures forall k :: k in Table(Filter(s, NotExpired(now, expired))) ==>
      Table(Filter(s, NotExpired(now, expired)))[k] == Table(s)[k]
  {
    FilterTable(s, NotExpired(now, expired));
    FilterMembers(s, NotExpired(now, expired));
  }

  /** The number of entries in status st is the number of keys whose path is in st, at most the table size. */
  lemma StatusCount(s: seq<Path>, st: PathStatus)
    requires KeysDistinct(s)
    ensures |Filter(s, HasStatus(st))| == |set k | k in Table(s) && Table(s)[k].status == st|
    ensures |Filter(s, HasStatus(st))| <= |Table(s)|
  {
    FilterCount(s, HasStatus(st));
    FilterMembers(s, HasStatus(st));
    assert (set k | k in Table(s) && HasStatus(st)(Table(s)[k]))
        == (set k | k in Table(s) && Table(s)[k].status == st);
    TableSize(s);
  }

  /** A filter that every entry passes leaves the table as it is. */
  lemma {:induction false} FilterKeepsAll(s: seq<Path>, keep: Path -> bool)
    requires forall x :: x in s ==> keep(x)
    ensures Filter(s, keep) == s
    decreases |s|
  {
    if s != [] {
      var init := s[..|s| - 1];
      assert forall x :: x in init ==> x in s;
      FilterKeepsAll(init, keep);
    }
  }

  /** The table after inserting p without overwriting an entry already under its key. */
  function Added(s: seq<Path>, p: Path): seq<Path>
  {
    if Find(s, KeyOf(p)).Some? then s else s + [p]
  }

  /**
   Insertion keeps keys unique and leaves p's key present; when the key was
   present the existing entry is kept, otherwise p is filed under it.
   */
  lemma AddedTable(s: seq<Path>, p: Path)
    requires KeysDistinct(s)
    ensures KeysDistinct(Added(s, p))
    ensures Table(Added(s, p)) ==
      if KeyOf(p) in Table(s) then Table(s) else Table(s)[KeyOf(p) := p]
  {
    TableDomain(s);
    if !HasKey(s, KeyOf(p)) {
      AppendDistinct(s, p);
      assert (s + [p])[..|s|] == s;
    }
  }

  /** Inserting two paths with the same key keeps the first one reachable by lookup. */
  lemma DuplicateAddKeepsFirst(s: seq<Path>, p: Path, q: Path)
    requires KeysDistinct(s) && !HasKey(s, KeyOf(p)) && KeyOf(q) == KeyOf(p)
    ensures Added(Added(s, p), q) == s + [p]
    ensures Find(Added(Added(s, p), q), KeyOf(p)) == Some(p)
  {
    AddedTable(s, p);
    TableDomain(s);
    var t := Added(s, p);
    assert t == s + [p];
    assert p in t;
    FindInTable(t, KeyOf(p));
    TableAt(t, |s|);
  }

  /** As a function value: the path is not filed under k. */
  function KeyIsNot(k: Key): Path -> bool
  {
    (p: Path) => KeyOf(p) != k
  }

  /** The table after erasing the entry under k, if any. */
  function Removed(s: seq<Path>, k: Key): seq<Path>
  {
    Filter(s, KeyIsNot(k))
  }

  /** Erasing by key removes exactly that key and leaves every other entry as it was. */
  lemma RemovedTable(s: seq<Path>, k: Key)
    requires KeysDistinct(s)
    ensures KeysDistinct(Removed(s, k))
    ensures Table(Removed(s, k)) == Table(s) - {k}
  {
    FilterTable(s, KeyIsNot(k));
    TableDomain(s);
    forall k' | k' in Table(s)
      ensures KeyOf(Table(s)[k']) == k'
    {
      var p :| p in s && KeyOf(p) == k';
      var j :| 0 <= j < |s| && s[j] == p;
      TableAt(s, j);
    }
  }

  /** Erasing a key that is not present changes nothing. */
  lemma RemovedAbsent(s: seq<Path>, k: Key)
    requires !HasKey(s, k)
    ensures Removed(s, k) == s
  {
    FilterKeepsAll(s, KeyIsNot(k));
  }

  /** As a function value: the path is not expired at now. */
  function NotExpired(now: Time, expired: (Path, Time) -> bool): Path -> bool
  {
    (p: Path) => !expired(p, now)
  }

  /** As a function value: the path is in status st. */
  function HasStatus(st: PathStatus): Path -> bool
  {
    (p: Path) => p.status == st
  }

  /** The ready paths, in table order. */
  function ReadyPaths(s: seq<Path>): seq<Path>
  {
    Filter(s, IsReady)
  }

  /** The introductions of the given paths, in the same order. */
  function Intros(s: seq<Path>): (r: seq<Introduction>)
    ensures |r| == |s|
    ensures forall i :: 0 <= i < |s| ==> r[i] == s[i].intro
    decreases |s|
  {
    if s == [] then [] else Intros(s[..|s| - 1]) + [s[|s| - 1].intro]
  }

  /** Scanning one more entry appends its introduction exactly when it is ready. */
  lemma ReadyIntrosStep(s: seq<Path>, n: nat)
    requires n < |s|
    ensures Intros(ReadyPaths(s[..n + 1])) ==
      Intros(ReadyPaths(s[..n])) + if IsReady(s[n]) then [s[n].intro] else []
  {
    FilterPrefixStep(s, n, IsReady);
    if IsReady(s[n]) {
      var init := ReadyPaths(s[..n]);
      assert (init + [s[n]])[..|init|] == init;
    }
  }

  /** One step of the introductions scan: push_back of a ready entry's introduction onto the list so far. */
  lemma AppendIntroStep(s: seq<Path>, n: nat, intros: seq<Introduction>, sofar: seq<Introduction>)
    requires n < |s|
    requires sofar == intros + Intros(ReadyPaths(s[..n]))
    ensures (if IsReady(s[n]) then sofar + [s[n].intro] else sofar) == intros + Intros(ReadyPaths(s[..n + 1]))
  {
    ReadyIntrosStep(s, n);
    if IsReady(s[n]) {
      assert sofar + [s[n].intro] == intros + (Intros(ReadyPaths(s[..n])) + [s[n].intro]);
    }
  }

  /**
   Appending the ready paths' introductions keeps the earlier list as a prefix,
   and appends something exactly when some path is ready.
   */
  lemma AppendIntrosOutcome(s: seq<Path>, intros: seq<Introduction>)
    ensures |intros + Intros(ReadyPaths(s))| >= |intros|
    ensures (intros + Intros(ReadyPaths(s)))[..|intros|] == intros
    ensures (intros + Intros(ReadyPaths(s)))[|intros|..] == Intros(ReadyPaths(s))
    ensures |ReadyPaths(s)| > 0 <==> exists p :: p in s && IsReady(p)
  {
    FilterMembers(s, IsReady);
    var ready := ReadyPaths(s);
    if |ready| > 0 {
      assert ready[0] in ready;
    }
  }

  /** Every introduction listed for the ready paths is that of a stored, ready path, and conversely. */
  lemma ReadyIntrosExact(s: seq<Path>, x: Introduction)
    ensures x in Intros(ReadyPaths(s)) <==> exists p :: p in s && IsReady(p) && p.intro == x
  {
    FilterMembers(s, IsReady);
    var ready := ReadyPaths(s);
    if x in Intros(ready) {
      var i :| 0 <= i < |ready| && Intros(ready)[i] == x;
      assert ready[i] in ready;
    }
    if exists p :: p in s && IsReady(p) && p.intro == x {
      var p :| p in s && IsReady(p) && p.intro == x;
      var i :| 0 <= i < |ready| && ready[i] == p;
      assert Intros(ready)[i] == x;
    }
  }

  /** In the keyed view, the ready paths are exactly the table entries, under their own keys, that are ready. */
  lemma ReadyPathsInTable(s: seq<Path>, p: Path)
    requires KeysDistinct(s)
    ensures p in ReadyPaths(s) <==> KeyOf(p) in Table(s) && Table(s)[KeyOf(p)] == p && IsReady(p)
  {
    FilterMembers(s, IsReady);
    TableDomain(s);
    if p in s {
      var i :| 0 <= i < |s| && s[i] == p;
      TableAt(s, i);
    }
    if KeyOf(p) in Table(s) {
      var q :| q in s && KeyOf(q) == KeyOf(p);
      var j :| 0 <= j < |s| && s[j] == q;
      TableAt(s, j);
    }
  }

  /** A choice among the candidates by a caller-supplied random value, none when there is no candidate. */
  function Pick(candidates: seq<Path>, rnd: nat): Option<Path>
  {
    if |candidates| > 0 then Some(candidates[rnd % |candidates|]) else None
  }

  /**
   Picking among the ready paths yields none exactly when no stored path is
   ready, and otherwise a stored, ready path.
   */
  lemma PickReady(s: seq<Path>, rnd: nat)
    ensures Pick(ReadyPaths(s), rnd).None? <==> forall p :: p in s ==> !IsReady(p)
    ensures Pick(ReadyPaths(s), rnd).Some? ==>
      Pick(ReadyPaths(s), rnd).value in s && IsReady(Pick(ReadyPaths(s), rnd).value)
  {
    FilterMembers(s, IsReady);
    var ready := ReadyPaths(s);
    if |ready| > 0 {
      assert ready[0] in ready;
      assert ready[rnd % |ready|] in ready;
    }
  }

  /** Every ready path is chosen by some random value: no ready path is excluded from the pick. */
  lemma EveryReadyPathPickable(s: seq<Path>, p: Path)
    requires p in s && IsReady(p)
    ensures exists rnd: nat :: Pick(ReadyPaths(s), rnd) == Some(p)
  {
    FilterMembers(s, IsReady);
    var ready := ReadyPaths(s);
    var i :| 0 <= i < |ready| && ready[i] == p;
    assert i % |ready| == i;
    assert Pick(ready, i) == Some(p);
  }

  /** The path after its per-tick maintenance; ticking never changes the key a path is filed under. */
  function Ticked(p: Path, now: Time, tick: (Path, Time) -> Path): Path
  {
    if p.status == Established then tick(p, now).(upstream := p.upstream, rxid := p.rxid) else p
  }

  /** The table after every entry has been ticked. */
  function TickAll(s: seq<Path>, now: Time, tick: (Path, Time) -> Path): (r: seq<Path>)
  {
    seq(|s|, i requires 0 <= i < |s| => Ticked(s[i], now, tick))
  }

  /** Ticking keeps every key where it was, so it keeps the keys distinct and the table's key set. */
  lemma TickAllKeys(s: seq<Path>, now: Time, tick: (Path, Time) -> Path)
    requires KeysDistinct(s)
    ensures KeysDistinct(TickAll(s, now, tick))
    ensures Table(TickAll(s, now, tick)).Keys == Table(s).Keys
  {
    var t := TickAll(s, now, tick);
    assert forall i :: 0 <= i < |s| ==> KeyOf(t[i]) == KeyOf(s[i]);
    TableDomain(s);
    TableDomain(t);
    forall k
      ensures HasKey(t, k) <==> HasKey(s, k)
    {
      if HasKey(t, k) {
        var p :| p in t && KeyOf(p) == k;
        var i :| 0 <= i < |t| && t[i] == p;
        assert s[i] in s;
      }
      if HasKey(s, k) {
        var p :| p in s && KeyOf(p) == k;
        var i :| 0 <= i < |s| && s[i] == p;
        assert t[i] in t;
      }
    }
  }
}
