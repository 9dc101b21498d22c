/** `update_matches`: turns (filename, status) pairs into job-matrix keys, each with the
    set of statuses seen for it, optionally seeded with the matches of an earlier pass. */
module Matches {
  import opened Wrappers
  import opened Hdict

  /** A job-matrix key: named-group values, or the single field `path`. */
  type Key = Record

  /** The compiled include pattern applied at position 0 of a filename: `None` when it does
      not match, otherwise the named-group dictionary of the match (`None` for a group that
      took no part in it; the empty map for a pattern without named groups). */
  type Matcher = string -> Option<map<string, Option<string>>>

  /** One changed file as the revision comparison reports it. */
  datatype ChangedFile = ChangedFile(filename: string, status: string)

  /** The `ValueError` raised when the pattern defines a group called `reason`. */
  datatype Error = ReservedName

  /** The field the job matrix reserves for the change reason. */
  const ReasonField: string := "reason"

  /** The field of the key built for a pattern without named groups. */
  const PathField: string := "path"

  /** What one file contributes: nothing, the reserved-name error, or a key. */
  datatype Outcome = Skip | Reject | Hit(key: Key)

  /** The treatment of one filename in the loop of `update_matches`: it is dropped exactly
      when the pattern does not match it, rejected exactly when the match has a group named
      `reason`, and otherwise accepted under a key without that field, which for a pattern
      without named groups is the whole filename under `path`. */
  function Classify(m: Matcher, filename: string): (o: Outcome)
    ensures o.Skip? <==> m(filename).None?
    ensures o.Reject? <==> m(filename).Some? && ReasonField in m(filename).value
    ensures o.Hit? ==> ReasonField !in o.key
    ensures o.Hit? && m(filename).value == map[] ==> o.key == map[PathField := Some(filename)]
    ensures o.Hit? && m(filename).value != map[] ==> o.key == m(filename).value
  {
    match m(filename)
    case None => Skip
    case Some(groups) =>
      if groups != map[] then
        if ReasonField in groups then Reject else Hit(groups)
      else Hit(map[PathField := Some(filename)])
  }

  /** Two accepted files share a key exactly when they carry the same named-group values,
      or, for a pattern without named groups, when they are the same filename: the whole
      filename, not just the part the pattern consumed. */
  lemma SameKey(m: Matcher, f: string, g: string)
    requires Classify(m, f).Hit? && Classify(m, g).Hit?
    requires m(f).value == map[] <==> m(g).value == map[]
    ensures m(f).value == map[] ==> Classify(m, f).key == map[PathField := Some(f)]
    ensures Classify(m, f) == Classify(m, g) <==>
      if m(f).value == map[] then f == g else m(f).value == m(g).value
  {
    if m(f).value == map[] && Classify(m, f) == Classify(m, g) {
      assert map[PathField := Some(f)][PathField] == Some(f);
    }
  }

  /** One of the first `n` files makes the pattern report the reserved group name. */
  predicate Rejected(m: Matcher, fs: seq<ChangedFile>, n: nat)
    requires n <= |fs|
  {
    exists i :: 0 <= i < n && Classify(m, fs[i].filename).Reject?
  }

  /** File `i` of `fs` is accepted under key `k`. */
  predicate HitsAt(m: Matcher, fs: seq<ChangedFile>, i: int, k: Key)
    requires 0 <= i < |fs|
  {
    Classify(m, fs[i].filename) == Hit(k)
  }

  /** The status file `f` contributes to key `k`. */
  function StatusIfHit(m: Matcher, f: ChangedFile, k: Key): set<string>
  {
    if Classify(m, f.filename) == Hit(k) then {f.status} else {}
  }

  /** `matches[key].add(status)` on a dictionary whose missing entries read as empty sets. */
  function AddStatus(matches: map<Key, set<string>>, key: Key, status: string): (r: map<Key, set<string>>)
    ensures r.Keys == matches.Keys + {key}
    ensures r[key] == (if key in matches then matches[key] else {}) + {status}
    ensures forall k :: k in matches && k != key ==> r[k] == matches[k]
  {
    matches[key := (if key in matches then matches[key] else {}) + {status}]
  }

  /** The keys of the accepted files among the first `n` of `fs`. */
  function HitKeys(m: Matcher, fs: seq<ChangedFile>, n: nat): set<Key>
    requires n <= |fs|
  {
    if n == 0 then {}
    else
      var o := Classify(m, fs[n - 1].filename);
      HitKeys(m, fs, n - 1) + (if o.Hit? then {o.key} else {})
  }

  /** The statuses of the files among the first `n` of `fs` accepted under key `k`. */
  function StatusesOf(m: Matcher, fs: seq<ChangedFile>, n: nat, k: Key): set<string>
    requires n <= |fs|
  {
    if n == 0 then {}
    else StatusesOf(m, fs, n - 1, k) + StatusIfHit(m, fs[n - 1], k)
  }

  /** The same, leaving out the first file accepted under `k`: its status is the one that
      seeding replaces. */
  function LaterStatuses(m: Matcher, fs: seq<ChangedFile>, n: nat, k: Key): set<string>
    requires n <= |fs|
  {
    if n == 0 then {}
    else LaterStatuses(m, fs, n - 1, k) + (if k in HitKeys(m, fs, n - 1) then StatusIfHit(m, fs[n - 1], k) else {})
  }

  /** No result key holds the reserved field. */
  lemma {:induction false} HitKeysExcludeReason(m: Matcher, fs: seq<ChangedFile>, n: nat)
    requires n <= |fs|
    ensures forall k :: k in HitKeys(m, fs, n) ==> ReasonField !in k
  {
    if n > 0 { HitKeysExcludeReason(m, fs, n - 1); }
  }

  /** A key has statuses exactly when some file was accepted under it. */
  lemma {:induction false} StatusesOfEmpty(m: Matcher, fs: seq<ChangedFile>, n: nat, k: Key)
    requires n <= |fs|
    ensures StatusesOf(m, fs, n, k) == {} <==> k !in HitKeys(m, fs, n)
  {
    if n > 0 { StatusesOfEmpty(m, fs, n - 1, k); }
  }

  /** A key not yet seen has no later statuses. */
  lemma {:induction false} LaterStatusesEmpty(m: Matcher, fs: seq<ChangedFile>, n: nat, k: Key)
    requires n <= |fs| && k !in HitKeys(m, fs, n)
    ensures LaterStatuses(m, fs, n, k) == {}
  {
    if n > 0 { LaterStatusesEmpty(m, fs, n - 1, k); }
  }

  /** A key is a result key exactly when some file is accepted under it. */
  lemma {:induction false} HitKeysAt(m: Matcher, fs: seq<ChangedFile>, n: nat, k: Key)
    requires n <= |fs|
    ensures k in HitKeys(m, fs, n) <==> exists i :: 0 <= i < n && HitsAt(m, fs, i, k)
  {
    if n > 0 {
      HitKeysAt(m, fs, n - 1, k);
      if k in HitKeys(m, fs, n) && k !in HitKeys(m, fs, n - 1) {
        assert HitsAt(m, fs, n - 1, k);
      }
    }
  }

  /** A status is recorded for a key exactly when some file accepted under that key has it. */
  lemma {:induction false} StatusesOfAt(m: Matcher, fs: seq<ChangedFile>, n: nat, k: Key, s: string)
    requires n <= |fs|
    ensures s in StatusesOf(m, fs, n, k) <==> exists i :: 0 <= i < n && HitsAt(m, fs, i, k) && fs[i].status == s
  {
    if n > 0 {
      StatusesOfAt(m, fs, n - 1, k, s);
      if s in StatusesOf(m, fs, n, k) && s !in StatusesOf(m, fs, n - 1, k) {
        assert HitsAt(m, fs, n - 1, k);
      }
    }
  }

  /** A status is among the later statuses of a key exactly when a file accepted under that
      key has it and an earlier file was accepted under the same key. */
  lemma {:induction false} LaterStatusesAt(m: Matcher, fs: seq<ChangedFile>, n: nat, k: Key, s: string)
    requires n <= |fs|
    ensures s in LaterStatuses(m, fs, n, k) <==>
      exists i, j :: 0 <= j < i < n && HitsAt(m, fs, j, k) && HitsAt(m, fs, i, k) && fs[i].status == s
  {
    if n > 0 {
      LaterStatusesAt(m, fs, n - 1, k, s);
      HitKeysAt(m, fs, n - 1, k);
      if s in LaterStatuses(m, fs, n, k) && s !in LaterStatuses(m, fs, n - 1, k) {
        var j :| 0 <= j < n - 1 && HitsAt(m, fs, j, k);
        assert HitsAt(m, fs, n - 1, k);
      }
    }
  }

  /** The result of `update_matches` without earlier matches: each key with every status
      seen for it. */
  function Collect(m: Matcher, fs: seq<ChangedFile>): (matches: map<Key, set<string>>)
    ensures matches.Keys == HitKeys(m, fs, |fs|)
    ensures forall k :: k in matches ==> ReasonField !in k && matches[k] != {}
  {
    HitKeysExcludeReason(m, fs, |fs|);
    forall k | k in HitKeys(m, fs, |fs|) ensures StatusesOf(m, fs, |fs|, k) != {} {
      StatusesOfEmpty(m, fs, |fs|, k);
    }
    map k | k in HitKeys(m, fs, |fs|) :: StatusesOf(m, fs, |fs|, k)
  }

  /** A file of `fs` is accepted under key `k`. */
  predicate Accepts(m: Matcher, fs: seq<ChangedFile>, k: Key)
  {
    exists f :: f in fs && Classify(m, f.filename) == Hit(k)
  }

  /** A file of `fs` with status `s` is accepted under key `k`. */
  predicate AcceptsWith(m: Matcher, fs: seq<ChangedFile>, k: Key, s: string)
  {
    exists f :: f in fs && Classify(m, f.filename) == Hit(k) && f.status == s
  }

  /** Without earlier matches, the keys are those of the accepted files, and a key's
      statuses are those of the files accepted under it, each once. */
  lemma CollectMembers(m: Matcher, fs: seq<ChangedFile>, k: Key, s: string)
    ensures k in Collect(m, fs) <==> Accepts(m, fs, k)
    ensures k in Collect(m, fs) ==> (s in Collect(m, fs)[k] <==> AcceptsWith(m, fs, k, s))
  {
    HitKeysAt(m, fs, |fs|, k);
    StatusesOfAt(m, fs, |fs|, k, s);
    if Accepts(m, fs, k) {
      var f :| f in fs && Classify(m, f.filename) == Hit(k);
      var i :| 0 <= i < |fs| && fs[i] == f;
      assert HitsAt(m, fs, i, k);
    }
    if k in Collect(m, fs) {
      var i :| 0 <= i < |fs| && HitsAt(m, fs, i, k);
      assert fs[i] in fs;
      if AcceptsWith(m, fs, k, s) {
        var f :| f in fs && Classify(m, f.filename) == Hit(k) && f.status == s;
        var j :| 0 <= j < |fs| && fs[j] == f;
        assert HitsAt(m, fs, j, k) && fs[j].status == s;
      }
      if s in Collect(m, fs)[k] {
        var j :| 0 <= j < |fs| && HitsAt(m, fs, j, k) && fs[j].status == s;
        assert fs[j] in fs;
      }
    }
  }

  /** Without earlier matches, the result depends only on which files the pattern accepts:
      not on their order, on repetitions, or on the files it does not accept. */
  lemma CollectDependsOnAcceptedFiles(m: Matcher, fs: seq<ChangedFile>, gs: seq<ChangedFile>)
    requires forall f :: f in fs && !Classify(m, f.filename).Skip? ==> f in gs
    requires forall f :: f in gs && !Classify(m, f.filename).Skip? ==> f in fs
    ensures Collect(m, fs) == Collect(m, gs)
  {
    forall k ensures k in Collect(m, fs) <==> k in Collect(m, gs) {
      CollectMembers(m, fs, k, "");
      CollectMembers(m, gs, k, "");
    }
    forall k | k in Collect(m, fs) ensures Collect(m, fs)[k] == Collect(m, gs)[k] {
      forall s ensures s in Collect(m, fs)[k] <==> s in Collect(m, gs)[k] {
        CollectMembers(m, fs, k, s);
        CollectMembers(m, gs, k, s);
      }
    }
    assert Collect(m, fs).Keys == Collect(m, gs).Keys;
  }

  /** `res` is a possible result of `update_matches(fs, m, oldMatches)`: exactly the keys of
      the accepted files (earlier keys that no file hits are dropped); a key without an
      earlier entry gets all its statuses; for a key with one, the first file hitting it
      records instead one status taken from the earlier set, and later files their own. */
  ghost predicate Seeded(m: Matcher, fs: seq<ChangedFile>, oldMatches: map<Key, set<string>>, res: map<Key, set<string>>)
  {
    && res.Keys == HitKeys(m, fs, |fs|)
    && (forall k :: k in res && k !in oldMatches ==> res[k] == StatusesOf(m, fs, |fs|, k))
    && (forall k :: k in res && k in oldMatches ==>
          exists s :: s in oldMatches[k] && res[k] == {s} + LaterStatuses(m, fs, |fs|, k))
  }

  /** Without earlier matches, `update_matches` has a single possible result: every key
      with all of its statuses. */
  lemma SeededFromNothing(m: Matcher, fs: seq<ChangedFile>, res: map<Key, set<string>>)
    ensures Seeded(m, fs, map[], res) <==> res == Collect(m, fs)
  {
  }

  /** Every recorded status was either in the key's earlier set or is the status of a file
      accepted under the key. */
  lemma {:induction false} SeededStatusesFrom(m: Matcher, fs: seq<ChangedFile>, oldMatches: map<Key, set<string>>,
                                              res: map<Key, set<string>>, k: Key, s: string)
    requires Seeded(m, fs, oldMatches, res) && k in res && s in res[k]
    ensures (k in oldMatches && s in oldMatches[k]) || AcceptsWith(m, fs, k, s)
  {
    if k in oldMatches {
      var e :| e in oldMatches[k] && res[k] == {e} + LaterStatuses(m, fs, |fs|, k);
      if s != e {
        LaterStatusesAt(m, fs, |fs|, k, s);
        var i, j :| 0 <= j < i < |fs| && HitsAt(m, fs, j, k) && HitsAt(m, fs, i, k) && fs[i].status == s;
        assert fs[i] in fs;
      }
    } else {
      StatusesOfAt(m, fs, |fs|, k, s);
      var i :| 0 <= i < |fs| && HitsAt(m, fs, i, k) && fs[i].status == s;
      assert fs[i] in fs;
    }
  }

  /** All files of `fs` have status `st`. */
  predicate UniformStatus(fs: seq<ChangedFile>, st: string)
  {
    forall f :: f in fs ==> f.status == st
  }

  /** When every file has the same status (the `"default"` pass), a key without earlier
      matches gets that status alone, and a key with earlier matches gets one earlier status,
      with or without the uniform one. */
  lemma {:induction false} SeededWithUniformStatus(m: Matcher, fs: seq<ChangedFile>, st: string,
                                                   oldMatches: map<Key, set<string>>, res: map<Key, set<string>>, k: Key)
    requires UniformStatus(fs, st) && Seeded(m, fs, oldMatches, res) && k in res
    ensures k !in oldMatches ==> res[k] == {st}
    ensures k in oldMatches ==> exists e :: e in oldMatches[k] && (res[k] == {e} || res[k] == {e, st})
  {
    if k in oldMatches {
      var e :| e in oldMatches[k] && res[k] == {e} + LaterStatuses(m, fs, |fs|, k);
      forall s | s in LaterStatuses(m, fs, |fs|, k) ensures s == st {
        LaterStatusesAt(m, fs, |fs|, k, s);
        var i, j :| 0 <= j < i < |fs| && HitsAt(m, fs, j, k) && HitsAt(m, fs, i, k) && fs[i].status == s;
        assert fs[i] in fs;
      }
      assert LaterStatuses(m, fs, |fs|, k) == {} || LaterStatuses(m, fs, |fs|, k) == {st};
    } else {
      StatusesOfEmpty(m, fs, |fs|, k);
      forall s | s in StatusesOf(m, fs, |fs|, k) ensures s == st {
        StatusesOfAt(m, fs, |fs|, k, s);
        var i :| 0 <= i < |fs| && HitsAt(m, fs, i, k) && fs[i].status == s;
        assert fs[i] in fs;
      }
      var s0 :| s0 in StatusesOf(m, fs, |fs|, k);
      assert StatusesOf(m, fs, |fs|, k) == {st};
    }
  }

  /** Seeding takes one arbitrary earlier status instead of merging: with the earlier
      statuses `{"modified", "removed"}` for `app` and one `"default"` file `app`, either
      earlier status alone is a possible result, and the union of all three is not. */
  lemma SeedingPicksOneEarlierStatus()
    ensures var m: Matcher := (s: string) => Some(map[]);
            var k: Key := map[PathField := Some("app")];
            var fs := [ChangedFile("app", "default")];
            var earlier := map[k := {"modified", "removed"}];
            && Seeded(m, fs, earlier, map[k := {"modified"}])
            && Seeded(m, fs, earlier, map[k := {"removed"}])
            && !Seeded(m, fs, earlier, map[k := {"modified", "removed", "default"}])
  {
    var m: Matcher := (s: string) => Some(map[]);
    var k: Key := map[PathField := Some("app")];
    var fs := [ChangedFile("app", "default")];
    assert HitKeys(m, fs, 1) == {k};
    assert LaterStatuses(m, fs, 1, k) == {};
    var bad := map[k := {"modified", "removed", "default"}];
    assert "default" in bad[k] && "default" !in {"modified"} && "default" !in {"removed"};
  }

  /* What the loop of `update_matches` has built after the first `n` files, in three parts. */

  /** The keys seen so far; what is left of the earlier matches; `picked` holds, for each
      seen key that had earlier matches, the earlier status its first file took. */
  ghost predicate KeysSoFar(m: Matcher, fs: seq<ChangedFile>, n: nat, oldMatches: map<Key, set<string>>,
                            matches: map<Key, set<string>>, picked: map<Key, string>,
                            remaining: map<Key, set<string>>)
    requires n <= |fs|
  {
    && matches.Keys == HitKeys(m, fs, n)
    && remaining == oldMatches - matches.Keys
    && picked.Keys == matches.Keys * oldMatches.Keys
    && (forall k :: k in picked ==> picked[k] in oldMatches[k])
  }

  /** A key without earlier matches has the statuses of all its files so far. */
  ghost predicate FreshSoFar(m: Matcher, fs: seq<ChangedFile>, n: nat, oldMatches: map<Key, set<string>>,
                             matches: map<Key, set<string>>)
    requires n <= |fs|
  {
    forall k :: k in matches && k !in oldMatches ==> matches[k] == StatusesOf(m, fs, n, k)
  }

  /** A key with earlier matches has its picked status and those of its later files. */
  ghost predicate SeededSoFar(m: Matcher, fs: seq<ChangedFile>, n: nat,
                              matches: map<Key, set<string>>, picked: map<Key, string>)
    requires n <= |fs|
  {
    forall k :: k in picked ==> k in matches && matches[k] == {picked[k]} + LaterStatuses(m, fs, n, k)
  }

  /** A file the pattern does not accept leaves the matches as they are. */
  lemma SkipStep(m: Matcher, fs: seq<ChangedFile>, n: nat, oldMatches: map<Key, set<string>>,
                 matches: map<Key, set<string>>, picked: map<Key, string>, remaining: map<Key, set<string>>)
    requires n < |fs| && Classify(m, fs[n].filename).Skip?
    requires KeysSoFar(m, fs, n, oldMatches, matches, picked, remaining)
    requires FreshSoFar(m, fs, n, oldMatches, matches) && SeededSoFar(m, fs, n, matches, picked)
    ensures KeysSoFar(m, fs, n + 1, oldMatches, matches, picked, remaining)
    ensures FreshSoFar(m, fs, n + 1, oldMatches, matches) && SeededSoFar(m, fs, n + 1, matches, picked)
  {
  }

  /** Seeding: the keys. */
  lemma SeedKeys(m: Matcher, fs: seq<ChangedFile>, n: nat, oldMatches: map<Key, set<string>>,
                 matches: map<Key, set<string>>, picked: map<Key, string>, remaining: map<Key, set<string>>,
                 key: Key, s: string)
    requires n < |fs| && Classify(m, fs[n].filename) == Hit(key)
    requires KeysSoFar(m, fs, n, oldMatches, matches, picked, remaining)
    requires key in remaining && s in remaining[key]
    ensures KeysSoFar(m, fs, n + 1, oldMatches, AddStatus(matches, key, s), picked[key := s], remaining - {key})
  {
  }

  /** Seeding: the keys without earlier matches are untouched. */
  lemma SeedFresh(m: Matcher, fs: seq<ChangedFile>, n: nat, oldMatches: map<Key, set<string>>,
                  matches: map<Key, set<string>>, key: Key, s: string)
    requires n < |fs| && Classify(m, fs[n].filename) == Hit(key)
    requires FreshSoFar(m, fs, n, oldMatches, matches)
    requires key in oldMatches
    ensures FreshSoFar(m, fs, n + 1, oldMatches, AddStatus(matches, key, s))
  {
  }

  /** Seeding: the key takes the earlier status `s` alone. */
  lemma SeedPicked(m: Matcher, fs: seq<ChangedFile>, n: nat,
                   matches: map<Key, set<string>>, picked: map<Key, string>, key: Key, s: string)
    requires n < |fs| && Classify(m, fs[n].filename) == Hit(key)
    requires SeededSoFar(m, fs, n, matches, picked)
    requires key !in matches && key !in HitKeys(m, fs, n)
    ensures SeededSoFar(m, fs, n + 1, AddStatus(matches, key, s), picked[key := s])
  {
    LaterStatusesEmpty(m, fs, n, key);
    forall k | k != key ensures StatusIfHit(m, fs[n], k) == {} { }
  }

  /** Adding: the keys. */
  lemma AddKeys(m: Matcher, fs: seq<ChangedFile>, n: nat, oldMatches: map<Key, set<string>>,
                matches: map<Key, set<string>>, picked: map<Key, string>, remaining: map<Key, set<string>>,
                key: Key)
    requires n < |fs| && Classify(m, fs[n].filename) == Hit(key)
    requires KeysSoFar(m, fs, n, oldMatches, matches, picked, remaining)
    requires key !in remaining
    ensures KeysSoFar(m, fs, n + 1, oldMatches, AddStatus(matches, key, fs[n].status), picked, remaining)
  {
  }

  /** Adding: a key without earlier matches gains the file's status. */
  lemma AddFresh(m: Matcher, fs: seq<ChangedFile>, n: nat, oldMatches: map<Key, set<string>>,
                 matches: map<Key, set<string>>, key: Key)
    requires n < |fs| && Classify(m, fs[n].filename) == Hit(key)
    requires FreshSoFar(m, fs, n, oldMatches, matches) && matches.Keys == HitKeys(m, fs, n)
    ensures FreshSoFar(m, fs, n + 1, oldMatches, AddStatus(matches, key, fs[n].status))
  {
    forall k | k != key ensures StatusIfHit(m, fs[n], k) == {} { }
    if key !in matches { StatusesOfEmpty(m, fs, n, key); }
  }

  /** Adding: a seeded key seen before gains the file's status as a later status. */
  lemma AddPicked(m: Matcher, fs: seq<ChangedFile>, n: nat,
                  matches: map<Key, set<string>>, picked: map<Key, string>, key: Key)
    requires n < |fs| && Classify(m, fs[n].filename) == Hit(key)
    requires SeededSoFar(m, fs, n, matches, picked) && matches.Keys == HitKeys(m, fs, n)
    ensures SeededSoFar(m, fs, n + 1, AddStatus(matches, key, fs[n].status), picked)
  {
  }

  /** `update_matches`. The earlier matches come from a previous call, so each of their
      status sets is non-empty. `remaining` is what is left of `oldMatches`, which the
      source pops entries out of in place. */
  method UpdateMatches(files: seq<ChangedFile>, m: Matcher, oldMatches: map<Key, set<string>>)
    returns (r: Result<map<Key, set<string>>, Error>, remaining: map<Key, set<string>>)
    requires forall k :: k in oldMatches ==> oldMatches[k] != {}
    ensures r.Err? <==> Rejected(m, files, |files|)
    ensures r.Ok? ==> Seeded(m, files, oldMatches, r.value)
    ensures r.Ok? ==> remaining == oldMatches - HitKeys(m, files, |files|)
  {
    var matches: map<Key, set<string>> := map[];
    remaining := oldMatches;
    ghost var picked: map<Key, string> := map[];
    var i := 0;
    while i < |files|
      invariant 0 <= i <= |files|
      invariant !Rejected(m, files, i)
      invariant KeysSoFar(m, files, i, oldMatches, matches, picked, remaining)
      invariant FreshSoFar(m, files, i, oldMatches, matches)
      invariant SeededSoFar(m, files, i, matches, picked)
    {
      var filename, status := files[i].filename, files[i].status;
      match Classify(m, filename) {
        case Skip =>
          SkipStep(m, files, i, oldMatches, matches, picked, remaining);
        case Reject =>
          assert Classify(m, files[i].filename).Reject?;
          return Err(ReservedName), remaining;
        case Hit(key) =>
          if key in remaining {
            // the first file with an earlier key takes one of its earlier statuses
            assert remaining[key] == oldMatches[key];
            var earlier :| earlier in remaining[key];
            SeedKeys(m, files, i, oldMatches, matches, picked, remaining, key, earlier);
            SeedFresh(m, files, i, oldMatches, matches, key, earlier);
            SeedPicked(m, files, i, matches, picked, key, earlier);
            status := earlier;
            remaining := remaining - {key};
            picked := picked[key := earlier];
          } else {
            AddKeys(m, files, i, oldMatches, matches, picked, remaining, key);
            AddFresh(m, files, i, oldMatches, matches, key);
            AddPicked(m, files, i, matches, picked, key);
          }
          matches := AddStatus(matches, key, status);
      }
      i := i + 1;
    }
    HitKeysExcludeReason(m, files, |files|);
    r := Ok(matches);
  }
}
