/** `generate_matrix`: collects the keys of the changed files, runs a second, seeded pass
    over every file of the repository when a trigger fires, gives each key a `reason` and
    returns the rows in sorted order. */
module Matrix {
  import opened Wrappers
  import opened Hdict
  import opened Fnmatch
  import opened Matches
  import opened Sorting

  /** A row of the job matrix: a key with its `reason` field added. */
  type Row = Record

  /** The reason of a key whose files disagree on their status. */
  const Updated: string := "updated"

  /** The status every file of the repository-wide pass carries. */
  const DefaultStatus: string := "default"

  lemma SingletonMember(s: set<string>, x: string)
    requires |s| == 1 && x in s
    ensures s == {x}
  {
    assert |s - {x}| == 0;
  }

  /** The reason of a key: the one status of a one-element status set, else `"updated"`. */
  function Reason(statuses: set<string>): (r: string)
    ensures |statuses| == 1 <==> statuses == {r}
    ensures |statuses| != 1 ==> r == Updated
  {
    if |statuses| == 1 then
      var x := Least(statuses);
      SingletonMember(statuses, x);
      x
    else Updated
  }

  /** A key whose status set has one element takes that status as its reason. */
  lemma ReasonOfOne(s: string)
    ensures Reason({s}) == s
  {
    assert |{s}| == 1;
  }

  /** The row written for a key: the key's fields, and `reason` set to the key's reason. */
  function RowOf(key: Key, statuses: set<string>): (row: Row)
    ensures row.Keys == key.Keys + {ReasonField}
    ensures row[ReasonField] == Some(Reason(statuses))
    ensures forall n :: n in key && n != ReasonField ==> row[n] == key[n]
  {
    key[ReasonField := Some(Reason(statuses))]
  }

  /** Dropping `reason` from a row gives back its key, and the row's `reason` is the key's. */
  lemma RowKeyRoundTrip(key: Key, statuses: set<string>)
    requires ReasonField !in key
    ensures RowOf(key, statuses) - {ReasonField} == key
    ensures RowOf(key, statuses)[ReasonField] == Some(Reason(statuses))
  {
  }

  /** Different keys give different rows, whatever their statuses. */
  lemma RowOfInjective(k1: Key, s1: set<string>, k2: Key, s2: set<string>)
    requires ReasonField !in k1 && ReasonField !in k2
    requires RowOf(k1, s1) == RowOf(k2, s2)
    ensures k1 == k2
  {
    RowKeyRoundTrip(k1, s1);
    RowKeyRoundTrip(k2, s2);
  }

  /** The rows are exactly those of the keys of `matches`. */
  ghost predicate RowsOf(matches: map<Key, set<string>>, rows: seq<Row>)
  {
    forall row :: row in rows <==> exists k :: k in matches && row == RowOf(k, matches[k])
  }

  /** `rows` holds one row for each key of `done`, and no other. */
  ghost predicate RowsSoFar(matches: map<Key, set<string>>, done: set<Key>, rows: seq<Row>)
    requires done <= matches.Keys
  {
    && |rows| == |done|
    && (forall row :: row in rows <==> exists k :: k in done && row == RowOf(k, matches[k]))
    && NoRepeats(rows)
  }

  /** The row of a key not yet done is not among the rows so far. */
  lemma NewRowFresh(matches: map<Key, set<string>>, done: set<Key>, rows: seq<Row>, key: Key)
    requires forall k :: k in matches ==> ReasonField !in k
    requires done <= matches.Keys && key in matches && key !in done
    requires forall row :: row in rows ==> exists k :: k in done && row == RowOf(k, matches[k])
    ensures RowOf(key, matches[key]) !in rows
  {
    var row := RowOf(key, matches[key]);
    forall k | k in done ensures row != RowOf(k, matches[k]) {
      if row == RowOf(k, matches[k]) {
        RowOfInjective(key, matches[key], k, matches[k]);
      }
    }
  }

  /** Appending the row of a key not yet done keeps the rows in step with the keys. */
  lemma AppendRow(matches: map<Key, set<string>>, done: set<Key>, rows: seq<Row>, key: Key)
    requires forall k :: k in matches ==> ReasonField !in k
    requires done <= matches.Keys && key in matches && key !in done
    requires RowsSoFar(matches, done, rows)
    ensures RowsSoFar(matches, done + {key}, rows + [RowOf(key, matches[key])])
  {
    var row := RowOf(key, matches[key]);
    NewRowFresh(matches, done, rows, key);
    assert multiset(rows + [row]) == multiset(rows) + multiset{row};
  }

  /** The loop of `generate_matrix` that writes `reason` into each key, in the order the
      dictionary hands its entries out (any order here). */
  method ResolveReasons(matches: map<Key, set<string>>) returns (rows: seq<Row>)
    requires forall k :: k in matches ==> ReasonField !in k
    ensures RowsOf(matches, rows)
    ensures NoRepeats(rows)
    ensures |rows| == |matches|
  {
    rows := [];
    var done: set<Key> := {};
    while done != matches.Keys
      invariant done <= matches.Keys
      invariant RowsSoFar(matches, done, rows)
      decreases |matches.Keys - done|
    {
      var key :| key in matches && key !in done;
      var statuses := matches[key];
      var reason := Updated;
      if |statuses| == 1 {
        var s :| s in statuses;
        SingletonMember(statuses, s);
        ReasonOfOne(s);
        reason := s;
      }
      var row := key[ReasonField := Some(reason)];
      AppendRow(matches, done, rows, key);
      rows := rows + [row];
      done := done + {key};
    }
    assert done == matches.Keys;
  }

  /** The changed filenames, in order. */
  function Names(files: seq<ChangedFile>): (names: seq<string>)
    ensures |names| == |files|
    ensures forall i :: 0 <= i < |files| ==> names[i] == files[i].filename
  {
    seq(|files|, i requires 0 <= i < |files| => files[i].filename)
  }

  /** The default patterns that some changed filename matches, in their given order. */
  function MatchedDefaultPatterns(patterns: seq<string>, names: seq<string>): (matched: seq<string>)
    ensures |matched| <= |patterns|
    ensures forall p :: p in matched <==> p in patterns && exists n :: n in names && GlobMatches(n, p)
  {
    if patterns == [] then []
    else
      var rest := MatchedDefaultPatterns(patterns[1..], names);
      if Filter(names, patterns[0]) != [] then
        assert Filter(names, patterns[0])[0] in Filter(names, patterns[0]);
        [patterns[0]] + rest
      else
        assert forall n :: n in names ==> !GlobMatches(n, patterns[0]);
        rest
  }

  /** Every file under the repository root, as a relative path with status `"default"`. */
  function DefaultFiles(tree: seq<string>): (files: seq<ChangedFile>)
    ensures Names(files) == tree
    ensures UniformStatus(files, DefaultStatus)
  {
    seq(|tree|, i requires 0 <= i < |tree| => ChangedFile(tree[i], DefaultStatus))
  }

  /** Without earlier matches, the result is empty exactly when no file is accepted. */
  lemma CollectEmpty(m: Matcher, files: seq<ChangedFile>)
    ensures Collect(m, files) == map[] <==> forall f :: f in files ==> !Classify(m, f.filename).Hit?
  {
    if Collect(m, files) != map[] {
      var k :| k in Collect(m, files);
      CollectMembers(m, files, k, "");
    }
    forall f | f in files && Classify(m, f.filename).Hit? ensures Collect(m, files) != map[] {
      CollectMembers(m, files, Classify(m, f.filename).key, "");
    }
  }

  /** Some default pattern is kept exactly when some pattern matches some name. */
  lemma SomePatternMatched(patterns: seq<string>, names: seq<string>)
    ensures MatchedDefaultPatterns(patterns, names) != [] <==>
            exists p, n :: p in patterns && n in names && GlobMatches(n, p)
  {
    var matched := MatchedDefaultPatterns(patterns, names);
    assert matched == [] || matched[0] in matched;
  }

  /** The trigger for the repository-wide pass: `defaults` is on and no changed file is
      accepted, or some default pattern matches some changed filename. */
  function Expands(m: Matcher, files: seq<ChangedFile>, defaults: bool, patterns: seq<string>): (e: bool)
    ensures e <==> (defaults && forall f :: f in files ==> !Classify(m, f.filename).Hit?)
                   || exists p, n :: p in patterns && n in Names(files) && GlobMatches(n, p)
  {
    CollectEmpty(m, files);
    SomePatternMatched(patterns, Names(files));
    (Collect(m, files) == map[] && defaults) || MatchedDefaultPatterns(patterns, Names(files)) != []
  }

  /** The keys behind the matrix: those of the changed files, or, after the repository-wide
      pass, one of its possible results. */
  ghost predicate FinalMatches(m: Matcher, files: seq<ChangedFile>, defaults: bool, patterns: seq<string>,
                               tree: seq<string>, final: map<Key, set<string>>)
  {
    if Expands(m, files, defaults, patterns) then Seeded(m, DefaultFiles(tree), Collect(m, files), final)
    else final == Collect(m, files)
  }

  /** `generate_matrix`. The compiled include pattern is `m`; `tree` is the list of paths,
      relative to the repository root, of every file below it. `final` is the dictionary
      the rows are built from. */
  method GenerateMatrix(files: seq<ChangedFile>, m: Matcher, defaults: bool,
                        defaultPatterns: Option<seq<string>>, tree: seq<string>)
    returns (r: Result<seq<Row>, Error>, ghost final: map<Key, set<string>>)
    ensures var patterns := if defaultPatterns.Some? then defaultPatterns.value else [];
      r.Err? <==> Rejected(m, files, |files|) ||
                  (Expands(m, files, defaults, patterns) && Rejected(m, DefaultFiles(tree), |tree|))
    ensures var patterns := if defaultPatterns.Some? then defaultPatterns.value else [];
      r.Ok? ==> FinalMatches(m, files, defaults, patterns, tree, final)
    ensures r.Ok? ==> RowsOf(final, r.value) && Ascending(r.value, RecordBelow) && NoRepeats(r.value)
    ensures r.Ok? ==> |r.value| == |final|
  {
    var patterns := if defaultPatterns.Some? then defaultPatterns.value else [];
    var matched := MatchedDefaultPatterns(patterns, Names(files));
    var first, _ := UpdateMatches(files, m, map[]);
    if first.Err? {
      return Err(first.error), map[];
    }
    var matches := first.value;
    SeededFromNothing(m, files, matches);
    if (|matches| == 0 && defaults) || matched != [] {
      var second, _ := UpdateMatches(DefaultFiles(tree), m, matches);
      if second.Err? {
        return Err(second.error), map[];
      }
      matches := second.value;
    }
    final := matches;
    HitKeysExcludeReason(m, DefaultFiles(tree), |tree|);
    var rows := ResolveReasons(matches);
    RecordBelowStrictTotal();
    var sorted := Sort(rows, RecordBelow);
    assert forall row :: row in sorted <==> row in rows by {
      forall row ensures row in sorted <==> row in rows {
        assert row in multiset(sorted) <==> row in multiset(rows);
      }
    }
    r := Ok(sorted);
  }

  /** With no changed file accepted, `defaults` off and no default pattern matched, there
      is nothing to build rows from: the matrix is empty. */
  lemma NothingMatchedNoRows(m: Matcher, files: seq<ChangedFile>, patterns: seq<string>,
                             tree: seq<string>, final: map<Key, set<string>>)
    requires forall f :: f in files ==> Classify(m, f.filename).Skip?
    requires forall p, n :: p in patterns && n in Names(files) ==> !GlobMatches(n, p)
    requires FinalMatches(m, files, false, patterns, tree, final)
    ensures final == map[]
  {
    CollectEmpty(m, files);
  }

  /** After a seeded pass whose files all have status `"default"`, a new key has reason
      `"default"`, and a key with earlier statuses has one of them or `"updated"`. */
  lemma DefaultPassReasons(m: Matcher, fs: seq<ChangedFile>, earlier: map<Key, set<string>>,
                           res: map<Key, set<string>>, k: Key)
    requires UniformStatus(fs, DefaultStatus) && Seeded(m, fs, earlier, res) && k in res
    ensures k !in earlier ==> Reason(res[k]) == DefaultStatus
    ensures k in earlier ==> Reason(res[k]) in earlier[k] || Reason(res[k]) == Updated
  {
    SeededWithUniformStatus(m, fs, DefaultStatus, earlier, res, k);
    if k !in earlier {
      ReasonOfOne(DefaultStatus);
    } else {
      var e :| e in earlier[k] && (res[k] == {e} || res[k] == {e, DefaultStatus});
      if res[k] == {e} || e == DefaultStatus {
        assert res[k] == {e};
        ReasonOfOne(e);
      } else {
        assert |res[k]| == 2;
      }
    }
  }

  /** After the repository-wide pass, a key that no changed file produced has reason
      `"default"`, and a key that one did has one of its statuses from the changed files,
      or `"updated"`. */
  lemma ExpandedReasons(m: Matcher, files: seq<ChangedFile>, tree: seq<string>,
                        final: map<Key, set<string>>, k: Key)
    requires Seeded(m, DefaultFiles(tree), Collect(m, files), final) && k in final
    ensures k !in Collect(m, files) ==> Reason(final[k]) == DefaultStatus
    ensures k in Collect(m, files) ==> Reason(final[k]) in Collect(m, files)[k] || Reason(final[k]) == Updated
  {
    DefaultPassReasons(m, DefaultFiles(tree), Collect(m, files), final, k);
  }

  /** With a pattern without named groups, the repository-wide pass drops the path key of
      every file the tree does not hold, such as a removed file. */
  lemma RemovedPathKeyDropped(m: Matcher, tree: seq<string>, earlier: map<Key, set<string>>,
                              final: map<Key, set<string>>, p: string)
    requires forall f :: m(f).Some? ==> m(f).value == map[]
    requires Seeded(m, DefaultFiles(tree), earlier, final)
    requires p !in tree
    ensures map[PathField := Some(p)] !in final
  {
    var fs := DefaultFiles(tree);
    var k := map[PathField := Some(p)];
    forall i | 0 <= i < |fs| ensures !HitsAt(m, fs, i, k) {
      assert fs[i].filename == Names(fs)[i] == tree[i];
      if Classify(m, tree[i]).Hit? {
        assert Classify(m, tree[i]).key[PathField] == Some(tree[i]);
      }
    }
    HitKeysAt(m, fs, |fs|, k);
  }

  /** With a pattern without named groups, rows for two different paths sort by path, as
      `sorted` does on strings. */
  lemma PathRowsSortByPath(a: string, sa: set<string>, b: string, sb: set<string>)
    requires a != b
    ensures RecordBelow(RowOf(map[PathField := Some(a)], sa), RowOf(map[PathField := Some(b)], sb)) <==> Below(a, b)
  {
    PathRowFirstCell(a, sa);
    PathRowFirstCell(b, sb);
    RecordBelowByFirstCell(RowOf(map[PathField := Some(a)], sa), RowOf(map[PathField := Some(b)], sb));
    BelowIrreflexive(PathField);
  }

  /** The first cell of such a row is its path. */
  lemma PathRowFirstCell(a: string, sa: set<string>)
    ensures |Fields(RowOf(map[PathField := Some(a)], sa))| == 2
    ensures Fields(RowOf(map[PathField := Some(a)], sa))[0] == (PathField, Some(a))
  {
  }
}
