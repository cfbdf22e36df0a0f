/** `CsvGenerator`: one record per (version, method) of the feature maps, under a fixed
    header. Records are modelled as their cells, before CSV quoting. */
module CsvGenerator {
  import opened Strings
  import opened SeqFacts
  import FeatureExtractor

  type Features = FeatureExtractor.MethodFeatures

  /** The twenty column names, in order. */
  const Header: seq<string> := [
    "Version", "File Name", "Method Name", "LOC", "CyclomaticComplexity",
    "CognitiveComplexity", "ParameterCount", "NestingDepth", "ReturnCount", "TryCount",
    "CatchCount", "SmellsDensity", "ManyCatches", "AssignmentCount", "InvocationCount",
    "methodHistories", "Churn", "method_gt_100_loc", "CodeSmellsCount", "Buggy"]

  /** The cells of the sixteen metrics, in the header's order. */
  function FeatureCells(f: Features): (r: seq<string>)
    ensures |r| == 16
  {
    [IntToString(f.loc), IntToString(f.cyclomatic), IntToString(f.cognitive),
     IntToString(f.parameterCount), IntToString(f.nestingDepth), IntToString(f.returnCount),
     IntToString(f.tryCount), IntToString(f.catchCount), IntToString(f.smellsDensity),
     IntToString(f.manyCatches), IntToString(f.assignmentCount), IntToString(f.invocationCount),
     IntToString(f.methodHistories), IntToString(f.churn), IntToString(f.methodGt100Loc),
     IntToString(f.codeSmells)]
  }

  /** A key `relPath#signature` that `split("#", 2)` can take apart, with a path whose
      file name is not null. */
  predicate WellKeyed(key: string) {
    '#' in key && HasFileName(BeforeFirst(key, '#'))
  }

  /** The tag looked up in the buggy set: `version#relPath#signature`. */
  function Tag(version: string, key: string): string {
    version + "#" + key
  }

  /** The first three cells: the version, the file name of the path and the signature. */
  function Lead(version: string, key: string): (r: seq<string>)
    requires WellKeyed(key)
    ensures |r| == 3 && r[0] == version
    ensures r[1] == FileName(BeforeFirst(key, '#')) && '/' !in r[1]
    ensures key == BeforeFirst(key, '#') + "#" + r[2]
  {
    [version, FileName(BeforeFirst(key, '#')), AfterFirst(key, '#')]
  }

  function BuggyCell(buggy: bool): (r: string)
    ensures r == "Yes" || r == "No"
    ensures r == "Yes" <==> buggy
  {
    if buggy then "Yes" else "No"
  }

  /** One record: the version, the file name of the path, the signature, the metrics and
      whether the tagged method is in the buggy set. */
  function MakeRow(version: string, key: string, f: Features, buggy: set<string>): (r: seq<string>)
    requires WellKeyed(key)
    ensures |r| == |Header|
    ensures r[..3] == Lead(version, key)
    ensures r[3..19] == FeatureCells(f)
    ensures r[19] == BuggyCell(Tag(version, key) in buggy)
  {
    var a, b, c := Lead(version, key), FeatureCells(f), [BuggyCell(Tag(version, key) in buggy)];
    SlicesOfConcat(a, b, c);
    a + b + c
  }

  /** A key built from a path without `#` splits back into that path and the signature,
      even when the signature itself holds `#`. */
  lemma RowOfKey(version: string, relPath: string, signature: string, f: Features, buggy: set<string>)
    requires '#' !in relPath && HasFileName(relPath)
    ensures WellKeyed(FeatureExtractor.Key(relPath, signature))
    ensures var r := MakeRow(version, FeatureExtractor.Key(relPath, signature), f, buggy);
            r[1] == FileName(relPath) && r[2] == signature
  {
    SplitFirstOfJoin(relPath, '#', signature);
    assert FeatureExtractor.Key(relPath, signature) == relPath + ['#'] + signature;
    var r := MakeRow(version, FeatureExtractor.Key(relPath, signature), f, buggy);
    assert r[1] == r[..3][1] && r[2] == r[..3][2];
  }

  // ----- the two loops -----

  type Entry = (string, string)

  /** Every (version, key) of the nested feature maps. */
  function Entries(fpm: map<string, map<string, Features>>): set<Entry> {
    set v, k | v in fpm && k in fpm[v] :: (v, k)
  }

  /** The entries not yet printed: those of the versions not yet reached, and those of the
      current version `v` whose keys are still in `todoK`. */
  function Pending(fpm: map<string, map<string, Features>>, todoV: set<string>, v: string, todoK: set<string>): set<Entry> {
    set p | p in Entries(fpm) && (p.0 in todoV || (p.0 == v && p.1 in todoK))
  }

  predicate AllWellKeyed(fpm: map<string, map<string, Features>>) {
    forall v, k :: v in fpm && k in fpm[v] ==> WellKeyed(k)
  }

  /** The printed records follow the visited entries one for one, after the header. */
  ghost predicate Printed(fpm: map<string, map<string, Features>>, buggy: set<string>,
                          csv: seq<seq<string>>, visited: seq<Entry>)
    requires AllWellKeyed(fpm)
  {
    |csv| == |visited| + 1 && csv[0] == Header
    && forall i :: 0 <= i < |visited| ==>
         visited[i] in Entries(fpm)
         && csv[i + 1] == MakeRow(visited[i].0, visited[i].1, fpm[visited[i].0][visited[i].1], buggy)
  }

  /** The releases from position `n` of the outer map's key order on. */
  function From(versions: seq<string>, n: nat): set<string> {
    set a | n <= a < |versions| :: versions[a]
  }

  lemma FromStep(versions: seq<string>, n: nat)
    requires Distinct(versions) && n < |versions|
    ensures From(versions, n) == From(versions, n + 1) + {versions[n]}
    ensures versions[n] !in From(versions, n + 1)
  {
  }

  /** From the start, the key order covers the map's keys. */
  lemma FromEnds(versions: seq<string>, fpm: map<string, map<string, Features>>)
    requires forall v :: v in fpm <==> v in versions
    ensures From(versions, 0) == fpm.Keys
  {
    forall v | v in fpm ensures v in From(versions, 0) {
      var a :| 0 <= a < |versions| && versions[a] == v;
    }
  }

  /** Every visited entry belongs to one of the first `n` releases of `versions`. */
  ghost predicate Before(versions: seq<string>, visited: seq<Entry>, n: nat) {
    forall i, a :: 0 <= i < |visited| && 0 <= a < |versions| && versions[a] == visited[i].0 ==> a < n
  }

  /** The entries come release by release, in the order of `versions`: the records of a
      release are printed together, and an earlier release's before a later one's. */
  ghost predicate InReleaseOrder(versions: seq<string>, visited: seq<Entry>) {
    forall i, j, a, b ::
      (0 <= i < j < |visited| && 0 <= a < |versions| && 0 <= b < |versions|
       && versions[a] == visited[i].0 && versions[b] == visited[j].0) ==> a <= b
  }

  /** Printing an entry of release `n` after entries of releases up to `n` keeps the
      order. */
  lemma OrderSnoc(versions: seq<string>, visited: seq<Entry>, n: nat, e: Entry)
    requires Distinct(versions) && n < |versions| && e.0 == versions[n]
    requires InReleaseOrder(versions, visited) && Before(versions, visited, n + 1)
    ensures InReleaseOrder(versions, visited + [e]) && Before(versions, visited + [e], n + 1)
  {
    var w := visited + [e];
    forall i, a | 0 <= i < |w| && 0 <= a < |versions| && versions[a] == w[i].0 ensures a < n + 1 {
      if i < |visited| { assert w[i] == visited[i]; }
    }
    forall i, j, a, b |
      0 <= i < j < |w| && 0 <= a < |versions| && 0 <= b < |versions|
      && versions[a] == w[i].0 && versions[b] == w[j].0
      ensures a <= b
    {
      assert w[i] == visited[i];
      if j < |visited| {
        assert w[j] == visited[j];
      } else {
        assert b == n;
      }
    }
  }

  /** One turn of the inner loop: some key of release `versions[n]` not yet printed is
      printed. */
  method PrintOne(fpm: map<string, map<string, Features>>, buggy: set<string>, versions: seq<string>,
                  n: nat, todoK: set<string>, csv: seq<seq<string>>, ghost visited: seq<Entry>)
    returns (todoK': set<string>, csv': seq<seq<string>>, ghost visited': seq<Entry>)
    requires AllWellKeyed(fpm) && Distinct(versions)
    requires n < |versions| && versions[n] in fpm && todoK != {} && todoK <= fpm[versions[n]].Keys
    requires multiset(visited) == multiset(Entries(fpm) - Pending(fpm, From(versions, n + 1), versions[n], todoK))
    requires Printed(fpm, buggy, csv, visited)
    requires InReleaseOrder(versions, visited) && Before(versions, visited, n + 1)
    ensures todoK' < todoK
    ensures multiset(visited') == multiset(Entries(fpm) - Pending(fpm, From(versions, n + 1), versions[n], todoK'))
    ensures Printed(fpm, buggy, csv', visited')
    ensures InReleaseOrder(versions, visited') && Before(versions, visited', n + 1)
  {
    var v := versions[n];
    var k :| k in todoK;
    todoK' := todoK - {k};
    FromStep(versions, n);
    PendingStep(fpm, From(versions, n + 1), v, todoK, k);
    csv' := csv + [MakeRow(v, k, fpm[v][k], buggy)];
    visited' := visited + [(v, k)];
    MultisetSnoc(visited, Entries(fpm) - Pending(fpm, From(versions, n + 1), v, todoK), (v, k));
    PrintedSnoc(fpm, buggy, csv, visited, v, k);
    OrderSnoc(versions, visited, n, (v, k));
  }

  lemma PendingStep(fpm: map<string, map<string, Features>>, todoV: set<string>, v: string, todoK: set<string>, k: string)
    requires v in fpm && v !in todoV && k in todoK && todoK <= fpm[v].Keys
    ensures Entries(fpm) - Pending(fpm, todoV, v, todoK - {k})
         == (Entries(fpm) - Pending(fpm, todoV, v, todoK)) + {(v, k)}
    ensures (v, k) !in Entries(fpm) - Pending(fpm, todoV, v, todoK)
  {
    assert (v, k) in Entries(fpm);
  }

  lemma PrintedSnoc(fpm: map<string, map<string, Features>>, buggy: set<string>,
                    csv: seq<seq<string>>, visited: seq<Entry>, v: string, k: string)
    requires AllWellKeyed(fpm) && v in fpm && k in fpm[v]
    requires Printed(fpm, buggy, csv, visited)
    ensures Printed(fpm, buggy, csv + [MakeRow(v, k, fpm[v][k], buggy)], visited + [(v, k)])
  {
    var csv', visited' := csv + [MakeRow(v, k, fpm[v][k], buggy)], visited + [(v, k)];
    forall i | 0 <= i < |visited'|
      ensures visited'[i] in Entries(fpm)
      ensures csv'[i + 1] == MakeRow(visited'[i].0, visited'[i].1, fpm[visited'[i].0][visited'[i].1], buggy)
    {
      if i < |visited| {
        assert visited'[i] == visited[i] && csv'[i + 1] == csv[i + 1];
      } else {
        assert (v, k) in Entries(fpm);
      }
    }
  }

  /** After `n` turns of the outer loop, the releases before `n` are printed, in order. */
  ghost predicate Progress(fpm: map<string, map<string, Features>>, buggy: set<string>, versions: seq<string>,
                           n: nat, v: string, csv: seq<seq<string>>, visited: seq<Entry>)
    requires AllWellKeyed(fpm)
  {
    && multiset(visited) == multiset(Entries(fpm) - Pending(fpm, From(versions, n), v, {}))
    && Printed(fpm, buggy, csv, visited)
    && InReleaseOrder(versions, visited) && Before(versions, visited, n)
  }

  /** One turn of the outer loop: every key of release `versions[n]` is printed, in the
      inner map's iteration order (which the model leaves open). */
  method PrintVersion(fpm: map<string, map<string, Features>>, buggy: set<string>, versions: seq<string>,
                      n: nat, ghost v0: string, csv: seq<seq<string>>, ghost visited: seq<Entry>)
    returns (csv': seq<seq<string>>, ghost visited': seq<Entry>)
    requires AllWellKeyed(fpm) && Distinct(versions)
    requires n < |versions| && versions[n] in fpm
    requires Progress(fpm, buggy, versions, n, v0, csv, visited)
    ensures Progress(fpm, buggy, versions, n + 1, versions[n], csv', visited')
  {
    var v := versions[n];
    var todoK := fpm[v].Keys;
    FromStep(versions, n);
    PendingNext(fpm, From(versions, n), v0, v);
    csv', visited' := csv, visited;
    while todoK != {}
      invariant todoK <= fpm[v].Keys
      invariant multiset(visited') == multiset(Entries(fpm) - Pending(fpm, From(versions, n + 1), v, todoK))
      invariant Printed(fpm, buggy, csv', visited')
      invariant InReleaseOrder(versions, visited') && Before(versions, visited', n + 1)
      decreases todoK
    {
      todoK, csv', visited' := PrintOne(fpm, buggy, versions, n, todoK, csv', visited');
    }
  }

  /** `generateCsv` on the `LinkedHashMap` that `main` passes, given as its key order
      `versions` and its entries `fpm`: the header, then one record per entry of the nested
      maps, each entry exactly once, release by release in the order of `versions`. */
  method GenerateCsv(versions: seq<string>, fpm: map<string, map<string, Features>>, buggy: set<string>)
    returns (csv: seq<seq<string>>, ghost visited: seq<Entry>)
    requires AllWellKeyed(fpm)
    requires Distinct(versions) && forall v :: v in fpm <==> v in versions
    ensures multiset(visited) == multiset(Entries(fpm))
    ensures Printed(fpm, buggy, csv, visited)
    ensures InReleaseOrder(versions, visited)
    ensures Complete(fpm, buggy, csv)
  {
    csv, visited := [Header], [];
    ghost var v := "";
    PendingAll(versions, fpm, v);
    for n := 0 to |versions|
      invariant Progress(fpm, buggy, versions, n, v, csv, visited)
    {
      csv, visited := PrintVersion(fpm, buggy, versions, n, v, csv, visited);
      v := versions[n];
    }
    PendingNone(versions, fpm, v);
    PrintedComplete(fpm, buggy, csv, visited);
  }

  /** The records as a table: the header, as many records as entries, a record for every
      entry and none for anything else. */
  predicate Complete(fpm: map<string, map<string, Features>>, buggy: set<string>, csv: seq<seq<string>>)
    requires AllWellKeyed(fpm)
  {
    |csv| == |Entries(fpm)| + 1 && csv[0] == Header
    && (forall v, k :: v in fpm && k in fpm[v] ==>
          exists i :: 1 <= i < |csv| && csv[i] == MakeRow(v, k, fpm[v][k], buggy))
    && forall i :: 1 <= i < |csv| ==> RecordOfSome(fpm, buggy, csv[i])
  }

  /** `row` is the record of some entry. */
  predicate RecordOfSome(fpm: map<string, map<string, Features>>, buggy: set<string>, row: seq<string>)
    requires AllWellKeyed(fpm)
  {
    exists v, k :: v in fpm && k in fpm[v] && row == MakeRow(v, k, fpm[v][k], buggy)
  }

  /** Printing every entry once yields the complete table. */
  lemma PrintedComplete(fpm: map<string, map<string, Features>>, buggy: set<string>,
                        csv: seq<seq<string>>, visited: seq<Entry>)
    requires AllWellKeyed(fpm)
    requires multiset(visited) == multiset(Entries(fpm))
    requires Printed(fpm, buggy, csv, visited)
    ensures Complete(fpm, buggy, csv)
  {
    assert |visited| == |multiset(visited)| == |multiset(Entries(fpm))| == |Entries(fpm)|;
    PrintedCovers(fpm, buggy, csv, visited);
    PrintedOnly(fpm, buggy, csv, visited);
  }

  lemma PrintedCovers(fpm: map<string, map<string, Features>>, buggy: set<string>,
                      csv: seq<seq<string>>, visited: seq<Entry>)
    requires AllWellKeyed(fpm)
    requires multiset(visited) == multiset(Entries(fpm))
    requires Printed(fpm, buggy, csv, visited)
    ensures forall v, k :: v in fpm && k in fpm[v] ==>
              exists i :: 1 <= i < |csv| && csv[i] == MakeRow(v, k, fpm[v][k], buggy)
  {
    forall v, k | v in fpm && k in fpm[v]
      ensures exists i :: 1 <= i < |csv| && csv[i] == MakeRow(v, k, fpm[v][k], buggy)
    {
      assert (v, k) in Entries(fpm);
      assert (v, k) in multiset(visited);
      var i :| 0 <= i < |visited| && visited[i] == (v, k);
      assert csv[i + 1] == MakeRow(v, k, fpm[v][k], buggy);
    }
  }

  lemma PrintedOnly(fpm: map<string, map<string, Features>>, buggy: set<string>,
                    csv: seq<seq<string>>, visited: seq<Entry>)
    requires AllWellKeyed(fpm)
    requires Printed(fpm, buggy, csv, visited)
    ensures forall i :: 1 <= i < |csv| ==> RecordOfSome(fpm, buggy, csv[i])
  {
    forall i | 1 <= i < |csv|
      ensures RecordOfSome(fpm, buggy, csv[i])
    {
      var e := visited[i - 1];
      assert e in Entries(fpm) && csv[i] == MakeRow(e.0, e.1, fpm[e.0][e.1], buggy);
    }
  }

  /** Before the outer loop every entry is pending. */
  lemma PendingAll(versions: seq<string>, fpm: map<string, map<string, Features>>, v: string)
    requires forall u :: u in fpm <==> u in versions
    ensures Entries(fpm) - Pending(fpm, From(versions, 0), v, {}) == {}
  {
    FromEnds(versions, fpm);
  }

  /** After it none is. */
  lemma PendingNone(versions: seq<string>, fpm: map<string, map<string, Features>>, v: string)
    ensures Entries(fpm) - Pending(fpm, From(versions, |versions|), v, {}) == Entries(fpm)
  {
    assert From(versions, |versions|) == {};
  }

  lemma PendingNext(fpm: map<string, map<string, Features>>, todoV: set<string>, v0: string, v: string)
    requires v in todoV && v in fpm
    ensures Pending(fpm, todoV - {v}, v, fpm[v].Keys) == Pending(fpm, todoV, v0, {})
  {
  }
}
