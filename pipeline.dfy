/** The policy steps of `Main`: which Git tags count as releases and in what order, which
    source files are measured, how the process metrics reach the feature records, which
    releases are kept, which tickets feed the bug-fix pattern, and how the Buggy label's
    set is built. Network calls, the Git log, the file walk and the regex engine are
    replaced by the values they yield. */
module Pipeline {
  import opened Wrappers
  import opened Strings
  import opened SeqFacts
  import opened Accumulate
  import Sorting
  import Versions
  import FeatureExtractor
  import CsvGenerator

  type Features = FeatureExtractor.MethodFeatures

  // ----- Git tags and Jira versions -----

  /** `replaceFirst("^v", "")` */
  function StripV(s: string): (r: string)
    ensures StartsWith(s, "v") ==> r == s[1..]
    ensures !StartsWith(s, "v") ==> r == s
  {
    if StartsWith(s, "v") then s[1..] else s
  }

  /** A tag names a Jira version once both lose their prefixes. */
  predicate Valid(tag: string, jiraNames: seq<string>) {
    exists i :: 0 <= i < |jiraNames| && Versions.StripPrefix(tag) == StripV(jiraNames[i])
  }

  /** The Git tags that name a Jira version, in the order GitHub lists them. */
  function ValidTags(gitTags: seq<string>, jiraNames: seq<string>): (r: seq<string>)
    ensures forall t :: t in r <==> t in gitTags && Valid(t, jiraNames)
    ensures |r| <= |gitTags|
  {
    if gitTags == [] then []
    else
      var front, t := gitTags[..|gitTags| - 1], gitTags[|gitTags| - 1];
      assert gitTags == front + [t];
      ValidTags(front, jiraNames) + (if Valid(t, jiraNames) then [t] else [])
  }

  /** The release list: the valid tags sorted by `compareVersion`, or `HEAD` alone. */
  function Releases(gitTags: seq<string>, jiraNames: seq<string>): seq<string> {
    var valid := ValidTags(gitTags, jiraNames);
    if valid == [] then ["HEAD"] else Sorting.SortBy(valid, Versions.VersionLe)
  }

  /** The list of releases is never empty, is ordered by `compareVersion`, and holds the
      valid tags (each as often as GitHub lists it), or only `HEAD` when there is none. */
  lemma ReleasesMeaning(gitTags: seq<string>, jiraNames: seq<string>)
    ensures var rs, valid := Releases(gitTags, jiraNames), ValidTags(gitTags, jiraNames);
            && rs != []
            && Sorting.Sorted(rs, Versions.VersionLe)
            && (valid == [] ==> rs == ["HEAD"])
            && (valid != [] ==> multiset(rs) == multiset(valid)
                                && forall t :: t in rs <==> t in gitTags && Valid(t, jiraNames))
  {
    var valid := ValidTags(gitTags, jiraNames);
    if valid != [] {
      Versions.VersionLeTotalPreorder();
      Sorting.SortBySorted(valid, Versions.VersionLe);
      var rs := Sorting.SortBy(valid, Versions.VersionLe);
      forall t ensures t in rs <==> t in valid {
        assert t in rs <==> t in multiset(rs);
        assert t in valid <==> t in multiset(valid);
      }
    }
  }

  /** The set `jiraNorm`: every Jira version name without its leading `v`. */
  method NormalizedNames(jiraNames: seq<string>) returns (jiraNorm: set<string>)
    ensures forall s :: s in jiraNorm <==> exists i :: 0 <= i < |jiraNames| && s == StripV(jiraNames[i])
  {
    jiraNorm := {};
    for i := 0 to |jiraNames|
      invariant forall s :: s in jiraNorm <==> exists j :: 0 <= j < i && s == StripV(jiraNames[j])
    {
      jiraNorm := jiraNorm + {StripV(jiraNames[i])};
    }
  }

  /** The tag intersection and the sort of `main`. The loops and the sort are total here;
      the requirement only marks where the Java sort would throw: `compareVersion` calls
      `Integer.parseInt` on the tags it compares. */
  method SelectReleases(gitTags: seq<string>, jiraNames: seq<string>) returns (validTags: seq<string>)
    requires forall t :: t in gitTags && Valid(t, jiraNames) ==> Versions.NumericVersion(t)
    ensures validTags == Releases(gitTags, jiraNames)
  {
    var jiraNorm := NormalizedNames(jiraNames);
    validTags := [];
    for i := 0 to |gitTags|
      invariant validTags == ValidTags(gitTags[..i], jiraNames)
    {
      var t := gitTags[i];
      TakeSnoc(gitTags, i);
      assert gitTags[..i + 1][..i] == gitTags[..i];
      if Versions.StripPrefix(t) in jiraNorm {
        validTags := validTags + [t];
      }
    }
    TakeAll(gitTags);
    validTags := if validTags == [] then ["HEAD"] else Sorting.SortBy(validTags, Versions.VersionLe);
  }

  // ----- the 33% rule -----

  /** `Math.max(1, (int) Math.floor(n * 0.33))`, with `0.33` read as the exact fraction
      33/100. */
  function KeepCount(n: nat): (r: nat)
    requires n >= 1
    ensures 1 <= r <= n
    ensures r == 1 || r * 100 <= n * 33 < (r + 1) * 100
  {
    if n * 33 / 100 < 1 then 1 else n * 33 / 100
  }

  /** `filteredFeat`: the features of the first `keepCount` releases. */
  function KeptFeatures(validTags: seq<string>, allFeat: map<string, map<string, Features>>): (r: map<string, map<string, Features>>)
    requires |validTags| >= 1
    requires forall i :: 0 <= i < KeepCount(|validTags|) ==> validTags[i] in allFeat
    ensures r.Keys == set i | 0 <= i < KeepCount(|validTags|) :: validTags[i]
    ensures forall t :: t in r ==> r[t] == allFeat[t]
  {
    var keep := KeepCount(|validTags|);
    map t | t in validTags[..keep] :: allFeat[t]
  }

  /** The key order of a `LinkedHashMap` after putting each of `tags` in turn: a tag put
      again keeps its first place. */
  function InsertionOrder(tags: seq<string>): (r: seq<string>)
    ensures Distinct(r)
    ensures forall t :: t in r <==> t in tags
  {
    if tags == [] then []
    else
      var p, t := InsertionOrder(tags[..|tags| - 1]), tags[|tags| - 1];
      assert tags == tags[..|tags| - 1] + [t];
      if t in p then p else p + [t]
  }

  /** Tags that are all different keep their own order. */
  lemma {:induction false} InsertionOrderOfDistinct(tags: seq<string>)
    requires Distinct(tags)
    ensures InsertionOrder(tags) == tags
  {
    if tags != [] {
      var p := tags[..|tags| - 1];
      InsertionOrderOfDistinct(p);
      assert tags[|tags| - 1] !in p;
      InitLast(tags);
    }
  }

  /** A sorted tag list gives a sorted key order. */
  lemma {:induction false} InsertionOrderSorted(tags: seq<string>, le: (string, string) -> bool)
    requires Sorting.Sorted(tags, le)
    ensures Sorting.Sorted(InsertionOrder(tags), le)
  {
    if tags != [] {
      var p, t := tags[..|tags| - 1], tags[|tags| - 1];
      InsertionOrderSorted(p, le);
      forall x | x in InsertionOrder(p) ensures le(x, t) {
        var i :| 0 <= i < |p| && p[i] == x;
      }
    }
  }

  /** The key order of `filteredFeat`. */
  function KeptOrder(validTags: seq<string>): seq<string>
    requires |validTags| >= 1
  {
    InsertionOrder(validTags[..KeepCount(|validTags|)])
  }

  /** The loop that fills `filteredFeat` from `keptTags`: the map, and the order in which
      the `LinkedHashMap` holds its keys. */
  method KeepReleases(validTags: seq<string>, allFeat: map<string, map<string, Features>>)
    returns (order: seq<string>, filtered: map<string, map<string, Features>>)
    requires |validTags| >= 1
    requires forall i :: 0 <= i < KeepCount(|validTags|) ==> validTags[i] in allFeat
    ensures order == KeptOrder(validTags)
    ensures filtered == KeptFeatures(validTags, allFeat)
  {
    var keep := KeepCount(|validTags|);
    var keptTags := validTags[..keep];
    order, filtered := [], map[];
    for i := 0 to keep
      invariant order == InsertionOrder(keptTags[..i])
      invariant filtered.Keys == set j | 0 <= j < i :: keptTags[j]
      invariant forall t :: t in filtered ==> filtered[t] == allFeat[t]
    {
      var t := keptTags[i];
      assert keptTags[..i + 1][..i] == keptTags[..i];
      assert t in filtered <==> t in keptTags[..i];
      if t !in filtered {
        order := order + [t];
      }
      filtered := filtered[t := allFeat[t]];
      assert (set j | 0 <= j < i + 1 :: keptTags[j]) == (set j | 0 <= j < i :: keptTags[j]) + {t};
    }
    assert keptTags[..keep] == keptTags;
  }

  /** On the sorted release list the kept releases are the oldest: each is no later than
      every release left out. */
  lemma KeptAreOldest(validTags: seq<string>, allFeat: map<string, map<string, Features>>)
    requires |validTags| >= 1 && Sorting.Sorted(validTags, Versions.VersionLe)
    requires forall i :: 0 <= i < KeepCount(|validTags|) ==> validTags[i] in allFeat
    ensures forall t, j :: t in KeptFeatures(validTags, allFeat) && KeepCount(|validTags|) <= j < |validTags| ==>
              Versions.VersionLe(t, validTags[j])
  {
    var keep := KeepCount(|validTags|);
    forall t, j | t in KeptFeatures(validTags, allFeat) && keep <= j < |validTags|
      ensures Versions.VersionLe(t, validTags[j])
    {
      var i :| 0 <= i < keep && validTags[i] == t;
    }
  }

  // ----- history and churn injection -----

  /** The signature a key `relPath#signature` is looked up by. */
  function Signature(key: string): (r: string)
    requires '#' in key
    ensures key == BeforeFirst(key, '#') + "#" + r
  {
    AfterFirst(key, '#')
  }

  /** A feature record once the two process metrics of its signature are written into it. */
  function Injected(key: string, f: Features, histories: map<string, int>, churn: map<string, int>): Features
    requires '#' in key
  {
    f.(methodHistories := Get(histories, Signature(key)), churn := Get(churn, Signature(key)))
  }

  predicate Keyed(feats: map<string, Features>) {
    forall k :: k in feats ==> '#' in k
  }

  predicate AllKeyed(allFeat: map<string, map<string, Features>>) {
    forall t :: t in allFeat ==> Keyed(allFeat[t])
  }

  function InjectedRelease(feats: map<string, Features>, histories: map<string, int>, churn: map<string, int>): map<string, Features>
    requires Keyed(feats)
  {
    map k | k in feats :: Injected(k, feats[k], histories, churn)
  }

  function InjectedAll(allFeat: map<string, map<string, Features>>, histories: map<string, int>, churn: map<string, int>)
    : map<string, map<string, Features>>
    requires AllKeyed(allFeat)
  {
    map t | t in allFeat :: InjectedRelease(allFeat[t], histories, churn)
  }

  /** After injection every release and every key is still there; each record holds the
      counts of its signature (0 when the signature has none), and every other metric is
      as it was. */
  lemma InjectionMeaning(allFeat: map<string, map<string, Features>>, histories: map<string, int>, churn: map<string, int>)
    requires AllKeyed(allFeat)
    ensures var r := InjectedAll(allFeat, histories, churn);
            && r.Keys == allFeat.Keys
            && (forall t :: t in r ==> r[t].Keys == allFeat[t].Keys)
            && forall t, k :: t in allFeat && k in allFeat[t] ==>
                 var f, g := allFeat[t][k], r[t][k];
                 && g.methodHistories == (if Signature(k) in histories then histories[Signature(k)] else 0)
                 && g.churn == (if Signature(k) in churn then churn[Signature(k)] else 0)
                 && g.(methodHistories := f.methodHistories, churn := f.churn) == f
  {
  }

  /** The counts follow the signature alone: two methods declared alike in different files,
      or in different releases, receive the same history and churn. */
  lemma SharedCounts(allFeat: map<string, map<string, Features>>, histories: map<string, int>, churn: map<string, int>,
                     t1: string, k1: string, t2: string, k2: string)
    requires AllKeyed(allFeat)
    requires t1 in allFeat && k1 in allFeat[t1] && t2 in allFeat && k2 in allFeat[t2]
    requires Signature(k1) == Signature(k2)
    ensures var r := InjectedAll(allFeat, histories, churn);
            r[t1][k1].methodHistories == r[t2][k2].methodHistories && r[t1][k1].churn == r[t2][k2].churn
  {
  }

  /** The inner loop over one release's entries. */
  method InjectRelease(feats: map<string, Features>, histories: map<string, int>, churn: map<string, int>)
    returns (r: map<string, Features>)
    requires Keyed(feats)
    ensures r == InjectedRelease(feats, histories, churn)
  {
    r := feats;
    var todo := feats.Keys;
    while todo != {}
      invariant todo <= feats.Keys && r.Keys == feats.Keys
      invariant forall k :: k in todo ==> r[k] == feats[k]
      invariant forall k :: k in feats && k !in todo ==> r[k] == Injected(k, feats[k], histories, churn)
      decreases todo
    {
      var k :| k in todo;
      r := r[k := Injected(k, r[k], histories, churn)];
      todo := todo - {k};
    }
    InjectedReleaseAt(feats, r, histories, churn);
  }

  lemma InjectedReleaseAt(feats: map<string, Features>, r: map<string, Features>, histories: map<string, int>, churn: map<string, int>)
    requires Keyed(feats) && r.Keys == feats.Keys
    requires forall k :: k in feats ==> r[k] == Injected(k, feats[k], histories, churn)
    ensures r == InjectedRelease(feats, histories, churn)
  {
  }

  /** The injection loops of `main` over every release. */
  method InjectAll(allFeat: map<string, map<string, Features>>, histories: map<string, int>, churn: map<string, int>)
    returns (r: map<string, map<string, Features>>)
    requires AllKeyed(allFeat)
    ensures r == InjectedAll(allFeat, histories, churn)
  {
    r := allFeat;
    var todo := allFeat.Keys;
    while todo != {}
      invariant todo <= allFeat.Keys && r.Keys == allFeat.Keys
      invariant forall t :: t in todo ==> r[t] == allFeat[t]
      invariant forall t :: t in allFeat && t !in todo ==> r[t] == InjectedRelease(allFeat[t], histories, churn)
      decreases todo
    {
      var t :| t in todo;
      var feats := InjectRelease(r[t], histories, churn);
      r := r[t := feats];
      todo := todo - {t};
    }
  }

  // ----- which source files are measured -----

  /** The twelve directory segments whose files are never measured. */
  const Excludes: seq<string> := [
    "/test/", "/generated/", "/target/", "/common/", "/utils/", "/examples/",
    "/api/", "/internal/", "/dto/", "/model/", "/config/", "/resources/"]

  /** The three filters of `walkAndExtract`. */
  predicate Extractable(p: string) {
    && EndsWith(p, ".java")
    && Contains(p, "/src/main/java/")
    && var path := ReplaceChar(p, '\\', '/');
       && !EndsWith(path, "Test.java")
       && forall i :: 0 <= i < |Excludes| ==> !Contains(path, Excludes[i])
  }

  /** The filter lambdas, with the early returns of the last one. */
  method IsExtractable(p: string) returns (b: bool)
    ensures b == Extractable(p)
  {
    if !EndsWith(p, ".java") || !Contains(p, "/src/main/java/") {
      return false;
    }
    var path := ReplaceChar(p, '\\', '/');
    if EndsWith(path, "Test.java") {
      return false;
    }
    for i := 0 to |Excludes|
      invariant forall j :: 0 <= j < i ==> !Contains(path, Excludes[j])
    {
      if Contains(path, Excludes[i]) {
        return false;
      }
    }
    return true;
  }

  /** `s.contains(sub)` holds as soon as `sub` sits at some position of `s`. */
  lemma {:induction false} ContainsAt(s: string, sub: string, i: nat)
    requires i + |sub| <= |s| && s[i..i + |sub|] == sub
    ensures Contains(s, sub)
    decreases i
  {
    if i == 0 {
      assert s[..|sub|] == sub;
    } else {
      assert s[1..][i - 1..i - 1 + |sub|] == s[i..i + |sub|];
      ContainsAt(s[1..], sub, i - 1);
    }
  }

  /** Files under one of the excluded segments are never measured, whatever else holds. */
  lemma ExcludedNotExtractable(p: string, e: nat, i: nat)
    requires '\\' !in p && e < |Excludes|
    requires i + |Excludes[e]| <= |p| && p[i..i + |Excludes[e]|] == Excludes[e]
    ensures !Extractable(p)
  {
    var path := ReplaceChar(p, '\\', '/');
    assert path == p;
    ContainsAt(path, Excludes[e], i);
  }

  /** Test classes are never measured. */
  lemma TestNotExtractable(p: string)
    requires EndsWith(p, "Test.java")
    ensures !Extractable(p)
  {
    var path, n := ReplaceChar(p, '\\', '/'), |p| - |"Test.java"|;
    forall i | 0 <= i < |"Test.java"| ensures path[n..][i] == "Test.java"[i] {
      assert p[n..][i] == "Test.java"[i];
    }
  }

  // ----- the walk -----

  /** What the parser and PMD yield for one file: its smell count and its methods. */
  datatype Parsed = Parsed(smells: nat, methods: seq<FeatureExtractor.ParsedMethod>)

  /** A file met by the walk: its path as the walk prints it, its path relative to the
      repository, and the parse, or `None` when `extractFromFile` throws. */
  datatype SourceFile = SourceFile(path: string, relPath: string, parsed: Option<Parsed>)

  predicate Contributes(f: SourceFile) {
    Extractable(f.path) && f.parsed.Some?
  }

  function Extracted(f: SourceFile): map<string, Features>
    requires f.parsed.Some?
  {
    FeatureExtractor.FileFeatures(f.relPath, f.parsed.value.smells, f.parsed.value.methods)
  }

  /** What one file adds to the map: its methods when it is measured, nothing otherwise. */
  function Contribution(f: SourceFile): (r: map<string, Features>)
    ensures !Contributes(f) ==> r == map[]
  {
    if Contributes(f) then Extracted(f) else map[]
  }

  function Contributions(files: seq<SourceFile>): (r: seq<map<string, Features>>)
    ensures |r| == |files| && forall i :: 0 <= i < |files| ==> r[i] == Contribution(files[i])
  {
    MapSeq(Contribution, files)
  }

  function MapSeq<A, B>(f: A -> B, s: seq<A>): (r: seq<B>)
    ensures |r| == |s| && forall i :: 0 <= i < |s| ==> r[i] == f(s[i])
  {
    seq(|s|, i requires 0 <= i < |s| => f(s[i]))
  }

  lemma MapSeqAppend<A, B>(f: A -> B, a: seq<A>, b: seq<A>)
    ensures MapSeq(f, a + b) == MapSeq(f, a) + MapSeq(f, b)
  {
  }

  /** `putAll` of the maps one after the other: a later map overrides an earlier one. */
  function UnionAll<V>(ms: seq<map<string, V>>): map<string, V> {
    if ms == [] then map[] else UnionAll(ms[..|ms| - 1]) + ms[|ms| - 1]
  }

  /** The map `m` after the walk. */
  function WalkMap(files: seq<SourceFile>): map<string, Features> {
    UnionAll(Contributions(files))
  }

  /** `walkAndExtract` over the files `Files.walk` yields. */
  method WalkAndExtract(files: seq<SourceFile>) returns (m: map<string, Features>)
    ensures m == WalkMap(files)
  {
    m := map[];
    for i := 0 to |files|
      invariant m == UnionAll(Contributions(files)[..i])
    {
      var f := files[i];
      assert Contributions(files)[..i + 1][..i] == Contributions(files)[..i];
      var ok := IsExtractable(f.path);
      if ok && f.parsed.Some? {
        var fm := FeatureExtractor.ExtractFromFile(f.relPath, f.parsed.value.smells, f.parsed.value.methods);
        m := m + fm;
      }
    }
    TakeAll(Contributions(files));
  }

  lemma {:induction false} UnionKeys<V>(ms: seq<map<string, V>>, k: string)
    ensures k in UnionAll(ms) <==> exists i :: 0 <= i < |ms| && k in ms[i]
  {
    if ms != [] {
      var front := ms[..|ms| - 1];
      UnionKeys(front, k);
      if k in UnionAll(front) {
        var i :| 0 <= i < |front| && k in front[i];
        assert ms[i] == front[i];
      }
      if exists i :: 0 <= i < |ms| && k in ms[i] {
        var i :| 0 <= i < |ms| && k in ms[i];
        if i < |front| {
          assert front[i] == ms[i];
        }
      }
    }
  }

  lemma {:induction false} UnionLast<V>(ms: seq<map<string, V>>, k: string)
    requires k in UnionAll(ms)
    ensures exists i :: 0 <= i < |ms| && k in ms[i] && UnionAll(ms)[k] == ms[i][k]
                        && forall j :: i < j < |ms| ==> k !in ms[j]
  {
    var front := ms[..|ms| - 1];
    if k !in ms[|ms| - 1] {
      UnionLast(front, k);
      var i :| 0 <= i < |front| && k in front[i] && UnionAll(front)[k] == front[i][k]
               && forall j :: i < j < |front| ==> k !in front[j];
      assert ms[i] == front[i];
      forall j | i < j < |ms| ensures k !in ms[j] {
        if j < |front| {
          assert ms[j] == front[j];
        }
      }
    }
  }

  lemma {:induction false} UnionSkip<V>(a: seq<map<string, V>>, b: seq<map<string, V>>)
    ensures UnionAll(a + [map[]] + b) == UnionAll(a + b)
    decreases |b|
  {
    if b == [] {
      assert (a + [map[]] + b)[..|a|] == a && a + b == a;
    } else {
      var b', x := b[..|b| - 1], b[|b| - 1];
      assert (a + [map[]] + b)[..|a| + 1 + |b'|] == a + [map[]] + b';
      assert (a + b)[..|a| + |b'|] == a + b';
      UnionSkip(a, b');
    }
  }

  /** A key is in the walk's map exactly when some measured file has it. */
  lemma WalkKeys(files: seq<SourceFile>, k: string)
    ensures k in WalkMap(files) <==> exists i :: 0 <= i < |files| && k in Contribution(files[i])
  {
    UnionKeys(Contributions(files), k);
  }

  /** The file whose record a key holds: measured, and no later measured file has the key. */
  predicate LastWith(files: seq<SourceFile>, k: string, i: int) {
    && 0 <= i < |files| && k in Contribution(files[i])
    && forall j :: i < j < |files| ==> k !in Contribution(files[j])
  }

  /** When the same key comes from several files, the last measured one wins. */
  lemma WalkLastWins(files: seq<SourceFile>, k: string)
    requires k in WalkMap(files)
    ensures exists i :: LastWith(files, k, i) && WalkMap(files)[k] == Contribution(files[i])[k]
  {
    var cs := Contributions(files);
    UnionLast(cs, k);
    var i :| 0 <= i < |cs| && k in cs[i] && UnionAll(cs)[k] == cs[i][k] && forall j :: i < j < |cs| ==> k !in cs[j];
    assert LastWith(files, k, i);
  }

  /** A file that is filtered out, or whose extraction throws, changes nothing: the walk
      gives the same map without it. */
  lemma SkippedFile(a: seq<SourceFile>, f: SourceFile, b: seq<SourceFile>)
    requires !Contributes(f)
    ensures WalkMap(a + [f] + b) == WalkMap(a + b)
  {
    MapSeqAppend(Contribution, a + [f], b);
    MapSeqAppend(Contribution, a, [f]);
    MapSeqAppend(Contribution, a, b);
    assert MapSeq(Contribution, [f]) == [map[]];
    UnionSkip(Contributions(a), Contributions(b));
  }

  // ----- the bug-fix pattern -----

  /** The fields of a Jira ticket the pattern looks at; a missing field is `None`. */
  datatype TicketInfo = TicketInfo(key: string, issueType: Option<string>, status: Option<string>,
                                   resolution: Option<string>)

  /** `word.equalsIgnoreCase(x)`, which is false for a null `x`. */
  predicate Is(x: Option<string>, word: string) {
    x.Some? && EqualsIgnoreCase(word, x.value)
  }

  /** A Bug, Closed or Resolved, with resolution Fixed. */
  predicate FixedBug(t: TicketInfo) {
    Is(t.issueType, "Bug") && (Is(t.status, "Closed") || Is(t.status, "Resolved")) && Is(t.resolution, "Fixed")
  }

  /** The keys of the fixed bugs, in ticket order. */
  function FixedBugKeys(tks: seq<TicketInfo>): (r: seq<string>)
    ensures |r| <= |tks|
    ensures forall k :: k in r <==> exists i :: 0 <= i < |tks| && FixedBug(tks[i]) && tks[i].key == k
  {
    if tks == [] then []
    else
      var front, t := tks[..|tks| - 1], tks[|tks| - 1];
      var r := FixedBugKeys(front) + (if FixedBug(t) then [t.key] else []);
      assert forall i :: 0 <= i < |front| ==> front[i] == tks[i];
      r
  }

  /** `Pattern.quote`: the text between `\Q` and `\E`, with every `\E` inside it closed,
      escaped and reopened. */
  function Quote(s: string): (r: string)
    ensures StartsWith(r, "\\Q") && EndsWith(r, "\\E")
  {
    "\\Q" + QuoteBody(s) + "\\E"
  }

  function QuoteBody(s: string): string {
    if s == [] then []
    else if |s| >= 2 && s[0] == '\\' && s[1] == 'E' then "\\E\\\\E\\Q" + QuoteBody(s[2..])
    else [s[0]] + QuoteBody(s[1..])
  }

  /** A key without `\E` is quoted verbatim. */
  lemma {:induction false} QuoteVerbatim(s: string)
    requires forall i :: 0 <= i < |s| - 1 ==> !(s[i] == '\\' && s[i + 1] == 'E')
    ensures QuoteBody(s) == s
  {
    if s != [] {
      QuoteVerbatim(s[1..]);
    }
  }

  /** Quoting adds only `\`, `Q` and `E`: a character that is none of them and not in the
      key is not in the quoted text. */
  lemma {:induction false} QuoteAddsNothing(s: string, c: char)
    requires c !in s && c != '\\' && c != 'Q' && c != 'E'
    ensures c !in Quote(s)
  {
    QuoteBodyAddsNothing(s, c);
  }

  lemma {:induction false} QuoteBodyAddsNothing(s: string, c: char)
    requires c !in s && c != '\\' && c != 'Q' && c != 'E'
    ensures c !in QuoteBody(s)
  {
    if s != [] {
      if |s| >= 2 && s[0] == '\\' && s[1] == 'E' {
        QuoteBodyAddsNothing(s[2..], c);
      } else {
        QuoteBodyAddsNothing(s[1..], c);
      }
    }
  }

  function Quoted(keys: seq<string>): (r: seq<string>)
    ensures |r| == |keys| && forall i :: 0 <= i < |keys| ==> r[i] == Quote(keys[i])
  {
    seq(|keys|, i requires 0 <= i < |keys| => Quote(keys[i]))
  }

  /** The text handed to `Pattern.compile`. */
  function Alternation(tks: seq<TicketInfo>): string {
    Join("|", Quoted(FixedBugKeys(tks)))
  }

  /** `buildBugIssuePattern` up to the compilation of the text it builds. */
  method BuildBugAlternation(tks: seq<TicketInfo>) returns (buf: string)
    ensures buf == Alternation(tks)
  {
    buf := "";
    ghost var keys: seq<string> := [];
    for i := 0 to |tks|
      invariant keys == FixedBugKeys(tks[..i])
      invariant buf == Join("|", Quoted(keys))
      invariant buf == [] <==> keys == []
    {
      var t := tks[i];
      assert tks[..i + 1][..i] == tks[..i];
      if !Is(t.issueType, "Bug") {
        continue;
      }
      var s := t.status;
      if !(Is(s, "Closed") || Is(s, "Resolved")) {
        continue;
      }
      if !Is(t.resolution, "Fixed") {
        continue;
      }
      ghost var q := Quoted(keys);
      if |buf| > 0 {
        buf := buf + "|";
      }
      buf := buf + Quote(t.key);
      assert Quoted(keys + [t.key]) == q + [Quote(t.key)];
      keys := keys + [t.key];
      assert (q + [Quote(t.key)])[..|q|] == q;
    }
    TakeAll(tks);
  }

  /** When no key holds `|`, the alternatives of the pattern are exactly the quoted keys of
      the fixed bugs, in ticket order; with no fixed bug the text is empty. */
  lemma AlternationPieces(tks: seq<TicketInfo>)
    requires forall i :: 0 <= i < |tks| ==> '|' !in tks[i].key
    ensures FixedBugKeys(tks) == [] ==> Alternation(tks) == []
    ensures FixedBugKeys(tks) != [] ==> Pieces(Alternation(tks), '|') == Quoted(FixedBugKeys(tks))
  {
    var keys := FixedBugKeys(tks);
    if keys != [] {
      forall i | 0 <= i < |keys| ensures '|' !in Quoted(keys)[i] {
        assert keys[i] in keys;
        QuoteAddsNothing(keys[i], '|');
      }
      PiecesOfJoin('|', Quoted(keys));
    }
  }

  // ----- the Buggy label -----

  /** `buggyMethods` as written: every signature some bug fix changed, without the release
      or the path. */
  function BuggySetAsWritten(buggyMap: map<string, seq<string>>): (r: set<string>)
    ensures forall sig :: sig in r <==> exists c :: c in buggyMap && sig in buggyMap[c]
  {
    set c, sig | c in buggyMap && sig in buggyMap[c] :: sig
  }

  /** As written, the label is "No" on every record: the lookup tag `version#path#signature`
      holds `#`, and no changed signature does. */
  lemma NeverBuggyAsWritten(fpm: map<string, map<string, Features>>, buggyMap: map<string, seq<string>>)
    requires CsvGenerator.AllWellKeyed(fpm)
    requires forall c :: c in buggyMap ==> forall i :: 0 <= i < |buggyMap[c]| ==> '#' !in buggyMap[c][i]
    ensures forall v, k :: v in fpm && k in fpm[v] ==>
              CsvGenerator.MakeRow(v, k, fpm[v][k], BuggySetAsWritten(buggyMap))[19] == "No"
  {
    forall v, k | v in fpm && k in fpm[v]
      ensures CsvGenerator.MakeRow(v, k, fpm[v][k], BuggySetAsWritten(buggyMap))[19] == "No"
    {
      var tag := CsvGenerator.Tag(v, k);
      assert tag[|v|] == '#';
      assert forall c :: c in buggyMap ==> tag !in buggyMap[c];
    }
  }

  /** A method changed by bug-fix commit `c` is in the buggy set, yet its record in any
      release is labelled "No" (for instance release `4.0.0`, path `src/A.java`, signature
      `void close()`). */
  lemma ChangedMethodNotBuggy(v: string, relPath: string, sig: string, c: string, f: Features)
    requires '#' !in relPath && HasFileName(relPath) && '#' !in sig
    ensures sig in BuggySetAsWritten(map[c := [sig]])
    ensures CsvGenerator.WellKeyed(FeatureExtractor.Key(relPath, sig))
    ensures CsvGenerator.MakeRow(v, FeatureExtractor.Key(relPath, sig), f, BuggySetAsWritten(map[c := [sig]]))[19] == "No"
  {
    var buggyMap := map[c := [sig]];
    assert sig in buggyMap[c];
    CsvGenerator.RowOfKey(v, relPath, sig, f, BuggySetAsWritten(buggyMap));
    var tag := CsvGenerator.Tag(v, FeatureExtractor.Key(relPath, sig));
    assert |tag| > |sig|;
    assert forall c' :: c' in buggyMap ==> tag !in buggyMap[c'];
  }

  /** The corrected set: the tag of every record whose signature a bug fix changed. */
  function BuggyTags(fpm: map<string, map<string, Features>>, sigs: set<string>): set<string> {
    set v, k | v in fpm && k in fpm[v] && '#' in k && Signature(k) in sigs :: CsvGenerator.Tag(v, k)
  }

  /** With the corrected set, a record is labelled "Yes" exactly when its signature was
      changed by a bug fix: no release name holds `#`, so a tag names one record only. */
  lemma BuggyLabel(fpm: map<string, map<string, Features>>, sigs: set<string>, v: string, k: string)
    requires CsvGenerator.AllWellKeyed(fpm)
    requires forall u :: u in fpm ==> '#' !in u
    requires v in fpm && k in fpm[v]
    ensures CsvGenerator.MakeRow(v, k, fpm[v][k], BuggyTags(fpm, sigs))[19] == "Yes" <==> Signature(k) in sigs
  {
    var tag := CsvGenerator.Tag(v, k);
    if tag in BuggyTags(fpm, sigs) {
      var v', k' :| v' in fpm && k' in fpm[v'] && '#' in k' && Signature(k') in sigs && CsvGenerator.Tag(v', k') == tag;
      SplitFirstOfJoin(v, '#', k);
      SplitFirstOfJoin(v', '#', k');
      assert v + ['#'] + k == tag == v' + ['#'] + k';
    }
  }

  /** The dataset of the kept releases, labelled with the corrected set: the header, then
      one record per (release, method) of the kept releases, each exactly once, release by
      release in `keptTags` order, so oldest first on a sorted release list. */
  method GenerateDataset(validTags: seq<string>, allFeat: map<string, map<string, Features>>,
                         buggyMap: map<string, seq<string>>)
    returns (csv: seq<seq<string>>, ghost visited: seq<CsvGenerator.Entry>)
    requires |validTags| >= 1
    requires forall i :: 0 <= i < KeepCount(|validTags|) ==> validTags[i] in allFeat
    requires CsvGenerator.AllWellKeyed(allFeat)
    ensures var kept := KeptFeatures(validTags, allFeat);
            && CsvGenerator.AllWellKeyed(kept)
            && multiset(visited) == multiset(CsvGenerator.Entries(kept))
            && CsvGenerator.Printed(kept, BuggyTags(kept, BuggySetAsWritten(buggyMap)), csv, visited)
            && CsvGenerator.InReleaseOrder(KeptOrder(validTags), visited)
    ensures CsvGenerator.Complete(KeptFeatures(validTags, allFeat), BuggyTags(KeptFeatures(validTags, allFeat), BuggySetAsWritten(buggyMap)), csv)
    ensures Sorting.Sorted(validTags, Versions.VersionLe) ==>
              forall i, j :: 1 <= i < j < |csv| ==> |csv[i]| > 0 && |csv[j]| > 0 && Versions.VersionLe(csv[i][0], csv[j][0])
  {
    var order, filtered := KeepReleases(validTags, allFeat);
    var buggy := BuggyTags(filtered, BuggySetAsWritten(buggyMap));
    csv, visited := CsvGenerator.GenerateCsv(order, filtered, buggy);
    if Sorting.Sorted(validTags, Versions.VersionLe) {
      RawCsvOldestFirst(validTags, allFeat, buggy, csv, visited);
    }
  }

  /** On a sorted release list, the raw CSV's Version column never goes down. */
  lemma RawCsvOldestFirst(validTags: seq<string>, allFeat: map<string, map<string, Features>>,
                          buggy: set<string>, csv: seq<seq<string>>, visited: seq<CsvGenerator.Entry>)
    requires |validTags| >= 1 && Sorting.Sorted(validTags, Versions.VersionLe)
    requires forall i :: 0 <= i < KeepCount(|validTags|) ==> validTags[i] in allFeat
    requires CsvGenerator.AllWellKeyed(KeptFeatures(validTags, allFeat))
    requires CsvGenerator.Printed(KeptFeatures(validTags, allFeat), buggy, csv, visited)
    requires CsvGenerator.InReleaseOrder(KeptOrder(validTags), visited)
    ensures forall i, j :: 1 <= i < j < |csv| ==> |csv[i]| > 0 && |csv[j]| > 0 && Versions.VersionLe(csv[i][0], csv[j][0])
  {
    KeptOrderSorted(validTags);
    VisitedInOrder(validTags, allFeat, buggy, csv, visited);
    Versions.VersionLeTotalPreorder();
    ReleasesNonDecreasing(KeptOrder(validTags), visited, Versions.VersionLe);
    forall i, j | 1 <= i < j < |csv| ensures |csv[i]| > 0 && |csv[j]| > 0 && Versions.VersionLe(csv[i][0], csv[j][0]) {
      assert Versions.VersionLe(visited[i - 1].0, visited[j - 1].0);
    }
  }

  /** Entries listed release by release along a sorted key order have non-decreasing
      releases. */
  lemma ReleasesNonDecreasing(order: seq<string>, visited: seq<CsvGenerator.Entry>, le: (string, string) -> bool)
    requires Sorting.TotalPreorder(le) && Sorting.Sorted(order, le)
    requires forall i :: 0 <= i < |visited| ==> visited[i].0 in order
    requires CsvGenerator.InReleaseOrder(order, visited)
    ensures forall i, j :: 0 <= i < j < |visited| ==> le(visited[i].0, visited[j].0)
  {
    forall i, j | 0 <= i < j < |visited| ensures le(visited[i].0, visited[j].0) {
      var a :| 0 <= a < |order| && order[a] == visited[i].0;
      var b :| 0 <= b < |order| && order[b] == visited[j].0;
      assert a <= b;
      if a == b {
        var x := order[a];
        assert le(x, x) || le(x, x);
      }
    }
  }

  lemma KeptOrderSorted(validTags: seq<string>)
    requires |validTags| >= 1 && Sorting.Sorted(validTags, Versions.VersionLe)
    ensures Sorting.Sorted(KeptOrder(validTags), Versions.VersionLe)
  {
    InsertionOrderSorted(validTags[..KeepCount(|validTags|)], Versions.VersionLe);
  }

  /** Each printed record starts with its entry's release, one of the kept tags. */
  lemma VisitedInOrder(validTags: seq<string>, allFeat: map<string, map<string, Features>>,
                       buggy: set<string>, csv: seq<seq<string>>, visited: seq<CsvGenerator.Entry>)
    requires |validTags| >= 1
    requires forall i :: 0 <= i < KeepCount(|validTags|) ==> validTags[i] in allFeat
    requires CsvGenerator.AllWellKeyed(KeptFeatures(validTags, allFeat))
    requires CsvGenerator.Printed(KeptFeatures(validTags, allFeat), buggy, csv, visited)
    ensures forall i :: 0 <= i < |visited| ==> visited[i].0 in KeptOrder(validTags)
    ensures forall c :: 1 <= c < |csv| ==> |csv[c]| > 0 && csv[c][0] == visited[c - 1].0
  {
    var keep := KeepCount(|validTags|);
    forall c | 1 <= c < |csv| ensures |csv[c]| > 0 && csv[c][0] == visited[c - 1].0 {
      var kept, v, k := KeptFeatures(validTags, allFeat), visited[c - 1].0, visited[c - 1].1;
      assert (v, k) in CsvGenerator.Entries(kept);
      var r := CsvGenerator.MakeRow(v, k, kept[v][k], buggy);
      assert csv[c] == r && r[0] == r[..3][0];
    }
    forall i | 0 <= i < |visited| ensures visited[i].0 in KeptOrder(validTags) {
      assert visited[i] in CsvGenerator.Entries(KeptFeatures(validTags, allFeat));
      var t :| 0 <= t < keep && validTags[t] == visited[i].0;
      assert validTags[..keep][t] == visited[i].0;
    }
  }
}
