/** Bug attribution and process metrics: which methods each bug-fix commit changed, how
    often each declaration was changed, and how many edited lines fall in it. The Git diff
    and the Java parser are not modelled: each commit arrives with its diff entries, each
    entry with the methods parsed from both sides and the edit hunks between them. */
module BuggyMethodExtractor {
  import opened Wrappers
  import opened Strings
  import opened Accumulate
  import opened SeqFacts

  /** `DiffEntry.ChangeType` */
  datatype ChangeType = Add | Modify | Delete | Rename | Copy

  /** The line range JavaParser reports for a declaration (1-based, both ends included). */
  datatype Range = Range(begin: int, end: int)

  /** One `MethodDeclaration`: `getDeclarationAsString(false, false, false)`, `toString()`
      and `getRange()`. */
  datatype MethodDecl = MethodDecl(signature: string, text: string, range: Option<Range>)

  /** One JGit `Edit`: the old-side lines `[beginA, endA)` are replaced by the new-side lines
      `[beginB, endB)` (0-based). */
  datatype Edit = Edit(beginA: int, endA: int, beginB: int, endB: int)

  /** One entry of `df.scan(parentTree, fixTree)`, with both sides parsed and its edit list. */
  datatype DiffEntry = DiffEntry(
    changeType: ChangeType,
    oldPath: string,
    before: seq<MethodDecl>,
    after: seq<MethodDecl>,
    edits: seq<Edit>)

  /** A commit: its id, its number of parents and its diff against the first parent. */
  datatype Commit = Commit(id: string, parentCount: nat, diffs: seq<DiffEntry>)

  /** The entries both `extractChangedMethods` and `calculateMethodChurn` look at. */
  predicate Considered(d: DiffEntry) {
    d.changeType == Modify && EndsWith(d.oldPath, ".java")
  }

  /** Edits as JGit produces them: both ranges are well formed. */
  predicate WellFormedEdit(e: Edit) {
    0 <= e.beginA <= e.endA && 0 <= e.beginB <= e.endB
  }

  /** No two commits of the list share an id (`git log` lists each commit once). */
  predicate DistinctIds(commits: seq<Commit>) {
    forall i, j :: 0 <= i < j < |commits| ==> commits[i].id != commits[j].id
  }

  // ----- parseMethods -----

  /** The map `parseMethods` builds: declarations put one after another, so a later
      declaration with the same signature replaces an earlier one. */
  function BySignature(decls: seq<MethodDecl>): map<string, MethodDecl> {
    if decls == [] then map[]
    else BySignature(decls[..|decls| - 1])[decls[|decls| - 1].signature := decls[|decls| - 1]]
  }

  /** The last declaration of `decls` that carries signature `s` is at index `i`. */
  predicate LastWith(decls: seq<MethodDecl>, s: string, i: int) {
    0 <= i < |decls| && decls[i].signature == s && forall k :: i < k < |decls| ==> decls[k].signature != s
  }

  /** Every signature of the file is a key, and no other string is. */
  lemma {:induction false} BySignatureKeys(decls: seq<MethodDecl>)
    ensures BySignature(decls).Keys == set i | 0 <= i < |decls| :: decls[i].signature
  {
    if decls != [] {
      var p := decls[..|decls| - 1];
      var last := decls[|decls| - 1];
      BySignatureKeys(p);
      var m := BySignature(decls);
      forall x | x in (set i | 0 <= i < |decls| :: decls[i].signature) ensures x in m {
        var i :| 0 <= i < |decls| && decls[i].signature == x;
        if i < |p| { assert p[i] == decls[i]; }
      }
      forall x | x in m ensures x in (set i | 0 <= i < |decls| :: decls[i].signature) {
        if x != last.signature {
          var i :| 0 <= i < |p| && p[i].signature == x;
          assert decls[i] == p[i];
        }
      }
    }
  }

  /** The value of a signature is the LAST declaration that has it. */
  lemma {:induction false} BySignatureLastWins(decls: seq<MethodDecl>, s: string)
    requires s in BySignature(decls)
    ensures exists i :: LastWith(decls, s, i) && decls[i] == BySignature(decls)[s]
  {
    var p := decls[..|decls| - 1];
    var last := decls[|decls| - 1];
    if s == last.signature {
      assert LastWith(decls, s, |decls| - 1);
    } else {
      BySignatureLastWins(p, s);
      var i :| LastWith(p, s, i) && p[i] == BySignature(p)[s];
      assert decls[i] == p[i];
      forall j | i < j < |decls| ensures decls[j].signature != s {
        if j < |p| { assert decls[j] == p[j]; }
      }
      assert LastWith(decls, s, i);
    }
  }

  lemma BySignatureSnoc(decls: seq<MethodDecl>, md: MethodDecl)
    ensures BySignature(decls + [md]) == BySignature(decls)[md.signature := md]
  {
    assert (decls + [md])[..|decls|] == decls;
  }

  /** `parseMethods`: the `forEach(md -> map.put(sig, md))` loop. */
  method ParseMethods(decls: seq<MethodDecl>) returns (m: map<string, MethodDecl>)
    ensures m == BySignature(decls)
  {
    m := map[];
    for i := 0 to |decls|
      invariant m == BySignature(decls[..i])
    {
      TakeSnoc(decls, i);
      BySignatureSnoc(decls[..i], decls[i]);
      m := m[decls[i].signature := decls[i]];
    }
    TakeAll(decls);
  }

  // ----- changedInSource -----

  /** The signatures present on both sides whose printed texts differ. */
  function ChangedSet(before: seq<MethodDecl>, after: seq<MethodDecl>): set<string> {
    ChangedKeys(BySignature(before), BySignature(after))
  }

  function ChangedKeys(mB: map<string, MethodDecl>, mA: map<string, MethodDecl>): set<string> {
    set s | s in mB && s in mA && mB[s].text != mA[s].text
  }

  /** One turn of the loop of `changedInSource`: some signature of the before-map not yet
      looked at is kept when the after-map holds it with a different text. */
  method ChangedOne(mB: map<string, MethodDecl>, mA: map<string, MethodDecl>, todo: set<string>, changed: seq<string>)
    returns (todo': set<string>, changed': seq<string>)
    requires todo != {} && todo <= mB.Keys
    requires multiset(changed) == multiset(ChangedKeys(mB, mA) - todo)
    ensures todo' < todo
    ensures multiset(changed') == multiset(ChangedKeys(mB, mA) - todo')
  {
    var sig :| sig in todo;
    todo' := todo - {sig};
    if sig in mA && mB[sig].text != mA[sig].text {
      assert ChangedKeys(mB, mA) - todo' == (ChangedKeys(mB, mA) - todo) + {sig};
      changed' := changed + [sig];
    } else {
      assert ChangedKeys(mB, mA) - todo' == ChangedKeys(mB, mA) - todo;
      changed' := changed;
    }
  }

  /** The loop of `changedInSource`: walks the keys of the before-map (in no fixed order)
      and keeps each that the after-map also holds with a different text. */
  method ChangedKeysOf(mB: map<string, MethodDecl>, mA: map<string, MethodDecl>) returns (changed: seq<string>)
    ensures multiset(changed) == multiset(ChangedKeys(mB, mA))
  {
    changed := [];
    var todo := mB.Keys;
    assert ChangedKeys(mB, mA) - todo == {};
    while todo != {}
      invariant todo <= mB.Keys
      invariant multiset(changed) == multiset(ChangedKeys(mB, mA) - todo)
      decreases todo
    {
      todo, changed := ChangedOne(mB, mA, todo, changed);
    }
  }

  /** `changedInSource`: each signature is reported at most once, and exactly the changed
      ones are reported. */
  method ChangedInSource(before: seq<MethodDecl>, after: seq<MethodDecl>) returns (changed: seq<string>)
    ensures multiset(changed) == multiset(ChangedSet(before, after))
  {
    var mB := ParseMethods(before);
    var mA := ParseMethods(after);
    changed := ChangedKeysOf(mB, mA);
  }

  /** A signature is reported iff it occurs on both sides and its last declarations there
      have different texts: identical methods, added methods and deleted methods are never
      reported. */
  lemma ChangedSetMeaning(before: seq<MethodDecl>, after: seq<MethodDecl>, s: string)
    ensures s in ChangedSet(before, after) <==>
      exists i, j :: LastWith(before, s, i) && LastWith(after, s, j) && before[i].text != after[j].text
  {
    if s in ChangedSet(before, after) {
      BySignatureLastWins(before, s);
      BySignatureLastWins(after, s);
    }
    if exists i, j :: LastWith(before, s, i) && LastWith(after, s, j) && before[i].text != after[j].text {
      var i, j :| LastWith(before, s, i) && LastWith(after, s, j) && before[i].text != after[j].text;
      LastWithKey(before, s, i);
      LastWithKey(after, s, j);
    }
  }

  /** The declaration at the last index with a signature is the one the map holds. */
  lemma LastWithKey(decls: seq<MethodDecl>, s: string, i: int)
    requires LastWith(decls, s, i)
    ensures s in BySignature(decls) && BySignature(decls)[s] == decls[i]
  {
    BySignatureKeys(decls);
    assert s in set k | 0 <= k < |decls| :: decls[k].signature;
    BySignatureLastWins(decls, s);
    var i' :| LastWith(decls, s, i') && decls[i'] == BySignature(decls)[s];
    assert i' == i;
  }

  // ----- extractChangedMethods -----

  /** The signatures reported for a commit, with multiplicity: one count per considered
      diff entry that changed the method. */
  function CommitChanges(diffs: seq<DiffEntry>): multiset<string> {
    if diffs == [] then multiset{}
    else
      var d := diffs[|diffs| - 1];
      CommitChanges(diffs[..|diffs| - 1]) + EntryChanges(d)
  }

  function EntryChanges(d: DiffEntry): multiset<string> {
    if Considered(d) then multiset(ChangedSet(d.before, d.after)) else multiset{}
  }

  lemma CommitChangesSnoc(diffs: seq<DiffEntry>, d: DiffEntry)
    ensures CommitChanges(diffs + [d]) == CommitChanges(diffs) + EntryChanges(d)
  {
    assert (diffs + [d])[..|diffs|] == diffs;
  }

  /** The ids of the commits that have a parent. */
  function ParentedIds(commits: seq<Commit>): set<string> {
    set i | 0 <= i < |commits| && commits[i].parentCount > 0 :: commits[i].id
  }

  lemma ParentedIdsSnoc(commits: seq<Commit>, c: Commit)
    ensures ParentedIds(commits + [c]) == ParentedIds(commits) + (if c.parentCount > 0 then {c.id} else {})
  {
    var cs := commits + [c];
    forall x | x in ParentedIds(cs) ensures x in ParentedIds(commits) + (if c.parentCount > 0 then {c.id} else {}) {
      var k :| 0 <= k < |cs| && cs[k].parentCount > 0 && cs[k].id == x;
      if k < |commits| { assert commits[k] == cs[k]; }
    }
    forall x | x in ParentedIds(commits) ensures x in ParentedIds(cs) {
      var k :| 0 <= k < |commits| && commits[k].parentCount > 0 && commits[k].id == x;
      assert cs[k] == commits[k];
    }
    if c.parentCount > 0 {
      assert cs[|commits|] == c;
    }
  }

  /** The inner loop of `extractChangedMethods` for one fix commit. */
  method CommitMethods(fix: Commit) returns (methods: seq<string>)
    ensures multiset(methods) == CommitChanges(fix.diffs)
  {
    methods := [];
    for j := 0 to |fix.diffs|
      invariant multiset(methods) == CommitChanges(fix.diffs[..j])
    {
      var d := fix.diffs[j];
      TakeSnoc(fix.diffs, j);
      CommitChangesSnoc(fix.diffs[..j], d);
      if d.changeType == Modify && EndsWith(d.oldPath, ".java") {
        var ch := ChangedInSource(d.before, d.after);
        methods := methods + ch;
      }
    }
    TakeAll(fix.diffs);
  }

  /** What `extractChangedMethods` puts, commit after commit: a later commit with the same id
      replaces the entry of an earlier one. */
  function ChangesById(commits: seq<Commit>): map<string, multiset<string>> {
    if commits == [] then map[]
    else
      var c := commits[|commits| - 1];
      var m := ChangesById(commits[..|commits| - 1]);
      if c.parentCount > 0 then m[c.id := CommitChanges(c.diffs)] else m
  }

  lemma ChangesByIdSnoc(commits: seq<Commit>, c: Commit)
    ensures ChangesById(commits + [c])
         == if c.parentCount > 0 then ChangesById(commits)[c.id := CommitChanges(c.diffs)] else ChangesById(commits)
  {
    assert (commits + [c])[..|commits|] == commits;
  }

  /** The keys are exactly the ids of the commits that have a parent. */
  lemma {:induction false} ChangesByIdKeys(commits: seq<Commit>)
    ensures ChangesById(commits).Keys == ParentedIds(commits)
  {
    if commits != [] {
      var p := commits[..|commits| - 1];
      var c := commits[|commits| - 1];
      assert commits == p + [c];
      ChangesByIdKeys(p);
      ChangesByIdSnoc(p, c);
      ParentedIdsSnoc(p, c);
    }
  }

  /** When commits with the same id are the same commit (as they are in a repository), the
      entry of every parented commit is its own list of changes. */
  lemma {:induction false} ChangesByIdOfCommit(commits: seq<Commit>, i: int)
    requires forall a, b :: 0 <= a < |commits| && 0 <= b < |commits| && commits[a].id == commits[b].id
               ==> commits[a] == commits[b]
    requires 0 <= i < |commits| && commits[i].parentCount > 0
    ensures commits[i].id in ChangesById(commits)
    ensures ChangesById(commits)[commits[i].id] == CommitChanges(commits[i].diffs)
  {
    var p := commits[..|commits| - 1];
    var c := commits[|commits| - 1];
    assert commits == p + [c];
    ChangesByIdSnoc(p, c);
    if i < |p| && !(c.parentCount > 0 && c.id == commits[i].id) {
      assert p[i] == commits[i];
      ChangesByIdOfCommit(p, i);
    } else if i < |p| {
      assert c == commits[i];
    }
  }

  /** `extractChangedMethods`: commits without a parent get no entry; every other commit maps
      to the changed signatures of its considered diff entries (possibly none). */
  method ExtractChangedMethods(commits: seq<Commit>) returns (result: map<string, seq<string>>)
    ensures result.Keys == ChangesById(commits).Keys
    ensures forall id :: id in result ==> multiset(result[id]) == ChangesById(commits)[id]
  {
    result := map[];
    for i := 0 to |commits|
      invariant result.Keys == ChangesById(commits[..i]).Keys
      invariant forall id :: id in result ==> multiset(result[id]) == ChangesById(commits[..i])[id]
    {
      var fix := commits[i];
      TakeSnoc(commits, i);
      ChangesByIdSnoc(commits[..i], fix);
      if fix.parentCount == 0 {
        continue;
      }
      var methods := CommitMethods(fix);
      result := result[fix.id := methods];
    }
    TakeAll(commits);
  }

  // ----- calculateMethodHistories -----

  /** All reported signatures of the commits that have a parent, with multiplicity. */
  function TotalChanges(commits: seq<Commit>): multiset<string> {
    if commits == [] then multiset{}
    else
      var c := commits[|commits| - 1];
      TotalChanges(commits[..|commits| - 1]) + (if c.parentCount > 0 then CommitChanges(c.diffs) else multiset{})
  }

  lemma TotalChangesSnoc(commits: seq<Commit>, c: Commit)
    ensures TotalChanges(commits + [c])
         == TotalChanges(commits) + (if c.parentCount > 0 then CommitChanges(c.diffs) else multiset{})
  {
    assert (commits + [c])[..|commits|] == commits;
  }

  /** The union of the multisets `m` holds under the keys `ks`, in no particular key order. */
  ghost function SumOver(m: map<string, multiset<string>>, ks: set<string>): multiset<string>
    requires ks <= m.Keys
    decreases ks
  {
    if ks == {} then multiset{} else var k :| k in ks; m[k] + SumOver(m, ks - {k})
  }

  /** The order in which the keys are taken does not matter. */
  lemma {:induction false} SumOverRemove(m: map<string, multiset<string>>, ks: set<string>, k: string)
    requires ks <= m.Keys && k in ks
    ensures SumOver(m, ks) == m[k] + SumOver(m, ks - {k})
    decreases ks
  {
    var k0 :| k0 in ks && SumOver(m, ks) == m[k0] + SumOver(m, ks - {k0});
    if k0 != k {
      SumOverRemove(m, ks - {k0}, k);
      SumOverRemove(m, ks - {k}, k0);
      assert ks - {k0} - {k} == ks - {k} - {k0};
    }
  }

  lemma SumOverAdd(m: map<string, multiset<string>>, ks: set<string>, k: string)
    requires ks <= m.Keys && k in m && k !in ks
    ensures SumOver(m, ks + {k}) == SumOver(m, ks) + m[k]
  {
    SumOverRemove(m, ks + {k}, k);
    assert ks + {k} - {k} == ks;
  }

  /** Only the values under `ks` matter. */
  lemma {:induction false} SumOverAgree(m1: map<string, multiset<string>>, m2: map<string, multiset<string>>, ks: set<string>)
    requires ks <= m1.Keys && ks <= m2.Keys
    requires forall k :: k in ks ==> m1[k] == m2[k]
    ensures SumOver(m1, ks) == SumOver(m2, ks)
    decreases ks
  {
    if ks != {} {
      var k :| k in ks;
      SumOverRemove(m1, ks, k);
      SumOverRemove(m2, ks, k);
      SumOverAgree(m1, m2, ks - {k});
    }
  }

  /** A counting map agrees with a multiset: each present key holds its count, and a key is
      present iff its count is positive. */
  ghost predicate Counts(m: map<string, int>, ms: multiset<string>) {
    forall s :: Get(m, s) == ms[s] && (s in m <==> ms[s] > 0)
  }

  /** The `for (String sig : sigs) histories.merge(sig, 1, Integer::sum)` over one list. */
  method MergeOnes(histories: map<string, int>, sigs: seq<string>, ghost base: multiset<string>)
    returns (histories': map<string, int>)
    requires Counts(histories, base)
    ensures Counts(histories', base + multiset(sigs))
  {
    histories' := histories;
    for j := 0 to |sigs|
      invariant Counts(histories', base + multiset(sigs[..j]))
    {
      TakeSnoc(sigs, j);
      histories' := Merge(histories', sigs[j], 1);
    }
    TakeAll(sigs);
  }

  /** One turn of the loop of `calculateMethodHistories`: some list not yet counted is merged
      into the histories. */
  method CountOne(histories: map<string, int>, changed: map<string, seq<string>>, todo: set<string>,
                  ghost byId: map<string, multiset<string>>)
    returns (histories': map<string, int>, todo': set<string>)
    requires changed.Keys == byId.Keys && forall id :: id in changed ==> multiset(changed[id]) == byId[id]
    requires todo != {} && todo <= changed.Keys
    requires Counts(histories, SumOver(byId, changed.Keys - todo))
    ensures todo' < todo
    ensures Counts(histories', SumOver(byId, changed.Keys - todo'))
  {
    var id :| id in todo;
    ghost var done := changed.Keys - todo;
    SumOverAdd(byId, done, id);
    histories' := MergeOnes(histories, changed[id], SumOver(byId, done));
    todo' := todo - {id};
    assert done + {id} == changed.Keys - todo';
  }

  /** The loop of `calculateMethodHistories` over the lists of a map whose lists hold the
      multisets `byId`, taken in the map's (unspecified) order. */
  method CountValues(changed: map<string, seq<string>>, ghost byId: map<string, multiset<string>>)
    returns (histories: map<string, int>)
    requires changed.Keys == byId.Keys
    requires forall id :: id in changed ==> multiset(changed[id]) == byId[id]
    ensures Counts(histories, SumOver(byId, byId.Keys))
  {
    histories := map[];
    var todo := changed.Keys;
    assert changed.Keys - todo == {};
    while todo != {}
      invariant todo <= changed.Keys
      invariant Counts(histories, SumOver(byId, changed.Keys - todo))
      decreases todo
    {
      histories, todo := CountOne(histories, changed, todo, byId);
    }
    assert changed.Keys - todo == byId.Keys;
  }

  /** `calculateMethodHistories`: every signature of every list in the map of
      `extractChangedMethods` is merged with 1, so the count of a signature is its number of
      occurrences over those lists, and a key is present exactly when that count is
      positive. */
  method CalculateMethodHistories(commits: seq<Commit>) returns (histories: map<string, int>)
    ensures Counts(histories, SumOver(ChangesById(commits), ChangesById(commits).Keys))
  {
    var changed := ExtractChangedMethods(commits);
    histories := CountValues(changed, ChangesById(commits));
  }

  /** When the commits are distinct, as `git log` lists them, the histories count every
      reported change of every commit with a parent. */
  lemma {:induction false} HistoriesOfDistinctCommits(commits: seq<Commit>)
    requires DistinctIds(commits)
    ensures SumOver(ChangesById(commits), ChangesById(commits).Keys) == TotalChanges(commits)
  {
    if commits != [] {
      var p := commits[..|commits| - 1];
      var c := commits[|commits| - 1];
      assert commits == p + [c];
      HistoriesOfDistinctCommits(p);
      ChangesByIdSnoc(p, c);
      TotalChangesSnoc(p, c);
      ChangesByIdKeys(p);
      if c.parentCount > 0 {
        var m := ChangesById(commits);
        var mp := ChangesById(p);
        assert c.id !in mp.Keys;
        SumOverRemove(m, m.Keys, c.id);
        assert m.Keys - {c.id} == mp.Keys;
        SumOverAgree(m, mp, mp.Keys);
      }
    }
  }

  // ----- calculateMethodChurn -----

  /** An edit's weight: lines added plus lines removed. */
  function Weight(e: Edit): int {
    (e.endB - e.beginB) + (e.endA - e.beginA)
  }

  /** The test of `calculateMethodChurn` between an edit and a method's range. */
  predicate Overlaps(e: Edit, r: Range) {
    e.beginB + 1 <= r.end && e.endB >= r.begin
  }

  /** The credit one post-image method receives from an edit: the whole weight when its
      range passes the test, nothing otherwise (also when it has no range). */
  function DeclCredit(e: Edit, md: MethodDecl): seq<Credit> {
    if md.range.Some? && Overlaps(e, md.range.value) then [Credit(md.signature, Weight(e))] else []
  }

  /** The credits one edit gives to the post-image methods, in declaration order. */
  function EditCredits(e: Edit, decls: seq<MethodDecl>): seq<Credit> {
    if decls == [] then []
    else EditCredits(e, decls[..|decls| - 1]) + DeclCredit(e, decls[|decls| - 1])
  }

  function EntryCredits(edits: seq<Edit>, after: seq<MethodDecl>): seq<Credit> {
    if edits == [] then []
    else EntryCredits(edits[..|edits| - 1], after) + EditCredits(edits[|edits| - 1], after)
  }

  function DiffCredits(diffs: seq<DiffEntry>): seq<Credit> {
    if diffs == [] then []
    else DiffCredits(diffs[..|diffs| - 1]) + EntryCreditsOf(diffs[|diffs| - 1])
  }

  function EntryCreditsOf(d: DiffEntry): seq<Credit> {
    if Considered(d) then EntryCredits(d.edits, d.after) else []
  }

  /** Every credit `calculateMethodChurn` merges, in the order it merges them. */
  function ChurnCredits(commits: seq<Commit>): seq<Credit> {
    if commits == [] then []
    else ChurnCredits(commits[..|commits| - 1]) + CommitCredits(commits[|commits| - 1])
  }

  function CommitCredits(c: Commit): seq<Credit> {
    if c.parentCount > 0 then DiffCredits(c.diffs) else []
  }

  lemma EditCreditsSnoc(e: Edit, decls: seq<MethodDecl>, md: MethodDecl)
    ensures EditCredits(e, decls + [md]) == EditCredits(e, decls) + DeclCredit(e, md)
  {
    assert (decls + [md])[..|decls|] == decls;
  }

  lemma EntryCreditsSnoc(edits: seq<Edit>, e: Edit, after: seq<MethodDecl>)
    ensures EntryCredits(edits + [e], after) == EntryCredits(edits, after) + EditCredits(e, after)
  {
    assert (edits + [e])[..|edits|] == edits;
  }

  lemma DiffCreditsSnoc(diffs: seq<DiffEntry>, d: DiffEntry)
    ensures DiffCredits(diffs + [d]) == DiffCredits(diffs) + EntryCreditsOf(d)
  {
    assert (diffs + [d])[..|diffs|] == diffs;
  }

  lemma ChurnCreditsSnoc(commits: seq<Commit>, c: Commit)
    ensures ChurnCredits(commits + [c]) == ChurnCredits(commits) + CommitCredits(c)
  {
    assert (commits + [c])[..|commits|] == commits;
  }

  /** The body of the lambda `r -> { if (overlap) churnMap.merge(sig, delta, Integer::sum); }`
      for one post-image method. */
  method CreditDecl(churn: map<string, int>, e: Edit, delta: int, md: MethodDecl) returns (churn': map<string, int>)
    requires delta == Weight(e)
    ensures churn' == MergeAll(churn, DeclCredit(e, md))
  {
    churn' := churn;
    if md.range.Some? {
      var r := md.range.value;
      if e.beginB + 1 <= r.end && e.endB >= r.begin {
        assert [] + [Credit(md.signature, delta)] == DeclCredit(e, md);
        MergeAllOne(churn, [], Credit(md.signature, delta));
        churn' := Merge(churn, md.signature, delta);
      }
    }
  }

  /** The lambda of `calculateMethodChurn` for one edit: its weight is computed once and
      credited to every post-image method that passes the test. */
  method CreditEdit(churn: map<string, int>, e: Edit, after: seq<MethodDecl>) returns (churn': map<string, int>)
    ensures churn' == MergeAll(churn, EditCredits(e, after))
  {
    churn' := churn;
    var added := e.endB - e.beginB;
    var deleted := e.endA - e.beginA;
    var delta := added + deleted;
    for l := 0 to |after|
      invariant churn' == MergeAll(churn, EditCredits(e, after[..l]))
    {
      var md := after[l];
      TakeSnoc(after, l);
      EditCreditsSnoc(e, after[..l], md);
      MergeAllAppend(churn, EditCredits(e, after[..l]), DeclCredit(e, md));
      churn' := CreditDecl(churn', e, delta, md);
    }
    TakeAll(after);
  }

  /** The loop over the edits of one considered diff entry. */
  method CreditEntry(churn: map<string, int>, d: DiffEntry) returns (churn': map<string, int>)
    ensures churn' == MergeAll(churn, EntryCredits(d.edits, d.after))
  {
    churn' := churn;
    for k := 0 to |d.edits|
      invariant churn' == MergeAll(churn, EntryCredits(d.edits[..k], d.after))
    {
      TakeSnoc(d.edits, k);
      EntryCreditsSnoc(d.edits[..k], d.edits[k], d.after);
      MergeAllAppend(churn, EntryCredits(d.edits[..k], d.after), EditCredits(d.edits[k], d.after));
      churn' := CreditEdit(churn', d.edits[k], d.after);
    }
    TakeAll(d.edits);
  }

  /** The loop over the diff entries of one fix commit. */
  method CreditCommit(churn: map<string, int>, fix: Commit) returns (churn': map<string, int>)
    requires fix.parentCount > 0
    ensures churn' == MergeAll(churn, DiffCredits(fix.diffs))
  {
    churn' := churn;
    for j := 0 to |fix.diffs|
      invariant churn' == MergeAll(churn, DiffCredits(fix.diffs[..j]))
    {
      var d := fix.diffs[j];
      TakeSnoc(fix.diffs, j);
      DiffCreditsSnoc(fix.diffs[..j], d);
      MergeAllAppend(churn, DiffCredits(fix.diffs[..j]), EntryCreditsOf(d));
      if d.changeType == Modify && EndsWith(d.oldPath, ".java") {
        churn' := CreditEntry(churn', d);
      } else {
        assert MergeAll(churn', []) == churn';
      }
    }
    TakeAll(fix.diffs);
  }

  /** `calculateMethodChurn`: every considered entry of every commit with a parent credits
      each of its edits to the overlapping post-image methods. */
  method CalculateMethodChurn(commits: seq<Commit>) returns (churn: map<string, int>)
    ensures churn == MergeAll(map[], ChurnCredits(commits))
  {
    churn := map[];
    for i := 0 to |commits|
      invariant churn == MergeAll(map[], ChurnCredits(commits[..i]))
    {
      var fix := commits[i];
      TakeSnoc(commits, i);
      ChurnCreditsSnoc(commits[..i], fix);
      MergeAllAppend(map[], ChurnCredits(commits[..i]), CommitCredits(fix));
      if fix.parentCount == 0 {
        assert MergeAll(churn, []) == churn;
        continue;
      }
      churn := CreditCommit(churn, fix);
    }
    TakeAll(commits);
  }

  // ----- what churn means -----

  /** A well-formed edit has a non-negative weight. */
  lemma WeightNonNegative(e: Edit)
    requires WellFormedEdit(e)
    ensures Weight(e) >= 0
  {
  }

  /** Line `l` (1-based) is one the edit added and lies in the method's range. */
  predicate AddedLineIn(e: Edit, r: Range, l: int) {
    e.beginB + 1 <= l <= e.endB && r.begin <= l <= r.end
  }

  /** For an edit that adds lines, the test holds iff some added line (1-based
      `beginB + 1 .. endB`) lies in the method's range; for a pure deletion it holds iff the
      deletion point lies strictly before the method's last line and not before its first. */
  lemma OverlapMeaning(e: Edit, r: Range)
    requires r.begin <= r.end
    ensures e.beginB < e.endB ==> (Overlaps(e, r) <==> exists l :: AddedLineIn(e, r, l))
    ensures e.beginB == e.endB ==> (Overlaps(e, r) <==> r.begin <= e.beginB < r.end)
  {
    if e.beginB < e.endB && Overlaps(e, r) {
      var l := if r.begin > e.beginB + 1 then r.begin else e.beginB + 1;
      assert AddedLineIn(e, r, l);
    }
  }

  /** The churn of a signature is the sum of the weights credited to it, and exactly the
      credited signatures are keys. */
  lemma ChurnMeaning(commits: seq<Commit>)
    ensures MergeAll(map[], ChurnCredits(commits)).Keys == CreditedKeys(ChurnCredits(commits))
    ensures forall s :: Get(MergeAll(map[], ChurnCredits(commits)), s) == SumFor(ChurnCredits(commits), s)
  {
    MergeAllSums(ChurnCredits(commits));
  }

  /** One edit credits its whole weight, and exactly the signatures of the post-image methods
      whose range passes the test. */
  lemma {:induction false} EditCreditsMeaning(e: Edit, decls: seq<MethodDecl>)
    ensures forall c :: c in EditCredits(e, decls) ==> c.delta == Weight(e)
    ensures CreditedKeys(EditCredits(e, decls)) == Overlapping(e, decls)
  {
    if decls != [] {
      var p := decls[..|decls| - 1];
      var md := decls[|decls| - 1];
      assert decls == p + [md];
      EditCreditsMeaning(e, p);
      EditCreditsSnoc(e, p, md);
      var a := EditCredits(e, p);
      var b := DeclCredit(e, md);
      CreditedKeysAppend(a, b);
      OverlappingSnoc(e, p, md);
    }
  }

  /** The signatures of the overlapping methods of `decls` (with a range). */
  function Overlapping(e: Edit, decls: seq<MethodDecl>): set<string> {
    set i | 0 <= i < |decls| && decls[i].range.Some? && Overlaps(e, decls[i].range.value) :: decls[i].signature
  }

  lemma OverlappingSnoc(e: Edit, p: seq<MethodDecl>, md: MethodDecl)
    ensures Overlapping(e, p + [md]) == Overlapping(e, p) + CreditedKeys(DeclCredit(e, md))
  {
    var decls := p + [md];
    var b := DeclCredit(e, md);
    forall x | x in Overlapping(e, decls) ensures x in Overlapping(e, p) + CreditedKeys(b) {
      var i :| 0 <= i < |decls| && decls[i].range.Some? && Overlaps(e, decls[i].range.value) && decls[i].signature == x;
      if i < |p| { assert p[i] == decls[i]; } else { assert b[0].key == x; }
    }
    forall x | x in Overlapping(e, p) + CreditedKeys(b) ensures x in Overlapping(e, decls) {
      if x in Overlapping(e, p) {
        var i :| 0 <= i < |p| && p[i].range.Some? && Overlaps(e, p[i].range.value) && p[i].signature == x;
        assert decls[i] == p[i];
      } else {
        assert decls[|decls| - 1] == md;
      }
    }
  }

  lemma {:induction false} SumForAppend(a: seq<Credit>, b: seq<Credit>, k: string)
    ensures SumFor(a + b, k) == SumFor(a, k) + SumFor(b, k)
    decreases |b|
  {
    if b == [] {
      assert a + b == a;
    } else {
      assert (a + b)[..|a + b| - 1] == a + b[..|b| - 1];
      SumForAppend(a, b[..|b| - 1], k);
    }
  }

  /** Well-formed edits only ever add to the churn map. */
  lemma {:induction false} ChurnCreditsNonNegative(commits: seq<Commit>)
    requires forall c, d, e :: c in commits && d in c.diffs && e in d.edits ==> WellFormedEdit(e)
    ensures forall i :: 0 <= i < |ChurnCredits(commits)| ==> ChurnCredits(commits)[i].delta >= 0
  {
    if commits != [] {
      var c := commits[|commits| - 1];
      ChurnCreditsNonNegative(commits[..|commits| - 1]);
      if c.parentCount > 0 {
        DiffCreditsNonNegative(c.diffs);
      }
    }
  }

  lemma {:induction false} DiffCreditsNonNegative(diffs: seq<DiffEntry>)
    requires forall d, e :: d in diffs && e in d.edits ==> WellFormedEdit(e)
    ensures forall i :: 0 <= i < |DiffCredits(diffs)| ==> DiffCredits(diffs)[i].delta >= 0
  {
    if diffs != [] {
      var d := diffs[|diffs| - 1];
      DiffCreditsNonNegative(diffs[..|diffs| - 1]);
      if Considered(d) {
        EntryCreditsNonNegative(d.edits, d.after);
      }
    }
  }

  lemma {:induction false} EntryCreditsNonNegative(edits: seq<Edit>, after: seq<MethodDecl>)
    requires forall e :: e in edits ==> WellFormedEdit(e)
    ensures forall i :: 0 <= i < |EntryCredits(edits, after)| ==> EntryCredits(edits, after)[i].delta >= 0
  {
    if edits != [] {
      EntryCreditsNonNegative(edits[..|edits| - 1], after);
      EditCreditsNonNegative(edits[|edits| - 1], after);
    }
  }

  lemma {:induction false} EditCreditsNonNegative(e: Edit, decls: seq<MethodDecl>)
    requires WellFormedEdit(e)
    ensures forall i :: 0 <= i < |EditCredits(e, decls)| ==> EditCredits(e, decls)[i].delta >= 0
  {
    if decls != [] {
      EditCreditsNonNegative(e, decls[..|decls| - 1]);
    }
  }

  /** Processing more commits never removes a churn key nor lowers a total. */
  lemma ChurnGrows(commits: seq<Commit>, more: seq<Commit>)
    requires forall c, d, e :: c in commits + more && d in c.diffs && e in d.edits ==> WellFormedEdit(e)
    ensures MergeAll(map[], ChurnCredits(commits)).Keys <= MergeAll(map[], ChurnCredits(commits + more)).Keys
    ensures forall s :: Get(MergeAll(map[], ChurnCredits(commits)), s)
                     <= Get(MergeAll(map[], ChurnCredits(commits + more)), s)
  {
    ChurnCreditsAppend(commits, more);
    MergeAllAppend(map[], ChurnCredits(commits), ChurnCredits(more));
    ChurnCreditsNonNegative(more);
    MergeAllGrows(MergeAll(map[], ChurnCredits(commits)), ChurnCredits(more));
  }

  lemma {:induction false} ChurnCreditsAppend(a: seq<Commit>, b: seq<Commit>)
    ensures ChurnCredits(a + b) == ChurnCredits(a) + ChurnCredits(b)
    decreases |b|
  {
    if b == [] {
      assert a + b == a;
    } else {
      var b' := b[..|b| - 1];
      var x := b[|b| - 1];
      assert ChurnCredits(a + b) == ChurnCredits(a + b') + CommitCredits(x) by {
        assert a + b == (a + b') + [x];
        ChurnCreditsSnoc(a + b', x);
      }
      assert ChurnCredits(b) == ChurnCredits(b') + CommitCredits(x) by {
        assert b == b' + [x];
        ChurnCreditsSnoc(b', x);
      }
      ChurnCreditsAppend(a, b');
      ConcatAssoc(ChurnCredits(a), ChurnCredits(b'), CommitCredits(x));
    }
  }

  /** Likewise the history counts only grow as commits are added. */
  lemma {:induction false} TotalChangesGrows(commits: seq<Commit>, more: seq<Commit>)
    ensures forall s :: TotalChanges(commits)[s] <= TotalChanges(commits + more)[s]
    decreases |more|
  {
    if more == [] {
      assert commits + more == commits;
    } else {
      assert (commits + more)[..|commits + more| - 1] == commits + more[..|more| - 1];
      TotalChangesGrows(commits, more[..|more| - 1]);
    }
  }
}
