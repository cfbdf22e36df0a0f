/** `CsvPreprocessor.removeDuplicateRows`: rows that agree on every column but `Version`
    are grouped, and of each group only the row with the oldest version is kept, at the
    place where the group first appeared. A table is its header names and its records,
    each record a sequence of cells as the CSV parser returns them. */
module CsvPreprocessor {
  import opened Wrappers
  import opened Strings
  import opened SeqFacts
  import opened Versions

  type Record = seq<string>

  /** `headers.indexOf(name)`: the first position of `name`, or none. */
  function IndexOfName(headers: seq<string>, name: string): (r: Option<nat>)
    ensures r.None? <==> name !in headers
    ensures r.Some? ==> r.value < |headers| && headers[r.value] == name && name !in headers[..r.value]
  {
    if headers == [] then None
    else if headers[0] == name then Some(0)
    else match IndexOfName(headers[1..], name)
      case None => None
      case Some(i) =>
        assert headers[1..][..i] == headers[1..i + 1];
        Some(i + 1)
  }

  // ----- the grouping key -----

  /** The trimmed cells of the first `width` columns other than column `v`. */
  function Cells(r: Record, width: nat, v: nat): (cs: seq<string>)
    requires width <= |r|
    ensures |cs| <= width
  {
    if width == 0 then []
    else Cells(r, width - 1, v) + (if width - 1 == v then [] else [Trim(r[width - 1])])
  }

  /** Each cell followed by `|`, all concatenated: what the `StringBuilder` accumulates. */
  function Joined(cs: seq<string>): string {
    if cs == [] then "" else cs[0] + "|" + Joined(cs[1..])
  }

  function GroupKey(r: Record, width: nat, v: nat): string
    requires width <= |r|
  {
    Joined(Cells(r, width, v))
  }

  lemma {:induction false} JoinedSnoc(cs: seq<string>, x: string)
    ensures Joined(cs + [x]) == Joined(cs) + x + "|"
  {
    if cs != [] {
      assert (cs + [x])[1..] == cs[1..] + [x];
      JoinedSnoc(cs[1..], x);
    } else {
      assert [x][1..] == [];
    }
  }

  /** Splitting the key at `|` gives back the cells, then an empty piece, when no cell
      holds `|`. */
  lemma {:induction false} PiecesOfJoined(cs: seq<string>)
    requires forall i :: 0 <= i < |cs| ==> '|' !in cs[i]
    ensures Pieces(Joined(cs), '|') == cs + [""]
  {
    if cs != [] {
      PiecesOfJoined(cs[1..]);
      SplitFirstOfJoin(cs[0], '|', Joined(cs[1..]));
      assert Joined(cs) == cs[0] + ['|'] + Joined(cs[1..]);
      assert cs == [cs[0]] + cs[1..];
    }
  }

  /** When no cell holds `|`, two records get the same key exactly when their trimmed
      cells agree. */
  lemma JoinedInjective(a: seq<string>, b: seq<string>)
    requires forall i :: 0 <= i < |a| ==> '|' !in a[i]
    requires forall i :: 0 <= i < |b| ==> '|' !in b[i]
    ensures Joined(a) == Joined(b) <==> a == b
  {
    if Joined(a) == Joined(b) {
      PiecesOfJoined(a);
      PiecesOfJoined(b);
      assert a == (a + [""])[..|a|];
      assert b == (b + [""])[..|b|];
    }
  }

  /** Without that condition the key is ambiguous: moving a `|` from one cell into its
      neighbour leaves the key unchanged. */
  lemma BarAmbiguity(x: string, y: string, z: string)
    ensures Joined([x + "|" + y, z]) == Joined([x, y + "|" + z])
  {
    assert [x + "|" + y, z][1..] == [z];
    assert [z][1..] == [];
    assert [x, y + "|" + z][1..] == [y + "|" + z];
    assert [y + "|" + z][1..] == [];
  }

  /** The key loop of `removeDuplicateRows`. */
  method BuildKey(r: Record, width: nat, v: nat) returns (key: string)
    requires width <= |r|
    ensures key == GroupKey(r, width, v)
  {
    key := "";
    for i := 0 to width
      invariant key == Joined(Cells(r, i, v))
    {
      if i == v {
        assert Cells(r, i + 1, v) == Cells(r, i, v) + [];
        assert Cells(r, i, v) + [] == Cells(r, i, v);
      } else {
        JoinedSnoc(Cells(r, i, v), Trim(r[i]));
        key := key + Trim(r[i]) + "|";
      }
    }
  }

  // ----- the LinkedHashMap of oldest records -----

  /** A record with its group key and its trimmed version. */
  datatype Entry = Entry(key: string, version: string, record: Record)

  /** The insertion-ordered map: its keys in first-insertion order, and its values. */
  datatype Kept = Kept(order: seq<string>, oldest: map<string, Entry>)

  /** A version comparison: negative, zero or positive as the first is older, as old or
      newer. The map logic is stated for any comparison and used with `HeadCompare`. */
  type Comparator = (string, string) -> int

  /** A total preorder given as a three-way comparison. */
  ghost predicate IsOrder(cmp: Comparator) {
    (forall a :: cmp(a, a) == 0)
    && (forall a, b :: cmp(a, b) == -cmp(b, a))
    && (forall a, b, c :: cmp(a, b) <= 0 && cmp(b, c) <= 0 ==>
          cmp(a, c) <= 0 && (cmp(a, b) < 0 || cmp(b, c) < 0 ==> cmp(a, c) < 0))
  }

  lemma HeadCompareIsOrder()
    ensures IsOrder(HeadCompare)
  {
    forall a ensures HeadCompare(a, a) == 0 { HeadCompareReflexive(a); }
    forall a, b ensures HeadCompare(a, b) == -HeadCompare(b, a) { HeadCompareAntisymmetric(a, b); }
    forall a, b, c | HeadCompare(a, b) <= 0 && HeadCompare(b, c) <= 0
      ensures HeadCompare(a, c) <= 0 && (HeadCompare(a, b) < 0 || HeadCompare(b, c) < 0 ==> HeadCompare(a, c) < 0)
    {
      HeadCompareTransitive(a, b, c);
    }
  }

  /** One record: a new key is appended; a known key takes the record only when its
      version is strictly older than the kept one's. */
  function Step(k: Kept, e: Entry, cmp: Comparator): Kept {
    if e.key !in k.oldest then Kept(k.order + [e.key], k.oldest[e.key := e])
    else if cmp(e.version, k.oldest[e.key].version) < 0 then Kept(k.order, k.oldest[e.key := e])
    else k
  }

  function Dedup(es: seq<Entry>, cmp: Comparator): Kept {
    if es == [] then Kept([], map[]) else Step(Dedup(es[..|es| - 1], cmp), es[|es| - 1], cmp)
  }

  lemma DedupSnoc(es: seq<Entry>, n: nat, cmp: Comparator)
    requires n < |es|
    ensures Dedup(es[..n + 1], cmp) == Step(Dedup(es[..n], cmp), es[n], cmp)
  {
    assert es[..n + 1][..n] == es[..n];
  }

  /** The keys of the map are listed once each, in `order`. */
  predicate Coherent(k: Kept) {
    (forall i :: 0 <= i < |k.order| ==> k.order[i] in k.oldest)
    && (forall x :: x in k.oldest ==> x in k.order)
    && forall i, j :: 0 <= i < j < |k.order| ==> k.order[i] != k.order[j]
  }

  lemma {:induction false} DedupCoherent(es: seq<Entry>, cmp: Comparator)
    ensures Coherent(Dedup(es, cmp))
  {
    if es != [] {
      DedupCoherent(es[..|es| - 1], cmp);
    }
  }

  /** Every kept entry is one of the input's, kept under its own key. */
  lemma {:induction false} KeptFrom(es: seq<Entry>, cmp: Comparator)
    ensures forall x :: x in Dedup(es, cmp).oldest ==> Dedup(es, cmp).oldest[x] in es && Dedup(es, cmp).oldest[x].key == x
  {
    if es != [] {
      var p := es[..|es| - 1];
      KeptFrom(p, cmp);
      forall x | x in Dedup(p, cmp).oldest ensures Dedup(p, cmp).oldest[x] in es {
        var i :| 0 <= i < |p| && p[i] == Dedup(p, cmp).oldest[x];
        assert es[i] == p[i];
      }
    }
  }

  /** Every entry's group is kept, and the groups are exactly the keys of the entries. */
  lemma {:induction false} DedupKeys(es: seq<Entry>, cmp: Comparator)
    ensures Dedup(es, cmp).oldest.Keys == set i | 0 <= i < |es| :: es[i].key
  {
    if es != [] {
      var p := es[..|es| - 1];
      DedupKeys(p, cmp);
      var ks := set i | 0 <= i < |es| :: es[i].key;
      var kp := set i | 0 <= i < |p| :: p[i].key;
      assert ks == kp + {es[|es| - 1].key} by {
        forall x | x in ks ensures x in kp + {es[|es| - 1].key} {
          var i :| 0 <= i < |es| && es[i].key == x;
          if i < |p| { assert p[i] == es[i]; }
        }
        forall x | x in kp ensures x in ks {
          var i :| 0 <= i < |p| && p[i].key == x;
          assert es[i] == p[i];
        }
      }
    }
  }

  /** The kept entry of each group is no newer than any entry of that group. */
  ghost predicate OldestOfGroup(es: seq<Entry>, k: Kept, cmp: Comparator) {
    forall i :: 0 <= i < |es| ==>
      es[i].key in k.oldest && cmp(k.oldest[es[i].key].version, es[i].version) <= 0
  }

  lemma {:induction false} DedupOldest(es: seq<Entry>, cmp: Comparator)
    requires IsOrder(cmp)
    ensures OldestOfGroup(es, Dedup(es, cmp), cmp)
  {
    if es != [] {
      var p := es[..|es| - 1];
      DedupOldest(p, cmp);
      InitLast(es);
      OldestStep(p, Dedup(p, cmp), es[|es| - 1], cmp);
    }
  }

  /** One step keeps, for every group, an entry no newer than the group's entries. */
  lemma OldestStep(p: seq<Entry>, prev: Kept, e: Entry, cmp: Comparator)
    requires IsOrder(cmp) && OldestOfGroup(p, prev, cmp)
    ensures OldestOfGroup(p + [e], Step(prev, e, cmp), cmp)
  {
    var es, k := p + [e], Step(prev, e, cmp);
    forall i | 0 <= i < |es|
      ensures es[i].key in k.oldest && cmp(k.oldest[es[i].key].version, es[i].version) <= 0
    {
      if i < |p| {
        assert es[i] == p[i];
        if p[i].key == e.key && e.key in prev.oldest && k.oldest[e.key] == e {
          assert cmp(e.version, prev.oldest[e.key].version) <= 0;
        }
      }
    }
  }

  /** The kept entry of a group is preceded by no entry of its group that is as old:
      among the oldest, the first one stays. */
  ghost predicate FirstOldest(es: seq<Entry>, k: Kept, cmp: Comparator) {
    forall x :: x in k.oldest ==> KeptFirst(es, k.oldest[x], x, cmp)
  }

  /** `w` occurs in `es`, and every earlier entry of group `x` is strictly newer. */
  ghost predicate KeptFirst(es: seq<Entry>, w: Entry, x: string, cmp: Comparator) {
    exists j :: 0 <= j < |es| && es[j] == w
      && forall i :: 0 <= i < j && es[i].key == x ==> cmp(es[i].version, w.version) > 0
  }

  lemma {:induction false} DedupFirstOldest(es: seq<Entry>, cmp: Comparator)
    requires IsOrder(cmp)
    ensures FirstOldest(es, Dedup(es, cmp), cmp)
  {
    if es != [] {
      var p, e := es[..|es| - 1], es[|es| - 1];
      DedupFirstOldest(p, cmp);
      DedupOldest(p, cmp);
      InitLast(es);
      if TakesOver(Dedup(p, cmp), e, cmp) {
        NewOldest(p, Dedup(p, cmp), e, cmp);
      }
      FirstOldestStep(p, Dedup(p, cmp), e, cmp);
    }
  }

  /** The new entry replaces the kept one of its group, or starts the group. */
  predicate TakesOver(prev: Kept, e: Entry, cmp: Comparator) {
    e.key !in prev.oldest || cmp(e.version, prev.oldest[e.key].version) < 0
  }

  /** One step keeps the first oldest entry of every group. */
  lemma FirstOldestStep(p: seq<Entry>, prev: Kept, e: Entry, cmp: Comparator)
    requires FirstOldest(p, prev, cmp)
    requires TakesOver(prev, e, cmp) ==>
               forall i :: 0 <= i < |p| && p[i].key == e.key ==> cmp(p[i].version, e.version) > 0
    ensures FirstOldest(p + [e], Step(prev, e, cmp), cmp)
  {
    var k := Step(prev, e, cmp);
    forall x | x in k.oldest ensures KeptFirst(p + [e], k.oldest[x], x, cmp) {
      if x == e.key && TakesOver(prev, e, cmp) {
        KeptFirstNew(p, e, cmp);
      } else {
        KeptFirstSnoc(p, prev.oldest[x], x, e, cmp);
      }
    }
  }

  lemma KeptFirstSnoc(p: seq<Entry>, w: Entry, x: string, e: Entry, cmp: Comparator)
    requires KeptFirst(p, w, x, cmp)
    ensures KeptFirst(p + [e], w, x, cmp)
  {
    var j :| 0 <= j < |p| && p[j] == w
      && forall i :: 0 <= i < j && p[i].key == x ==> cmp(p[i].version, w.version) > 0;
    assert (p + [e])[j] == w;
    forall i | 0 <= i < j && (p + [e])[i].key == x ensures cmp((p + [e])[i].version, w.version) > 0 {
      assert (p + [e])[i] == p[i];
    }
  }

  lemma KeptFirstNew(p: seq<Entry>, e: Entry, cmp: Comparator)
    requires forall i :: 0 <= i < |p| && p[i].key == e.key ==> cmp(p[i].version, e.version) > 0
    ensures KeptFirst(p + [e], e, e.key, cmp)
  {
    var es := p + [e];
    assert es[|p|] == e;
    forall i | 0 <= i < |p| && es[i].key == e.key ensures cmp(es[i].version, e.version) > 0 {
      assert es[i] == p[i];
    }
  }

  /** An entry that takes over its group is strictly older than every earlier one of it. */
  lemma NewOldest(p: seq<Entry>, prev: Kept, e: Entry, cmp: Comparator)
    requires IsOrder(cmp) && OldestOfGroup(p, prev, cmp) && TakesOver(prev, e, cmp)
    ensures forall i :: 0 <= i < |p| && p[i].key == e.key ==> cmp(p[i].version, e.version) > 0
  {
    forall i | 0 <= i < |p| && p[i].key == e.key ensures cmp(p[i].version, e.version) > 0 {
      assert cmp(prev.oldest[e.key].version, p[i].version) <= 0;
    }
  }

  /** Entries whose groups are all different pass through unchanged. */
  lemma {:induction false} DistinctGroupsKept(es: seq<Entry>, cmp: Comparator)
    requires forall i, j :: 0 <= i < j < |es| ==> es[i].key != es[j].key
    ensures |Dedup(es, cmp).order| == |es|
    ensures forall i :: 0 <= i < |es| ==> Dedup(es, cmp).order[i] == es[i].key && es[i].key in Dedup(es, cmp).oldest
                                           && Dedup(es, cmp).oldest[es[i].key] == es[i]
  {
    if es != [] {
      var p := es[..|es| - 1];
      var e := es[|es| - 1];
      DistinctGroupsKept(p, cmp);
      DedupKeys(p, cmp);
      if e.key in Dedup(p, cmp).oldest {
        assert false;
      }
      forall i | 0 <= i < |p| ensures p[i] == es[i] { }
    }
  }

  /** `p` is the position of the first entry of group `x`. */
  ghost predicate FirstAt(es: seq<Entry>, x: string, p: int) {
    0 <= p < |es| && es[p].key == x && forall q :: 0 <= q < p ==> es[q].key != x
  }

  /** `order` lists groups of `es` in the order in which their first entries come: a key
      put again into a `LinkedHashMap` keeps its place. */
  ghost predicate FirstSeenOrder(es: seq<Entry>, order: seq<string>) {
    (forall i :: 0 <= i < |order| ==> Seen(es, order[i]))
    && forall i, j :: 0 <= i < j < |order| ==> SeenBefore(es, order[i], order[j])
  }

  /** Some entry of `es` is in group `x`. */
  ghost predicate Seen(es: seq<Entry>, x: string) {
    exists p :: FirstAt(es, x, p)
  }

  /** The first entry of group `x` comes before the first entry of group `y`. */
  ghost predicate SeenBefore(es: seq<Entry>, x: string, y: string) {
    exists px, py :: FirstAt(es, x, px) && FirstAt(es, y, py) && px < py
  }

  lemma {:induction false} DedupFirstSeen(es: seq<Entry>, cmp: Comparator)
    ensures FirstSeenOrder(es, Dedup(es, cmp).order)
  {
    if es != [] {
      var p, e := es[..|es| - 1], es[|es| - 1];
      DedupFirstSeen(p, cmp);
      DedupKeys(p, cmp);
      InitLast(es);
      FirstSeenStep(p, Dedup(p, cmp), e, cmp);
    }
  }

  /** A first position in a prefix stays one when an entry is appended. */
  lemma FirstAtSnoc(p: seq<Entry>, e: Entry, x: string, q: int)
    requires FirstAt(p, x, q)
    ensures FirstAt(p + [e], x, q)
  {
    assert (p + [e])[q] == p[q];
    forall r | 0 <= r < q ensures (p + [e])[r].key != x {
      assert (p + [e])[r] == p[r];
    }
  }

  lemma FirstSeenStep(p: seq<Entry>, prev: Kept, e: Entry, cmp: Comparator)
    requires FirstSeenOrder(p, prev.order)
    requires prev.oldest.Keys == set i | 0 <= i < |p| :: p[i].key
    ensures FirstSeenOrder(p + [e], Step(prev, e, cmp).order)
  {
    var es, o, o' := p + [e], prev.order, Step(prev, e, cmp).order;
    var isNew := e.key !in prev.oldest;
    assert o' == if isNew then o + [e.key] else o;
    if isNew {
      forall q | 0 <= q < |p| ensures es[q].key != e.key {
        assert es[q] == p[q];
      }
      assert FirstAt(es, e.key, |p|);
    }
    forall i | 0 <= i < |o'| ensures Seen(es, o'[i]) {
      if i < |o| {
        var q :| FirstAt(p, o[i], q);
        FirstAtSnoc(p, e, o[i], q);
        assert FirstAt(es, o'[i], q);
      } else {
        assert FirstAt(es, o'[i], |p|);
      }
    }
    forall i, j | 0 <= i < j < |o'| ensures SeenBefore(es, o'[i], o'[j])
    {
      if j < |o| {
        var pi, pj :| FirstAt(p, o[i], pi) && FirstAt(p, o[j], pj) && pi < pj;
        FirstAtSnoc(p, e, o[i], pi);
        FirstAtSnoc(p, e, o[j], pj);
        assert FirstAt(es, o'[i], pi) && FirstAt(es, o'[j], pj);
      } else {
        var q :| FirstAt(p, o[i], q);
        FirstAtSnoc(p, e, o[i], q);
        assert FirstAt(es, o'[i], q) && FirstAt(es, o'[j], |p|);
      }
    }
  }

  // ----- from records to entries -----

  function Version(r: Record, v: nat): string
    requires v < |r|
  {
    Trim(r[v])
  }

  predicate Wide(records: seq<Record>, width: nat) {
    forall i :: 0 <= i < |records| ==> width <= |records[i]|
  }

  function EntryOf(r: Record, width: nat, v: nat): Entry
    requires v < width <= |r|
  {
    Entry(GroupKey(r, width, v), Version(r, v), r)
  }

  function Entries(records: seq<Record>, width: nat, v: nat): (es: seq<Entry>)
    requires v < width && Wide(records, width)
    ensures |es| == |records|
    ensures forall i :: 0 <= i < |records| ==> es[i] == EntryOf(records[i], width, v)
  {
    seq(|records|, i requires 0 <= i < |records| => EntryOf(records[i], width, v))
  }

  /** The records written out, one per group, in the order of the groups' first rows;
      each as the cells of the header's columns. */
  function Output(records: seq<Record>, width: nat, v: nat): (out: seq<Record>)
    requires v < width && Wide(records, width)
    ensures forall i :: 0 <= i < |out| ==> |out[i]| == width
  {
    var es := Entries(records, width, v);
    var k := Dedup(es, HeadCompare);
    DedupCoherent(es, HeadCompare);
    KeptFrom(es, HeadCompare);
    seq(|k.order|, i requires 0 <= i < |k.order| => k.oldest[k.order[i]].record[..width])
  }

  /** Of each group of records the kept one has the oldest version (`HEAD` counting as
      older than any release), and it is the first record of the group with that version. */
  lemma KeptOldestFirst(records: seq<Record>, width: nat, v: nat)
    requires v < width && Wide(records, width)
    ensures OldestOfGroup(Entries(records, width, v), Dedup(Entries(records, width, v), HeadCompare), HeadCompare)
    ensures FirstOldest(Entries(records, width, v), Dedup(Entries(records, width, v), HeadCompare), HeadCompare)
  {
    var es := Entries(records, width, v);
    HeadCompareIsOrder();
    DedupOldest(es, HeadCompare);
    DedupFirstOldest(es, HeadCompare);
  }

  // ----- idempotence -----

  /** The group key reads only the header's columns. */
  lemma {:induction false} CellsOfPrefix(r: Record, width: nat, w: nat, v: nat)
    requires w <= width <= |r|
    ensures Cells(r[..width], w, v) == Cells(r, w, v)
  {
    if w > 0 {
      CellsOfPrefix(r, width, w - 1, v);
      assert r[..width][w - 1] == r[w - 1];
    }
  }

  /** The rows written out are the kept records, one per group, with the groups in the
      order in which their first records come in the input. */
  lemma OutputKeys(records: seq<Record>, width: nat, v: nat)
    requires v < width && Wide(records, width)
    ensures var out := Output(records, width, v);
            var k := Dedup(Entries(records, width, v), HeadCompare);
            |out| == |k.order|
            && (forall i :: 0 <= i < |out| ==>
                 Entries(out, width, v)[i].key == k.order[i] && k.order[i] in k.oldest
                 && Entries(out, width, v)[i].version == k.oldest[k.order[i]].version)
            && FirstSeenOrder(Entries(records, width, v), k.order)
  {
    var es := Entries(records, width, v);
    var out := Output(records, width, v);
    var k := Dedup(es, HeadCompare);
    DedupCoherent(es, HeadCompare);
    DedupFirstSeen(es, HeadCompare);
    KeptFrom(es, HeadCompare);
    forall i | 0 <= i < |out|
      ensures Entries(out, width, v)[i].key == k.order[i]
      ensures Entries(out, width, v)[i].version == k.oldest[k.order[i]].version
    {
      var e := k.oldest[k.order[i]];
      var j :| 0 <= j < |es| && es[j] == e;
      CellsOfPrefix(e.record, width, width, v);
      assert out[i] == e.record[..width];
    }
  }

  /** Removing duplicates twice is removing them once. */
  lemma OutputIdempotent(records: seq<Record>, width: nat, v: nat)
    requires v < width && Wide(records, width)
    ensures Output(Output(records, width, v), width, v) == Output(records, width, v)
  {
    var out := Output(records, width, v);
    var k := Dedup(Entries(records, width, v), HeadCompare);
    var es2 := Entries(out, width, v);
    OutputKeys(records, width, v);
    DedupCoherent(Entries(records, width, v), HeadCompare);
    DistinctGroupsKept(es2, HeadCompare);
    var out2 := Output(out, width, v);
    assert |out2| == |out|;
    forall i | 0 <= i < |out| ensures out2[i] == out[i] {
      assert out2[i] == es2[i].record[..width];
      TakeAll(out[i]);
    }
  }

  // ----- removeDuplicateRows -----

  /** Every Version cell parses: `HEAD` or numeric parts. */
  predicate VersionsParse(headers: seq<string>, records: seq<Record>) {
    forall i, j :: 0 <= i < |records| && 0 <= j < |headers| && j < |records[i]| && headers[j] == "Version" ==>
      HeadOrNumeric(Trim(records[i][j]))
  }

  /** The method's map mirrors the kept entries: same keys in the same order, holding their
      records. */
  ghost predicate Mirrors(order: seq<string>, oldest: map<string, Record>, k: Kept) {
    order == k.order && oldest.Keys == k.oldest.Keys
    && forall x :: x in oldest ==> oldest[x] == k.oldest[x].record
  }

  /** Every kept entry carries the version of its record, and that version parses. */
  ghost predicate Faithful(k: Kept, width: nat, v: nat) {
    forall x :: x in k.oldest ==>
      v < width <= |k.oldest[x].record| && k.oldest[x].version == Version(k.oldest[x].record, v)
      && HeadOrNumeric(k.oldest[x].version)
  }

  lemma StepFaithful(k: Kept, e: Entry, width: nat, v: nat)
    requires Faithful(k, width, v)
    requires v < width <= |e.record| && e.version == Version(e.record, v) && HeadOrNumeric(e.version)
    ensures Faithful(Step(k, e, HeadCompare), width, v)
  {
    var s := Step(k, e, HeadCompare);
    StepValues(k, e);
    forall x | x in s.oldest
      ensures v < width <= |s.oldest[x].record| && s.oldest[x].version == Version(s.oldest[x].record, v)
      ensures HeadOrNumeric(s.oldest[x].version)
    {
      if s.oldest[x] != e {
        assert x in k.oldest && s.oldest[x] == k.oldest[x];
      }
    }
  }

  /** After a step, each kept entry is the new one or was kept before. */
  lemma StepValues(k: Kept, e: Entry)
    ensures forall x :: x in Step(k, e, HeadCompare).oldest ==>
              Step(k, e, HeadCompare).oldest[x] == e || (x in k.oldest && Step(k, e, HeadCompare).oldest[x] == k.oldest[x])
  {
  }

  /** One record of the main loop. */
  method AddRecord(order: seq<string>, oldest: map<string, Record>, r: Record, width: nat, v: nat, ghost k: Kept)
    returns (order': seq<string>, oldest': map<string, Record>)
    requires v < width <= |r| && HeadOrNumeric(Version(r, v))
    requires Mirrors(order, oldest, k) && Faithful(k, width, v)
    ensures Mirrors(order', oldest', Step(k, EntryOf(r, width, v), HeadCompare))
    ensures Faithful(Step(k, EntryOf(r, width, v), HeadCompare), width, v)
  {
    ghost var e := EntryOf(r, width, v);
    StepFaithful(k, e, width, v);
    MirrorsStep(order, oldest, k, e);
    var key := BuildKey(r, width, v);
    var ver := Trim(r[v]);
    assert key == e.key && ver == e.version;
    order', oldest' := order, oldest;
    if key !in oldest {
      order' := order + [key];
      oldest' := oldest[key := r];
    } else {
      assert k.oldest[key].version == Trim(oldest[key][v]);
      var prevVer := Trim(oldest[key][v]);
      var c := CompareWithHead(ver, prevVer);
      if c < 0 {
        oldest' := oldest[key := r];
      }
    }
  }

  /** How a step changes the mirrored map, case by case. */
  lemma MirrorsStep(order: seq<string>, oldest: map<string, Record>, k: Kept, e: Entry)
    requires Mirrors(order, oldest, k)
    ensures e.key !in oldest ==> Mirrors(order + [e.key], oldest[e.key := e.record], Step(k, e, HeadCompare))
    ensures e.key in oldest && HeadCompare(e.version, k.oldest[e.key].version) < 0 ==>
              Mirrors(order, oldest[e.key := e.record], Step(k, e, HeadCompare))
    ensures e.key in oldest && HeadCompare(e.version, k.oldest[e.key].version) >= 0 ==>
              Mirrors(order, oldest, Step(k, e, HeadCompare))
  {
  }

  /** `removeDuplicateRows` on a parsed table: a table without a `Version` column is
      refused; otherwise the header, then the kept records. */
  method RemoveDuplicateRows(headers: seq<string>, records: seq<Record>) returns (out: Result<seq<Record>, string>)
    requires Distinct(headers) && Wide(records, |headers|)
    requires VersionsParse(headers, records)
    ensures out.Failure? <==> "Version" !in headers
    ensures out.Success? ==>
              var v := IndexOfName(headers, "Version");
              v.Some? && out.value == [headers] + Output(records, |headers|, v.value)
  {
    var vi := IndexOfName(headers, "Version");
    if vi.None? {
      return Failure("Header 'Version' not found");
    }
    var v, width := vi.value, |headers|;
    VersionColumnParses(headers, records, v);
    var order, oldest := KeepOldest(records, width, v);
    MirroredWide(records, width, v, order, oldest);
    var rows := WriteRows(headers, order, oldest, width);
    OutputMirrored(records, width, v, order, oldest, rows);
    out := Success(rows);
  }

  /** Every record's cell in column `v` parses as a version. */
  predicate ColumnParses(records: seq<Record>, v: nat) {
    forall i :: 0 <= i < |records| ==> v < |records[i]| && HeadOrNumeric(Version(records[i], v))
  }

  lemma VersionColumnParses(headers: seq<string>, records: seq<Record>, v: nat)
    requires Wide(records, |headers|) && VersionsParse(headers, records)
    requires v < |headers| && headers[v] == "Version"
    ensures ColumnParses(records, v)
  {
    forall i | 0 <= i < |records| ensures v < |records[i]| && HeadOrNumeric(Version(records[i], v)) {
      assert |headers| <= |records[i]|;
    }
  }

  /** The record loop: the map ends up mirroring the kept entries of all records. */
  method KeepOldest(records: seq<Record>, width: nat, v: nat) returns (order: seq<string>, oldest: map<string, Record>)
    requires v < width && Wide(records, width) && ColumnParses(records, v)
    ensures Mirrors(order, oldest, Dedup(Entries(records, width, v), HeadCompare))
  {
    ghost var es := Entries(records, width, v);
    order, oldest := [], map[];
    for n := 0 to |records|
      invariant Mirrors(order, oldest, Dedup(es[..n], HeadCompare))
      invariant Faithful(Dedup(es[..n], HeadCompare), width, v)
    {
      order, oldest := AddRecord(order, oldest, records[n], width, v, Dedup(es[..n], HeadCompare));
      DedupSnoc(es, n, HeadCompare);
    }
    TakeAll(es);
  }

  /** The output loop: the header, then each kept record cut to the header's width. */
  method WriteRows(headers: seq<string>, order: seq<string>, oldest: map<string, Record>, width: nat)
    returns (rows: seq<Record>)
    requires forall j :: 0 <= j < |order| ==> order[j] in oldest && width <= |oldest[order[j]]|
    ensures |rows| == |order| + 1 && rows[0] == headers
    ensures forall j :: 0 <= j < |order| ==> rows[j + 1] == oldest[order[j]][..width]
  {
    rows := [headers];
    for i := 0 to |order|
      invariant |rows| == i + 1 && rows[0] == headers
      invariant forall j :: 0 <= j < i ==> rows[j + 1] == oldest[order[j]][..width]
    {
      var r := oldest[order[i]];
      var row: Record := [];
      for c := 0 to width
        invariant row == r[..c]
      {
        TakeSnoc(r, c);
        row := row + [r[c]];
      }
      rows := rows + [row];
    }
  }

  /** The kept records are listed in `order` and are at least as wide as the header. */
  lemma MirroredWide(records: seq<Record>, width: nat, v: nat, order: seq<string>, oldest: map<string, Record>)
    requires v < width && Wide(records, width)
    requires Mirrors(order, oldest, Dedup(Entries(records, width, v), HeadCompare))
    ensures forall j :: 0 <= j < |order| ==> order[j] in oldest && width <= |oldest[order[j]]|
  {
    var es := Entries(records, width, v);
    DedupCoherent(es, HeadCompare);
    KeptFrom(es, HeadCompare);
    forall j | 0 <= j < |order| ensures order[j] in oldest && width <= |oldest[order[j]]| {
      var e := Dedup(es, HeadCompare).oldest[order[j]];
      var i :| 0 <= i < |es| && es[i] == e;
    }
  }

  lemma OutputMirrored(records: seq<Record>, width: nat, v: nat, order: seq<string>,
                       oldest: map<string, Record>, rows: seq<Record>)
    requires v < width && Wide(records, width)
    requires Mirrors(order, oldest, Dedup(Entries(records, width, v), HeadCompare))
    requires |rows| == |order| + 1
    requires forall j :: 0 <= j < |order| ==>
               order[j] in oldest && width <= |oldest[order[j]]| && rows[j + 1] == oldest[order[j]][..width]
    ensures rows[1..] == Output(records, width, v)
  {
  }
}
