/** `FeatureExtractor`: the static metrics of every method declared in one source file.
    The parsed file arrives as data: each method's signature, its printed text (with the
    comments already removed) and its syntax tree reduced to the node kinds the metrics
    look at. */
module FeatureExtractor {
  import opened Strings
  import opened SeqFacts

  // ----- syntax trees -----

  /** The node kinds the metrics distinguish; every other node is `Other`. `SwitchEntry`
      records whether the entry has labels (a `default` entry has none). `For` is the
      classic `for`; the enhanced `for` is `Other`. */
  datatype Kind = If | For | While | Do | SwitchEntry(hasLabels: bool)
                | Return | Try | Catch | Assign | Call | Other

  datatype Node = Node(kind: Kind, children: seq<Node>)

  /** The statements `ComplexityVisitor` counts as decision points. */
  predicate IsDecision(k: Kind) {
    k.If? || k.For? || k.While? || k.Do? || (k.SwitchEntry? && k.hasLabels)
  }

  /** The statements that open one more nesting level, labelled or not. */
  predicate Nests(k: Kind) {
    k.If? || k.For? || k.While? || k.Do? || k.SwitchEntry?
  }

  predicate IsReturn(k: Kind) { k.Return? }
  predicate IsTry(k: Kind) { k.Try? }
  predicate IsCatch(k: Kind) { k.Catch? }
  predicate IsAssign(k: Kind) { k.Assign? }
  predicate IsCall(k: Kind) { k.Call? }

  function Max(a: nat, b: nat): nat {
    if a < b then b else a
  }

  /** `n.findAll(X.class).size()`: the nodes of the subtree of `n`, `n` included, whose
      kind satisfies `p`. */
  function Occurrences(n: Node, p: Kind -> bool): nat
    decreases n, 1
  {
    (if p(n.kind) then 1 else 0) + OccurrencesBefore(n, p, |n.children|)
  }

  /** The occurrences in the first `k` children of `n`. */
  function OccurrencesBefore(n: Node, p: Kind -> bool, k: nat): nat
    requires k <= |n.children|
    decreases n, 0, k
  {
    if k == 0 then 0 else OccurrencesBefore(n, p, k - 1) + Occurrences(n.children[k - 1], p)
  }

  /** The deepest level the visitor records inside `n` when it reaches `n` at level `d`
      (0 when `n` holds no nesting statement). */
  function Deepest(n: Node, d: nat): nat
    decreases n, 1
  {
    var nd := if Nests(n.kind) then d + 1 else d;
    Max(if Nests(n.kind) then nd else 0, DeepestBefore(n, nd, |n.children|))
  }

  function DeepestBefore(n: Node, nd: nat, k: nat): nat
    requires k <= |n.children|
    decreases n, 0, k
  {
    if k == 0 then 0 else Max(DeepestBefore(n, nd, k - 1), Deepest(n.children[k - 1], nd))
  }

  /** The largest number of nesting statements met on one path from `n` down to a leaf:
      the nesting-depth metric stated on the tree itself. */
  function Height(n: Node): nat
    decreases n, 1
  {
    (if Nests(n.kind) then 1 else 0) + HeightBefore(n, |n.children|)
  }

  function HeightBefore(n: Node, k: nat): nat
    requires k <= |n.children|
    decreases n, 0, k
  {
    if k == 0 then 0 else Max(HeightBefore(n, k - 1), Height(n.children[k - 1]))
  }

  /** What the visitor records is the nesting height, shifted by the level it starts at. */
  lemma {:induction false} DeepestIsHeight(n: Node, d: nat)
    ensures Deepest(n, d) == if Height(n) == 0 then 0 else d + Height(n)
    decreases n, 1
  {
    var nd := if Nests(n.kind) then d + 1 else d;
    DeepestBeforeIsHeight(n, nd, |n.children|);
  }

  lemma {:induction false} DeepestBeforeIsHeight(n: Node, nd: nat, k: nat)
    requires k <= |n.children|
    ensures DeepestBefore(n, nd, k) == if HeightBefore(n, k) == 0 then 0 else nd + HeightBefore(n, k)
    decreases n, 0, k
  {
    if k > 0 {
      DeepestBeforeIsHeight(n, nd, k - 1);
      DeepestIsHeight(n.children[k - 1], nd);
    }
  }

  /** A path cannot nest more statements than the tree holds. */
  lemma {:induction false} HeightAtMostNesting(n: Node)
    ensures Height(n) <= Occurrences(n, Nests)
    decreases n, 1
  {
    HeightBeforeAtMostNesting(n, |n.children|);
  }

  lemma {:induction false} HeightBeforeAtMostNesting(n: Node, k: nat)
    requires k <= |n.children|
    ensures HeightBefore(n, k) <= OccurrencesBefore(n, Nests, k)
    decreases n, 0, k
  {
    if k > 0 {
      HeightBeforeAtMostNesting(n, k - 1);
      HeightAtMostNesting(n.children[k - 1]);
    }
  }

  /** The nesting height is 0 exactly when the tree holds no nesting statement. */
  lemma {:induction false} HeightZero(n: Node)
    ensures Height(n) == 0 <==> Occurrences(n, Nests) == 0
    decreases n, 1
  {
    HeightBeforeZero(n, |n.children|);
  }

  lemma {:induction false} HeightBeforeZero(n: Node, k: nat)
    requires k <= |n.children|
    ensures HeightBefore(n, k) == 0 <==> OccurrencesBefore(n, Nests, k) == 0
    decreases n, 0, k
  {
    if k > 0 {
      HeightBeforeZero(n, k - 1);
      HeightZero(n.children[k - 1]);
    }
  }

  /** A kind that satisfies `p` whenever it satisfies `q` never occurs more often than `q`:
      e.g. every decision point is a nesting statement. */
  lemma {:induction false} OccurrencesMonotone(n: Node, p: Kind -> bool, q: Kind -> bool)
    requires forall k :: p(k) ==> q(k)
    ensures Occurrences(n, p) <= Occurrences(n, q)
    decreases n, 1
  {
    OccurrencesBeforeMonotone(n, p, q, |n.children|);
  }

  lemma {:induction false} OccurrencesBeforeMonotone(n: Node, p: Kind -> bool, q: Kind -> bool, k: nat)
    requires forall k :: p(k) ==> q(k)
    requires k <= |n.children|
    ensures OccurrencesBefore(n, p, k) <= OccurrencesBefore(n, q, k)
    decreases n, 0, k
  {
    if k > 0 {
      OccurrencesBeforeMonotone(n, p, q, k - 1);
      OccurrencesMonotone(n.children[k - 1], p, q);
    }
  }

  // ----- ComplexityVisitor -----

  /** The visitor that counts decision points and tracks the deepest nesting level. */
  class ComplexityVisitor {
    var decisionPoints: nat
    var maxDepth: nat

    constructor ()
      ensures decisionPoints == 0 && maxDepth == 0
    {
      decisionPoints := 0;
      maxDepth := 0;
    }

    /** `visit(n, d)`: a nesting statement counts itself (a switch entry only when it has
        labels), records level `d + 1` and visits its children at that level; any other
        node visits its children at level `d`. */
    method Visit(n: Node, d: nat)
      modifies this
      ensures decisionPoints == old(decisionPoints) + Occurrences(n, IsDecision)
      ensures maxDepth == Max(old(maxDepth), Deepest(n, d))
      decreases n
    {
      var nd := d;
      if Nests(n.kind) {
        if IsDecision(n.kind) {
          decisionPoints := decisionPoints + 1;
        }
        nd := d + 1;
        maxDepth := Max(maxDepth, nd);
      }
      ghost var points0 := decisionPoints;
      ghost var depth0 := maxDepth;
      for i := 0 to |n.children|
        invariant decisionPoints == points0 + OccurrencesBefore(n, IsDecision, i)
        invariant maxDepth == Max(depth0, DeepestBefore(n, nd, i))
      {
        Visit(n.children[i], nd);
      }
    }
  }

  // ----- lines of code -----

  predicate IsLineTerminator(c: char) {
    c == '\n' || c == '\r'
  }

  /** The length of the first line of `s`: the text before the first terminator. */
  function FirstLineEnd(s: string): (i: nat)
    ensures i <= |s|
    ensures forall j :: 0 <= j < i ==> !IsLineTerminator(s[j])
    ensures i < |s| ==> IsLineTerminator(s[i])
  {
    if s == [] || IsLineTerminator(s[0]) then 0 else 1 + FirstLineEnd(s[1..])
  }

  /** `s.lines()`: lines end at `\n`, `\r` or `\r\n`; no empty line follows a final
      terminator and the empty string has no line. */
  function Lines(s: string): seq<string>
    decreases |s|
  {
    if s == [] then []
    else
      var i := FirstLineEnd(s);
      if i == |s| then [s]
      else [s[..i]] + Lines(s[i + TerminatorLength(s, i)..])
  }

  /** A `\r` directly followed by `\n` is one terminator of two characters. */
  function TerminatorLength(s: string, i: nat): (n: nat)
    requires i < |s|
    ensures 1 <= n <= 2 && i + n <= |s|
    ensures n == 2 ==> s[i + 1] == '\n'
  {
    if s[i] == '\r' && i + 1 < |s| && s[i + 1] == '\n' then 2 else 1
  }

  function NonBlankCount(ls: seq<string>): (r: nat)
    ensures r <= |ls|
  {
    if ls == [] then 0 else (if IsBlank(ls[0]) then 0 else 1) + NonBlankCount(ls[1..])
  }

  /** The LOC metric: the non-blank lines of the method's printed text. */
  function Loc(code: string): nat {
    NonBlankCount(Lines(code))
  }

  /** One step of `lines()`: the first line, then the lines after its terminator. */
  lemma LinesStep(code: string, i: nat, rest: string)
    requires code != [] && i == FirstLineEnd(code) && i < |code|
    requires rest == code[i + TerminatorLength(code, i)..]
    ensures Loc(code) == (if IsBlank(code[..i]) then 0 else 1) + Loc(rest)
  {
    LinesUnfold(code, i, rest);
    NonBlankCons(code[..i], Lines(rest));
  }

  lemma LinesUnfold(code: string, i: nat, rest: string)
    requires code != [] && i == FirstLineEnd(code) && i < |code|
    requires rest == code[i + TerminatorLength(code, i)..]
    ensures Lines(code) == [code[..i]] + Lines(rest)
  {
  }

  lemma NonBlankCons(line: string, ls: seq<string>)
    ensures NonBlankCount([line] + ls) == (if IsBlank(line) then 0 else 1) + NonBlankCount(ls)
  {
    TailOfCons(line, ls);
  }

  /** A text is blank when its first line and what follows the terminator are. */
  lemma BlankStep(code: string, i: nat, t: nat)
    requires i == FirstLineEnd(code) && i < |code| && t == TerminatorLength(code, i)
    ensures IsBlank(code) <==> IsBlank(code[..i]) && IsBlank(code[i + t..])
  {
    if IsBlank(code) {
      BlankParts(code, i, t);
    }
    if IsBlank(code[..i]) && IsBlank(code[i + t..]) {
      BlankWhole(code, i, t);
    }
  }

  lemma BlankParts(code: string, i: nat, t: nat)
    requires i + t <= |code| && IsBlank(code)
    ensures IsBlank(code[..i]) && IsBlank(code[i + t..])
  {
    var line, rest := code[..i], code[i + t..];
    forall j | 0 <= j < |line| ensures IsWhitespace(line[j]) { assert line[j] == code[j]; }
    forall j | 0 <= j < |rest| ensures IsWhitespace(rest[j]) { assert rest[j] == code[i + t + j]; }
  }

  lemma BlankWhole(code: string, i: nat, t: nat)
    requires i == FirstLineEnd(code) && i < |code| && t == TerminatorLength(code, i)
    requires IsBlank(code[..i]) && IsBlank(code[i + t..])
    ensures IsBlank(code)
  {
    var line, rest := code[..i], code[i + t..];
    forall j | 0 <= j < |code| ensures IsWhitespace(code[j]) {
      if j < i {
        assert code[j] == line[j];
      } else if j >= i + t {
        assert code[j] == rest[j - i - t];
      } else if j == i {
        assert IsLineTerminator(code[i]);
      } else {
        assert j == i + 1 && t == 2;
        assert code[j] == '\n';
      }
    }
  }

  /** A method has no line of code exactly when its text is blank. */
  lemma {:induction false} LocZeroIffBlank(code: string)
    ensures Loc(code) == 0 <==> IsBlank(code)
    decreases |code|
  {
    if code != [] {
      var i := FirstLineEnd(code);
      if i < |code| {
        var t := TerminatorLength(code, i);
        LinesStep(code, i, code[i + t..]);
        BlankStep(code, i, t);
        LocZeroIffBlank(code[i + t..]);
      }
    }
  }

  /** Putting one line in front of a text adds one line of code when that line is not blank. */
  lemma LocPrependLine(line: string, rest: string)
    requires forall j :: 0 <= j < |line| ==> !IsLineTerminator(line[j])
    ensures Loc(line + "\n" + rest) == (if IsBlank(line) then 0 else 1) + Loc(rest)
  {
    var s := line + "\n" + rest;
    assert s[|line|] == '\n';
    assert FirstLineEnd(s) == |line| by { FirstLineEndAt(s, |line|); }
    assert s[..|line|] == line;
    assert s[|line| + 1..] == rest;
    assert Lines(s) == [line] + Lines(rest);
    assert ([line] + Lines(rest))[1..] == Lines(rest);
  }

  lemma FirstLineEndAt(s: string, i: nat)
    requires i < |s| && IsLineTerminator(s[i])
    requires forall j :: 0 <= j < i ==> !IsLineTerminator(s[j])
    ensures FirstLineEnd(s) == i
  {
  }

  // ----- features of one method -----

  /** The sixteen metrics recorded for a method. */
  datatype MethodFeatures = MethodFeatures(
    loc: int,
    cyclomatic: int,
    cognitive: int,
    parameterCount: int,
    nestingDepth: int,
    returnCount: int,
    tryCount: int,
    catchCount: int,
    smellsDensity: int,
    manyCatches: int,
    assignmentCount: int,
    invocationCount: int,
    methodHistories: int,
    churn: int,
    methodGt100Loc: int,
    codeSmells: int)

  /** What the parser yields for one method declaration: the declaration as text without
      modifiers, throws clause or parameter names, the printed text and the syntax tree. */
  datatype ParsedMethod = ParsedMethod(signature: string, text: string, tree: Node, parameterCount: nat)

  /** The metrics of method `m` of a file with `smells` code smells. */
  function Features(m: ParsedMethod, smells: nat): (f: MethodFeatures)
    ensures f.loc == Loc(m.text) && f.loc >= 0
    ensures f.cognitive == Occurrences(m.tree, IsDecision) && f.cyclomatic == f.cognitive + 1
    ensures f.nestingDepth == Height(m.tree)
    ensures f.cognitive <= Occurrences(m.tree, Nests) && f.nestingDepth <= Occurrences(m.tree, Nests)
    ensures f.parameterCount == m.parameterCount
    ensures f.returnCount == Occurrences(m.tree, IsReturn)
    ensures f.tryCount == Occurrences(m.tree, IsTry) && f.catchCount == Occurrences(m.tree, IsCatch)
    ensures f.assignmentCount == Occurrences(m.tree, IsAssign)
    ensures f.invocationCount == Occurrences(m.tree, IsCall)
    ensures f.loc > 0 ==> f.smellsDensity * f.loc <= smells * 100 < (f.smellsDensity + 1) * f.loc
    ensures f.loc == 0 ==> f.smellsDensity == 0
    ensures f.manyCatches in {0, 1} && (f.manyCatches == 1 <==> f.catchCount > 2)
    ensures f.methodGt100Loc in {0, 1} && (f.methodGt100Loc == 1 <==> f.loc > 100)
    ensures f.methodHistories == 0 && f.churn == 0
    ensures f.codeSmells == smells
  {
    var loc := Loc(m.text);
    var points := Occurrences(m.tree, IsDecision);
    var catches := Occurrences(m.tree, IsCatch);
    DeepestIsHeight(m.tree, 0);
    HeightAtMostNesting(m.tree);
    OccurrencesMonotone(m.tree, IsDecision, Nests);
    var density := if loc > 0 then (smells * 100) / loc else 0;
    DensityBounds(smells * 100, loc);
    MethodFeatures(
      loc := loc,
      cyclomatic := points + 1,
      cognitive := points,
      parameterCount := m.parameterCount,
      nestingDepth := Deepest(m.tree, 0),
      returnCount := Occurrences(m.tree, IsReturn),
      tryCount := Occurrences(m.tree, IsTry),
      catchCount := catches,
      smellsDensity := density,
      manyCatches := if catches > 2 then 1 else 0,
      assignmentCount := Occurrences(m.tree, IsAssign),
      invocationCount := Occurrences(m.tree, IsCall),
      methodHistories := 0,
      churn := 0,
      methodGt100Loc := if loc > 100 then 1 else 0,
      codeSmells := smells)
  }

  /** Integer division of non-negative numbers rounds down. */
  lemma DensityBounds(x: nat, y: nat)
    ensures y > 0 ==> (x / y) * y <= x < (x / y + 1) * y
  {
    if y > 0 {
      assert x == (x / y) * y + x % y;
    }
  }

  /** The measuring of one declaration in `extractFromFile`, with a fresh visitor started
      at level 0. */
  method MeasureMethod(m: ParsedMethod, smells: nat) returns (f: MethodFeatures)
    ensures f == Features(m, smells)
  {
    var loc := Loc(m.text);
    var cv := new ComplexityVisitor();
    cv.Visit(m.tree, 0);
    var catches := Occurrences(m.tree, IsCatch);
    f := MethodFeatures(
      loc := loc,
      cyclomatic := cv.decisionPoints + 1,
      cognitive := cv.decisionPoints,
      parameterCount := m.parameterCount,
      nestingDepth := cv.maxDepth,
      returnCount := Occurrences(m.tree, IsReturn),
      tryCount := Occurrences(m.tree, IsTry),
      catchCount := catches,
      smellsDensity := if loc > 0 then (smells * 100) / loc else 0,
      manyCatches := if catches > 2 then 1 else 0,
      assignmentCount := Occurrences(m.tree, IsAssign),
      invocationCount := Occurrences(m.tree, IsCall),
      methodHistories := 0,
      churn := 0,
      methodGt100Loc := if loc > 100 then 1 else 0,
      codeSmells := smells);
  }

  // ----- features of one file -----

  /** `relPath + "#" + sig`, the key of a method in the feature map. */
  function Key(relPath: string, signature: string): string {
    relPath + "#" + signature
  }

  /** Within one file, different signatures give different keys. */
  lemma KeyInjective(relPath: string, a: string, b: string)
    ensures Key(relPath, a) == Key(relPath, b) <==> a == b
  {
    if Key(relPath, a) == Key(relPath, b) {
      assert a == Key(relPath, a)[|relPath| + 1..];
      assert b == Key(relPath, b)[|relPath| + 1..];
    }
  }

  /** The map built by `extractFromFile`: one entry per declaration, in the order the
      parser finds them; a later declaration with an equal key replaces an earlier one. */
  function FileFeatures(relPath: string, smells: nat, ms: seq<ParsedMethod>): map<string, MethodFeatures> {
    if ms == [] then map[]
    else
      var last := ms[|ms| - 1];
      FileFeatures(relPath, smells, ms[..|ms| - 1])[Key(relPath, last.signature) := Features(last, smells)]
  }

  lemma FileFeaturesSnoc(relPath: string, smells: nat, ms: seq<ParsedMethod>, m: ParsedMethod)
    ensures FileFeatures(relPath, smells, ms + [m])
         == FileFeatures(relPath, smells, ms)[Key(relPath, m.signature) := Features(m, smells)]
  {
    assert (ms + [m])[..|ms|] == ms;
  }

  /** `extractFromFile` once the file is parsed and its smells counted. */
  method ExtractFromFile(relPath: string, smells: nat, ms: seq<ParsedMethod>)
    returns (result: map<string, MethodFeatures>)
    ensures result == FileFeatures(relPath, smells, ms)
  {
    result := map[];
    for i := 0 to |ms|
      invariant result == FileFeatures(relPath, smells, ms[..i])
    {
      var f := MeasureMethod(ms[i], smells);
      TakeSnoc(ms, i);
      FileFeaturesSnoc(relPath, smells, ms[..i], ms[i]);
      result := result[Key(relPath, ms[i].signature) := f];
    }
    TakeAll(ms);
  }

  /** The last declaration of `ms` with signature `s` is at index `i`. */
  predicate LastDeclared(ms: seq<ParsedMethod>, s: string, i: int) {
    0 <= i < |ms| && ms[i].signature == s && forall k :: i < k < |ms| ==> ms[k].signature != s
  }

  /** The keys of the map are the file's path joined with each declared signature. */
  lemma {:induction false} FileFeaturesKeys(relPath: string, smells: nat, ms: seq<ParsedMethod>)
    ensures FileFeatures(relPath, smells, ms).Keys == set i | 0 <= i < |ms| :: Key(relPath, ms[i].signature)
  {
    if ms != [] {
      var p := ms[..|ms| - 1];
      var last := ms[|ms| - 1];
      FileFeaturesKeys(relPath, smells, p);
      var m := FileFeatures(relPath, smells, ms);
      forall x | x in (set i | 0 <= i < |ms| :: Key(relPath, ms[i].signature)) ensures x in m {
        var i :| 0 <= i < |ms| && Key(relPath, ms[i].signature) == x;
        if i < |p| { assert p[i] == ms[i]; }
      }
      forall x | x in m ensures x in (set i | 0 <= i < |ms| :: Key(relPath, ms[i].signature)) {
        if x != Key(relPath, last.signature) {
          var i :| 0 <= i < |p| && Key(relPath, p[i].signature) == x;
          assert ms[i] == p[i];
        }
      }
    }
  }

  /** Each key holds the features of the last declaration with that signature. */
  lemma {:induction false} FileFeaturesLastWins(relPath: string, smells: nat, ms: seq<ParsedMethod>, i: int)
    requires 0 <= i < |ms| && LastDeclared(ms, ms[i].signature, i)
    ensures Key(relPath, ms[i].signature) in FileFeatures(relPath, smells, ms)
    ensures FileFeatures(relPath, smells, ms)[Key(relPath, ms[i].signature)] == Features(ms[i], smells)
  {
    var p := ms[..|ms| - 1];
    var last := ms[|ms| - 1];
    if i < |p| {
      KeyInjective(relPath, ms[i].signature, last.signature);
      assert p[i] == ms[i];
      forall k | i < k < |p| ensures p[k].signature != p[i].signature { assert p[k] == ms[k]; }
      FileFeaturesLastWins(relPath, smells, p, i);
    }
  }
}
