/**
 * The dependency generator: the path helpers that pick source files, the
 * classifier that decides how one type's code refers to the types it can
 * see, the assembly of the node and edge sets from the per-file scan
 * results, and the validation of the finished graph.
 *
 * The scan itself (a thread pool feeding file names to `src_proc`) is
 * represented by its result: per-file maps keyed by `SourceNode`.
 */
module DependencyGen {
  import opened Wrappers
  import opened Text
  import opened DataStructures
  import opened SrcAnalyzer

  // ---------------------------------------------------------------------
  // Path helpers
  // ---------------------------------------------------------------------

  /**
   * `normalize(path)`: the base name up to its last dot, or the whole base
   * name when it has no dot.
   */
  function Normalize(path: string): (r: string)
    ensures StartsWith(Basename(path), r)
    ensures |r| < |Basename(path)| ==> Basename(path)[|r|] == '.' && '.' !in Basename(path)[|r| + 1..]
    ensures |r| == |Basename(path)| ==> '.' !in Basename(path)
  {
    var filename := Basename(path);
    var dot := RFind(filename, '.');
    var end := if dot != -1 then dot else |filename|;
    filename[..end]
  }

  /**
   * `normalize` names a file as `SourceNode` does, except for a base name
   * whose last dot is preceded only by dots (".bashrc"), which `splitext`
   * keeps whole and `normalize` cuts down to those dots.
   */
  lemma NormalizeIsSourceName(path: string)
    ensures SplitExt(Basename(path)).1 != [] ==> Normalize(path) == NewSourceNode(Basename(path)).sourceName
    ensures Normalize(path) != NewSourceNode(Basename(path)).sourceName ==>
              '.' in Basename(path) && !HasNonDot(Normalize(path), 0, |Normalize(path)|)
  {
    var b := Basename(path);
    var d := RFind(b, '.');
    assert RFind(b, '/') == -1;
    if d >= 0 && !HasNonDot(b, 0, d) {
      var r := b[..d];
      assert Normalize(path) == r;
      assert SplitExt(b) == (b, []);
      assert forall k :: 0 <= k < |r| ==> r[k] == b[k];
      assert b[d] == '.';
    }
  }

  /** The extensions of the files the scan reads: `valid_headers` then `valid_sources`. */
  const ValidExtensions: seq<string> := [".h", ".hpp", ".c", ".cc", ".cpp"]

  /** A directory entry as `os.scandir` reports it. */
  datatype DirEntry = DirEntry(path: string, isFile: bool)

  /**
   * `skip(entry)`: anything under a "/tests/" directory, and any file whose
   * extension is not a valid one. A directory outside "/tests/" is kept.
   */
  function Skip(entry: DirEntry): (r: bool)
    ensures Contains(entry.path, "/tests/") ==> r
    ensures !entry.isFile ==> (r <==> Contains(entry.path, "/tests/"))
  {
    if Contains(entry.path, "/tests/") then true
    else if entry.isFile then SplitExt(entry.path).1 !in ValidExtensions
    else false
  }

  /**
   * A file outside "/tests/" is kept exactly when `SourceType.parseval`
   * knows its extension and that extension is not ".c++": the one spelling
   * `parseval` accepts that the file filter does not.
   */
  lemma SkipAgreesWithSourceType(entry: DirEntry)
    requires entry.isFile && !Contains(entry.path, "/tests/")
    ensures !Skip(entry) <==> ParseSourceType(SplitExt(entry.path).1).Some? && SplitExt(entry.path).1 != ".c++"
  {
    var ext := SplitExt(entry.path).1;
    if ext in ValidExtensions {
      assert ext == ".h" || ext == ".hpp" || ext == ".c" || ext == ".cc" || ext == ".cpp";
    }
  }

  // ---------------------------------------------------------------------
  // Matching a type name inside code
  // ---------------------------------------------------------------------

  /** Regex `\b` at position `p`: a word character on exactly one side of `p`. */
  predicate IsBoundary(s: string, p: int)
  {
    0 <= p <= |s| && ((0 < p && IsWordChar(s[p - 1])) != (p < |s| && IsWordChar(s[p])))
  }

  /** `name` occurs at `i` with a word boundary before and after it. */
  predicate WholeWordAt(s: string, name: string, i: int)
  {
    SubstringAt(s, name, i) && IsBoundary(s, i) && IsBoundary(s, i + |name|)
  }

  /**
   * The search behind `re.findall(r'\bNAME\b', s)`: whether a whole-word
   * occurrence of `name` starts at `from` or later.
   */
  function WholeWordFrom(s: string, name: string, from: nat): (found: bool)
    requires from <= |s|
    ensures found <==> exists i :: from <= i <= |s| && WholeWordAt(s, name, i)
    decreases |s| - from
  {
    if WholeWordAt(s, name, from) then true
    else if from == |s| then false
    else WholeWordFrom(s, name, from + 1)
  }

  /** `re.findall(r'\bNAME\b', s)` is non-empty. */
  predicate HasWholeWord(s: string, name: string)
  {
    WholeWordFrom(s, name, 0)
  }

  /** No word character in `s[lo..hi]`. */
  predicate NonWordRun(s: string, lo: int, hi: int)
  {
    0 <= lo <= hi <= |s| && forall m :: lo <= m < hi ==> !IsWordChar(s[m])
  }

  /**
   * The search behind `re.match(r'\W*NAME\W*', s)` from index `k` on: some
   * run of non-word characters starting at `k` is followed by `name`. The
   * trailing `\W*` matches the empty text, so it never decides.
   */
  function LeadMatchFrom(s: string, name: string, k: nat): (r: bool)
    requires k <= |s|
    ensures r <==> exists j :: k <= j <= |s| && NonWordRun(s, k, j) && StartsWith(s[j..], name)
    decreases |s| - k
  {
    if StartsWith(s[k..], name) then true
    else if k < |s| && !IsWordChar(s[k]) then
      var r := LeadMatchFrom(s, name, k + 1);
      assert r ==> exists j :: k <= j <= |s| && NonWordRun(s, k, j) && StartsWith(s[j..], name) by {
        if r {
          var j :| k + 1 <= j <= |s| && NonWordRun(s, k + 1, j) && StartsWith(s[j..], name);
          assert NonWordRun(s, k, j);
        }
      }
      r
    else
      assert forall j :: k < j <= |s| ==> !NonWordRun(s, k, j) by {
        forall j | k < j <= |s| ensures !NonWordRun(s, k, j) {
          assert IsWordChar(s[k]);
        }
      }
      false
  }

  /** `re.match(r'\W*NAME\W*', s)` succeeds. */
  predicate LeadMatch(s: string, name: string)
  {
    LeadMatchFrom(s, name, 0)
  }

  /** A statement `fieldMatch` accepts: it opens with the name and has no parenthesis. */
  predicate IsFieldStatement(s: string, name: string)
  {
    LeadMatch(s, name) && '(' !in s && ')' !in s
  }

  /** A statement `methodMatch` accepts: it opens with the name and has both parentheses. */
  predicate IsMethodStatement(s: string, name: string)
  {
    LeadMatch(s, name) && '(' in s && ')' in s
  }

  /** `fieldMatch(statements, name)`: the first statement that qualifies ends the search with True. */
  function FieldMatch(statements: seq<string>, name: string): (r: bool)
    ensures r <==> exists i :: 0 <= i < |statements| && IsFieldStatement(statements[i], name)
  {
    if statements == [] then false
    else if IsFieldStatement(statements[0], name) then true
    else
      assert forall i :: 0 < i < |statements| ==> statements[i] == statements[1..][i - 1];
      FieldMatch(statements[1..], name)
  }

  /** `methodMatch(statements, name)`: the first statement that qualifies ends the search with True. */
  function MethodMatch(statements: seq<string>, name: string): (r: bool)
    ensures r <==> exists i :: 0 <= i < |statements| && IsMethodStatement(statements[i], name)
  {
    if statements == [] then false
    else if IsMethodStatement(statements[0], name) then true
    else
      assert forall i :: 0 < i < |statements| ==> statements[i] == statements[1..][i - 1];
      MethodMatch(statements[1..], name)
  }

  /** No single statement is both a field and a method use of a name. */
  lemma FieldMethodExclusive(s: string, name: string)
    ensures !(FieldMatch([s], name) && MethodMatch([s], name))
  {
  }

  // ---------------------------------------------------------------------
  // symbol_search
  // ---------------------------------------------------------------------

  /** Python truth of an optional text: present and non-empty. */
  predicate Truthy(text: Option<string>)
  {
    text.Some? && text.value != []
  }

  /** A parenthesis, the mark of a method declaration or call. */
  predicate HasParen(s: string)
  {
    '(' in s || ')' in s
  }

  /** `[s for s in parts if re.findall(r'\bNAME\b', s)]`. */
  function MatchingStatements(parts: seq<string>, name: string): (r: seq<string>)
    ensures forall s :: s in r <==> s in parts && HasWholeWord(s, name)
  {
    if parts == [] then []
    else (if HasWholeWord(parts[0], name) then [parts[0]] else []) + MatchingStatements(parts[1..], name)
  }

  /** The `;`-separated statements of the class body that mention `name` as a whole word. */
  function BodyStatements(code: CodeNode, name: string): seq<string>
  {
    if Truthy(code.classBody) then MatchingStatements(SplitOn(code.classBody.value, ';'), name) else []
  }

  /** The inheritance clause is non-empty and holds `name` as a substring. */
  predicate Inherits(code: CodeNode, name: string)
  {
    Truthy(code.inheritanceDeclare) && Contains(code.inheritanceDeclare.value, name)
  }

  /** Composition when no statement has a parenthesis, otherwise a method reference. */
  function StatementsRef(statements: seq<string>): RefType
  {
    if forall s :: s in statements ==> !HasParen(s) then Composition else Method
  }

  /**
   * The dictionary `symbol_search(code, types)` returns: every type the
   * inheritance clause or a body statement mentions, the body's verdict
   * replacing the inheritance one.
   */
  function SymbolDeps(code: CodeNode, types: set<TypeNode>): map<TypeNode, RefType>
  {
    map t | t in types && (Inherits(code, t.name) || BodyStatements(code, t.name) != []) ::
      if BodyStatements(code, t.name) != [] then StatementsRef(BodyStatements(code, t.name)) else Inheritance
  }

  /** Some `;`-separated statement of a non-empty class body mentions `name` as a whole word. */
  predicate MentionedInBody(code: CodeNode, name: string)
  {
    Truthy(code.classBody) && exists s :: s in SplitOn(code.classBody.value, ';') && HasWholeWord(s, name)
  }

  /** Some statement of a non-empty class body mentions `name` and holds a parenthesis. */
  predicate CalledInBody(code: CodeNode, name: string)
  {
    Truthy(code.classBody) && exists s :: s in SplitOn(code.classBody.value, ';') && HasWholeWord(s, name) && HasParen(s)
  }

  /** The filtered statement list is non-empty exactly when the body mentions the name. */
  lemma BodyStatementsMention(code: CodeNode, name: string)
    ensures BodyStatements(code, name) != [] <==> MentionedInBody(code, name)
    ensures StatementsRef(BodyStatements(code, name)) == Method <==> CalledInBody(code, name)
  {
    var statements := BodyStatements(code, name);
    if statements != [] {
      assert statements[0] in statements;
    }
    if Truthy(code.classBody) {
      var parts := SplitOn(code.classBody.value, ';');
      if MentionedInBody(code, name) {
        var s :| s in parts && HasWholeWord(s, name);
        assert s in statements;
      }
    }
  }

  /**
   * What `symbol_search` decides for one candidate type: it is a key only
   * when it is among `types` and the inheritance clause contains its name
   * or a body statement mentions it as a whole word; a body mention decides
   * the kind (a method reference when a mentioning statement has a
   * parenthesis, composition otherwise), and only a type the body never
   * mentions is recorded as inherited.
   */
  lemma SymbolDepsOf(code: CodeNode, types: set<TypeNode>, t: TypeNode)
    ensures t in SymbolDeps(code, types) <==> t in types && (Inherits(code, t.name) || MentionedInBody(code, t.name))
    ensures t in SymbolDeps(code, types) ==>
              (SymbolDeps(code, types)[t] == Inheritance <==> !MentionedInBody(code, t.name))
    ensures t in SymbolDeps(code, types) ==>
              (SymbolDeps(code, types)[t] == Method <==> CalledInBody(code, t.name))
    ensures t in SymbolDeps(code, types) ==>
              (SymbolDeps(code, types)[t] == Composition <==> MentionedInBody(code, t.name) && !CalledInBody(code, t.name))
  {
    BodyStatementsMention(code, t.name);
  }

  /**
   * The second pass of `symbol_search`: every type a statement of the class
   * body mentions gets the body's verdict, overwriting what the first pass
   * recorded; the other entries stay as they were.
   */
  method ClassifyBody(code: CodeNode, types: set<TypeNode>, inherited: map<TypeNode, RefType>) returns (deps: map<TypeNode, RefType>)
    requires Truthy(code.classBody)
    ensures forall t :: t in deps <==> t in inherited || (t in types && BodyStatements(code, t.name) != [])
    ensures forall t :: t in deps ==>
              deps[t] == if t in types && BodyStatements(code, t.name) != [] then StatementsRef(BodyStatements(code, t.name)) else inherited[t]
  {
    deps := inherited;
    var rest := types;
    while rest != {}
      invariant rest <= types
      invariant forall t :: t in deps <==> t in inherited || (t in types && t !in rest && BodyStatements(code, t.name) != [])
      invariant forall t :: t in deps ==>
                  deps[t] == if t in types && t !in rest && BodyStatements(code, t.name) != []
                             then StatementsRef(BodyStatements(code, t.name)) else inherited[t]
      decreases |rest|
    {
      var t :| t in rest;
      var statements := MatchingStatements(SplitOn(code.classBody.value, ';'), t.name);
      if statements != [] {
        if forall s :: s in statements ==> !HasParen(s) {
          deps := deps[t := Composition];
        } else {
          deps := deps[t := Method];
        }
      }
      rest := rest - {t};
    }
  }

  /**
   * `symbol_search(code, types)`: a first pass records every type the
   * inheritance clause names, then a second pass over the body overwrites
   * or adds the types the body mentions.
   */
  method SymbolSearch(code: CodeNode, types: set<TypeNode>) returns (deps: map<TypeNode, RefType>)
    ensures deps == SymbolDeps(code, types)
  {
    deps := map[];
    if Truthy(code.inheritanceDeclare) {
      var rest := types;
      while rest != {}
        invariant rest <= types
        invariant forall t :: t in deps <==> t in types && t !in rest && Inherits(code, t.name)
        invariant forall t :: t in deps ==> deps[t] == Inheritance
        decreases |rest|
      {
        var t :| t in rest;
        if Contains(code.inheritanceDeclare.value, t.name) {
          deps := deps[t := Inheritance];
        }
        rest := rest - {t};
      }
    }
    if Truthy(code.classBody) {
      deps := ClassifyBody(code, types, deps);
    }
  }

  // ---------------------------------------------------------------------
  // Scan results and their merge
  // ---------------------------------------------------------------------

  /**
   * What scanning one folder yields: for each source file, the source files
   * it includes and the types it declares, each with the code stored for
   * it. The stored code is `V`: the segment text `src_proc` produces, or
   * the `CodeNode` the classifier reads.
   */
  datatype Scan<V> = Scan(includes: map<SourceNode, set<SourceNode>>, declares: map<SourceNode, map<TypeNode, V>>)

  function ScanIncludes<V>(scan: Scan<V>): map<SourceNode, set<SourceNode>>
  {
    scan.includes
  }

  function ScanDeclares<V>(scan: Scan<V>): map<SourceNode, map<TypeNode, V>>
  {
    scan.declares
  }

  /** The maps of the first `n` items merged by successive `dict.update` calls. */
  function MergedBy<T, K(==), V>(xs: seq<T>, n: nat, f: T -> map<K, V>): map<K, V>
    requires n <= |xs|
  {
    if n == 0 then map[] else MergedBy(xs, n - 1, f) + f(xs[n - 1])
  }

  /** A key of the merge is a key of one of the merged maps. */
  lemma {:induction false} MergedKeys<T, K, V>(xs: seq<T>, n: nat, f: T -> map<K, V>, key: K)
    requires n <= |xs|
    ensures key in MergedBy(xs, n, f) <==> exists k :: 0 <= k < n && key in f(xs[k])
  {
    if n > 0 {
      MergedKeys(xs, n - 1, f, key);
      if key in f(xs[n - 1]) {
        assert 0 <= n - 1 < n && key in f(xs[n - 1]);
      }
    }
  }

  /** The value of a key is the one of the last merged map that holds it. */
  lemma {:induction false} MergedLaterWins<T, K, V>(xs: seq<T>, n: nat, f: T -> map<K, V>, key: K, k: nat)
    requires k < n <= |xs| && key in f(xs[k])
    requires forall j :: k < j < n ==> key !in f(xs[j])
    ensures key in MergedBy(xs, n, f) && MergedBy(xs, n, f)[key] == f(xs[k])[key]
    decreases n
  {
    if k < n - 1 {
      MergedLaterWins(xs, n - 1, f, key, k);
    }
  }

  /**
   * The merge loop of `dep_analysis`: each folder's include and declaration
   * maps update the accumulated ones, a later folder's entry for a source
   * file replacing an earlier one.
   */
  method MergeScans<V>(scans: seq<Scan<V>>)
    returns (includes: map<SourceNode, set<SourceNode>>, declares: map<SourceNode, map<TypeNode, V>>)
    ensures includes == MergedBy(scans, |scans|, ScanIncludes)
    ensures declares == MergedBy(scans, |scans|, ScanDeclares)
  {
    includes, declares := map[], map[];
    for k := 0 to |scans|
      invariant includes == MergedBy(scans, k, ScanIncludes)
      invariant declares == MergedBy(scans, k, ScanDeclares)
    {
      includes := includes + scans[k].includes;
      declares := declares + scans[k].declares;
    }
  }

  // ---------------------------------------------------------------------
  // Visible types and the node set
  // ---------------------------------------------------------------------

  /** `includes.get(src, set())`. */
  function IncludesOf(includes: map<SourceNode, set<SourceNode>>, src: SourceNode): set<SourceNode>
  {
    if src in includes then includes[src] else {}
  }

  /** `declares.get(s, dict()).keys()`. */
  function TypesOf<V>(declares: map<SourceNode, map<TypeNode, V>>, s: SourceNode): set<TypeNode>
  {
    if s in declares then declares[s].Keys else {}
  }

  /** The types declared in the files `src` includes. */
  function IncludedTypes<V>(includes: map<SourceNode, set<SourceNode>>, declares: map<SourceNode, map<TypeNode, V>>,
                            src: SourceNode): set<TypeNode>
  {
    set s, t | s in IncludesOf(includes, src) && t in TypesOf(declares, s) :: t
  }

  /** `{k for v in declares.values() for k in v.keys()}`: every declared type. */
  function Nodes<V>(declares: map<SourceNode, map<TypeNode, V>>): set<TypeNode>
  {
    set s, t | s in declares && t in declares[s] :: t
  }

  /** There are nodes exactly when some file declares some type. */
  lemma NodesNonEmpty<V>(declares: map<SourceNode, map<TypeNode, V>>)
    ensures Nodes(declares) != {} <==> exists src, t :: src in declares && t in declares[src]
  {
    if exists src, t :: src in declares && t in declares[src] {
      var src, t :| src in declares && t in declares[src];
      assert t in Nodes(declares);
    }
  }

  /**
   * A type visible from a file is declared in a file it includes, and so
   * is one of the nodes.
   */
  lemma IncludedTypeDeclared<V>(includes: map<SourceNode, set<SourceNode>>, declares: map<SourceNode, map<TypeNode, V>>,
                                src: SourceNode, t: TypeNode)
    requires t in IncludedTypes(includes, declares, src)
    ensures exists s :: s in IncludesOf(includes, src) && s in declares && t in declares[s]
    ensures t in Nodes(declares)
  {
    var s :| s in IncludesOf(includes, src) && t in TypesOf(declares, s);
    assert s in declares && t in declares[s];
  }

  /** `get_included_types(src)`: grows a set with the keys of each included file's declarations. */
  method GetIncludedTypes<V>(includes: map<SourceNode, set<SourceNode>>, declares: map<SourceNode, map<TypeNode, V>>,
                             src: SourceNode) returns (includedTypes: set<TypeNode>)
    ensures includedTypes == IncludedTypes(includes, declares, src)
  {
    includedTypes := {};
    var pending := IncludesOf(includes, src);
    while pending != {}
      invariant pending <= IncludesOf(includes, src)
      invariant forall t :: t in includedTypes <==>
                  exists s :: s in IncludesOf(includes, src) && s !in pending && t in TypesOf(declares, s)
      decreases |pending|
    {
      var s :| s in pending;
      var keys := TypesOf(declares, s);
      ghost var before := includedTypes;
      while keys != {}
        invariant keys <= TypesOf(declares, s)
        invariant forall t :: t in includedTypes <==> t in before || (t in TypesOf(declares, s) && t !in keys)
        decreases |keys|
      {
        var ts :| ts in keys;
        includedTypes := includedTypes + {ts};
        keys := keys - {ts};
      }
      pending := pending - {s};
    }
  }

  // ---------------------------------------------------------------------
  // Edges
  // ---------------------------------------------------------------------

  /** The references the code of type `t`, declared in `src`, makes to the types `src` can see. */
  function TypeDeps(includes: map<SourceNode, set<SourceNode>>, declares: map<SourceNode, map<TypeNode, CodeNode>>,
                    src: SourceNode, t: TypeNode): map<TypeNode, RefType>
    requires src in declares && t in declares[src]
  {
    SymbolDeps(declares[src][t], IncludedTypes(includes, declares, src))
  }

  /** Edge `e` is one that a type declared in `src` contributes. */
  predicate EdgeFrom(includes: map<SourceNode, set<SourceNode>>, declares: map<SourceNode, map<TypeNode, CodeNode>>,
                     src: SourceNode, e: EdgeNode)
  {
    && src in declares && e.caller in declares[src]
    && e.callee in TypeDeps(includes, declares, src, e.caller)
    && TypeDeps(includes, declares, src, e.caller)[e.callee] == e.refType
  }

  /** Edge `e` is one that some source file contributes. */
  ghost predicate IsEdge(includes: map<SourceNode, set<SourceNode>>, declares: map<SourceNode, map<TypeNode, CodeNode>>, e: EdgeNode)
  {
    exists src :: EdgeFrom(includes, declares, src, e)
  }

  /**
   * Both ends of an edge are nodes, and the callee is declared in a file
   * that the caller's file includes.
   */
  lemma EdgeEndpoints(includes: map<SourceNode, set<SourceNode>>, declares: map<SourceNode, map<TypeNode, CodeNode>>,
                      src: SourceNode, e: EdgeNode)
    requires EdgeFrom(includes, declares, src, e)
    ensures e.caller in Nodes(declares) && e.callee in Nodes(declares)
    ensures exists s :: s in IncludesOf(includes, src) && s in declares && e.callee in declares[s]
  {
    SymbolDepsOf(declares[src][e.caller], IncludedTypes(includes, declares, src), e.callee);
    IncludedTypeDeclared(includes, declares, src, e.callee);
  }

  /** The innermost loop of `dep_analysis`: one edge per reference of type `t`. */
  method AddTypeEdges(edges: set<EdgeNode>, t: TypeNode, deps: map<TypeNode, RefType>) returns (r: set<EdgeNode>)
    ensures forall e :: e in r <==> e in edges || (e.caller == t && e.callee in deps && deps[e.callee] == e.refType)
  {
    r := edges;
    var refs := deps.Keys;
    while refs != {}
      invariant refs <= deps.Keys
      invariant forall e :: e in r <==> e in edges || (e.caller == t && e.callee in deps && e.callee !in refs && deps[e.callee] == e.refType)
      decreases |refs|
    {
      var d :| d in refs;
      r := r + {EdgeNode(t, d, deps[d])};
      refs := refs - {d};
    }
  }

  /**
   * The edge loop of `dep_analysis`: for every file, the types it can see;
   * for every type it declares, an edge to each type its code refers to.
   */
  method BuildEdges(includes: map<SourceNode, set<SourceNode>>, declares: map<SourceNode, map<TypeNode, CodeNode>>)
    returns (edges: set<EdgeNode>)
    ensures forall e :: e in edges <==> IsEdge(includes, declares, e)
  {
    edges := {};
    var pending := declares.Keys;
    while pending != {}
      invariant pending <= declares.Keys
      invariant forall e :: e in edges <==> exists src :: src !in pending && EdgeFrom(includes, declares, src, e)
      decreases |pending|
    {
      var src :| src in pending;
      var includedTypes := GetIncludedTypes(includes, declares, src);
      var types := declares[src];
      var todo := types.Keys;
      ghost var before := edges;
      while todo != {}
        invariant todo <= types.Keys
        invariant forall e :: e in edges <==> e in before || (EdgeFrom(includes, declares, src, e) && e.caller !in todo)
        decreases |todo|
      {
        var t :| t in todo;
        var deps := SymbolSearch(types[t], includedTypes);
        edges := AddTypeEdges(edges, t, deps);
        todo := todo - {t};
      }
      pending := pending - {src};
    }
  }

  /** What `dep_analysis` returns: the declared types and the references between them. */
  datatype Graph = Graph(nodes: set<TypeNode>, edges: set<EdgeNode>)

  /**
   * `dep_analysis` after the folders are scanned: merge their results, take
   * every declared type as a node and build the edges. Every edge joins two
   * nodes.
   */
  method DepAnalysis(scans: seq<Scan<CodeNode>>) returns (g: Graph)
    ensures g.nodes == Nodes(MergedBy(scans, |scans|, ScanDeclares))
    ensures forall e :: e in g.edges <==>
              IsEdge(MergedBy(scans, |scans|, ScanIncludes), MergedBy(scans, |scans|, ScanDeclares), e)
    ensures forall e :: e in g.edges ==> e.caller in g.nodes && e.callee in g.nodes
  {
    var includes, declares := MergeScans(scans);
    var nodes := set s, t | s in declares && t in declares[s] :: t;
    var edges := BuildEdges(includes, declares);
    forall e | e in edges
      ensures e.caller in nodes && e.callee in nodes
    {
      var src :| EdgeFrom(includes, declares, src, e);
      EdgeEndpoints(includes, declares, src, e);
    }
    g := Graph(nodes, edges);
  }

  // ---------------------------------------------------------------------
  // verify_data
  // ---------------------------------------------------------------------

  /** The outcome of `verify_data`: success with the unreferenced types, or the failed assertion. */
  datatype Verdict =
    | Verified(unreferenced: set<TypeNode>)
    | NameConflict(name: string)
    | NodeNotFound(node: TypeNode)

  /** Every edge's caller and callee are nodes. */
  predicate EndpointsKnown(nodes: set<TypeNode>, edges: set<EdgeNode>)
  {
    forall e :: e in edges ==> e.caller in nodes && e.callee in nodes
  }

  /** `set(e.callee for e in edges) | set(e.caller for e in edges)`. */
  function Referenced(edges: set<EdgeNode>): set<TypeNode>
  {
    (set e | e in edges :: e.callee) + (set e | e in edges :: e.caller)
  }

  /** A type is referenced exactly when it is the caller or the callee of some edge. */
  lemma ReferencedMeaning(edges: set<EdgeNode>, n: TypeNode)
    ensures n in Referenced(edges) <==> exists e :: e in edges && (e.caller == n || e.callee == n)
  {
    if exists e :: e in edges && (e.caller == n || e.callee == n) {
      var e :| e in edges && (e.caller == n || e.callee == n);
      if e.callee == n {
        assert n in (set e | e in edges :: e.callee);
      } else {
        assert n in (set e | e in edges :: e.caller);
      }
    }
  }

  /**
   * `verify_data(nodes, edges)`. The name check looks each node's name up
   * in a dictionary that nothing ever fills, so it never fails. The edge
   * check fails on the first edge met whose caller, then callee, is not a
   * node; otherwise the unreferenced types are the nodes no edge touches.
   */
  method VerifyData(nodes: set<TypeNode>, edges: set<EdgeNode>) returns (v: Verdict)
    ensures !v.NameConflict?
    ensures v.Verified? <==> EndpointsKnown(nodes, edges)
    ensures v.NodeNotFound? ==> v.node !in nodes && exists e :: e in edges && (e.caller == v.node || e.callee == v.node)
    ensures v.Verified? ==> v.unreferenced == nodes - Referenced(edges)
  {
    var typeNames: map<string, TypeNode> := map[];
    var names := nodes;
    while names != {}
      invariant names <= nodes
      decreases |names|
    {
      var n :| n in names;
      if n.name in typeNames {
        return NameConflict(n.name);
      }
      names := names - {n};
    }
    var pending := edges;
    while pending != {}
      invariant pending <= edges
      invariant forall e :: e in edges && e !in pending ==> e.caller in nodes && e.callee in nodes
      decreases |pending|
    {
      var edge :| edge in pending;
      if edge.caller !in nodes {
        return NodeNotFound(edge.caller);
      }
      if edge.callee !in nodes {
        return NodeNotFound(edge.callee);
      }
      pending := pending - {edge};
    }
    var referencedNodes := (set e | e in edges :: e.callee) + (set e | e in edges :: e.caller);
    v := Verified(nodes - referencedNodes);
  }

  /** Two different types share a name. */
  predicate NamesClash(nodes: set<TypeNode>)
  {
    exists a, b :: a in nodes && b in nodes && a != b && a.name == b.name
  }

  /** Two classes called `A`, one in a.h and one in b.h: the name check was meant to catch this. */
  lemma DuplicateNameClashes()
    ensures NamesClash({TypeNode("A", Some(Class), "a", Some(Header)), TypeNode("A", Some(Class), "b", Some(Header))})
  {
    var a, b := TypeNode("A", Some(Class), "a", Some(Header)), TypeNode("A", Some(Class), "b", Some(Header));
    assert a != b && a.name == b.name;
  }

  /**
   * `verify_data` with the name dictionary filled as the check evidently
   * intends: each node is recorded under its name, and a second node with a
   * name already recorded is a conflict. The edge check and the unreferenced
   * types are as in `VerifyData`.
   */
  method VerifyDataWithNames(nodes: set<TypeNode>, edges: set<EdgeNode>) returns (v: Verdict)
    ensures v.NameConflict? <==> NamesClash(nodes)
    ensures v.Verified? <==> !NamesClash(nodes) && EndpointsKnown(nodes, edges)
    ensures v.NodeNotFound? ==> v.node !in nodes && exists e :: e in edges && (e.caller == v.node || e.callee == v.node)
    ensures v.Verified? ==> v.unreferenced == nodes - Referenced(edges)
  {
    var typeNames: map<string, TypeNode> := map[];
    var names := nodes;
    while names != {}
      invariant names <= nodes
      invariant forall a :: a in nodes && a !in names ==> a.name in typeNames && typeNames[a.name] == a
      invariant forall nm :: nm in typeNames ==> typeNames[nm] in nodes && typeNames[nm] !in names && typeNames[nm].name == nm
      invariant forall a, b :: a in nodes && a !in names && b in nodes && b !in names && a != b ==> a.name != b.name
      decreases |names|
    {
      var n :| n in names;
      if n.name in typeNames {
        var m := typeNames[n.name];
        assert m in nodes && n in nodes && m != n && m.name == n.name;
        return NameConflict(n.name);
      }
      typeNames := typeNames[n.name := n];
      names := names - {n};
    }
    assert !NamesClash(nodes);
    var pending := edges;
    while pending != {}
      invariant pending <= edges
      invariant forall e :: e in edges && e !in pending ==> e.caller in nodes && e.callee in nodes
      decreases |pending|
    {
      var edge :| edge in pending;
      if edge.caller !in nodes {
        return NodeNotFound(edge.caller);
      }
      if edge.callee !in nodes {
        return NodeNotFound(edge.callee);
      }
      pending := pending - {edge};
    }
    var referencedNodes := (set e | e in edges :: e.callee) + (set e | e in edges :: e.caller);
    v := Verified(nodes - referencedNodes);
  }

  /**
   * The script's flow as it is evidently intended, without its file output:
   * the corrected analysis over the scanned folders, then the corrected
   * validation. The edge check always passes, so the outcome depends only
   * on whether two types share a name.
   */
  method AnalyzeAndVerify(scans: seq<Scan<CodeNode>>) returns (g: Graph, v: Verdict)
    ensures !v.NodeNotFound?
    ensures v.NameConflict? <==> NamesClash(g.nodes)
    ensures v.Verified? ==> v.unreferenced == g.nodes - Referenced(g.edges)
    ensures g.nodes == Nodes(MergedBy(scans, |scans|, ScanDeclares))
    ensures forall e :: e in g.edges <==>
              IsEdge(MergedBy(scans, |scans|, ScanIncludes), MergedBy(scans, |scans|, ScanDeclares), e)
  {
    g := DepAnalysis(scans);
    v := VerifyDataWithNames(g.nodes, g.edges);
  }

  // ---------------------------------------------------------------------
  // The scan as the code stores it, and dep_analysis over it
  // ---------------------------------------------------------------------

  /** A source file's path and the lines read from it. */
  datatype SourceFile = SourceFile(path: string, lines: seq<string>)

  /** What `src_proc` returned for a file, and the `SourceNode` naming the file. */
  datatype FileResult = FileResult(srcName: SourceNode, nodes: map<TypeNode, string>, includes: set<SourceNode>)

  /**
   * What a scan worker stores for one file: under the key
   * `SourceNode(basename(path))`, the declarations `src_proc` found when
   * there are any, and the included files when there are any.
   */
  function Store(scan: Scan<string>, f: FileResult): Scan<string>
  {
    Scan(if f.includes != {} then scan.includes[f.srcName := f.includes] else scan.includes,
         if f.nodes != map[] then scan.declares[f.srcName := f.nodes] else scan.declares)
  }

  /**
   * What the scan workers store for a folder's files, taken in order. A
   * later file with the same base name replaces an earlier one.
   */
  function Stored(results: seq<FileResult>): Scan<string>
  {
    if results == [] then Scan(map[], map[]) else Store(Stored(results[..|results| - 1]), results[|results| - 1])
  }

  /** Only non-empty results are stored. */
  lemma {:induction false} StoredNonEmpty(results: seq<FileResult>, src: SourceNode)
    ensures src in Stored(results).declares ==> Stored(results).declares[src] != map[]
    ensures src in Stored(results).includes ==> Stored(results).includes[src] != {}
  {
    if results != [] {
      StoredNonEmpty(results[..|results| - 1], src);
    }
  }

  /** File result `f` leaves declarations under `src`. */
  predicate DeclaresUnder(f: FileResult, src: SourceNode)
  {
    f.srcName == src && f.nodes != map[]
  }

  /** File result `f` leaves included files under `src`. */
  predicate IncludesUnder(f: FileResult, src: SourceNode)
  {
    f.srcName == src && f.includes != {}
  }

  /** A declares entry exists exactly for the base name of some file that declares something. */
  lemma {:induction false} StoredDeclaresKeys(results: seq<FileResult>, src: SourceNode)
    ensures src in Stored(results).declares <==>
            exists k :: 0 <= k < |results| && DeclaresUnder(results[k], src)
    decreases |results|
  {
    if results != [] {
      var prefix, last := results[..|results| - 1], results[|results| - 1];
      StoredDeclaresKeys(prefix, src);
      if exists k :: 0 <= k < |prefix| && DeclaresUnder(prefix[k], src) {
        var k :| 0 <= k < |prefix| && DeclaresUnder(prefix[k], src);
        assert results[k] == prefix[k];
      }
      if exists k :: 0 <= k < |results| && DeclaresUnder(results[k], src) {
        var k :| 0 <= k < |results| && DeclaresUnder(results[k], src);
        if k < |prefix| {
          assert prefix[k] == results[k];
        }
      }
    }
  }

  /** The declares entry of a base name holds what the last file with that name declared. */
  lemma {:induction false} StoredDeclaresLaterWins(results: seq<FileResult>, src: SourceNode, k: nat)
    requires k < |results| && DeclaresUnder(results[k], src)
    requires forall j :: k < j < |results| ==> !DeclaresUnder(results[j], src)
    ensures src in Stored(results).declares
    ensures Stored(results).declares[src] == results[k].nodes
    decreases |results|
  {
    if k < |results| - 1 {
      var prefix := results[..|results| - 1];
      assert prefix[k] == results[k];
      forall j | k < j < |prefix|
        ensures !DeclaresUnder(prefix[j], src)
      {
        assert prefix[j] == results[j];
      }
      StoredDeclaresLaterWins(prefix, src, k);
    }
  }

  /** An includes entry exists exactly for the base name of some file that includes something. */
  lemma {:induction false} StoredIncludesKeys(results: seq<FileResult>, src: SourceNode)
    ensures src in Stored(results).includes <==>
            exists k :: 0 <= k < |results| && IncludesUnder(results[k], src)
    decreases |results|
  {
    if results != [] {
      var prefix, last := results[..|results| - 1], results[|results| - 1];
      StoredIncludesKeys(prefix, src);
      if exists k :: 0 <= k < |prefix| && IncludesUnder(prefix[k], src) {
        var k :| 0 <= k < |prefix| && IncludesUnder(prefix[k], src);
        assert results[k] == prefix[k];
      }
      if exists k :: 0 <= k < |results| && IncludesUnder(results[k], src) {
        var k :| 0 <= k < |results| && IncludesUnder(results[k], src);
        if k < |prefix| {
          assert prefix[k] == results[k];
        }
      }
    }
  }

  /** The includes entry of a base name holds what the last file with that name included. */
  lemma {:induction false} StoredIncludesLaterWins(results: seq<FileResult>, src: SourceNode, k: nat)
    requires k < |results| && IncludesUnder(results[k], src)
    requires forall j :: k < j < |results| ==> !IncludesUnder(results[j], src)
    ensures src in Stored(results).includes
    ensures Stored(results).includes[src] == results[k].includes
    decreases |results|
  {
    if k < |results| - 1 {
      var prefix := results[..|results| - 1];
      assert prefix[k] == results[k];
      forall j | k < j < |prefix|
        ensures !IncludesUnder(prefix[j], src)
      {
        assert prefix[j] == results[j];
      }
      StoredIncludesLaterWins(prefix, src, k);
    }
  }

  /** A map that is not empty has a key. */
  lemma SomeKey<K, V>(m: map<K, V>) returns (key: K)
    requires m != map[]
    ensures key in m
  {
    key :| key in m;
  }

  /** A file that declares something leaves an entry under its base name. */
  lemma {:induction false} StoredKeepsDeclaring(results: seq<FileResult>, k: nat)
    requires k < |results| && results[k].nodes != map[]
    ensures results[k].srcName in Stored(results).declares
    decreases |results|
  {
    if k < |results| - 1 {
      var prefix := results[..|results| - 1];
      assert prefix[k] == results[k];
      StoredKeepsDeclaring(prefix, k);
    }
  }

  /**
   * `r` is what a worker computes for file `f`: the file's `SourceNode`
   * and the two results of `src_proc`.
   */
  predicate ResultOf(f: SourceFile, r: FileResult)
  {
    && r.srcName == NewSourceNode(Basename(f.path))
    && r.nodes == Declarations(CodeText(f.lines), f.path)
    && r.includes == IncludedSources(IncludeTargets(CodeText(f.lines)))
  }

  /**
   * One worker step: run `src_proc` on the file and store what it found
   * under the file's `SourceNode`.
   */
  method ScanFile(scan: Scan<string>, f: SourceFile) returns (next: Scan<string>, r: FileResult)
    ensures ResultOf(f, r)
    ensures next == Store(scan, r)
  {
    var srcName := NewSourceNode(Basename(f.path));
    var ns, incls := SrcProc(f.lines, f.path);
    next := scan;
    if ns != map[] {
      next := next.(declares := next.declares[srcName := ns]);
    }
    if incls != {} {
      next := next.(includes := next.includes[srcName := incls]);
    }
    r := FileResult(srcName, ns, incls);
  }

  /** Appending an item and dropping it again gives the sequence back. */
  lemma DropLast<T>(xs: seq<T>, x: T)
    ensures (xs + [x])[..|xs|] == xs
  {
  }

  /** The first `n` items of `xs` and `ys` are related pairwise by `rel`. */
  predicate Pairwise<T, U>(xs: seq<T>, ys: seq<U>, n: int, rel: (T, U) -> bool)
  {
    0 <= n <= |xs| && n <= |ys| && forall i :: 0 <= i < n ==> rel(xs[i], ys[i])
  }

  /** Appending a related item extends the pairwise relation by one. */
  lemma PairwiseSnoc<T, U>(xs: seq<T>, ys: seq<U>, y: U, rel: (T, U) -> bool)
    requires |ys| < |xs| && Pairwise(xs, ys, |ys|, rel) && rel(xs[|ys|], y)
    ensures Pairwise(xs, ys + [y], |ys| + 1, rel)
  {
  }

  /**
   * The scan workers run one after another over a folder's files: each
   * file goes through `src_proc`, and its results, returned alongside, are
   * stored as `Stored` describes.
   */
  method ScanFolder(files: seq<SourceFile>) returns (scan: Scan<string>, results: seq<FileResult>)
    ensures |results| == |files|
    ensures Pairwise(files, results, |files|, ResultOf)
    ensures scan == Stored(results)
  {
    scan := Scan(map[], map[]);
    results := [];
    for k := 0 to |files|
      invariant |results| == k
      invariant Pairwise(files, results, k, ResultOf)
      invariant scan == Stored(results)
    {
      var r;
      var prev := results;
      scan, r := ScanFile(scan, files[k]);
      PairwiseSnoc(files, results, r, ResultOf);
      results := results + [r];
      DropLast(prev, r);
    }
  }

  /**
   * `symbol_search` handed the value a declaration map stores. It reads
   * `inheritance_declare` first, which only a `CodeNode` has: on any other
   * value it raises AttributeError, here `None`.
   */
  function SymbolSearchOn(code: PyValue, types: set<TypeNode>): (r: Option<map<TypeNode, RefType>>)
    ensures r.Some? <==> code.PCode?
    ensures r.Some? ==> forall t :: t in r.value ==> t in types
  {
    if code.PCode? then
      var deps := SymbolDeps(code.code, types);
      assert forall t :: t in deps ==> t in types by {
        forall t | t in deps ensures t in types {
          SymbolDepsOf(code.code, types, t);
        }
      }
      Some(deps)
    else None
  }

  /**
   * `dep_analysis` over the maps the scan stores, whose values are segment
   * text: the first declared type it classifies is handed to
   * `symbol_search` as a string, and the call raises AttributeError (`None`
   * here). It completes only when nothing is declared at all.
   */
  function DepAnalysisOnSegments(scans: seq<Scan<string>>): (r: Option<Graph>)
    ensures r.None? <==> Nodes(MergedBy(scans, |scans|, ScanDeclares)) != {}
    ensures r.Some? ==> r.value.nodes == {} && r.value.edges == {}
  {
    var includes := MergedBy(scans, |scans|, ScanIncludes);
    var declares := MergedBy(scans, |scans|, ScanDeclares);
    NodesNonEmpty(declares);
    if forall src, t :: src in declares && t in declares[src] ==>
         SymbolSearchOn(PStr(declares[src][t]), IncludedTypes(includes, declares, src)).Some?
    then Some(Graph(Nodes(declares), {}))
    else None
  }

  /**
   * The failure is certain: once a scanned file declares a type,
   * `dep_analysis` over what the scan stores raises.
   */
  lemma SegmentsAnalysisFails(results: seq<FileResult>, k: nat)
    requires k < |results| && results[k].nodes != map[]
    ensures DepAnalysisOnSegments([Stored(results)]).None?
  {
    StoredKeepsDeclaring(results, k);
    var scan := Stored(results);
    var srcName := results[k].srcName;
    assert MergedBy([scan], 1, ScanDeclares) == scan.declares;
    StoredNonEmpty(results, srcName);
    var t := SomeKey(scan.declares[srcName]);
    assert t in Nodes(scan.declares);
  }

  /** One header `a.h` declaring `class A` is enough to make the analysis raise. */
  lemma SegmentsAnalysisFailsOnOneClass()
    ensures DepAnalysisOnSegments([Stored([FileResult(SourceNode("a", ".h"),
                                                      map[TypeNode("A", Some(Class), "a", Some(Header)) := " {};"],
                                                      {})])]).None?
  {
    var results := [FileResult(SourceNode("a", ".h"), map[TypeNode("A", Some(Class), "a", Some(Header)) := " {};"], {})];
    assert TypeNode("A", Some(Class), "a", Some(Header)) in results[0].nodes;
    SegmentsAnalysisFails(results, 0);
  }

  /**
   * The script's flow as written, without its file output: `dep_analysis`
   * over what the scan stores, then `verify_data`. `None` is the
   * AttributeError the analysis raises once any type is declared; when it
   * completes, the graph is empty and validation passes with nothing
   * unreferenced. A name conflict is never reported.
   */
  method ScriptFlow(scans: seq<Scan<string>>) returns (r: Option<Verdict>)
    ensures r.None? <==> Nodes(MergedBy(scans, |scans|, ScanDeclares)) != {}
    ensures r.Some? ==> r.value == Verified({})
  {
    var g := DepAnalysisOnSegments(scans);
    if g.None? {
      r := None;
    } else {
      var v := VerifyData(g.value.nodes, g.value.edges);
      r := Some(v);
    }
  }

  // ---------------------------------------------------------------------
  // The edge records write_edges writes
  // ---------------------------------------------------------------------

  /**
   * The record `write_edges` writes for an edge: the caller's and callee's
   * type names and the reference type's member name, not the nested node
   * records `CustomEncoder` would give.
   */
  function EdgeNameRecord(e: EdgeNode): (j: Json)
    ensures j.JObj? && j.fields.Keys == {"caller", "callee", "refType"}
  {
    JObj(map["caller" := JStr(e.caller.name), "callee" := JStr(e.callee.name),
             "refType" := JStr(RefTypeName(e.refType))])
  }

  /**
   * Read back with the decoder, such a record gives an `EdgeNode` whose
   * caller and callee are the plain type names, not the nodes: the types'
   * classifiers and files are lost.
   */
  lemma EdgeNameRecordLoads(e: EdgeNode)
    ensures Load(EdgeNameRecord(e)).Some?
    ensures EdgeParts(Load(EdgeNameRecord(e)).value) == Some((PStr(e.caller.name), PStr(e.callee.name), e.refType))
    ensures Load(EdgeNameRecord(e)).value != PEdge(e)
    ensures Encode(Load(EdgeNameRecord(e)).value) == Some(EdgeNameRecord(e))
  {
    var m := EdgeNameRecord(e).fields;
    var dct := map["caller" := PStr(e.caller.name), "callee" := PStr(e.callee.name),
                   "refType" := PStr(RefTypeName(e.refType))];
    assert m.Keys == dct.Keys;
    forall k | k in m ensures Load(m[k]) == Some(dct[k]) {
      if k == "caller" {
        assert m[k] == JStr(e.caller.name);
      } else if k == "callee" {
        assert m[k] == JStr(e.callee.name);
      } else {
        assert m[k] == JStr(RefTypeName(e.refType));
      }
    }
    LoadObject(m, dct);
    assert !NodeRecordKeys(dct) by {
      assert "name" !in dct.Keys;
    }
    assert RefTypeByName(PStr(RefTypeName(e.refType))) == Some(e.refType) by {
      MemberNamesRoundTrip(Enum, Header, e.refType);
    }
  }
}
