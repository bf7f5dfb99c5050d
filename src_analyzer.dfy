/**
 * Per-file extraction: the comment and blank-line pre-filter, the split of
 * the code on declaration heads (`class|struct|enum( class)? +identifier`),
 * one `TypeNode` per head paired with the text that follows it, and the
 * `#include` targets that name a file with an extension.
 *
 * The regular expressions of the source are replaced by explicit ASCII
 * scanners. Each scanner looks at a suffix `u` of the text and decides what
 * the pattern matches at the start of `u`.
 */
module SrcAnalyzer {
  import opened Wrappers
  import opened Text
  import opened DataStructures

  // ---------------------------------------------------------------------
  // The line pre-filter
  // ---------------------------------------------------------------------

  /** `t.startswith('//')`. */
  predicate IsComment(t: string)
  {
    |t| >= 2 && t[0] == '/' && t[1] == '/'
  }

  /** A line survives when, stripped, it is not blank and not a `//` comment. */
  predicate KeepLine(line: string)
  {
    var t := Strip(line);
    t != [] && !IsComment(t)
  }

  /** A line as the filter hands it on: not blank, not a comment, no whitespace at either end. */
  predicate IsCodeLine(t: string)
  {
    t != [] && !IsComment(t) && !IsSpace(t[0]) && !IsSpace(t[|t| - 1])
  }

  /** `[f(x) for x in xs if keep(x)]`. */
  function Comprehension<T, U>(xs: seq<T>, keep: T -> bool, f: T -> U): (r: seq<U>)
    ensures |r| <= |xs|
  {
    if xs == [] then []
    else if keep(xs[0]) then [f(xs[0])] + Comprehension(xs[1..], keep, f)
    else Comprehension(xs[1..], keep, f)
  }

  lemma {:induction false} ComprehensionAppend<T, U>(a: seq<T>, b: seq<T>, keep: T -> bool, f: T -> U)
    ensures Comprehension(a + b, keep, f) == Comprehension(a, keep, f) + Comprehension(b, keep, f)
  {
    if a == [] {
      assert a + b == b;
    } else {
      assert (a + b)[0] == a[0] && (a + b)[1..] == a[1..] + b;
      ComprehensionAppend(a[1..], b, keep, f);
    }
  }

  /** An item of the result comes from an item of the input that is kept. */
  lemma {:induction false} ComprehensionSource<T, U>(xs: seq<T>, keep: T -> bool, f: T -> U, y: U) returns (i: nat)
    requires y in Comprehension(xs, keep, f)
    ensures i < |xs| && keep(xs[i]) && f(xs[i]) == y
  {
    if keep(xs[0]) && f(xs[0]) == y {
      i := 0;
    } else {
      var j := ComprehensionSource(xs[1..], keep, f, y);
      i := j + 1;
    }
  }

  /** Every kept item of the input gives an item of the result. */
  lemma {:induction false} ComprehensionKeeps<T, U>(xs: seq<T>, keep: T -> bool, f: T -> U, i: nat)
    requires i < |xs| && keep(xs[i])
    ensures f(xs[i]) in Comprehension(xs, keep, f)
  {
    if i > 0 {
      ComprehensionKeeps(xs[1..], keep, f, i - 1);
      assert xs[1..][i - 1] == xs[i];
    }
  }

  /** `[l.strip() for l in lines if not l.strip().startswith('//') and l.strip()]`. */
  function FilterLines(lines: seq<string>): (r: seq<string>)
    ensures |r| <= |lines|
  {
    Comprehension(lines, KeepLine, Strip)
  }

  /** The filter works line by line, so kept lines keep their order. */
  lemma FilterLinesAppend(a: seq<string>, b: seq<string>)
    ensures FilterLines(a + b) == FilterLines(a) + FilterLines(b)
  {
    ComprehensionAppend(a, b, KeepLine, Strip);
  }

  /** A string is in the result exactly when it is the stripped form of a line that survives. */
  lemma FilterLinesMember(lines: seq<string>, x: string)
    ensures x in FilterLines(lines) <==>
            exists i :: 0 <= i < |lines| && KeepLine(lines[i]) && Strip(lines[i]) == x
  {
    if x in FilterLines(lines) {
      var i := ComprehensionSource(lines, KeepLine, Strip, x);
    }
    if exists i :: 0 <= i < |lines| && KeepLine(lines[i]) && Strip(lines[i]) == x {
      var i :| 0 <= i < |lines| && KeepLine(lines[i]) && Strip(lines[i]) == x;
      ComprehensionKeeps(lines, KeepLine, Strip, i);
    }
  }

  /** Exactly the stripped forms of the lines that survive make up the result. */
  lemma FilterLinesMembers(lines: seq<string>)
    ensures forall x :: x in FilterLines(lines) <==>
              exists i :: 0 <= i < |lines| && KeepLine(lines[i]) && Strip(lines[i]) == x
  {
    forall x
      ensures x in FilterLines(lines) <==>
              exists i :: 0 <= i < |lines| && KeepLine(lines[i]) && Strip(lines[i]) == x
    {
      FilterLinesMember(lines, x);
    }
  }

  /** Every line handed on is stripped, not blank and not a comment. */
  lemma FilterLinesAreCode(lines: seq<string>, x: string)
    requires x in FilterLines(lines)
    ensures IsCodeLine(x)
  {
    var i := ComprehensionSource(lines, KeepLine, Strip, x);
  }

  /** The code text the extractor works on: the kept lines joined by newlines. */
  function CodeText(lines: seq<string>): (code: string)
    ensures code == [] <==> FilterLines(lines) == []
  {
    var kept := FilterLines(lines);
    if kept != [] then
      assert kept[0] != [] by {
        FilterLinesAreCode(lines, kept[0]);
      }
      assert |Join(kept, "\n")| >= |kept[0]|;
      Join(kept, "\n")
    else Join(kept, "\n")
  }

  // ---------------------------------------------------------------------
  // Declaration heads: (?:class|struct|enum(?: class)?) +[_a-zA-Z][_a-zA-Z0-9]*
  // ---------------------------------------------------------------------

  /** `u` starts with "class". */
  predicate ClassAt(u: string)
  {
    |u| >= 5 && u[0] == 'c' && u[1] == 'l' && u[2] == 'a' && u[3] == 's' && u[4] == 's'
  }

  /** `u` starts with "struct". */
  predicate StructAt(u: string)
  {
    |u| >= 6 && u[0] == 's' && u[1] == 't' && u[2] == 'r' && u[3] == 'u' && u[4] == 'c' && u[5] == 't'
  }

  /** `u` starts with "enum". */
  predicate EnumAt(u: string)
  {
    |u| >= 4 && u[0] == 'e' && u[1] == 'n' && u[2] == 'u' && u[3] == 'm'
  }

  /** `u` starts with "enum class". */
  predicate EnumClassAt(u: string)
  {
    EnumAt(u) && |u| >= 10 && u[4] == ' '
    && u[5] == 'c' && u[6] == 'l' && u[7] == 'a' && u[8] == 's' && u[9] == 's'
  }

  /** The length of the keyword alternative `u` starts with, tried in pattern order, or 0. */
  function KeywordLen(u: string): (k: nat)
    ensures k <= |u|
  {
    if ClassAt(u) then 5
    else if StructAt(u) then 6
    else if EnumAt(u) then 4
    else 0
  }

  /** ` +[_a-zA-Z]` matches at index `k` of `u`. */
  predicate BlanksThenIdent(u: string, k: nat)
  {
    k <= |u| && var n := RunFrom(u, k, Blank); k < n < |u| && IsIdentStart(u[n])
  }

  /** Some match of the head pattern starts at the start of `u`. */
  predicate HeadStart(u: string)
  {
    KeywordLen(u) > 0 && BlanksThenIdent(u, KeywordLen(u))
  }

  /** Where the keyword of the greedy match ends: after "enum class" when the longer form can go on. */
  function KeywordEnd(u: string): (k: nat)
    requires HeadStart(u)
    ensures BlanksThenIdent(u, k)
  {
    if KeywordLen(u) == 4 && EnumClassAt(u) && BlanksThenIdent(u, 10) then 10 else KeywordLen(u)
  }

  /** Where the identifier of the head starting `u` begins. */
  function HeadIdentStart(u: string): (i: nat)
    requires HeadStart(u)
    ensures KeywordEnd(u) < i < |u| && IsIdentStart(u[i])
  {
    RunFrom(u, KeywordEnd(u), Blank)
  }

  /** The length of the head match at the start of `u`: the identifier runs as far as it can. */
  function HeadLen(u: string): (n: nat)
    requires HeadStart(u)
    ensures HeadIdentStart(u) < n <= |u|
  {
    RunFrom(u, HeadIdentStart(u), Word)
  }

  /** The keyword the head at the start of `u` reads: the text of the first group. */
  function HeadKeyword(u: string): (kw: string)
    requires HeadStart(u)
    ensures ParseClassifier(kw).Some?
  {
    if KeywordEnd(u) == 10 then "enum class"
    else if ClassAt(u) then "class"
    else if StructAt(u) then "struct"
    else "enum"
  }

  /** The identifier the head at the start of `u` declares: the text of the second group. */
  function HeadIdent(u: string): (name: string)
    requires HeadStart(u)
    ensures IsIdentifier(name)
  {
    var i, n := HeadIdentStart(u), HeadLen(u);
    assert forall k :: 0 < k < n - i ==> u[i..n][k] == u[i + k];
    u[i..n]
  }

  /** The keyword read is the text the match spans before its blanks. */
  lemma HeadKeywordText(u: string)
    requires HeadStart(u)
    ensures HeadKeyword(u) == u[..KeywordEnd(u)]
  {
  }

  /** A match found in a prefix of `u` is a match in `u`. */
  lemma HeadStartOfPrefix(u: string, n: nat)
    requires n <= |u|
    ensures HeadStart(u[..n]) ==> HeadStart(u)
  {
    var t := u[..n];
    if HeadStart(t) {
      var k := KeywordLen(t);
      assert KeywordLen(u) == k;
      RunFromOfPrefix(u, n, k, Blank);
    }
  }

  /** Cut anywhere inside its identifier, a head match still reads the same keyword and identifier start. */
  lemma HeadOfPrefix(u: string, n: nat)
    requires HeadStart(u) && HeadIdentStart(u) < n <= |u|
    ensures HeadStart(u[..n])
    ensures KeywordEnd(u[..n]) == KeywordEnd(u) && HeadIdentStart(u[..n]) == HeadIdentStart(u)
  {
    var t := u[..n];
    var k, e := KeywordLen(u), KeywordEnd(u);
    assert KeywordLen(t) == k;
    RunFromOfPrefix(u, n, k, Blank);
    assert HeadStart(t);
    if EnumClassAt(u) && n >= 10 {
      RunFromOfPrefix(u, n, 10, Blank);
    }
    assert KeywordEnd(t) == e;
    RunFromOfPrefix(u, n, e, Blank);
  }

  /**
   * The text of a head match, taken on its own, is again a head match that
   * reads the same keyword and identifier and spans all of it.
   */
  lemma HeadBlock(u: string)
    requires HeadStart(u)
    ensures HeadStart(u[..HeadLen(u)])
    ensures HeadKeyword(u[..HeadLen(u)]) == HeadKeyword(u)
    ensures HeadIdent(u[..HeadLen(u)]) == HeadIdent(u)
    ensures HeadLen(u[..HeadLen(u)]) == HeadLen(u)
  {
    var n := HeadLen(u);
    var t := u[..n];
    var i := HeadIdentStart(u);
    HeadOfPrefix(u, n);
    assert HeadKeyword(t) == HeadKeyword(u) by {
      assert ClassAt(t) == ClassAt(u) && StructAt(t) == StructAt(u);
    }
    assert HeadLen(t) == n by {
      RunFromOfPrefix(u, n, i, Word);
    }
    assert HeadIdent(t) == HeadIdent(u) by {
      assert t[i..n] == u[i..n];
    }
  }

  /** A head match starts at index `j` of `s`. */
  predicate HeadAt(s: string, j: int)
  {
    0 <= j <= |s| && HeadStart(s[j..])
  }

  /** `re.search` from `from`: the first index at or after it where a head starts, or |s|. */
  function FindHead(s: string, from: nat): (i: nat)
    requires from <= |s|
    ensures from <= i <= |s|
    ensures i < |s| ==> HeadStart(s[i..])
    ensures forall j :: from <= j < i ==> !HeadAt(s, j)
    decreases |s| - from
  {
    if from == |s| then |s|
    else if HeadStart(s[from..]) then from
    else FindHead(s, from + 1)
  }

  /**
   * The next head match at or after `from`: where it starts and where it
   * ends, or `(|s|, |s|)` when there is none.
   */
  function NextHead(s: string, from: nat): (cut: (nat, nat))
    requires from <= |s|
    ensures from <= cut.0 <= cut.1 <= |s|
    ensures cut.0 < |s| <==> cut.0 < cut.1
    decreases |s| - from
  {
    if from == |s| then (|s|, |s|)
    else if HeadStart(s[from..]) then (from, from + HeadLen(s[from..]))
    else NextHead(s, from + 1)
  }

  /** The next head starts where the search finds one, and spans the match read there. */
  lemma {:induction false} NextHeadIsFound(s: string, from: nat)
    requires from <= |s|
    ensures NextHead(s, from).0 == FindHead(s, from)
    ensures NextHead(s, from).0 < |s| ==> NextHead(s, from).1 == NextHead(s, from).0 + HeadLen(s[NextHead(s, from).0..])
    decreases |s| - from
  {
    if from < |s| && !HeadStart(s[from..]) {
      NextHeadIsFound(s, from + 1);
    }
  }

  /**
   * `re.split` with the capturing head pattern, from index `from`: the text
   * before each head, the head itself, and so on, ending with the tail.
   */
  function SplitFrom(s: string, from: nat): (blocks: seq<string>)
    requires from <= |s|
    ensures |blocks| >= 1
    decreases |s| - from
  {
    var cut := NextHead(s, from);
    if cut.0 == |s| then [s[from..]]
    else [s[from..cut.0], s[cut.0..cut.1]] + SplitFrom(s, cut.1)
  }

  /** `re.split(declare_block_pattern, code)`. */
  function SplitHeads(code: string): seq<string>
  {
    SplitFrom(code, 0)
  }

  /** No head match starts anywhere in `b`. */
  predicate NoHead(b: string)
  {
    forall j :: 0 <= j < |b| ==> !HeadAt(b, j)
  }

  /** `b` is exactly one head match. */
  predicate IsHeadBlock(b: string)
  {
    HeadStart(b) && HeadLen(b) == |b|
  }

  /** `xs` alternates items of two kinds, starting and ending with the first kind. */
  predicate AlternatesBy<T>(xs: seq<T>, first: T -> bool, second: T -> bool)
    decreases |xs|
  {
    && |xs| >= 1 && first(xs[0])
    && (|xs| == 1 || (|xs| >= 3 && second(xs[1]) && AlternatesBy(xs[2..], first, second)))
  }

  /** Alternating items come in an odd number, the second kind at the odd indices, the first at the even ones. */
  lemma {:induction false} AlternatesByAt<T>(xs: seq<T>, first: T -> bool, second: T -> bool, i: int)
    requires AlternatesBy(xs, first, second) && 0 <= i < |xs|
    ensures |xs| % 2 == 1
    ensures i % 2 == 1 ==> second(xs[i])
    ensures i % 2 == 0 ==> first(xs[i])
    decreases |xs|
  {
    if |xs| > 1 {
      var rest := xs[2..];
      AlternatesByAt(rest, first, second, if i >= 2 then i - 2 else 0);
      if i >= 2 {
        assert xs[i] == rest[i - 2];
      }
    }
  }

  /** A single item of the first kind alternates. */
  lemma AlternatesBySingle<T>(x: T, first: T -> bool, second: T -> bool)
    requires first(x)
    ensures AlternatesBy([x], first, second)
  {
  }

  /** An item of each kind in front of alternating items keeps them alternating. */
  lemma AlternatesByCons<T>(x: T, y: T, rest: seq<T>, first: T -> bool, second: T -> bool)
    requires first(x) && second(y) && AlternatesBy(rest, first, second)
    ensures AlternatesBy([x, y] + rest, first, second)
  {
    assert ([x, y] + rest)[2..] == rest;
  }

  /** The split blocks alternate text and heads, starting and ending with text. */
  predicate Alternates(blocks: seq<string>)
  {
    AlternatesBy(blocks, NoHead, IsHeadBlock)
  }

  /** In alternating blocks there is an odd number of them, heads at the odd indices, text at the even ones. */
  lemma AlternatesAt(blocks: seq<string>, i: int)
    requires Alternates(blocks) && 0 <= i < |blocks|
    ensures |blocks| % 2 == 1
    ensures i % 2 == 1 ==> IsHeadBlock(blocks[i])
    ensures i % 2 == 0 ==> NoHead(blocks[i])
  {
    AlternatesByAt(blocks, NoHead, IsHeadBlock, i);
  }

  /** The text before the first head found from `from` contains no head. */
  lemma TextBlockHasNoHead(s: string, from: nat)
    requires from <= |s|
    ensures NoHead(s[from..FindHead(s, from)])
  {
    var i := FindHead(s, from);
    var b := s[from..i];
    forall j | 0 <= j < |b| ensures !HeadAt(b, j) {
      SliceOfSlice(s, from, i, j);
      HeadStartOfPrefix(s[from + j..], i - from - j);
      assert !HeadAt(s, from + j);
    }
  }

  /** The head found at index `i` of `s`, cut out of `s`, is a head block. */
  lemma HeadBlockAt(s: string, i: nat, e: nat)
    requires i < |s| && HeadStart(s[i..]) && e == i + HeadLen(s[i..])
    ensures e <= |s| && IsHeadBlock(s[i..e])
  {
    HeadBlock(s[i..]);
    assert s[i..e] == s[i..][..HeadLen(s[i..])];
  }

  /** The text before the next head holds no head. */
  lemma NextTextBlock(s: string, from: nat)
    requires from <= |s|
    ensures NoHead(s[from..NextHead(s, from).0])
  {
    NextHeadIsFound(s, from);
    TextBlockHasNoHead(s, from);
  }

  /** The next head, when there is one, is one head block. */
  lemma NextHeadBlock(s: string, from: nat)
    requires from <= |s| && NextHead(s, from).0 < |s|
    ensures IsHeadBlock(s[NextHead(s, from).0..NextHead(s, from).1])
  {
    var cut := NextHead(s, from);
    NextHeadIsFound(s, from);
    HeadBlockAt(s, cut.0, cut.1);
  }

  /** Splitting on heads yields alternating text and head blocks. */
  lemma {:induction false} SplitFromAlternates(s: string, from: nat)
    requires from <= |s|
    ensures Alternates(SplitFrom(s, from))
    decreases |s| - from
  {
    var cut := NextHead(s, from);
    NextTextBlock(s, from);
    if cut.0 < |s| {
      NextHeadBlock(s, from);
      SplitFromAlternates(s, cut.1);
      AlternatesByCons(s[from..cut.0], s[cut.0..cut.1], SplitFrom(s, cut.1), NoHead, IsHeadBlock);
    } else {
      assert s[from..cut.0] == s[from..];
      AlternatesBySingle(s[from..], NoHead, IsHeadBlock);
    }
  }

  /** Splitting on heads loses nothing: the blocks concatenated give the text back. */
  lemma {:induction false} SplitFromConcat(s: string, from: nat)
    requires from <= |s|
    ensures Concat(SplitFrom(s, from)) == s[from..]
    decreases |s| - from
  {
    var cut := NextHead(s, from);
    if cut.0 < |s| {
      SplitFromConcat(s, cut.1);
      ConcatTwo(s[from..cut.0], s[cut.0..cut.1], SplitFrom(s, cut.1));
      SliceThree(s, from, cut.0, cut.1);
    }
  }

  lemma ConcatTwo(x: string, y: string, rest: seq<string>)
    ensures Concat([x, y] + rest) == x + y + Concat(rest)
  {
    var b := [x, y] + rest;
    assert b[1..] == [y] + rest;
    assert b[1..][1..] == rest;
  }

  lemma SliceThree(s: string, a: nat, b: nat, c: nat)
    requires a <= b <= c <= |s|
    ensures s[a..] == s[a..b] + s[b..c] + s[c..]
  {
  }

  /**
   * `re.split` with a capturing group loses nothing and yields an odd number
   * of blocks: every odd-indexed one a single head, every even-indexed one
   * free of heads.
   */
  lemma SplitHeadsShape(code: string)
    ensures Alternates(SplitHeads(code))
    ensures Concat(SplitHeads(code)) == code
  {
    SplitFromAlternates(code, 0);
    SplitFromConcat(code, 0);
  }

  /**
   * `re.findall(type_declare_pattern, block)[0]`: the keyword and the
   * identifier of the first head match in the block, if there is one.
   */
  function ParseHead(block: string): (r: Option<(string, string)>)
    ensures r.Some? ==> IsIdentifier(r.value.1) && ParseClassifier(r.value.0).Some?
  {
    var i := FindHead(block, 0);
    if i == |block| then None
    else Some((HeadKeyword(block[i..]), HeadIdent(block[i..])))
  }

  /** A text block parses to nothing. */
  lemma TextBlockParse(b: string)
    requires NoHead(b)
    ensures ParseHead(b) == None
  {
    var i := FindHead(b, 0);
    assert i == |b| || HeadAt(b, i);
  }

  /** A head block parses to its own keyword and identifier. */
  lemma HeadBlockParse(b: string)
    requires IsHeadBlock(b)
    ensures ParseHead(b) == Some((HeadKeyword(b), HeadIdent(b)))
  {
    assert b[0..] == b;
    assert HeadAt(b, 0);
  }

  // ---------------------------------------------------------------------
  // search_type_declares
  // ---------------------------------------------------------------------

  /** The node a head block declares in a file with the given stem and source type. */
  function HeadNode(head: string, sourceName: string, sourceType: Option<SourceType>): (t: TypeNode)
    requires HeadStart(head)
    ensures IsIdentifier(t.name) && t.classifier.Some?
    ensures t.sourceName == sourceName && t.sourceType == sourceType
  {
    TypeNode(HeadIdent(head), ParseClassifier(HeadKeyword(head)), sourceName, sourceType)
  }

  /** The stem and the looked-up source type of a file path. */
  function FileStem(srcFile: string): string
  {
    SplitExt(Basename(srcFile)).0
  }

  function FileSourceType(srcFile: string): Option<SourceType>
  {
    ParseSourceType(SplitExt(Basename(srcFile)).1)
  }

  /** The node the first head of a block declares, if the block has a head. */
  function Declared(block: string, sourceName: string, sourceType: Option<SourceType>): (r: Option<TypeNode>)
    ensures r.Some? ==> IsIdentifier(r.value.name) && r.value.classifier.Some?
    ensures r.Some? ==> r.value.sourceName == sourceName && r.value.sourceType == sourceType
  {
    match ParseHead(block)
    case None => None
    case Some((t, n)) => Some(TypeNode(n, ParseClassifier(t), sourceName, sourceType))
  }

  /** `Declared` with the file's stem and source type fixed. */
  function DeclaredIn(sourceName: string, sourceType: Option<SourceType>): string -> Option<TypeNode>
  {
    block => Declared(block, sourceName, sourceType)
  }

  /** Block `block` declares the key `t`. */
  predicate DeclaresKey<K(==)>(decl: string -> Option<K>, block: string, t: K)
  {
    decl(block) == Some(t)
  }

  /**
   * The dictionary after the first `n` blocks: each declaring block's key
   * mapped to the block after it, a later declaration of the same key
   * replacing an earlier one.
   */
  function Collected<K(==)>(blocks: seq<string>, n: nat, decl: string -> Option<K>): map<K, string>
    requires n <= |blocks|
  {
    if n == 0 then map[]
    else
      var m := Collected(blocks, n - 1, decl);
      var d := decl(blocks[n - 1]);
      if d.Some? && n < |blocks| then m[d.value := blocks[n]] else m
  }

  /** Block `i`, among the first `n`, declares a key that no later block among them declares again. */
  predicate LastDeclaredBefore<K(==)>(blocks: seq<string>, n: int, i: int, decl: string -> Option<K>)
  {
    && 0 <= i < n <= |blocks| && i + 1 < |blocks|
    && decl(blocks[i]).Some?
    && forall k :: i < k < n && k + 1 < |blocks| ==> decl(blocks[k]) != decl(blocks[i])
  }

  /**
   * A key is collected exactly when some block with a successor among the
   * first `n` declares it, and it maps to the block after the last such one.
   */
  lemma {:induction false} CollectedDeclarations<K>(blocks: seq<string>, n: nat, decl: string -> Option<K>)
    requires n <= |blocks|
    ensures forall t :: t in Collected(blocks, n, decl) <==>
              exists i :: 0 <= i < n && i + 1 < |blocks| && DeclaresKey(decl, blocks[i], t)
    ensures forall i {:trigger LastDeclaredBefore(blocks, n, i, decl)} :: LastDeclaredBefore(blocks, n, i, decl) ==>
              decl(blocks[i]).value in Collected(blocks, n, decl) &&
              Collected(blocks, n, decl)[decl(blocks[i]).value] == blocks[i + 1]
  {
    if n > 0 {
      CollectedDeclarations(blocks, n - 1, decl);
      forall t ensures t in Collected(blocks, n, decl) <==>
                         exists i :: 0 <= i < n && i + 1 < |blocks| && DeclaresKey(decl, blocks[i], t)
      {
        var prev, d := Collected(blocks, n - 1, decl), decl(blocks[n - 1]);
        if t in Collected(blocks, n, decl) {
          if t in prev {
            var i :| 0 <= i < n - 1 && i + 1 < |blocks| && DeclaresKey(decl, blocks[i], t);
            assert 0 <= i < n && i + 1 < |blocks| && DeclaresKey(decl, blocks[i], t);
          } else {
            assert 0 <= n - 1 < n && n < |blocks| && DeclaresKey(decl, blocks[n - 1], t);
          }
        }
        if exists i :: 0 <= i < n && i + 1 < |blocks| && DeclaresKey(decl, blocks[i], t) {
          var i :| 0 <= i < n && i + 1 < |blocks| && DeclaresKey(decl, blocks[i], t);
          if i < n - 1 {
            assert t in prev;
          }
        }
      }
      forall i | LastDeclaredBefore(blocks, n, i, decl)
        ensures decl(blocks[i]).value in Collected(blocks, n, decl) &&
                Collected(blocks, n, decl)[decl(blocks[i]).value] == blocks[i + 1]
      {
        var prev, d := Collected(blocks, n - 1, decl), decl(blocks[n - 1]);
        if i < n - 1 {
          assert LastDeclaredBefore(blocks, n - 1, i, decl);
          if d.Some? && n < |blocks| {
            assert d != decl(blocks[i]);
            assert Collected(blocks, n, decl) == prev[d.value := blocks[n]];
          }
        } else {
          assert Collected(blocks, n, decl) == prev[d.value := blocks[n]];
        }
      }
    }
  }

  /** There is an odd number of blocks, and the even-indexed ones declare nothing. */
  predicate OnlyOddBlocksDeclare<K>(blocks: seq<string>, decl: string -> Option<K>)
  {
    |blocks| % 2 == 1 && forall i :: 0 <= i < |blocks| && i % 2 == 0 ==> decl(blocks[i]).None?
  }

  /** The split of any code text has an odd number of blocks, and its even-indexed ones declare nothing. */
  lemma TextBlocksOfSplit(code: string, sourceName: string, sourceType: Option<SourceType>)
    ensures OnlyOddBlocksDeclare(SplitHeads(code), DeclaredIn(sourceName, sourceType))
  {
    var blocks := SplitHeads(code);
    SplitHeadsShape(code);
    forall i | 0 <= i < |blocks| && i % 2 == 0
      ensures DeclaredIn(sourceName, sourceType)(blocks[i]) == None
    {
      AlternatesAt(blocks, i);
      TextBlockParse(blocks[i]);
    }
    AlternatesAt(blocks, 0);
  }

  /** The odd-indexed blocks of the split are heads, each declaring its own node. */
  lemma HeadBlocksOfSplit(code: string, sourceName: string, sourceType: Option<SourceType>)
    ensures var blocks := SplitHeads(code);
            forall i :: 0 <= i < |blocks| && i % 2 == 1 ==>
              IsHeadBlock(blocks[i]) && Declared(blocks[i], sourceName, sourceType) == Some(HeadNode(blocks[i], sourceName, sourceType))
  {
    var blocks := SplitHeads(code);
    SplitHeadsShape(code);
    forall i | 0 <= i < |blocks| && i % 2 == 1
      ensures IsHeadBlock(blocks[i]) && Declared(blocks[i], sourceName, sourceType) == Some(HeadNode(blocks[i], sourceName, sourceType))
    {
      AlternatesAt(blocks, i);
      HeadBlockParse(blocks[i]);
    }
  }

  /** Block `i`, at an odd index, declares the key `t`. */
  predicate DeclaredAtHead<K(==)>(blocks: seq<string>, i: int, decl: string -> Option<K>, t: K)
  {
    0 <= i < |blocks| && i % 2 == 1 && decl(blocks[i]) == Some(t)
  }

  /** Some block at an odd index declares the key `t`. */
  ghost predicate DeclaredAtSomeHead<K>(blocks: seq<string>, decl: string -> Option<K>, t: K)
  {
    exists i :: DeclaredAtHead(blocks, i, decl, t)
  }

  /** A collected key comes from some block among the first `n` that declares it. */
  lemma CollectedKeySource<K>(blocks: seq<string>, n: nat, decl: string -> Option<K>, t: K) returns (i: nat)
    requires n <= |blocks| && t in Collected(blocks, n, decl)
    ensures i < n && i + 1 < |blocks| && DeclaresKey(decl, blocks[i], t)
  {
    CollectedDeclarations(blocks, n, decl);
    i :| 0 <= i < n && i + 1 < |blocks| && DeclaresKey(decl, blocks[i], t);
  }

  /**
   * When only odd-indexed blocks of an odd number of blocks declare, a key
   * is collected exactly when one of those blocks declares it.
   */
  lemma CollectedKey<K>(blocks: seq<string>, decl: string -> Option<K>, t: K)
    requires OnlyOddBlocksDeclare(blocks, decl)
    ensures t in Collected(blocks, |blocks|, decl) <==> DeclaredAtSomeHead(blocks, decl, t)
  {
    CollectedDeclarations(blocks, |blocks|, decl);
    if t in Collected(blocks, |blocks|, decl) {
      var i :| 0 <= i < |blocks| && i + 1 < |blocks| && DeclaresKey(decl, blocks[i], t);
      assert DeclaredAtHead(blocks, i, decl, t);
    }
    if exists i :: DeclaredAtHead(blocks, i, decl, t) {
      var i :| DeclaredAtHead(blocks, i, decl, t);
      assert 0 <= i < |blocks| && i + 1 < |blocks| && DeclaresKey(decl, blocks[i], t);
    }
  }

  /**
   * When only odd-indexed blocks of an odd number of blocks declare, a
   * block whose key no later block declares again is at an odd index, and
   * its key maps to the block after it.
   */
  lemma CollectedValue<K>(blocks: seq<string>, decl: string -> Option<K>, i: int)
    requires OnlyOddBlocksDeclare(blocks, decl)
    requires LastDeclaredBefore(blocks, |blocks|, i, decl)
    ensures i % 2 == 1
    ensures decl(blocks[i]).value in Collected(blocks, |blocks|, decl)
    ensures Collected(blocks, |blocks|, decl)[decl(blocks[i]).value] == blocks[i + 1]
  {
    CollectedDeclarations(blocks, |blocks|, decl);
  }

  /** The dictionary `search_type_declares(code, src_file)` returns. */
  function Declarations(code: string, srcFile: string): map<TypeNode, string>
  {
    Collected(SplitHeads(code), |SplitHeads(code)|, DeclaredIn(FileStem(srcFile), FileSourceType(srcFile)))
  }

  /**
   * A node is a key of the declarations of a code text exactly when one of
   * its heads (the odd-indexed blocks, by `HeadBlocksOfSplit`) declares it.
   */
  lemma DeclarationKeys(code: string, srcFile: string, t: TypeNode)
    ensures t in Declarations(code, srcFile) <==>
            DeclaredAtSomeHead(SplitHeads(code), DeclaredIn(FileStem(srcFile), FileSourceType(srcFile)), t)
  {
    var blocks, decl := SplitHeads(code), DeclaredIn(FileStem(srcFile), FileSourceType(srcFile));
    assert OnlyOddBlocksDeclare(blocks, decl) by {
      TextBlocksOfSplit(code, FileStem(srcFile), FileSourceType(srcFile));
    }
    CollectedKey(blocks, decl, t);
  }

  /**
   * Every key is named by an identifier, has a classifier and carries the
   * file's stem and source type (which may be None).
   */
  lemma DeclarationFields(code: string, srcFile: string)
    ensures forall t :: t in Declarations(code, srcFile) ==>
              && IsIdentifier(t.name) && t.classifier.Some?
              && t.sourceName == FileStem(srcFile) && t.sourceType == FileSourceType(srcFile)
  {
    forall t | t in Declarations(code, srcFile)
      ensures && IsIdentifier(t.name) && t.classifier.Some?
              && t.sourceName == FileStem(srcFile) && t.sourceType == FileSourceType(srcFile)
    {
      var blocks, decl := SplitHeads(code), DeclaredIn(FileStem(srcFile), FileSourceType(srcFile));
      var i := CollectedKeySource(blocks, |blocks|, decl, t);
      assert Declared(blocks[i], FileStem(srcFile), FileSourceType(srcFile)) == Some(t);
    }
  }

  /**
   * A head that no later head redeclares maps its node to the block right
   * after it: the text up to the next head.
   */
  lemma DeclarationValues(code: string, srcFile: string)
    ensures forall i :: LastDeclaredBefore(SplitHeads(code), |SplitHeads(code)|, i, DeclaredIn(FileStem(srcFile), FileSourceType(srcFile))) ==>
              && i % 2 == 1
              && DeclaredIn(FileStem(srcFile), FileSourceType(srcFile))(SplitHeads(code)[i]).value in Declarations(code, srcFile)
              && Declarations(code, srcFile)[DeclaredIn(FileStem(srcFile), FileSourceType(srcFile))(SplitHeads(code)[i]).value]
                 == SplitHeads(code)[i + 1]
  {
    assert OnlyOddBlocksDeclare(SplitHeads(code), DeclaredIn(FileStem(srcFile), FileSourceType(srcFile))) by {
      TextBlocksOfSplit(code, FileStem(srcFile), FileSourceType(srcFile));
    }
    forall i | LastDeclaredBefore(SplitHeads(code), |SplitHeads(code)|, i, DeclaredIn(FileStem(srcFile), FileSourceType(srcFile))) {
      CollectedValue(SplitHeads(code), DeclaredIn(FileStem(srcFile), FileSourceType(srcFile)), i);
    }
  }

  /** One more block adds its key, mapped to the block after it, when it declares one and is not the last. */
  lemma CollectedNext<K>(blocks: seq<string>, i: nat, decl: string -> Option<K>)
    requires i < |blocks|
    ensures var d := decl(blocks[i]);
            Collected(blocks, i + 1, decl) ==
              if d.Some? && i + 1 < |blocks| then Collected(blocks, i, decl)[d.value := blocks[i + 1]]
              else Collected(blocks, i, decl)
  {
  }

  /**
   * In alternating blocks, a block with a head is never the last one, and a
   * block declares exactly the node its parsed head names.
   */
  lemma DeclaredStep(blocks: seq<string>, i: nat, sourceName: string, sourceType: Option<SourceType>)
    requires i < |blocks| && |blocks| % 2 == 1 && (i % 2 == 0 ==> NoHead(blocks[i]))
    ensures var p := ParseHead(blocks[i]);
            && (p.Some? ==> i + 1 < |blocks|)
            && DeclaredIn(sourceName, sourceType)(blocks[i]) ==
               if p.Some? then Some(TypeNode(p.value.1, ParseClassifier(p.value.0), sourceName, sourceType)) else None
  {
    if i % 2 == 0 {
      TextBlockParse(blocks[i]);
    }
  }

  /**
   * `search_type_declares(code, src_file)`: walks the split blocks and, for
   * each block with a head, stores the head's node with the block after it.
   * An unknown extension leaves the source type `None` and the scan goes on.
   */
  method SearchTypeDeclares(code: string, srcFile: string) returns (result: map<TypeNode, string>)
    ensures result == Declarations(code, srcFile)
    ensures forall t :: t in result ==> IsIdentifier(t.name) && t.classifier.Some?
  {
    var basename := Basename(srcFile);
    var (sourceName, ext) := SplitExt(basename);
    var sourceType := ParseSourceType(ext);
    result := map[];
    var declareBlocks := SplitHeads(code);
    SplitHeadsShape(code);
    for i := 0 to |declareBlocks|
      invariant result == Collected(declareBlocks, i, DeclaredIn(sourceName, sourceType))
    {
      var declare := ParseHead(declareBlocks[i]);
      AlternatesAt(declareBlocks, i);
      DeclaredStep(declareBlocks, i, sourceName, sourceType);
      CollectedNext(declareBlocks, i, DeclaredIn(sourceName, sourceType));
      if declare.Some? {
        var (t, n) := declare.value;
        var classifier := ParseClassifier(t);
        result := result[TypeNode(n, classifier, sourceName, sourceType) := declareBlocks[i + 1]];
      }
    }
    DeclarationFields(code, srcFile);
  }

  // ---------------------------------------------------------------------
  // #include targets: #include\s+["<"](.*)[">]
  // ---------------------------------------------------------------------

  predicate IsOpener(c: char)
  {
    c == '"' || c == '<'
  }

  predicate IsCloser(c: char)
  {
    c == '"' || c == '>'
  }

  /** `#include\s+["<"]` matches at the start of `u`. */
  predicate IncludeOpens(u: string)
  {
    StartsWith(u, "#include")
    && var w := RunFrom(u, 8, Space);
       w > 8 && w < |u| && IsOpener(u[w])
  }

  /** Where the captured target begins: just after the opening quote. */
  function CaptureStart(u: string): (i: nat)
    requires IncludeOpens(u)
    ensures 9 < i <= |u|
  {
    RunFrom(u, 8, Space) + 1
  }

  /** The end of the line holding index `j`: the next '\n' at or after it, or |u|. */
  function LineEnd(u: string, j: nat): (e: nat)
    requires j <= |u|
    ensures j <= e <= |u|
    ensures forall k :: j <= k < e ==> u[k] != '\n'
    ensures e < |u| ==> u[e] == '\n'
    decreases |u| - j
  {
    if j == |u| || u[j] == '\n' then j else LineEnd(u, j + 1)
  }

  /** The last index in [lo, hi) that holds a closing quote, or -1. */
  function LastCloser(u: string, lo: nat, hi: nat): (r: int)
    requires lo <= hi <= |u|
    ensures r == -1 || (lo <= r < hi && IsCloser(u[r]))
    ensures forall k :: (if r == -1 then lo else r + 1) <= k < hi ==> !IsCloser(u[k])
    decreases hi - lo
  {
    if hi == lo then -1
    else if IsCloser(u[hi - 1]) then hi - 1
    else LastCloser(u, lo, hi - 1)
  }

  /** The closing quote the greedy `(.*)` backs off to: the last one on the line. */
  function IncludeClose(u: string): int
    requires IncludeOpens(u)
  {
    var cs := CaptureStart(u);
    LastCloser(u, cs, LineEnd(u, cs))
  }

  /** The whole include pattern matches at the start of `u`. */
  predicate IncludeAt(u: string)
  {
    IncludeOpens(u) && IncludeClose(u) >= 0
  }

  /** The captured group: from after the opening quote to before the closing one. */
  function IncludeCapture(u: string): (target: string)
    requires IncludeAt(u)
    ensures '\n' !in target
  {
    var cs, r := CaptureStart(u), IncludeClose(u);
    assert forall k :: 0 <= k < r - cs ==> u[cs..r][k] == u[cs + k];
    u[cs..r]
  }

  /** `include_regex.findall(code)` from index `pos`: the targets in order. */
  function IncludesFrom(s: string, pos: nat): (targets: seq<string>)
    requires pos <= |s|
    ensures forall k :: 0 <= k < |targets| ==> '\n' !in targets[k]
    decreases |s| - pos
  {
    if pos == |s| then []
    else if IncludeAt(s[pos..]) then [IncludeCapture(s[pos..])] + IncludesFrom(s, pos + IncludeClose(s[pos..]) + 1)
    else IncludesFrom(s, pos + 1)
  }

  function IncludeTargets(code: string): seq<string>
  {
    IncludesFrom(code, 0)
  }

  /**
   * The include pattern read as a regular expression, matched at the start
   * of `u` with `ws` whitespace characters and the capture `t`: "#include",
   * a non-empty whitespace run, an opening quote, `t` (which `.` keeps off
   * line breaks) and a closing quote, with no closing quote later on the
   * same line, since the greedy `(.*)` backs off only as far as it must.
   */
  predicate IncludeDirective(u: string, ws: nat, t: string)
  {
    && 8 + ws + 1 + |t| < |u|
    && u[..8] == "#include"
    && ws > 0
    && (forall k :: 8 <= k < 8 + ws ==> InClass(u[k], Space))
    && IsOpener(u[8 + ws])
    && u[8 + ws + 1..8 + ws + 1 + |t|] == t
    && '\n' !in t
    && IsCloser(u[8 + ws + 1 + |t|])
    && (forall k :: 8 + ws + 1 + |t| < k < |u| && IsCloser(u[k]) ==> '\n' in u[8 + ws + 1 + |t|..k])
  }

  /** A match of the scanner is a directive, with the scanner's capture. */
  lemma MatchIsDirective(u: string) returns (ws: nat)
    requires IncludeAt(u)
    ensures IncludeDirective(u, ws, IncludeCapture(u))
    ensures IncludeClose(u) == 8 + ws + 1 + |IncludeCapture(u)|
  {
    var o := RunFrom(u, 8, Space);
    ws := o - 8;
    var cs, c := CaptureStart(u), IncludeClose(u);
    var e := LineEnd(u, cs);
    var t := IncludeCapture(u);
    assert t == u[cs..c];
    assert u[..8] == "#include";
    forall k | c < k < |u| && IsCloser(u[k])
      ensures '\n' in u[c..k]
    {
      assert k >= e;
      assert u[c..k][e - c] == u[e] == '\n';
    }
  }

  /** A directive is the scanner's match, with the same capture and end. */
  lemma DirectiveIsMatch(u: string, ws: nat, t: string)
    requires IncludeDirective(u, ws, t)
    ensures IncludeAt(u)
    ensures IncludeCapture(u) == t
    ensures IncludeClose(u) == 8 + ws + 1 + |t|
  {
    var o, c := 8 + ws, 8 + ws + 1 + |t|;
    assert StartsWith(u, "#include");
    assert RunFrom(u, 8, Space) == o;
    var e := LineEnd(u, o + 1);
    forall k | o + 1 <= k <= c
      ensures u[k] != '\n'
    {
      if k < c {
        assert u[k] == t[k - o - 1];
      }
    }
    assert c < e;
    var r := LastCloser(u, o + 1, e);
    assert r == c;
  }

  /**
   * `findall` reports the first directive at or after `pos` and resumes
   * just after its closing quote.
   */
  lemma {:induction false} IncludesFromFirst(s: string, pos: nat, p: nat, ws: nat, t: string)
    requires pos <= p <= |s|
    requires IncludeDirective(s[p..], ws, t)
    requires forall q, ws', t' :: pos <= q < p ==> !IncludeDirective(s[q..], ws', t')
    ensures p + 8 + ws + 2 + |t| <= |s|
    ensures IncludesFrom(s, pos) == [t] + IncludesFrom(s, p + 8 + ws + 2 + |t|)
    decreases p - pos
  {
    if pos == p {
      DirectiveIsMatch(s[p..], ws, t);
    } else {
      if IncludeAt(s[pos..]) {
        var ws' := MatchIsDirective(s[pos..]);
        assert false;
      }
      IncludesFromFirst(s, pos + 1, p, ws, t);
    }
  }

  /** With no directive at or after `pos`, `findall` finds nothing more. */
  lemma {:induction false} IncludesFromNone(s: string, pos: nat)
    requires pos <= |s|
    requires forall q, ws, t :: pos <= q < |s| ==> !IncludeDirective(s[q..], ws, t)
    ensures IncludesFrom(s, pos) == []
    decreases |s| - pos
  {
    if pos < |s| {
      if IncludeAt(s[pos..]) {
        var ws := MatchIsDirective(s[pos..]);
        assert false;
      }
      IncludesFromNone(s, pos + 1);
    }
  }

  /** Every target `findall` reports is the capture of a directive in the text. */
  lemma {:induction false} IncludeTargetIsDirective(s: string, pos: nat, k: nat) returns (p: nat, ws: nat)
    requires pos <= |s| && k < |IncludesFrom(s, pos)|
    ensures pos <= p <= |s|
    ensures IncludeDirective(s[p..], ws, IncludesFrom(s, pos)[k])
    decreases |s| - pos
  {
    if IncludeAt(s[pos..]) {
      var next := pos + IncludeClose(s[pos..]) + 1;
      if k == 0 {
        p := pos;
        ws := MatchIsDirective(s[pos..]);
      } else {
        assert IncludesFrom(s, pos)[k] == IncludesFrom(s, next)[k - 1];
        p, ws := IncludeTargetIsDirective(s, next, k - 1);
      }
    } else {
      p, ws := IncludeTargetIsDirective(s, pos + 1, k);
    }
  }

  /** The values `f` gives to the items of `xs` it does not map to None. */
  function Gathered<T(==), U(==)>(xs: seq<T>, f: T -> Option<U>): set<U>
  {
    set x | x in xs && f(x).Some? :: f(x).value
  }

  /** One more item adds its value, if it has one. */
  lemma GatheredSnoc<T, U>(xs: seq<T>, x: T, f: T -> Option<U>)
    ensures Gathered(xs + [x], f) == Gathered(xs, f) + if f(x).Some? then {f(x).value} else {}
  {
    var l, r := Gathered(xs + [x], f), Gathered(xs, f) + if f(x).Some? then {f(x).value} else {};
    forall u | u in l ensures u in r {
      var y :| y in xs + [x] && f(y).Some? && f(y).value == u;
      if y != x {
        assert y in xs;
      }
    }
    forall u | u in r ensures u in l {
      if u in Gathered(xs, f) {
        var y :| y in xs && f(y).Some? && f(y).value == u;
        assert y in xs + [x];
      } else {
        assert x in xs + [x];
      }
    }
  }

  /** Gathering one more item of a prefix. */
  lemma GatheredPrefix<T, U>(xs: seq<T>, k: nat, f: T -> Option<U>)
    requires k < |xs|
    ensures Gathered(xs[..k + 1], f) == Gathered(xs[..k], f) + if f(xs[k]).Some? then {f(xs[k]).value} else {}
  {
    assert xs[..k + 1] == xs[..k] + [xs[k]];
    GatheredSnoc(xs[..k], xs[k], f);
  }

  /** The source file an include target names: its base name, when that has an extension. */
  function IncludedSource(target: string): (r: Option<SourceNode>)
    ensures r.Some? ==> r.value.sourceType != [] && r.value.sourceType[0] == '.'
    ensures r.Some? ==> '/' !in r.value.sourceName + r.value.sourceType
  {
    var hf := Basename(target);
    if SplitExt(hf).1 != [] then Some(NewSourceNode(hf)) else None
  }

  /** The source files an include list names. */
  function IncludedSources(targets: seq<string>): set<SourceNode>
  {
    Gathered(targets, IncludedSource)
  }

  /**
   * Every included source file has a non-empty extension that starts with a
   * dot, and neither part holds a directory separator; each comes from a
   * target whose base name is that file.
   */
  lemma IncludedSourcesShape(targets: seq<string>)
    ensures forall n :: n in IncludedSources(targets) ==>
              && n.sourceType != [] && n.sourceType[0] == '.' && '/' !in n.sourceName + n.sourceType
              && exists h :: h in targets && Basename(h) == n.sourceName + n.sourceType
  {
    forall n | n in IncludedSources(targets)
      ensures && n.sourceType != [] && n.sourceType[0] == '.' && '/' !in n.sourceName + n.sourceType
              && exists h :: h in targets && Basename(h) == n.sourceName + n.sourceType
    {
      var h :| h in targets && IncludedSource(h).Some? && IncludedSource(h).value == n;
      assert Basename(h) == n.sourceName + n.sourceType;
    }
  }

  /** The loop over the include targets: keep the base names that have an extension. */
  method IncludedFiles(headers: seq<string>) returns (includes: set<SourceNode>)
    ensures includes == IncludedSources(headers)
  {
    includes := {};
    for k := 0 to |headers|
      invariant includes == IncludedSources(headers[..k])
    {
      var hf := Basename(headers[k]);
      var (src, ext) := SplitExt(hf);
      GatheredPrefix(headers, k, IncludedSource);
      if ext != [] {
        includes := includes + {NewSourceNode(hf)};
      }
    }
    assert headers[..|headers|] == headers;
  }

  // ---------------------------------------------------------------------
  // src_proc, after the file is read
  // ---------------------------------------------------------------------

  /**
   * `src_proc(src_file)` on the file's lines: the declarations found in the
   * filtered code, and the source files its `#include` lines name.
   */
  method SrcProc(lines: seq<string>, srcFile: string) returns (nodes: map<TypeNode, string>, includes: set<SourceNode>)
    ensures nodes == Declarations(CodeText(lines), srcFile)
    ensures includes == IncludedSources(IncludeTargets(CodeText(lines)))
  {
    var codeLines := FilterLines(lines);
    var code := Join(codeLines, "\n");
    nodes := SearchTypeDeclares(code, srcFile);
    includes := IncludedFiles(IncludeTargets(code));
  }

}
