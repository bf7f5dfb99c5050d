/**
 * ASCII string primitives the scanner relies on: the character classes of
 * Python's `str.isspace`, `\w` and identifiers, `str.strip`, `str.split`,
 * `str.join`, `str.rfind`, and `os.path.basename` / `os.path.splitext` for
 * POSIX paths.
 */
module Text {

  // ---------------------------------------------------------------------
  // Character classes
  // ---------------------------------------------------------------------

  /** `str.isspace` on ASCII: space, \t \n \v \f \r and the separators \x1c-\x1f. */
  predicate IsSpace(c: char)
  {
    c == ' ' || ('\t' <= c <= '\r') || ('\U{1C}' <= c <= '\U{1F}')
  }

  predicate IsLetter(c: char)
  {
    ('a' <= c <= 'z') || ('A' <= c <= 'Z')
  }

  predicate IsDigit(c: char)
  {
    '0' <= c <= '9'
  }

  /** The class `[_a-zA-Z]` that starts an identifier. */
  predicate IsIdentStart(c: char)
  {
    c == '_' || IsLetter(c)
  }

  /** The class `[_a-zA-Z0-9]`, which is also the ASCII part of regex `\w`. */
  predicate IsWordChar(c: char)
  {
    c == '_' || IsLetter(c) || IsDigit(c)
  }

  /** Full match of `[_a-zA-Z][_a-zA-Z0-9]*`. */
  predicate IsIdentifier(s: string)
  {
    |s| > 0 && IsIdentStart(s[0]) && forall k :: 0 < k < |s| ==> IsWordChar(s[k])
  }

  predicate AllSpace(s: string)
  {
    forall k :: 0 <= k < |s| ==> IsSpace(s[k])
  }

  // ---------------------------------------------------------------------
  // Searching
  // ---------------------------------------------------------------------

  predicate StartsWith(s: string, prefix: string)
  {
    |prefix| <= |s| && s[..|prefix|] == prefix
  }

  predicate EndsWith(s: string, suffix: string)
  {
    |suffix| <= |s| && s[|s| - |suffix|..] == suffix
  }

  /** `sub` occurs in `s` starting at index `i`. */
  predicate SubstringAt(s: string, sub: string, i: int)
  {
    0 <= i && i + |sub| <= |s| && s[i..i + |sub|] == sub
  }

  /** `s.find(sub) >= 0`. */
  predicate Contains(s: string, sub: string)
  {
    exists i :: 0 <= i <= |s| && SubstringAt(s, sub, i)
  }

  /** `s.rfind(c)`: the last index holding `c`, or -1. */
  function RFind(s: string, c: char): (r: int)
    ensures -1 <= r < |s|
    ensures r == -1 <==> c !in s
    ensures r >= 0 ==> s[r] == c
    ensures forall k :: r < k < |s| ==> s[k] != c
  {
    if s == [] then -1
    else if s[|s| - 1] == c then |s| - 1
    else RFind(s[..|s| - 1], c)
  }

  // ---------------------------------------------------------------------
  // str.strip()
  // ---------------------------------------------------------------------

  /** Drops the leading whitespace. */
  function TrimLeft(s: string): (r: string)
    ensures |r| <= |s| && r == s[|s| - |r|..]
    ensures AllSpace(s[..|s| - |r|])
    ensures r == [] || !IsSpace(r[0])
  {
    if s != [] && IsSpace(s[0]) then TrimLeft(s[1..]) else s
  }

  /** Drops the trailing whitespace. */
  function TrimRight(s: string): (r: string)
    ensures |r| <= |s| && r == s[..|r|]
    ensures AllSpace(s[|r|..])
    ensures r == [] || !IsSpace(r[|r| - 1])
  {
    if s != [] && IsSpace(s[|s| - 1]) then TrimRight(s[..|s| - 1]) else s
  }

  /**
   * `s.strip()`: the infix of `s` left after removing whitespace at both
   * ends; it neither starts nor ends with whitespace.
   */
  function Strip(s: string): (r: string)
    ensures |r| <= |s|
    ensures r == [] || (!IsSpace(r[0]) && !IsSpace(r[|r| - 1]))
  {
    TrimRight(TrimLeft(s))
  }

  /** What `Strip` keeps is an infix of the text with only whitespace around it. */
  lemma StripIsInfix(s: string)
    ensures var r := Strip(s);
            var i := |s| - |TrimLeft(s)|;
            && i + |r| <= |s| && r == s[i..i + |r|]
            && AllSpace(s[..i]) && AllSpace(s[i + |r|..])
  {
    var l := TrimLeft(s);
    var r := TrimRight(l);
    var i := |s| - |l|;
    assert s[i + |r|..] == l[|r|..];
  }

  /** Stripping twice strips nothing more. */
  lemma StripIdempotent(s: string)
    ensures Strip(Strip(s)) == Strip(s)
  {
    var r := Strip(s);
    if r != [] {
      assert TrimLeft(r) == r;
      assert TrimRight(r) == r;
    }
  }

  // ---------------------------------------------------------------------
  // str.split(c) and str.join
  // ---------------------------------------------------------------------

  /** `s.split(c)` for a one-character separator: never empty, pieces hold no `c`. */
  function SplitOn(s: string, c: char): (r: seq<string>)
    ensures |r| >= 1
    ensures forall k :: 0 <= k < |r| ==> c !in r[k]
    decreases |s|
  {
    if s == [] then [[]]
    else if s[0] == c then [[]] + SplitOn(s[1..], c)
    else
      var rest := SplitOn(s[1..], c);
      [[s[0]] + rest[0]] + rest[1..]
  }

  /** `sep.join(parts)`. */
  function Join(parts: seq<string>, sep: string): string
  {
    if |parts| == 0 then []
    else if |parts| == 1 then parts[0]
    else parts[0] + sep + Join(parts[1..], sep)
  }

  /** The parts glued together with nothing between them. */
  function Concat(parts: seq<string>): string
  {
    if parts == [] then [] else parts[0] + Concat(parts[1..])
  }

  /** The character classes the scanners count runs of. */
  datatype CharClass = Blank | Space | Word

  predicate InClass(c: char, cls: CharClass)
  {
    match cls
    case Blank => c == ' '
    case Space => IsSpace(c)
    case Word => IsWordChar(c)
  }

  /** The end of the run of characters of a class that starts at index `k` of `u`. */
  function RunFrom(u: string, k: nat, cls: CharClass): (e: nat)
    requires k <= |u|
    ensures k <= e <= |u|
    ensures forall m :: k <= m < e ==> InClass(u[m], cls)
    ensures e < |u| ==> !InClass(u[e], cls)
    decreases |u| - k
  {
    if k < |u| && InClass(u[k], cls) then RunFrom(u, k + 1, cls) else k
  }

  /** A run in a prefix of `u` is the run in `u`, cut at the prefix's end. */
  lemma RunFromOfPrefix(u: string, n: nat, k: nat, cls: CharClass)
    requires k <= n <= |u|
    ensures RunFrom(u[..n], k, cls) == if RunFrom(u, k, cls) < n then RunFrom(u, k, cls) else n
  {
    var t := u[..n];
    var a, b := RunFrom(t, k, cls), RunFrom(u, k, cls);
    if a < n {
      assert t[a] == u[a];
    }
    if b < n {
      assert t[b] == u[b];
    }
  }

  /** A suffix of a slice is a prefix of a suffix. */
  lemma SliceOfSlice(s: string, lo: nat, hi: nat, j: nat)
    requires lo <= hi <= |s| && j <= hi - lo
    ensures s[lo..hi][j..] == s[lo + j..][..hi - lo - j]
  {
    var l, r := s[lo..hi][j..], s[lo + j..][..hi - lo - j];
    assert forall k :: 0 <= k < |l| ==> l[k] == s[lo + j + k] == r[k];
  }

  /** Splitting on `c` and joining with `c` gives the text back. */
  lemma {:induction false} JoinSplitOn(s: string, c: char)
    ensures Join(SplitOn(s, c), [c]) == s
    decreases |s|
  {
    if s == [] {
    } else if s[0] == c {
      JoinSplitOn(s[1..], c);
      var rest := SplitOn(s[1..], c);
      assert SplitOn(s, c) == [[]] + rest;
      assert ([[]] + rest)[1..] == rest;
      assert s == [c] + s[1..];
    } else {
      JoinSplitOn(s[1..], c);
      var rest := SplitOn(s[1..], c);
      var r := [[s[0]] + rest[0]] + rest[1..];
      assert SplitOn(s, c) == r;
      if |rest| == 1 {
        assert r == [[s[0]] + rest[0]];
        assert s == [s[0]] + s[1..];
      } else {
        assert r[1..] == rest[1..];
        assert Join(rest, [c]) == rest[0] + [c] + Join(rest[1..], [c]);
        assert s == [s[0]] + s[1..];
      }
    }
  }

  // ---------------------------------------------------------------------
  // POSIX paths
  // ---------------------------------------------------------------------

  /** `os.path.basename(p)`: the text after the last '/'. */
  function Basename(p: string): (r: string)
    ensures '/' !in r
    ensures |r| <= |p| && r == p[|p| - |r|..]
    ensures |r| < |p| ==> p[|p| - |r| - 1] == '/'
  {
    p[RFind(p, '/') + 1..]
  }

  /** Some character in `p[lo..hi]` is not a dot. */
  predicate HasNonDot(p: string, lo: int, hi: int)
  {
    exists k :: 0 <= lo <= k < hi <= |p| && p[k] != '.'
  }

  /** What `RFind` finds in a suffix is what it finds in the whole text, shifted. */
  lemma RFindSuffix(p: string, c: char, j: nat)
    requires j <= |p|
    ensures RFind(p[j..], c) == if RFind(p, c) >= j then RFind(p, c) - j else -1
  {
    var r := RFind(p, c);
    var q := p[j..];
    if r >= j {
      assert q[r - j] == c;
    } else {
      assert forall k :: 0 <= k < |q| ==> q[k] == p[k + j];
      assert c !in q;
    }
  }

  /**
   * `os.path.splitext(p)` for POSIX paths: the extension is the suffix from
   * the last dot of the last path component, unless everything before that
   * dot in the component is a dot too (".bashrc", "..x" have no extension).
   */
  function SplitExt(p: string): (r: (string, string))
    ensures r.0 + r.1 == p
    ensures r.1 != [] ==> r.1[0] == '.' && '.' !in r.1[1..] && '/' !in r.1
  {
    var sepIndex := RFind(p, '/');
    var dotIndex := RFind(p, '.');
    if dotIndex > sepIndex && HasNonDot(p, sepIndex + 1, dotIndex) then
      assert p[dotIndex..][1..] == p[dotIndex + 1..];
      (p[..dotIndex], p[dotIndex..])
    else
      (p, [])
  }

  /**
   * A path has an extension exactly when the last dot of its base name is
   * preceded, inside the base name, by some character other than a dot;
   * the extension is then the base name's suffix from that dot.
   */
  lemma SplitExtOfBasename(p: string)
    ensures var b := Basename(p);
            var d := RFind(b, '.');
            && (SplitExt(p).1 != [] <==> d > 0 && HasNonDot(b, 0, d))
            && (SplitExt(p).1 != [] ==> SplitExt(p).1 == b[d..])
            && SplitExt(b).1 == SplitExt(p).1
  {
    var sepIndex := RFind(p, '/');
    var dotIndex := RFind(p, '.');
    var b := Basename(p);
    assert b == p[sepIndex + 1..];
    RFindSuffix(p, '.', sepIndex + 1);
    var d := RFind(b, '.');
    assert RFind(b, '/') == -1;
    if dotIndex > sepIndex {
      assert d == dotIndex - sepIndex - 1;
      if HasNonDot(p, sepIndex + 1, dotIndex) {
        var k :| 0 <= sepIndex + 1 <= k < dotIndex <= |p| && p[k] != '.';
        assert b[k - sepIndex - 1] != '.';
        assert HasNonDot(b, 0, d);
      }
      if HasNonDot(b, 0, d) {
        var k :| 0 <= k < d <= |b| && b[k] != '.';
        assert p[k + sepIndex + 1] != '.';
        assert HasNonDot(p, sepIndex + 1, dotIndex);
      }
    } else {
      assert d == -1;
    }
  }

}
