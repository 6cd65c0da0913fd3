/**
 * Output file names of a chain (`output_names` in bin/chain_itelescope.py):
 * the pattern is split into root and extension the way POSIX
 * `os.path.splitext` does, and name `i` is `root + "_" + f"{i:04d}" + ext`.
 */
module Naming {

  type Path = string

  /** Index of the last occurrence of `c` in `s`, or -1 (Python's `str.rfind`). */
  function RFind(s: string, c: char): (r: int)
    ensures -1 <= r < |s|
    ensures 0 <= r ==> s[r] == c
    ensures forall i | r < i < |s| :: s[i] != c
  {
    if s == [] then -1
    else if s[|s| - 1] == c then |s| - 1
    else
      assert s == s[..|s| - 1] + [s[|s| - 1]];
      RFind(s[..|s| - 1], c)
  }

  /** RFind finds the occurrence after which `c` no longer appears. */
  lemma {:induction false} RFindIs(s: string, c: char, r: nat)
    requires r < |s| && s[r] == c && forall i | r < i < |s| :: s[i] != c
    ensures RFind(s, c) == r
  {
    if r < |s| - 1 {
      RFindIs(s[..|s| - 1], c, r);
    }
  }

  predicate AllDots(s: string) {
    forall i | 0 <= i < |s| :: s[i] == '.'
  }

  /**
   * Index of the first character other than `.` in `s[lo..hi]`, or `hi`
   * when there is none (the scan `os.path.splitext` makes past the last
   * separator).
   */
  function FirstNonDot(s: string, lo: nat, hi: nat): (r: nat)
    requires lo <= hi <= |s|
    ensures lo <= r <= hi
    ensures r < hi ==> s[r] != '.'
    ensures forall i | lo <= i < r :: s[i] == '.'
    decreases hi - lo
  {
    if lo == hi then hi
    else if s[lo] != '.' then lo
    else FirstNonDot(s, lo + 1, hi)
  }

  /** The final `/`-separated segment of a path. */
  function LastSegment(p: Path): (seg: string)
    ensures '/' !in seg
  {
    p[RFind(p, '/') + 1..]
  }

  /** Number of leading dots of `s`. */
  function LeadingDots(s: string): (k: nat)
    ensures k <= |s| && forall i | 0 <= i < k :: s[i] == '.'
    ensures k == |s| || s[k] != '.'
  {
    if s == [] || s[0] != '.' then 0 else 1 + LeadingDots(s[1..])
  }

  /**
   * POSIX `os.path.splitext`: the extension starts at the last `.` of the
   * final segment, provided some character other than `.` precedes that
   * dot within the segment (leading dots belong to the root).
   */
  function SplitExt(p: Path): (parts: (Path, string))
    ensures parts.0 + parts.1 == p
    ensures parts.1 != [] ==>
              && parts.1[0] == '.'
              && forall i | 0 <= i < |parts.1| :: parts.1[i] != '/' && (0 < i ==> parts.1[i] != '.')
  {
    var sep := RFind(p, '/');
    var dot := RFind(p, '.');
    if sep < dot && FirstNonDot(p, sep + 1, dot) < dot then
      ExtensionShape(p, sep, dot);
      (p[..dot], p[dot..])
    else
      assert p + [] == p;
      (p, [])
  }

  /**
   * A path without `/` whose last `.` follows some other character splits
   * at that `.`.
   */
  lemma SplitExtAt(p: Path, dot: nat, j: nat)
    requires forall i | 0 <= i < |p| :: p[i] != '/'
    requires dot < |p| && p[dot] == '.' && forall i | dot < i < |p| :: p[i] != '.'
    requires j < dot && p[j] != '.'
    ensures SplitExt(p) == (p[..dot], p[dot..])
  {
    RFindIs(p, '.', dot);
    assert FirstNonDot(p, 0, dot) <= j;
  }

  /** The suffix from the last dot, when that dot follows the last slash. */
  lemma ExtensionShape(p: Path, sep: int, dot: int)
    requires sep == RFind(p, '/') && dot == RFind(p, '.') && sep < dot
    ensures p[..dot] + p[dot..] == p
    ensures var e := p[dot..];
            && e[0] == '.'
            && forall i | 0 <= i < |e| :: e[i] != '/' && (0 < i ==> e[i] != '.')
  {
    var e := p[dot..];
    forall i | 0 <= i < |e|
      ensures e[i] != '/' && (0 < i ==> e[i] != '.')
    {
      assert e[i] == p[dot + i];
    }
  }

  /**
   * The extension is non-empty exactly when a `.` follows the leading dots
   * of the final path segment.
   */
  lemma SplitExtLeadingDotRule(p: Path)
    ensures SplitExt(p).1 != [] <==> '.' in LastSegment(p)[LeadingDots(LastSegment(p))..]
  {
    var sep := RFind(p, '/');
    var dot := RFind(p, '.');
    if sep < dot {
      var j := FirstNonDot(p, sep + 1, dot);
      if j == dot {
        DotsOnlyBeforeLastDot(p, sep, dot);
      } else {
        NonDotBeforeLastDot(p, sep, dot, j);
      }
    } else {
      NoDotInLastSegment(p, sep, dot);
    }
  }

  lemma DotsOnlyBeforeLastDot(p: Path, sep: int, dot: int)
    requires sep == RFind(p, '/') && dot == RFind(p, '.') && sep < dot
    requires forall i | sep < i < dot :: p[i] == '.'
    ensures '.' !in LastSegment(p)[LeadingDots(LastSegment(p))..]
  {
    var seg := p[sep + 1..];
    var d := dot - sep - 1;
    forall i | 0 <= i < |seg|
      ensures i < d ==> seg[i] == '.'
      ensures d < i ==> seg[i] != '.'
    {
      assert seg[i] == p[sep + 1 + i];
    }
    OnlyLeadingDots(seg, d);
  }

  lemma NonDotBeforeLastDot(p: Path, sep: int, dot: nat, j: int)
    requires -1 <= sep < j < dot < |p| && p[j] != '.' && p[dot] == '.'
    ensures '.' in p[sep + 1..][LeadingDots(p[sep + 1..])..]
  {
    var seg := p[sep + 1..];
    assert seg[j - sep - 1] == p[j];
    assert seg[dot - sep - 1] == p[dot];
    DotAfterNonDot(seg, dot - sep - 1, j - sep - 1);
  }

  lemma NoDotInLastSegment(p: Path, sep: int, dot: int)
    requires sep == RFind(p, '/') && dot == RFind(p, '.') && dot <= sep
    ensures '.' !in LastSegment(p)[LeadingDots(LastSegment(p))..]
  {
    var seg := p[sep + 1..];
    forall i | 0 <= i < |seg| ensures seg[i] != '.' {
      assert seg[i] == p[sep + 1 + i];
    }
    NoDotAfterLeadingDots(seg);
  }

  /** Dots up to and including `d`, none after: nothing follows the leading dots. */
  lemma OnlyLeadingDots(s: string, d: nat)
    requires d < |s| && s[d] == '.'
    requires forall i | 0 <= i < d :: s[i] == '.'
    requires forall i | d < i < |s| :: s[i] != '.'
    ensures '.' !in s[LeadingDots(s)..]
  {
    LeadingDotsIs(s, d + 1);
    var t := s[d + 1..];
    assert forall i | 0 <= i < |t| :: t[i] == s[d + 1 + i];
  }

  lemma {:induction false} LeadingDotsIs(s: string, k: nat)
    requires k <= |s| && (forall i | 0 <= i < k :: s[i] == '.') && (k == |s| || s[k] != '.')
    ensures LeadingDots(s) == k
  {
    if k > 0 {
      var t := s[1..];
      assert forall i | 0 <= i < k - 1 :: t[i] == s[i + 1];
      LeadingDotsIs(t, k - 1);
    }
  }

  lemma {:induction false} LeadingDotsBound(s: string, j: nat)
    requires j < |s| && s[j] != '.'
    ensures LeadingDots(s) <= j
  {
    if j > 0 && s[0] == '.' {
      LeadingDotsBound(s[1..], j - 1);
    }
  }

  /** A dot after some non-dot character lies past the leading dots. */
  lemma DotAfterNonDot(s: string, d: nat, j: nat)
    requires d < |s| && s[d] == '.' && j < d && s[j] != '.'
    ensures '.' in s[LeadingDots(s)..]
  {
    LeadingDotsBound(s, j);
    var k := LeadingDots(s);
    assert s[k..][d - k] == '.';
  }

  lemma NoDotAfterLeadingDots(s: string)
    requires forall i | 0 <= i < |s| :: s[i] != '.'
    ensures '.' !in s[LeadingDots(s)..]
  {
    assert LeadingDots(s) == 0;
  }

  // ---------------------------------------------------------------------
  // Decimal formatting: Python's f"{i:04d}" for a non-negative int i.

  function Pow10(w: nat): (r: nat)
    ensures r >= 1
  {
    if w == 0 then 1 else 10 * Pow10(w - 1)
  }

  predicate IsDigit(c: char) {
    '0' <= c <= '9'
  }

  function DigitChar(d: nat): (c: char)
    requires d < 10
    ensures IsDigit(c)
  {
    ('0' as int + d) as char
  }

  /** The low `w` decimal digits of `n`, most significant first, zero-filled. */
  function Digits(n: nat, w: nat): (s: string)
    ensures |s| == w
    ensures forall i | 0 <= i < |s| :: IsDigit(s[i])
  {
    if w == 0 then [] else Digits(n / 10, w - 1) + [DigitChar(n % 10)]
  }

  /** The number a string of decimal digits denotes (Python's `int(s)`). */
  function DigitsValue(s: string): nat
    requires forall i | 0 <= i < |s| :: IsDigit(s[i])
  {
    if s == [] then 0
    else
      assert IsDigit(s[|s| - 1]);
      DigitsValue(s[..|s| - 1]) * 10 + (s[|s| - 1] as int - '0' as int)
  }

  /** Length of the shortest decimal representation of `n`. */
  function NumDigits(n: nat): (w: nat)
    ensures 1 <= w
    ensures n < Pow10(w)
    ensures 1 < w ==> Pow10(w - 1) <= n
  {
    if n < 10 then 1 else 1 + NumDigits(n / 10)
  }

  function Max(a: nat, b: nat): nat {
    if a < b then b else a
  }

  /** `f"{i:04d}"`: the decimal digits of `i`, zero-padded to at least four. */
  function FormatIndex(i: nat): string {
    Digits(i, Max(4, NumDigits(i)))
  }

  lemma {:induction false} DigitsRoundTrip(n: nat, w: nat)
    requires n < Pow10(w)
    ensures DigitsValue(Digits(n, w)) == n
  {
    if w > 0 {
      DigitsRoundTrip(n / 10, w - 1);
      var s := Digits(n, w);
      assert s[..w - 1] == Digits(n / 10, w - 1);
    }
  }

  lemma {:induction false} Pow10Monotone(a: nat, b: nat)
    requires a <= b
    ensures Pow10(a) <= Pow10(b)
  {
    if a < b { Pow10Monotone(a, b - 1); }
  }

  lemma {:induction false} NumDigitsAtMost(n: nat, w: nat)
    requires 1 <= w && n < Pow10(w)
    ensures NumDigits(n) <= w
  {
    if n >= 10 {
      assert w >= 2;
      NumDigitsAtMost(n / 10, w - 1);
    }
  }

  lemma NumDigitsAtLeast(n: nat, w: nat)
    requires Pow10(w) <= n
    ensures w < NumDigits(n)
  {
    if NumDigits(n) <= w { Pow10Monotone(NumDigits(n), w); }
  }

  /** Below 10000 the formatted index is the plain four-digit form. */
  lemma FormatFourDigits(i: nat)
    requires i < 10000
    ensures FormatIndex(i) == Digits(i, 4)
  {
    assert Pow10(4) == 10000;
    NumDigitsAtMost(i, 4);
  }

  /**
   * The formatted index is all digits, reads back as `i`, and is exactly
   * four characters long precisely when `i` fits in four digits.
   */
  lemma FormatIndexRoundTrip(i: nat)
    ensures forall k | 0 <= k < |FormatIndex(i)| :: IsDigit(FormatIndex(i)[k])
    ensures DigitsValue(FormatIndex(i)) == i
    ensures |FormatIndex(i)| >= 4
    ensures |FormatIndex(i)| == 4 <==> i < 10000
  {
    var w := NumDigits(i);
    Pow10Monotone(w, Max(4, w));
    DigitsRoundTrip(i, Max(4, w));
    assert Pow10(4) == 10000;
    if i < 10000 { NumDigitsAtMost(i, 4); } else { NumDigitsAtLeast(i, 4); }
  }

  // ---------------------------------------------------------------------
  // Python's ordering of `str` values: lexicographic by code point.

  predicate LexLess(a: string, b: string) {
    if a == [] then b != []
    else if b == [] then false
    else a[0] < b[0] || (a[0] == b[0] && LexLess(a[1..], b[1..]))
  }

  lemma {:induction false} LexLessCommonPrefix(p: string, a: string, b: string)
    requires LexLess(a, b)
    ensures LexLess(p + a, p + b)
  {
    if p == [] {
      assert p + a == a && p + b == b;
    } else {
      LexLessCommonPrefix(p[1..], a, b);
      assert (p + a)[0] == p[0] == (p + b)[0];
      assert (p + a)[1..] == p[1..] + a;
      assert (p + b)[1..] == p[1..] + b;
    }
  }

  lemma {:induction false} LexLessExtend(a: string, b: string, x: string, y: string)
    requires |a| == |b| && LexLess(a, b)
    ensures LexLess(a + x, b + y)
  {
    assert a != [];
    assert (a + x)[1..] == a[1..] + x;
    assert (b + y)[1..] == b[1..] + y;
    if a[0] == b[0] && !(a[0] < b[0]) {
      LexLessExtend(a[1..], b[1..], x, y);
    }
  }

  /** Fixed-width digit strings are ordered as the numbers they denote. */
  lemma {:induction false} DigitsOrdered(n: nat, m: nat, w: nat)
    requires n < m < Pow10(w)
    ensures LexLess(Digits(n, w), Digits(m, w))
  {
    assert w > 0;
    var dn, dm := [DigitChar(n % 10)], [DigitChar(m % 10)];
    if n / 10 < m / 10 {
      DigitsOrdered(n / 10, m / 10, w - 1);
      LexLessExtend(Digits(n / 10, w - 1), Digits(m / 10, w - 1), dn, dm);
    } else {
      assert n % 10 < m % 10;
      assert LexLess(dn, dm);
      LexLessCommonPrefix(Digits(n / 10, w - 1), dn, dm);
    }
  }

  // ---------------------------------------------------------------------
  // Output names.

  /** Name `i` of the chain for output pattern `pattern`. */
  function OutputName(pattern: Path, i: nat): Path {
    var (root, ext) := SplitExt(pattern);
    root + "_" + FormatIndex(i) + ext
  }

  /** The first `length` output names, in chain order. */
  function OutputNameSeq(pattern: Path, length: nat): (names: seq<Path>)
    ensures |names| == length
  {
    seq(length, i requires 0 <= i < length => OutputName(pattern, i))
  }

  /** Every output name keeps the pattern's root and extension around the index. */
  lemma OutputNameShape(pattern: Path, i: nat)
    ensures var name := OutputName(pattern, i);
            var (root, ext) := SplitExt(pattern);
            && root + ext == pattern
            && |name| == |pattern| + 1 + |FormatIndex(i)|
            && name[..|root| + 1] == root + "_"
            && name[|root| + 1..|name| - |ext|] == FormatIndex(i)
            && name[|name| - |ext|..] == ext
  {
    var (root, ext) := SplitExt(pattern);
    var name := OutputName(pattern, i);
    assert name == (root + "_") + FormatIndex(i) + ext;
  }

  /** A pattern such as "out.plan" splits at its one `.`. */
  lemma SplitSimplePattern(root: Path, ext: string)
    requires '/' !in root && '/' !in ext && '.' !in ext
    requires !AllDots(root)
    ensures SplitExt(root + "." + ext) == (root, "." + ext)
  {
    var p := root + "." + ext;
    var dot := |root|;
    var j :| 0 <= j < |root| && root[j] != '.';
    assert forall i | 0 <= i < |p| :: p[i] == if i < dot then root[i] else if i == dot then '.' else ext[i - dot - 1];
    assert p[..dot] == root && p[dot..] == "." + ext;
    SplitExtAt(p, dot, j);
  }

  /**
   * A pattern such as "out.plan" (a root that is not all dots, then one
   * `.`, then an extension free of `.` and `/`) numbers its outputs
   * between root and extension: "out_0000.plan", "out_0001.plan", ...
   */
  lemma OutputNameOfSimplePattern(root: Path, ext: string, i: nat)
    requires '/' !in root && '/' !in ext && '.' !in ext
    requires !AllDots(root)
    ensures OutputName(root + "." + ext, i) == root + "_" + FormatIndex(i) + "." + ext
  {
    SplitSimplePattern(root, ext);
    var d := FormatIndex(i);
    assert OutputName(root + "." + ext, i) == root + "_" + d + ("." + ext);
    assert root + "_" + d + ("." + ext) == root + "_" + d + "." + ext;
  }

  /** Distinct indices give distinct names, whatever the chain length. */
  lemma OutputNamesDistinct(pattern: Path, i: nat, j: nat)
    requires i != j
    ensures OutputName(pattern, i) != OutputName(pattern, j)
  {
    OutputNameShape(pattern, i);
    OutputNameShape(pattern, j);
    FormatIndexRoundTrip(i);
    FormatIndexRoundTrip(j);
  }

  /** Up to index 9999 the names sort in chain order. */
  lemma OutputNamesOrdered(pattern: Path, i: nat, j: nat)
    requires i < j <= 9999
    ensures LexLess(OutputName(pattern, i), OutputName(pattern, j))
  {
    var (root, ext) := SplitExt(pattern);
    FormatFourDigits(i);
    FormatFourDigits(j);
    assert Pow10(4) == 10000;
    DigitsOrdered(i, j, 4);
    LexLessExtend(FormatIndex(i), FormatIndex(j), ext, ext);
    NameAround(root, ext, FormatIndex(i), FormatIndex(j));
  }

  /** Names that share root and extension compare as their middles do. */
  lemma NameAround(root: string, ext: string, a: string, b: string)
    requires LexLess(a + ext, b + ext)
    ensures LexLess(root + "_" + a + ext, root + "_" + b + ext)
  {
    LexLessCommonPrefix(root + "_", a + ext, b + ext);
    assert root + "_" + a + ext == (root + "_") + (a + ext);
    assert root + "_" + b + ext == (root + "_") + (b + ext);
  }

  /** An index below ten is written as three zeros and its digit. */
  lemma FormatOneDigit(d: nat)
    requires d < 10
    ensures FormatIndex(d) == ['0', '0', '0', DigitChar(d)]
  {
    assert Digits(0, 1) == ['0'];
    assert Digits(0, 2) == ['0', '0'];
    assert Digits(0, 3) == ['0', '0', '0'];
  }

  lemma DigitsHeadStep(n: nat, w: nat)
    requires w >= 2
    ensures Digits(n, w)[0] == Digits(n / 10, w - 1)[0]
  {
  }

  lemma FormatTenThousand()
    ensures |FormatIndex(10000)| == 5 && FormatIndex(10000)[0] == '1'
  {
    assert NumDigits(1) == 1;
    assert NumDigits(10) == 2;
    assert NumDigits(100) == 3;
    assert NumDigits(1000) == 4;
    assert NumDigits(10000) == 5;
    DigitsHeadStep(10000, 5);
    DigitsHeadStep(1000, 4);
    DigitsHeadStep(100, 3);
    DigitsHeadStep(10, 2);
  }

  lemma FormatNineThousandNineHundredNinetyNine()
    ensures |FormatIndex(9999)| == 4 && FormatIndex(9999)[0] == '9'
  {
    FormatFourDigits(9999);
    DigitsHeadStep(9999, 4);
    DigitsHeadStep(999, 3);
    DigitsHeadStep(99, 2);
  }

  /** Past the limit the order breaks: name 10000 sorts before name 9999. */
  lemma OrderBreaksPastLimit(pattern: Path)
    ensures LexLess(OutputName(pattern, 10000), OutputName(pattern, 9999))
  {
    var (root, ext) := SplitExt(pattern);
    var a, b := FormatIndex(10000), FormatIndex(9999);
    FormatTenThousand();
    FormatNineThousandNineHundredNinetyNine();
    assert (a + ext)[0] == '1' && (b + ext)[0] == '9';
    NameAround(root, ext, a, b);
  }

  /**
   * `output_names`: builds the list by appending one name per index.
   * The names are pairwise distinct, and sorted when at most 10000 are made
   * (the caller never asks for more than 9999).
   */
  method OutputNames(pattern: Path, length: nat) returns (names: seq<Path>)
    ensures |names| == length
    ensures forall i | 0 <= i < length :: names[i] == OutputName(pattern, i)
    ensures forall i, j | 0 <= i < j < length :: names[i] != names[j]
    ensures length <= 10000 ==> forall i, j | 0 <= i < j < length :: LexLess(names[i], names[j])
  {
    names := [];
    for i := 0 to length
      invariant |names| == i
      invariant forall k | 0 <= k < i :: names[k] == OutputName(pattern, k)
    {
      names := names + [OutputName(pattern, i)];
    }
    forall i, j | 0 <= i < j < length ensures names[i] != names[j] {
      OutputNamesDistinct(pattern, i, j);
    }
    if length <= 10000 {
      forall i, j | 0 <= i < j < length ensures LexLess(names[i], names[j]) {
        OutputNamesOrdered(pattern, i, j);
      }
    }
  }
}
