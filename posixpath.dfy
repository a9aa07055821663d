/**
 * The parts of Python's `os.path` (POSIX flavour) and `str` that the upload code relies on:
 * `str.rfind`, `os.path.splitext`, `os.path.join` with two arguments, and `str.lower`.
 */
module PosixPath {

  const Sep: char := '/'
  const ExtSep: char := '.'

  /** `s.rfind(c)`: the index of the last `c` in `s`, or -1 when there is none. */
  function RFind(s: string, c: char): (r: int)
    ensures -1 <= r < |s|
    ensures r >= 0 ==> s[r] == c
    ensures forall k :: r < k < |s| ==> s[k] != c
  {
    if s == [] then -1
    else if s[|s| - 1] == c then |s| - 1
    else RFind(s[..|s| - 1], c)
  }

  /** Any index with the two properties of `RFind` is the one `RFind` returns. */
  lemma RFindUnique(s: string, c: char, r: int)
    requires -1 <= r < |s|
    requires r >= 0 ==> s[r] == c
    requires forall k :: r < k < |s| ==> s[k] != c
    ensures RFind(s, c) == r
  {
  }

  /** Some character of `p[lo..hi]` is not a dot. */
  predicate HasNonDot(p: string, lo: int, hi: int)
    requires 0 <= lo <= hi <= |p|
  {
    exists k | lo <= k < hi :: p[k] != ExtSep
  }

  /**
   * `os.path.splitext(p)` for POSIX paths: split at the last dot when that dot lies in the last
   * path component and some character other than a dot precedes it in that component;
   * otherwise the extension is empty. The two parts always concatenate back to `p`, and a
   * non-empty extension is a dot followed by neither dots nor separators.
   */
  function Splitext(p: string): (r: (string, string))
    ensures r.0 + r.1 == p
    ensures r.1 == [] || (r.1[0] == ExtSep && forall k :: 0 < k < |r.1| ==> r.1[k] != ExtSep && r.1[k] != Sep)
  {
    var sepIndex := RFind(p, Sep);
    var dotIndex := RFind(p, ExtSep);
    if dotIndex > sepIndex && HasNonDot(p, sepIndex + 1, dotIndex) then
      assert p[..dotIndex] + p[dotIndex..] == p;
      (p[..dotIndex], p[dotIndex..])
    else
      (p, "")
  }

  /**
   * Reference description of a split, independent of `RFind`: `p[i]` is a dot, nothing after it
   * is a dot or a separator, and some non-dot character `p[k]` precedes it with no separator
   * between the two (so it lies in the same path component).
   */
  ghost predicate ValidSplitAt(p: string, i: int) {
    && 0 <= i < |p|
    && p[i] == ExtSep
    && (forall m :: i < m < |p| ==> p[m] != ExtSep && p[m] != Sep)
    && exists k :: 0 <= k < i && p[k] != ExtSep && NoSepBetween(p, k, i)
  }

  ghost predicate NoSepBetween(p: string, k: int, i: int)
    requires 0 <= k <= i <= |p|
  {
    forall m :: k <= m < i ==> p[m] != Sep
  }

  /** Where a reference split exists, `Splitext` splits exactly there. */
  lemma SplitextAt(p: string, i: int)
    requires ValidSplitAt(p, i)
    ensures Splitext(p) == (p[..i], p[i..])
  {
    RFindUnique(p, ExtSep, i);
    var k :| 0 <= k < i && p[k] != ExtSep && NoSepBetween(p, k, i);
    var sepIndex := RFind(p, Sep);
    assert sepIndex < k;
    assert HasNonDot(p, sepIndex + 1, i);
  }

  /** `Splitext` finds an extension exactly when a reference split exists. */
  lemma SplitextFindsSplit(p: string)
    ensures Splitext(p).1 != [] <==> exists i :: ValidSplitAt(p, i)
  {
    var sepIndex := RFind(p, Sep);
    var dotIndex := RFind(p, ExtSep);
    if dotIndex > sepIndex && HasNonDot(p, sepIndex + 1, dotIndex) {
      var k :| sepIndex + 1 <= k < dotIndex && p[k] != ExtSep;
      assert NoSepBetween(p, k, dotIndex);
      assert ValidSplitAt(p, dotIndex);
    } else if i :| ValidSplitAt(p, i) {
      SplitextAt(p, i);
    }
  }

  /** A path that starts at the root. */
  predicate IsAbs(b: string) {
    |b| > 0 && b[0] == Sep
  }

  /**
   * `os.path.join(a, b)`: an absolute `b` replaces `a`; otherwise `b` is appended to `a`, with a
   * separator in between only when `a` is non-empty and does not already end in one.
   */
  function Join(a: string, b: string): (r: string)
    ensures IsAbs(b) ==> r == b
    ensures !IsAbs(b) && (a == "" || a[|a| - 1] == Sep) ==> r == a + b
    ensures !IsAbs(b) && a != "" && a[|a| - 1] != Sep ==> r == a + [Sep] + b
  {
    if IsAbs(b) then b else a + Glue(a) + b
  }

  /** What `join` puts between a directory and a relative name. */
  function Glue(a: string): string {
    if a == "" || a[|a| - 1] == Sep then "" else [Sep]
  }

  /** A joined path always ends with its second part. */
  lemma JoinEndsWith(a: string, b: string)
    ensures var r := Join(a, b); |b| <= |r| && r[|r| - |b|..] == b
  {
  }

  /** Joining one directory with two different names of the same kind gives two different paths. */
  lemma JoinInjective(a: string, b1: string, b2: string)
    requires b1 != b2 && IsAbs(b1) == IsAbs(b2)
    ensures Join(a, b1) != Join(a, b2)
  {
    if !IsAbs(b1) {
      var mid := if a == "" || a[|a| - 1] == Sep then "" else [Sep];
      assert Join(a, b1) == (a + mid) + b1 && Join(a, b2) == (a + mid) + b2;
      assert Join(a, b1)[|a + mid|..] == b1;
      assert Join(a, b2)[|a + mid|..] == b2;
    }
  }

  /**
   * Joining in two steps through a non-empty middle component gives the same path as joining
   * the middle and the last component first, whichever of them are absolute.
   */
  lemma JoinAssociative(a: string, b: string, c: string)
    requires b != ""
    ensures Join(Join(a, b), c) == Join(a, Join(b, c))
  {
    if IsAbs(c) {
    } else if IsAbs(b) {
      assert Join(b, c)[0] == b[0];
    } else {
      JoinRelative(a, b, c);
    }
  }

  lemma JoinRelative(a: string, b: string, c: string)
    requires b != "" && !IsAbs(b) && !IsAbs(c)
    ensures Join(Join(a, b), c) == Join(a, Join(b, c))
  {
    var ab, bc := (a + Glue(a)) + b, (b + Glue(b)) + c;
    GlueOfSuffix(a + Glue(a), b);
    assert Join(ab, c) == (ab + Glue(b)) + c;
    assert bc[0] == b[0];
    assert Join(a, bc) == (a + Glue(a)) + bc;
    ConcatAssociative(a + Glue(a), b, Glue(b), c);
  }

  lemma GlueOfSuffix(x: string, y: string)
    requires y != ""
    ensures Glue(x + y) == Glue(y)
  {
    assert (x + y)[|x + y| - 1] == y[|y| - 1];
  }

  lemma ConcatAssociative(p: string, q: string, r: string, t: string)
    ensures ((p + q) + r) + t == p + ((q + r) + t)
  {
  }

  /** `SplitextAt` for every split point at once. */
  lemma SplitextAtEvery(p: string)
    ensures forall i :: ValidSplitAt(p, i) ==> Splitext(p) == (p[..i], p[i..])
  {
    forall i | ValidSplitAt(p, i) ensures Splitext(p) == (p[..i], p[i..]) {
      SplitextAt(p, i);
    }
  }

  /** `str.lower` restricted to ASCII letters. */
  function LowerChar(c: char): char {
    if 'A' <= c <= 'Z' then (c as int + 32) as char else c
  }

  function Lower(s: string): (r: string)
    ensures |r| == |s|
  {
    seq(|s|, k requires 0 <= k < |s| => LowerChar(s[k]))
  }

  /**
   * What lower-casing does, position by position: no upper-case ASCII letter is left, each one
   * becomes the lower-case letter at the same place in the alphabet, and every other character
   * is kept.
   */
  lemma LowerSpec(s: string)
    ensures forall k :: 0 <= k < |s| ==> !('A' <= Lower(s)[k] <= 'Z')
    ensures forall k :: 0 <= k < |s| && 'A' <= s[k] <= 'Z' ==> 'a' <= Lower(s)[k] <= 'z'
    ensures forall k :: 0 <= k < |s| && 'A' <= s[k] <= 'Z' ==>
      Lower(s)[k] as int - 'a' as int == s[k] as int - 'A' as int
    ensures forall k :: 0 <= k < |s| && !('A' <= s[k] <= 'Z') ==> Lower(s)[k] == s[k]
  {
  }

  /** Lower-casing changes no dot and no separator and creates none. */
  lemma LowerKeepsMarks(p: string, k: int)
    requires 0 <= k < |p|
    ensures Lower(p)[k] == ExtSep <==> p[k] == ExtSep
    ensures Lower(p)[k] == Sep <==> p[k] == Sep
  {
  }

  lemma ValidSplitLower(p: string, i: int)
    ensures ValidSplitAt(p, i) <==> ValidSplitAt(Lower(p), i)
  {
    var q := Lower(p);
    forall k | 0 <= k < |p| ensures (q[k] == ExtSep <==> p[k] == ExtSep) && (q[k] == Sep <==> p[k] == Sep) {
      LowerKeepsMarks(p, k);
    }
    if ValidSplitAt(p, i) {
      var k :| 0 <= k < i && p[k] != ExtSep && NoSepBetween(p, k, i);
      assert q[k] != ExtSep && NoSepBetween(q, k, i);
    }
    if ValidSplitAt(q, i) {
      var k :| 0 <= k < i && q[k] != ExtSep && NoSepBetween(q, k, i);
      assert p[k] != ExtSep && NoSepBetween(p, k, i);
    }
  }

  /** Lower-casing moves neither dots nor separators, so it commutes with `Splitext`. */
  lemma SplitextLower(p: string)
    ensures Splitext(Lower(p)) == (Lower(Splitext(p).0), Lower(Splitext(p).1))
  {
    var q := Lower(p);
    SplitextFindsSplit(p);
    SplitextFindsSplit(q);
    if i :| ValidSplitAt(p, i) {
      ValidSplitLower(p, i);
      SplitextAt(p, i);
      SplitextAt(q, i);
      assert Lower(p[..i]) == q[..i];
      assert Lower(p[i..]) == q[i..];
    } else {
      forall i ensures !ValidSplitAt(q, i) {
        ValidSplitLower(p, i);
      }
      assert Lower("") == "";
    }
  }
}
