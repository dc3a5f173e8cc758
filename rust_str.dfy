/**
 * Models of the Rust `str` operations that the request decoder chains together:
 * `find`, `split` (with a non-empty pattern), `join`, `replace(p, "")`, `trim`
 * and `to_ascii_lowercase`. Strings are sequences of Unicode scalar values, as
 * Rust's `String` is once the 1024 bytes of a read have been mapped to chars.
 */
module RustStr {
  import opened Wrappers

  /** `p` occurs in `s` starting at index `k`. */
  predicate OccursAt(s: string, p: string, k: nat) {
    k + |p| <= |s| && s[k..k + |p|] == p
  }

  ghost predicate Contains(s: string, p: string) {
    exists k: nat :: OccursAt(s, p, k)
  }

  lemma OccursShift(s: string, p: string)
    requires |s| > 0
    ensures forall k: nat :: OccursAt(s[1..], p, k) <==> OccursAt(s, p, k + 1)
    ensures forall k: nat :: 1 <= k ==> (OccursAt(s, p, k) <==> OccursAt(s[1..], p, k - 1))
  {
    forall k: nat
      ensures OccursAt(s[1..], p, k) <==> OccursAt(s, p, k + 1)
    {
      if k + 1 + |p| <= |s| {
        assert s[1..][k..k + |p|] == s[k + 1..k + 1 + |p|];
      }
    }
  }

  lemma OccursInPrefix(s: string, p: string, n: nat, k: nat)
    requires n <= |s| && OccursAt(s[..n], p, k)
    ensures OccursAt(s, p, k) && k + |p| <= n
  {
    assert s[..n][k..k + |p|] == s[k..k + |p|];
  }

  /**
   * `s.find(p)`: the index of the leftmost occurrence of `p` in `s`.
   * The empty pattern occurs at index 0.
   */
  function Find(s: string, p: string): (r: Option<nat>)
    ensures r.Some? ==> OccursAt(s, p, r.value)
    ensures r.Some? ==> forall k: nat :: k < r.value ==> !OccursAt(s, p, k)
    ensures r.None? <==> !Contains(s, p)
    decreases |s|
  {
    if |s| < |p| then None
    else if s[..|p|] == p then Some(0)
    else
      assert !OccursAt(s, p, 0) by { assert s[0..|p|] == s[..|p|]; }
      OccursShift(s, p);
      match Find(s[1..], p)
      case None => None
      case Some(k) => Some(k + 1)
  }

  /** `ps.join(sep)` on a `Vec<String>`; joining nothing gives the empty string. */
  function Join(ps: seq<string>, sep: string): (r: string)
    ensures |ps| >= 1 ==> ps[0] <= r
    ensures |ps| >= 2 ==> ps[0] + sep <= r
  {
    if |ps| == 0 then []
    else if |ps| == 1 then ps[0]
    else ps[0] + sep + Join(ps[1..], sep)
  }

  /** `ps.join("")`: the pieces concatenated with no separator. */
  function Concat(ps: seq<string>): (r: string)
    ensures |ps| >= 1 ==> ps[0] <= r
  {
    Join(ps, [])
  }

  /**
   * `s.split(p)` for a non-empty pattern: the pieces between the leftmost
   * non-overlapping occurrences of `p`. There is always at least one piece,
   * joining the pieces with `p` gives `s` back, and no piece contains `p`.
   */
  function Split(s: string, p: string): (r: seq<string>)
    requires p != []
    ensures |r| >= 1
    ensures Join(r, p) == s
    ensures forall i :: 0 <= i < |r| ==> !Contains(r[i], p)
    ensures LeftmostCuts(s, p, r)
    decreases |s|
  {
    match Find(s, p)
    case None => [s]
    case Some(i) =>
      var rest := Split(s[i + |p|..], p);
      assert s == s[..i] + p + s[i + |p|..];
      assert forall k: nat :: !OccursAt(s[..i], p, k) by {
        forall k: nat | OccursAt(s[..i], p, k)
          ensures false
        {
          OccursInPrefix(s, p, i, k);
        }
      }
      [s[..i]] + rest
  }

  /**
   * The pieces `r` are cut at the leftmost occurrences of `p`: without `p` the
   * text is the one piece; otherwise the first piece is the text before the
   * first `p`, and the others are the text after it, cut the same way.
   */
  ghost predicate LeftmostCuts(s: string, p: string, r: seq<string>)
    decreases |s|
  {
    match Find(s, p)
    case None => r == [s]
    case Some(i) => p != [] && |r| >= 2 && r[0] == s[..i] && LeftmostCuts(s[i + |p|..], p, r[1..])
  }

  /** Leftmost cutting determines the pieces: `Split`'s contract has one solution. */
  lemma {:induction false} LeftmostCutsUnique(s: string, p: string, r1: seq<string>, r2: seq<string>)
    requires LeftmostCuts(s, p, r1) && LeftmostCuts(s, p, r2)
    ensures r1 == r2
    decreases |s|
  {
    match Find(s, p)
    case None =>
    case Some(i) =>
      LeftmostCutsUnique(s[i + |p|..], p, r1[1..], r2[1..]);
      assert r1 == [r1[0]] + r1[1..];
      assert r2 == [r2[0]] + r2[1..];
  }

  /**
   * `s.split(p).nth(0)`: the text before the first occurrence of `p`, or all of
   * `s` when `p` does not occur. For the empty pattern this is the empty string.
   */
  function Before(s: string, p: string): (r: string)
    ensures r <= s
    ensures p != [] ==> !Contains(r, p)
    ensures Contains(s, p) ==> OccursAt(s, p, |r|) && Find(s, p) == Some(|r|)
    ensures !Contains(s, p) ==> r == s
  {
    match Find(s, p)
    case None => s
    case Some(i) =>
      assert p != [] ==> forall k: nat :: !OccursAt(s[..i], p, k) by {
        forall k: nat | p != [] && OccursAt(s[..i], p, k)
          ensures false
        {
          OccursInPrefix(s, p, i, k);
        }
      }
      s[..i]
  }

  /** The text after the first occurrence of `p`, or the empty string when `p` does not occur. */
  function After(s: string, p: string): (r: string)
    ensures Contains(s, p) ==> s == Before(s, p) + p + r
    ensures !Contains(s, p) ==> r == []
  {
    match Find(s, p)
    case None => []
    case Some(i) =>
      CutAround(s, p, i);
      s[i + |p|..]
  }

  /** A text with `p` at index `i` is its prefix up to `i`, then `p`, then the rest. */
  lemma CutAround(s: string, p: string, i: nat)
    requires OccursAt(s, p, i)
    ensures s == s[..i] + p + s[i + |p|..]
  {
  }

  /**
   * `s.replace(p, "")`: every leftmost non-overlapping occurrence of `p`
   * removed, left to right. Replacing the empty pattern by "" changes nothing.
   */
  function DeleteAll(s: string, p: string): (r: string)
    ensures |r| <= |s|
    ensures r == s <==> p == [] || !Contains(s, p)
    decreases |s|
  {
    if p == [] then s
    else
      match Find(s, p)
      case None => s
      case Some(i) => s[..i] + DeleteAll(s[i + |p|..], p)
  }

  /** The chars with the Unicode White_Space property, which `char::is_whitespace` tests and `str::trim` strips. */
  const WHITESPACE: set<char> := {
    '\t', '\n', '\U{0B}', '\U{0C}', '\r', ' ', '\U{85}', '\U{A0}', '\U{1680}',
    '\U{2000}', '\U{2001}', '\U{2002}', '\U{2003}', '\U{2004}', '\U{2005}',
    '\U{2006}', '\U{2007}', '\U{2008}', '\U{2009}', '\U{200A}',
    '\U{2028}', '\U{2029}', '\U{202F}', '\U{205F}', '\U{3000}'
  }

  /** `char::is_whitespace`. */
  predicate IsWhitespace(c: char) {
    c in WHITESPACE
  }

  /** Where `trim_start` cuts, scanning up from `k`: the first index at or after `k` whose char is not white space, or `|s|`. */
  function TrimStartFrom(s: string, k: nat): (n: nat)
    requires k <= |s|
    ensures k <= n <= |s|
    ensures forall i :: k <= i < n ==> IsWhitespace(s[i])
    ensures n < |s| ==> !IsWhitespace(s[n])
    decreases |s| - k
  {
    if k == |s| || !IsWhitespace(s[k]) then k else TrimStartFrom(s, k + 1)
  }

  /** Where `trim_end` cuts, scanning down from `k` to `lo`: the index just past the last char before `k` that is not white space, or `lo`. */
  function TrimEndDownTo(s: string, lo: nat, k: nat): (n: nat)
    requires lo <= k <= |s|
    ensures lo <= n <= k
    ensures forall i :: n <= i < k ==> IsWhitespace(s[i])
    ensures n > lo ==> !IsWhitespace(s[n - 1])
    decreases k
  {
    if k == lo || !IsWhitespace(s[k - 1]) then k else TrimEndDownTo(s, lo, k - 1)
  }

  /**
   * `s.trim()`: `s` without its leading and trailing white space. The result is
   * the slice of `s` that starts at the first char that is not white space;
   * only white space lies outside it, and it neither starts nor ends with
   * white space.
   */
  function Trim(s: string): (r: string)
    ensures var a := TrimStartFrom(s, 0);
      && a + |r| <= |s|
      && r == s[a..a + |r|]
      && (forall i :: 0 <= i < a ==> IsWhitespace(s[i]))
      && (forall i :: a + |r| <= i < |s| ==> IsWhitespace(s[i]))
    ensures r != [] ==> !IsWhitespace(r[0]) && !IsWhitespace(r[|r| - 1])
  {
    var a := TrimStartFrom(s, 0);
    var b := TrimEndDownTo(s, a, |s|);
    s[a..b]
  }

  /** `char::to_ascii_lowercase`: only 'A'..'Z' change. */
  function LowerChar(c: char): char {
    if 'A' <= c <= 'Z' then (c as int + 32) as char else c
  }

  /** `str::to_ascii_lowercase`: every ASCII capital letter replaced by its small letter. */
  function ToAsciiLower(s: string): (r: string)
    ensures |r| == |s|
    ensures forall i :: 0 <= i < |s| ==> !('A' <= r[i] <= 'Z')
    ensures forall i :: 0 <= i < |s| ==> r[i] == s[i] || ('A' <= s[i] <= 'Z' && r[i] as int == s[i] as int + 32)
  {
    seq(|s|, i requires 0 <= i < |s| => LowerChar(s[i]))
  }

  // ---------------------------------------------------------------------------
  // Lemmas connecting the operations
  // ---------------------------------------------------------------------------

  /**
   * Piece 0 of a split is the text before the first occurrence, there is a
   * piece 1 exactly when the pattern occurs, and the remaining pieces are the
   * split of the text after the first occurrence.
   */
  lemma SplitFirstPieces(s: string, p: string)
    requires p != []
    ensures Split(s, p)[0] == Before(s, p)
    ensures |Split(s, p)| >= 2 <==> Contains(s, p)
    ensures Contains(s, p) ==> Split(s, p)[1..] == Split(After(s, p), p)
    ensures !Contains(s, p) ==> Split(s, p) == [s]
    ensures Join(Split(s, p)[1..], p) == After(s, p)
  {
  }

  /** `replace(p, "")` is the split at `p` joined back with nothing between the pieces. */
  lemma {:induction false} DeleteAllIsConcatOfSplit(s: string, p: string)
    requires p != []
    ensures DeleteAll(s, p) == Concat(Split(s, p))
    decreases |s|
  {
    SplitFirstPieces(s, p);
    if Contains(s, p) {
      var rest := After(s, p);
      DeleteAllFirst(s, p);
      DeleteAllIsConcatOfSplit(rest, p);
      assert Split(s, p) == [Before(s, p)] + Split(rest, p);
      ConcatCons(Before(s, p), Split(rest, p));
    }
  }

  /** Deleting every `p` is keeping what precedes the first one, then deleting every `p` after it. */
  lemma DeleteAllFirst(s: string, p: string)
    requires p != [] && Contains(s, p)
    ensures |After(s, p)| < |s|
    ensures DeleteAll(s, p) == Before(s, p) + DeleteAll(After(s, p), p)
  {
    var i := Find(s, p).value;
    assert Before(s, p) == s[..i];
    assert After(s, p) == s[i + |p|..];
  }

  /** Concatenating a piece in front of other pieces. */
  lemma ConcatCons(x: string, ps: seq<string>)
    ensures Concat([x] + ps) == x + Concat(ps)
  {
    if ps != [] {
      assert ([x] + ps)[1..] == ps;
    }
  }

  /** Text appended after an occurrence of `p` does not change what comes before the first one. */
  lemma BeforeExtend(s: string, t: string, p: string)
    requires Contains(s, p)
    ensures Before(s + t, p) == Before(s, p)
  {
    var i := Find(s, p).value;
    OccursInFront(s, t, p, i);
    forall k: nat | k < i
      ensures !OccursAt(s + t, p, k)
    {
      OccursInFront(s, t, p, k);
    }
    FindLeftmost(s + t, p, i);
  }

  /** An occurrence that ends within `s` is unaffected by what follows `s`. */
  lemma OccursInFront(s: string, t: string, p: string, k: nat)
    requires k + |p| <= |s|
    ensures OccursAt(s + t, p, k) <==> OccursAt(s, p, k)
  {
    assert (s + t)[k..k + |p|] == s[k..k + |p|];
  }

  /** An occurrence with none before it is the one `find` reports. */
  lemma FindLeftmost(s: string, p: string, i: nat)
    requires OccursAt(s, p, i)
    requires forall k: nat :: k < i ==> !OccursAt(s, p, k)
    ensures Find(s, p) == Some(i)
  {
  }

  /** Two texts with the same occurrences of `p` have the same leftmost one. */
  lemma FindBySameOccurrences(s: string, t: string, p: string)
    requires forall k: nat :: OccursAt(s, p, k) <==> OccursAt(t, p, k)
    ensures Find(s, p) == Find(t, p)
  {
    match Find(s, p)
    case None =>
    case Some(i) =>
      var j := Find(t, p).value;
      assert !(j < i) && !(i < j);
  }

  /** Lower-casing does not move any occurrence of a pattern that holds no ASCII letter. */
  lemma LowerKeepsOccurrences(s: string, p: string)
    requires forall i :: 0 <= i < |p| ==> !('A' <= p[i] <= 'Z') && !('a' <= p[i] <= 'z')
    ensures forall k: nat :: OccursAt(ToAsciiLower(s), p, k) <==> OccursAt(s, p, k)
    ensures Find(ToAsciiLower(s), p) == Find(s, p)
  {
    var lower := ToAsciiLower(s);
    forall k: nat | k + |p| <= |s|
      ensures OccursAt(lower, p, k) <==> OccursAt(s, p, k)
    {
      if OccursAt(lower, p, k) {
        forall m | 0 <= m < |p|
          ensures s[k + m] == p[m]
        {
          assert lower[k..k + |p|][m] == lower[k + m];
        }
        assert s[k..k + |p|] == p;
      }
      if OccursAt(s, p, k) {
        forall m | 0 <= m < |p|
          ensures lower[k + m] == p[m]
        {
          assert s[k..k + |p|][m] == s[k + m];
        }
        assert lower[k..k + |p|] == p;
      }
    }
    FindBySameOccurrences(lower, s, p);
  }

  /** Lower-casing commutes with taking a prefix. */
  lemma LowerPrefix(s: string, n: nat)
    requires n <= |s|
    ensures ToAsciiLower(s)[..n] == ToAsciiLower(s[..n])
  {
    var l := ToAsciiLower(s);
    var m := ToAsciiLower(s[..n]);
    forall j | 0 <= j < n
      ensures l[..n][j] == m[j]
    {
      assert s[..n][j] == s[j];
    }
  }

  /** Lower-casing commutes with taking a suffix. */
  lemma LowerSuffix(s: string, n: nat)
    requires n <= |s|
    ensures ToAsciiLower(s)[n..] == ToAsciiLower(s[n..])
  {
    var l := ToAsciiLower(s);
    var m := ToAsciiLower(s[n..]);
    forall j | 0 <= j < |s| - n
      ensures l[n..][j] == m[j]
    {
      assert s[n..][j] == s[n + j];
    }
  }

  /** Cutting at a pattern without letters commutes with lower-casing. */
  lemma LowerBeforeAfter(s: string, p: string)
    requires forall i :: 0 <= i < |p| ==> !('A' <= p[i] <= 'Z') && !('a' <= p[i] <= 'z')
    requires Contains(s, p)
    ensures Before(ToAsciiLower(s), p) == ToAsciiLower(Before(s, p))
    ensures After(ToAsciiLower(s), p) == ToAsciiLower(After(s, p))
  {
    var lower := ToAsciiLower(s);
    LowerKeepsOccurrences(s, p);
    var i := Find(s, p).value;
    assert Before(s, p) == s[..i];
    assert Before(lower, p) == lower[..i];
    assert After(s, p) == s[i + |p|..];
    assert After(lower, p) == lower[i + |p|..];
    LowerPrefix(s, i);
    LowerSuffix(s, i + |p|);
  }

  /** For a one-character pattern, `find` is the index of the first equal character. */
  lemma FindChar(s: string, c: char)
    ensures Find(s, [c]).None? <==> forall k :: 0 <= k < |s| ==> s[k] != c
    ensures Find(s, [c]).Some? ==>
              var i := Find(s, [c]).value; i < |s| && s[i] == c && forall k :: 0 <= k < i ==> s[k] != c
  {
    forall k: nat
      ensures OccursAt(s, [c], k) <==> k < |s| && s[k] == c
    {
      if k < |s| {
        assert s[k..k + 1] == [s[k]];
      }
    }
  }

  /** No char of `s` is `c`. */
  predicate Lacks(s: string, c: char) {
    forall i :: 0 <= i < |s| ==> s[i] != c
  }

  lemma LacksConcat(a: string, b: string, c: char)
    ensures Lacks(a + b, c) <==> Lacks(a, c) && Lacks(b, c)
  {
    if Lacks(a + b, c) {
      forall i | 0 <= i < |a|
        ensures a[i] != c
      {
        assert (a + b)[i] == a[i];
      }
      forall i | 0 <= i < |b|
        ensures b[i] != c
      {
        assert (a + b)[|a| + i] == b[i];
      }
    }
  }

  /** Cutting a text without `c` at a pattern leaves two texts without `c`. */
  lemma LacksAround(s: string, p: string, c: char)
    requires Contains(s, p) && Lacks(s, c)
    ensures Lacks(Before(s, p), c) && Lacks(After(s, p), c)
  {
    LacksConcat(Before(s, p) + p, After(s, p), c);
    LacksConcat(Before(s, p), p, c);
  }

  /** The first index holding `c` is where `find` reports `[c]`. */
  lemma FindCharIs(s: string, c: char, i: nat)
    requires i < |s| && s[i] == c
    requires forall k :: 0 <= k < i ==> s[k] != c
    ensures Find(s, [c]) == Some(i)
  {
    FindChar(s, c);
    var j := Find(s, [c]).value;
    assert !(j < i) && !(i < j);
  }

  /** `split(p).nth(0)` is the prefix up to where `find` reports `p`. */
  lemma BeforeAtFind(s: string, p: string, i: nat)
    requires Find(s, p) == Some(i)
    ensures Before(s, p) == s[..i]
  {
  }

  /** A text that starts with `p` is cut right after it. */
  lemma CutAtStart(p: string, w: string)
    ensures Find(p + w, p) == Some(0)
    ensures Contains(p + w, p)
    ensures Before(p + w, p) == []
    ensures After(p + w, p) == w
  {
    assert (p + w)[..|p|] == p;
    assert (p + w)[|p|..] == w;
  }

  /** Cutting `a + [c] + b` at `c` when `a` holds no `c` gives back `a` and `b`. */
  lemma CutAtChar(a: string, c: char, b: string)
    requires forall k :: 0 <= k < |a| ==> a[k] != c
    ensures Find(a + [c] + b, [c]) == Some(|a|)
    ensures Before(a + [c] + b, [c]) == a
    ensures After(a + [c] + b, [c]) == b
  {
    var s := a + [c] + b;
    FindChar(s, c);
    assert s[|a|] == c;
    assert (a + [c] + b)[..|a|] == a;
    assert (a + [c] + b)[|a| + 1..] == b;
  }

  /** A text lacking some character of `p` does not contain `p`. */
  lemma MissingCharNoOccurrence(s: string, p: string, j: nat)
    requires j < |p|
    requires forall i :: 0 <= i < |s| ==> s[i] != p[j]
    ensures !Contains(s, p)
  {
    forall k: nat
      ensures !OccursAt(s, p, k)
    {
      if k + |p| <= |s| {
        assert s[k..k + |p|][j] == s[k + j];
      }
    }
  }

  /** When the text before `p` lacks the first char of `p`, the first `p` is that one. */
  lemma CutAtFirst(a: string, p: string, b: string)
    requires p != [] && Lacks(a, p[0])
    ensures Find(a + p + b, p) == Some(|a|)
    ensures Before(a + p + b, p) == a
    ensures After(a + p + b, p) == b
  {
    var s := a + p + b;
    forall k: nat | k < |a|
      ensures !OccursAt(s, p, k)
    {
      assert s[k] == a[k];
      if k + |p| <= |s| {
        assert s[k..k + |p|][0] == s[k];
      }
    }
    assert s[|a|..|a| + |p|] == p;
    FindLeftmost(s, p, |a|);
    assert s[..|a|] == a;
    assert s[|a| + |p|..] == b;
  }

  /** Deleting a `p` that is the only one: neither side holds the first char of `p`. */
  lemma DeleteOnly(a: string, p: string, b: string)
    requires p != [] && Lacks(a, p[0]) && Lacks(b, p[0])
    ensures DeleteAll(a + p + b, p) == a + b
  {
    CutAtFirst(a, p, b);
    DeleteAllFirst(a + p + b, p);
    MissingCharNoOccurrence(b, p, 0);
  }

  /** Splitting at a `p` that is the only one gives the two sides. */
  lemma SplitOnly(a: string, p: string, b: string)
    requires p != [] && Lacks(a, p[0]) && Lacks(b, p[0])
    ensures Split(a + p + b, p) == [a, b]
  {
    CutAtFirst(a, p, b);
    MissingCharNoOccurrence(b, p, 0);
    SplitFirstPieces(a + p + b, p);
    SplitFirstPieces(b, p);
  }

  /** Two pieces joined with nothing between. */
  lemma ConcatPair(a: string, b: string)
    ensures Concat([a, b]) == a + b
  {
    assert [a, b][1..] == [b];
    assert Join([b], []) == b;
    assert Join([a, b], []) == a + [] + b;
    assert a + [] + b == a + b;
  }

  /** `replace(p, "")` on a text that starts with `p`. */
  lemma DeleteAllAtStart(p: string, t: string)
    requires p != []
    ensures DeleteAll(p + t, p) == DeleteAll(t, p)
  {
    assert (p + t)[..|p|] == p;
    assert (p + t)[|p|..] == t;
  }

  /** A text in which no two adjacent characters both equal `c` does not contain `[c, c]`. */
  lemma NoPairOccurrence(s: string, c: char)
    requires forall i :: 0 <= i < |s| - 1 ==> s[i] != c || s[i + 1] != c
    ensures !Contains(s, [c, c])
  {
    forall k: nat
      ensures !OccursAt(s, [c, c], k)
    {
      if k + 2 <= |s| {
        assert s[k..k + 2][0] == s[k] && s[k..k + 2][1] == s[k + 1];
      }
    }
  }

  /** No ASCII capital letter occurs in `s`. */
  predicate NoAsciiUpper(s: string) {
    forall i :: 0 <= i < |s| ==> !('A' <= s[i] <= 'Z')
  }

  /** Trimming a lower-cased text leaves it free of capitals. */
  lemma TrimLowerNoUpper(s: string)
    ensures NoAsciiUpper(Trim(ToAsciiLower(s)))
  {
    var l := ToAsciiLower(s);
    var a := TrimStartFrom(l, 0);
    NoUpperSlice(l, a, a + |Trim(l)|);
  }

  lemma NoUpperSlice(s: string, a: nat, b: nat)
    requires a <= b <= |s| && NoAsciiUpper(s)
    ensures NoAsciiUpper(s[a..b])
  {
    forall i | 0 <= i < b - a
      ensures !('A' <= s[a..b][i] <= 'Z')
    {
      assert s[a..b][i] == s[a + i];
    }
  }

  /** `trim` leaves a text alone when it neither starts nor ends with white space. */
  lemma TrimOfTrimmed(s: string)
    requires s != [] ==> !IsWhitespace(s[0]) && !IsWhitespace(s[|s| - 1])
    ensures Trim(s) == s
  {
  }

  /** `trim` drops a leading space in front of a text that is already trimmed. */
  lemma TrimStartSpace(s: string)
    requires s != [] ==> !IsWhitespace(s[0]) && !IsWhitespace(s[|s| - 1])
    ensures Trim(" " + s) == s
  {
    assert (" " + s)[1..] == s;
  }
}
