/**
 * The three fixed regular expressions `build_data` applies to each multipart
 * line, written out as scans. Each `Regex::replace` removes only the leftmost
 * match, and `.` matches every character except '\n', so a `.*` stops at the
 * end of the current line.
 */
module FormScan {
  import opened Wrappers
  import opened RustStr

  /** The literal text matched by `(name=)(\")`. */
  const NAME_OPEN: string := "name=\""
  const QUOTE: string := "\""

  /** Where a `.*` that starts at `from` must stop: the first '\n' at or after `from`, or the end. */
  function LineEnd(s: string, from: nat): (r: nat)
    requires from <= |s|
    ensures from <= r <= |s|
    ensures forall k :: from <= k < r ==> s[k] != '\n'
    ensures r < |s| ==> s[r] == '\n'
    decreases |s| - from
  {
    if from == |s| || s[from] == '\n' then from else LineEnd(s, from + 1)
  }

  /** The last index in `[lo, hi)` holding a double quote. */
  function LastQuote(s: string, lo: nat, hi: nat): (r: Option<nat>)
    requires lo <= hi <= |s|
    ensures r.Some? ==> lo <= r.value < hi && s[r.value] == '"'
    ensures r.Some? ==> forall k :: r.value < k < hi ==> s[k] != '"'
    ensures r.None? ==> forall k :: lo <= k < hi ==> s[k] != '"'
    decreases hi - lo
  {
    if hi == lo then None
    else if s[hi - 1] == '"' then Some(hi - 1)
    else LastQuote(s, lo, hi - 1)
  }

  /**
   * `Regex::new("(name=)(\")").replace(s, "")`: the leftmost `name="` removed;
   * without one, `s` is unchanged.
   */
  function RemoveNameOpen(s: string): (r: string)
    ensures Contains(s, NAME_OPEN) ==> r == Before(s, NAME_OPEN) + After(s, NAME_OPEN)
    ensures !Contains(s, NAME_OPEN) ==> r == s
  {
    match Find(s, NAME_OPEN)
    case None => s
    case Some(i) => s[..i] + s[i + |NAME_OPEN|..]
  }

  /**
   * `Regex::new("(\")(.*)").replace(s, "")`: from the leftmost double quote to
   * the end of its line removed. What precedes that quote is kept, the removed
   * span stops at the first '\n' after it (or the end), and everything from that
   * '\n' on is kept.
   */
  function CutQuoteToLineEnd(s: string): (r: string)
    ensures !Contains(s, QUOTE) ==> r == s
    ensures Contains(s, QUOTE) ==>
              var q := |Before(s, QUOTE)|;
              exists m :: q < m <= |s| && (forall k :: q < k < m ==> s[k] != '\n') && (m < |s| ==> s[m] == '\n') && r == s[..q] + s[m..]
    ensures |r| <= |s|
  {
    match Find(s, QUOTE)
    case None => s
    case Some(q) =>
      var m := LineEnd(s, q + 1);
      assert s[q] != '\n' by { assert s[q..q + 1] == QUOTE; }
      s[..q] + s[m..]
  }

  /**
   * `(name=)(\")(.*)(\")` matches `s[i..j + 1]`: a `name="` at `i` and a double
   * quote at `j` before the end of that line, since `.*` cannot cross a '\n'.
   */
  ghost predicate ValueMatchAt(s: string, i: nat, j: nat) {
    && OccursAt(s, NAME_OPEN, i)
    && i + |NAME_OPEN| <= j < LineEnd(s, i + |NAME_OPEN|)
    && s[j] == '"'
  }

  /**
   * The match `Regex::replace` uses for `(name=)(\")(.*)(\")`, searching from
   * `from`: the leftmost start that matches at all, and, since `.*` is greedy,
   * the last closing quote on that line.
   */
  function ValueMatch(s: string, from: nat): (r: Option<(nat, nat)>)
    requires from <= |s|
    ensures r.Some? ==> from <= r.value.0 && ValueMatchAt(s, r.value.0, r.value.1)
    ensures r.Some? ==> forall j: nat :: ValueMatchAt(s, r.value.0, j) ==> j <= r.value.1
    ensures r.Some? ==> forall i: nat, j: nat :: from <= i < r.value.0 ==> !ValueMatchAt(s, i, j)
    ensures r.None? ==> forall i: nat, j: nat :: from <= i ==> !ValueMatchAt(s, i, j)
    decreases |s| - from
  {
    if |s| < from + |NAME_OPEN| then None
    else if s[from..from + |NAME_OPEN|] == NAME_OPEN then
      var open := from + |NAME_OPEN|;
      var hi := LineEnd(s, open);
      OpenMatches(s, from);
      match LastQuote(s, open, hi)
      case Some(j) => Some((from, j))
      case None => ValueMatch(s, from + 1)
    else ValueMatch(s, from + 1)
  }

  /**
   * At a `name="`, the pattern matches exactly when a '"' follows on the same
   * line, and the longest match ends at the last such '"'.
   */
  lemma OpenMatches(s: string, from: nat)
    requires from + |NAME_OPEN| <= |s| && s[from..from + |NAME_OPEN|] == NAME_OPEN
    ensures var open := from + |NAME_OPEN|;
      var q := LastQuote(s, open, LineEnd(s, open));
      && (q.None? ==> forall j: nat :: !ValueMatchAt(s, from, j))
      && (q.Some? ==> ValueMatchAt(s, from, q.value))
      && (q.Some? ==> forall j: nat :: ValueMatchAt(s, from, j) ==> j <= q.value)
  {
  }

  /** The key `build_data` takes from a cleaned line: first `name="` removed, then the first '"' to the end of its line. */
  function FieldKey(t: string): (r: string)
    ensures |r| <= |t|
    ensures Contains(t, NAME_OPEN) ==> |r| <= |t| - |NAME_OPEN|
  {
    CutQuoteToLineEnd(RemoveNameOpen(t))
  }

  /**
   * The value `build_data` takes from a cleaned line,
   * `Regex::new("(name=)(\")(.*)(\")").replace(t, "")`: the `name="…"` match
   * removed, or the whole line when nothing matches.
   */
  function FieldValue(t: string): (r: string)
    ensures ValueMatch(t, 0).None? ==> r == t
    ensures ValueMatch(t, 0).Some? ==> |r| < |t| - |NAME_OPEN|
  {
    match ValueMatch(t, 0)
    case None => t
    case Some((i, j)) => t[..i] + t[j + 1..]
  }

  /** `LineEnd` runs to the end of a text without '\n'. */
  lemma LineEndOfLine(s: string, from: nat)
    requires from <= |s| && Lacks(s, '\n')
    ensures LineEnd(s, from) == |s|
  {
  }

  /** For a text, not containing `QUOTE` is lacking '"'. */
  lemma QuoteFree(s: string)
    ensures !Contains(s, QUOTE) <==> Lacks(s, '"')
  {
    FindChar(s, '"');
  }

  /**
   * On a single line with a `name="`, no '"' before it and a '"' after it, the
   * key is the text before the `name="` followed by the text between it and the
   * next '"'.
   */
  lemma FieldKeyOfSingleLine(t: string)
    requires Lacks(t, '\n')
    requires Contains(t, NAME_OPEN)
    requires !Contains(Before(t, NAME_OPEN), QUOTE)
    requires Contains(After(t, NAME_OPEN), QUOTE)
    ensures FieldKey(t) == Before(t, NAME_OPEN) + Before(After(t, NAME_OPEN), QUOTE)
  {
    var head, rest := Before(t, NAME_OPEN), After(t, NAME_OPEN);
    var u := RemoveNameOpen(t);
    assert u == head + rest;
    LacksAround(t, NAME_OPEN, '\n');
    QuoteFree(head);
    QuoteFree(rest);
    CutQuoteAfterHead(head, rest);
  }

  /** On one line, when the first '"' lies past `head`, the cut keeps `head` and the text up to that '"'. */
  lemma CutQuoteAfterHead(head: string, rest: string)
    requires Lacks(head, '"') && Lacks(head, '\n')
    requires !Lacks(rest, '"') && Lacks(rest, '\n')
    ensures CutQuoteToLineEnd(head + rest) == head + Before(rest, QUOTE)
  {
    var u := head + rest;
    LacksConcat(head, rest, '\n');
    var q := FindQuoteInConcat(head, rest);
    CutQuoteOnLine(u, |head| + q);
    PrefixOfConcat(head, rest, q);
    BeforeAtFind(rest, QUOTE, q);
  }

  /** On a single line, cutting from the first '"' to the line end keeps what precedes that '"'. */
  lemma CutQuoteOnLine(u: string, q: nat)
    requires Lacks(u, '\n') && Find(u, QUOTE) == Some(q)
    ensures CutQuoteToLineEnd(u) == u[..q]
  {
    LineEndOfLine(u, q + 1);
    assert u[|u|..] == [];
  }

  /** A prefix of `a + b` that reaches into `b`. */
  lemma PrefixOfConcat(a: string, b: string, n: nat)
    requires n <= |b|
    ensures (a + b)[..|a| + n] == a + b[..n]
  {
  }

  /** The first '"' of `a + b` is the first one of `b` when `a` has none. */
  lemma FindQuoteInConcat(a: string, b: string) returns (q: nat)
    requires Lacks(a, '"') && !Lacks(b, '"')
    ensures Find(b, QUOTE) == Some(q)
    ensures Find(a + b, QUOTE) == Some(|a| + q)
  {
    FindChar(b, '"');
    q := Find(b, QUOTE).value;
    var s := a + b;
    forall k | 0 <= k < |a| + q
      ensures s[k] != '"'
    {
      if k < |a| {
        assert s[k] == a[k];
      } else {
        assert s[k] == b[k - |a|];
      }
    }
    assert s[|a| + q] == b[q];
    FindCharIs(s, '"', |a| + q);
  }

  /**
   * On a single line with a `name="` and a '"' after it, the value is the line
   * with everything from the first `name="` to the LAST '"' of the line removed.
   */
  lemma FieldValueOfSingleLine(t: string) returns (lq: nat)
    requires Lacks(t, '\n')
    requires Contains(t, NAME_OPEN)
    requires Contains(After(t, NAME_OPEN), QUOTE)
    ensures LastQuote(t, 0, |t|) == Some(lq)
    ensures FieldValue(t) == Before(t, NAME_OPEN) + t[lq + 1..]
  {
    var i := Find(t, NAME_OPEN).value;
    lq := QuoteAfterNameOpen(t);
    ValueMatchOnLine(t, i, lq);
    RemoveMatchAt(t, i, lq);
    BeforeAtFind(t, NAME_OPEN, i);
  }

  /** On a single line, the match runs from the first `name="` to the last '"', when that '"' follows it. */
  lemma ValueMatchOnLine(t: string, i: nat, lq: nat)
    requires Lacks(t, '\n') && Find(t, NAME_OPEN) == Some(i)
    requires LastQuote(t, 0, |t|) == Some(lq) && i + |NAME_OPEN| <= lq
    ensures ValueMatch(t, 0) == Some((i, lq))
  {
    QuoteOnLineMatches(t, i, lq);
    var m := ValueMatchFirst(t, i, lq);
    assert m < |t| && t[m] == '"';
    NoQuoteAfterLast(t, m);
    assert m == lq;
  }

  lemma RemoveMatchAt(s: string, i: nat, j: nat)
    requires ValueMatch(s, 0) == Some((i, j))
    ensures FieldValue(s) == s[..i] + s[j + 1..]
  {
  }

  /** On a single line, a `name="` at `i` and a '"' at or after its end form a match. */
  lemma QuoteOnLineMatches(t: string, i: nat, j: nat)
    requires Lacks(t, '\n') && OccursAt(t, NAME_OPEN, i)
    requires i + |NAME_OPEN| <= j < |t| && t[j] == '"'
    ensures ValueMatchAt(t, i, j)
  {
    LineEndOfLine(t, i + |NAME_OPEN|);
  }

  /** A '"' of the line lies at or before its last one. */
  lemma NoQuoteAfterLast(t: string, m: nat)
    requires m < |t| && t[m] == '"'
    ensures LastQuote(t, 0, |t|).Some? && m <= LastQuote(t, 0, |t|).value
  {
  }

  /** The leftmost `name="` that has a match is where `Regex::replace` matches. */
  lemma ValueMatchFirst(s: string, i: nat, j: nat) returns (m: nat)
    requires ValueMatchAt(s, i, j)
    requires forall k: nat :: k < i ==> !OccursAt(s, NAME_OPEN, k)
    ensures ValueMatch(s, 0) == Some((i, m))
    ensures ValueMatchAt(s, i, m) && j <= m
  {
    var r := ValueMatch(s, 0);
    assert r.Some?;
    assert !OccursAt(s, NAME_OPEN, r.value.0) || i <= r.value.0;
    m := r.value.1;
  }

  /** The last '"' of a line lies after its first `name="` when some '"' follows that `name="`. */
  lemma QuoteAfterNameOpen(t: string) returns (j: nat)
    requires Contains(t, NAME_OPEN)
    requires Contains(After(t, NAME_OPEN), QUOTE)
    ensures LastQuote(t, 0, |t|) == Some(j)
    ensures Find(t, NAME_OPEN).value + |NAME_OPEN| <= j
  {
    var i := Find(t, NAME_OPEN).value;
    var rest := After(t, NAME_OPEN);
    assert rest == t[i + |NAME_OPEN|..];
    QuoteFree(rest);
    var q :| 0 <= q < |rest| && rest[q] == '"';
    assert t[i + |NAME_OPEN| + q] == '"';
    j := LastQuote(t, 0, |t|).value;
  }

  /**
   * A cleaned line without any '"' is left whole by all three patterns: it is
   * both its own key and its own value.
   */
  lemma FieldOfQuoteFreeLine(t: string)
    ensures Lacks(t, '"') ==> FieldKey(t) == t && FieldValue(t) == t
  {
    if Lacks(t, '"') {
      QuoteFree(t);
      assert NAME_OPEN[5] == '"';
      MissingCharNoOccurrence(t, NAME_OPEN, 5);
      assert ValueMatch(t, 0).None?;
    }
  }

  /** The cleaned line `name="k"v` gives back `k` and `v` when neither holds a '"' or a '\n'. */
  lemma FieldRoundTrip(k: string, v: string)
    requires Lacks(k, '"') && Lacks(k, '\n')
    requires Lacks(v, '"') && Lacks(v, '\n')
    ensures FieldKey(NAME_OPEN + k + QUOTE + v) == k
    ensures FieldValue(NAME_OPEN + k + QUOTE + v) == v
  {
    FieldKeyRoundTrip(k, v);
    FieldValueRoundTrip(k, v);
  }

  lemma FieldKeyRoundTrip(k: string, v: string)
    requires Lacks(k, '"') && Lacks(k, '\n')
    requires Lacks(v, '"') && Lacks(v, '\n')
    ensures FieldKey(NAME_OPEN + k + QUOTE + v) == k
  {
    FieldLineShape(k, v);
    FieldKeyOfSingleLine(NAME_OPEN + k + QUOTE + v);
  }

  lemma FieldValueRoundTrip(k: string, v: string)
    requires Lacks(k, '"') && Lacks(k, '\n')
    requires Lacks(v, '"') && Lacks(v, '\n')
    ensures FieldValue(NAME_OPEN + k + QUOTE + v) == v
  {
    var t := NAME_OPEN + k + QUOTE + v;
    FieldLineShape(k, v);
    var lq := FieldValueOfSingleLine(t);
    var c := |NAME_OPEN| + |k|;
    assert t[c] == '"';
    assert lq == c;
    assert t[c + 1..] == v;
  }

  /** Neither pattern literal holds a line feed. */
  lemma LiteralsOnOneLine()
    ensures Lacks(NAME_OPEN, '\n') && Lacks(QUOTE, '\n')
  {
  }

  /** How the line `name="k"v` is cut at `name="` and at '"'. */
  lemma FieldLineShape(k: string, v: string)
    requires Lacks(k, '"') && Lacks(k, '\n')
    requires Lacks(v, '"') && Lacks(v, '\n')
    ensures var t := NAME_OPEN + k + QUOTE + v;
      && Lacks(t, '\n')
      && Contains(t, NAME_OPEN)
      && Before(t, NAME_OPEN) == []
      && After(t, NAME_OPEN) == k + QUOTE + v
      && Contains(k + QUOTE + v, QUOTE)
      && Before(k + QUOTE + v, QUOTE) == k
      && forall i :: |NAME_OPEN| + |k| < i < |t| ==> t[i] != '"'
  {
    var w := k + QUOTE + v;
    var t := NAME_OPEN + w;
    assert t == NAME_OPEN + k + QUOTE + v;
    CutAtStart(NAME_OPEN, w);
    CutAtChar(k, '"', v);
    LiteralsOnOneLine();
    LacksConcat(k, QUOTE, '\n');
    LacksConcat(k + QUOTE, v, '\n');
    LacksConcat(NAME_OPEN, w, '\n');
    var x := NAME_OPEN + k + QUOTE;
    forall i | |x| <= i < |t|
      ensures t[i] != '"'
    {
      assert t[i] == v[i - |x|];
    }
  }
}
