/** String primitives the build script relies on, stated over `seq<char>`:
    prefix tests, substring occurrence and first-occurrence search, the
    whitespace trimming of Python's `str.strip()` and JavaScript's `trim()`,
    and splitting at a one-character separator as JavaScript's `split` does. */
module Text {
  import opened Wrappers

  predicate StartsWith(s: string, prefix: string) {
    |prefix| <= |s| && s[..|prefix|] == prefix
  }

  predicate EndsWith(s: string, suffix: string) {
    |suffix| <= |s| && s[|s| - |suffix|..] == suffix
  }

  /** `pat` appears in `s` starting at index `i`. */
  predicate OccursAt(s: string, pat: string, i: int) {
    0 <= i && i + |pat| <= |s| && s[i..i + |pat|] == pat
  }

  /** Python's `pat in s`. */
  predicate Contains(s: string, pat: string) {
    exists i | 0 <= i <= |s| - |pat| :: OccursAt(s, pat, i)
  }

  /** `i` is the leftmost index at which `pat` appears in `s`. */
  predicate FirstOccurrence(s: string, pat: string, i: int) {
    OccursAt(s, pat, i) && forall j :: 0 <= j < i ==> !OccursAt(s, pat, j)
  }

  /** Leftmost occurrence of `pat` in `s` at or after `from`. */
  function IndexOfFrom(s: string, pat: string, from: nat): (r: Option<nat>)
    ensures r.Some? ==> from <= r.value && OccursAt(s, pat, r.value)
    ensures r.Some? ==> forall j :: from <= j < r.value ==> !OccursAt(s, pat, j)
    ensures r.None? ==> forall j :: from <= j ==> !OccursAt(s, pat, j)
    decreases |s| - from
  {
    if from + |pat| > |s| then None
    else if OccursAt(s, pat, from) then Some(from)
    else IndexOfFrom(s, pat, from + 1)
  }

  /** Leftmost occurrence of `pat` in `s`, as Python's `str.find` minus the -1. */
  function IndexOf(s: string, pat: string): (r: Option<nat>)
    ensures r.Some? <==> Contains(s, pat)
    ensures r.Some? ==> FirstOccurrence(s, pat, r.value)
  {
    IndexOfFrom(s, pat, 0)
  }

  /** A match in `y` is a match in `x + y`, shifted by `|x|`, and back. */
  lemma OccursAtShift(x: string, y: string, pat: string, p: int)
    requires 0 <= p
    ensures OccursAt(x + y, pat, p + |x|) <==> OccursAt(y, pat, p)
  {
    if p + |pat| <= |y| {
      assert (x + y)[p + |x|..p + |x| + |pat|] == y[p..p + |pat|];
    }
  }

  lemma ContainsShift(x: string, y: string, pat: string)
    ensures Contains(y, pat) ==> Contains(x + y, pat)
  {
    if Contains(y, pat) {
      var p :| 0 <= p <= |y| - |pat| && OccursAt(y, pat, p);
      OccursAtShift(x, y, pat, p);
    }
  }

  /** `[c] + y` begins with a nonempty `u` exactly when `u` begins with `c`
      and `y` begins with the rest of `u`. */
  lemma StartsWithCons(c: char, y: string, u: string)
    requires u != []
    ensures StartsWith([c] + y, u) <==> u[0] == c && StartsWith(y, u[1..])
  {
    var x := [c] + y;
    if |u| <= |x| {
      if StartsWith(x, u) {
        forall m | 0 <= m < |u| - 1 ensures y[..|u| - 1][m] == u[1..][m] {
          assert x[..|u|][m + 1] == u[m + 1];
        }
        assert y[..|u| - 1] == u[1..];
      }
      if u[0] == c && StartsWith(y, u[1..]) {
        forall m | 0 <= m < |u| ensures x[..|u|][m] == u[m] {
          if m > 0 {
            assert y[..|u| - 1][m - 1] == u[1..][m - 1];
          }
        }
        assert x[..|u|] == u;
      }
    }
  }

  /** A pattern has at most one leftmost occurrence. */
  lemma FirstOccurrenceUnique(s: string, pat: string, i: int)
    requires FirstOccurrence(s, pat, i)
    ensures forall j :: FirstOccurrence(s, pat, j) ==> j == i
  {
  }

  /** The characters Python's `str.strip()` removes (those for which
      `str.isspace()` holds). */
  const PythonWhitespace: set<char> := {
    '\t', '\n', '\U{000B}', '\U{000C}', '\r', '\U{001C}', '\U{001D}', '\U{001E}',
    '\U{001F}', ' ', '\U{0085}', '\U{00A0}', '\U{1680}',
    '\U{2000}', '\U{2001}', '\U{2002}', '\U{2003}', '\U{2004}', '\U{2005}',
    '\U{2006}', '\U{2007}', '\U{2008}', '\U{2009}', '\U{200A}',
    '\U{2028}', '\U{2029}', '\U{202F}', '\U{205F}', '\U{3000}'
  }

  /** The characters JavaScript's `String.prototype.trim()` removes: the
      WhiteSpace and LineTerminator productions of ECMA-262 (sections 12.2
      and 12.3). */
  const JsWhitespace: set<char> := {
    '\t', '\n', '\U{000B}', '\U{000C}', '\r', ' ', '\U{00A0}', '\U{1680}',
    '\U{2000}', '\U{2001}', '\U{2002}', '\U{2003}', '\U{2004}', '\U{2005}',
    '\U{2006}', '\U{2007}', '\U{2008}', '\U{2009}', '\U{200A}',
    '\U{2028}', '\U{2029}', '\U{202F}', '\U{205F}', '\U{3000}', '\U{FEFF}'
  }

  predicate AllSpace(ws: set<char>, s: string) {
    forall i :: 0 <= i < |s| ==> s[i] in ws
  }

  /** Neither end of `s` is whitespace (vacuous for the empty string). */
  predicate Tight(ws: set<char>, s: string) {
    s == [] || (s[0] !in ws && s[|s| - 1] !in ws)
  }

  /** `s` is `core` with whitespace-only padding on both sides. */
  predicate Padded(ws: set<char>, s: string, lead: string, core: string, trail: string) {
    s == lead + core + trail && AllSpace(ws, lead) && AllSpace(ws, trail)
  }

  /** First index at or after `i` that is not whitespace (or `|s|`). */
  function SkipSpace(ws: set<char>, s: string, i: nat): (j: nat)
    requires i <= |s|
    ensures i <= j <= |s|
    ensures forall k :: i <= k < j ==> s[k] in ws
    ensures j < |s| ==> s[j] !in ws
    decreases |s| - i
  {
    if i < |s| && s[i] in ws then SkipSpace(ws, s, i + 1) else i
  }

  /** Going back from `j` no further than `lo`, the start of the whitespace
      run that ends at `j`. */
  function SkipSpaceBack(ws: set<char>, s: string, lo: nat, j: nat): (k: nat)
    requires lo <= j <= |s|
    ensures lo <= k <= j
    ensures forall m :: k <= m < j ==> s[m] in ws
    ensures lo < k ==> s[k - 1] !in ws
    decreases j
  {
    if lo < j && s[j - 1] in ws then SkipSpaceBack(ws, s, lo, j - 1) else j
  }

  /** Python's `str.strip()` / JavaScript's `trim()`: the text with all
      leading and trailing whitespace removed. */
  function Trim(ws: set<char>, s: string): (r: string)
    ensures Tight(ws, r)
    ensures exists lead, trail :: Padded(ws, s, lead, r, trail)
  {
    var i := SkipSpace(ws, s, 0);
    var k := SkipSpaceBack(ws, s, i, |s|);
    TrimmedSlice(ws, s, i, k);
    s[i..k]
  }

  lemma TrimmedSlice(ws: set<char>, s: string, i: nat, k: nat)
    requires i <= k <= |s|
    requires forall m :: 0 <= m < i ==> s[m] in ws
    requires forall m :: k <= m < |s| ==> s[m] in ws
    requires i < k ==> s[i] !in ws && s[k - 1] !in ws
    ensures Tight(ws, s[i..k])
    ensures Padded(ws, s, s[..i], s[i..k], s[k..])
  {
    assert s == s[..i] + s[i..k] + s[k..];
    forall m | 0 <= m < i ensures s[..i][m] in ws {
      assert s[..i][m] == s[m];
    }
    forall m | 0 <= m < |s| - k ensures s[k..][m] in ws {
      assert s[k..][m] == s[k + m];
    }
  }

  /** The trimmed text is the only tight core of any whitespace padding of `s`,
      so `Trim` is fully determined by its contract. */
  lemma TrimCharacterization(ws: set<char>, s: string, lead: string, core: string, trail: string)
    requires Padded(ws, s, lead, core, trail) && Tight(ws, core)
    ensures Trim(ws, s) == core
  {
    var i := SkipSpace(ws, s, 0);
    var k := SkipSpaceBack(ws, s, i, |s|);
    if core == [] {
      assert i == |s|;
    } else {
      var e := |s| - |trail|;
      assert s[|lead|] == core[0];
      assert s[e - 1] == core[|core| - 1];
      assert i == |lead|;
      assert k == e;
      assert s[i..k] == core;
    }
  }

  /** Trimming keeps every match of a pattern that neither starts nor ends
      with whitespace, shifted left by the leading whitespace removed; and
      every match in the trimmed text is one of those. */
  lemma TrimKeepsTightMatch(ws: set<char>, s: string, pat: string, lead: string, trail: string)
    requires pat != [] && Tight(ws, pat)
    requires Padded(ws, s, lead, Trim(ws, s), trail)
    ensures forall p :: OccursAt(s, pat, p) ==> |lead| <= p && OccursAt(Trim(ws, s), pat, p - |lead|)
    ensures forall q :: OccursAt(Trim(ws, s), pat, q) ==> OccursAt(s, pat, q + |lead|)
  {
    var core := Trim(ws, s);
    assert s == lead + (core + trail);
    forall p | OccursAt(s, pat, p) ensures |lead| <= p && OccursAt(core, pat, p - |lead|) {
      MatchInCore(ws, lead, core, trail, pat, p);
    }
    forall q | OccursAt(core, pat, q) ensures OccursAt(s, pat, q + |lead|) {
      OccursAtPrefix(core, trail, pat, q);
      OccursAtShift(lead, core + trail, pat, q);
    }
  }

  /** A match that fits inside `x` is the same match in `x + y`. */
  lemma OccursAtPrefix(x: string, y: string, pat: string, q: int)
    requires 0 <= q && q + |pat| <= |x|
    ensures OccursAt(x + y, pat, q) <==> OccursAt(x, pat, q)
  {
    assert (x + y)[q..q + |pat|] == x[q..q + |pat|];
  }

  /** A tight match in a padded text lies wholly inside the tight core. */
  lemma MatchInCore(ws: set<char>, lead: string, core: string, trail: string, pat: string, p: int)
    requires pat != [] && Tight(ws, pat) && AllSpace(ws, lead) && AllSpace(ws, trail)
    requires OccursAt(lead + (core + trail), pat, p)
    ensures |lead| <= p && p + |pat| <= |lead| + |core|
    ensures OccursAt(core, pat, p - |lead|)
  {
    var s := lead + (core + trail);
    var e := p + |pat| - 1;
    assert s[p] == pat[0] && s[e] == pat[|pat| - 1];
    assert forall m :: 0 <= m < |lead| ==> s[m] == lead[m];
    assert forall m :: |lead| + |core| <= m < |s| ==> s[m] == trail[m - |lead| - |core|];
    assert |lead| <= p;
    assert e < |lead| + |core|;
    OccursAtShift(lead, core + trail, pat, p - |lead|);
    OccursAtPrefix(core, trail, pat, p - |lead|);
  }

  /** Hence a tight pattern present before trimming is present after. */
  lemma TrimKeepsTightPattern(ws: set<char>, s: string, pat: string)
    requires pat != [] && Tight(ws, pat) && Contains(s, pat)
    ensures Contains(Trim(ws, s), pat)
  {
    var lead, trail :| Padded(ws, s, lead, Trim(ws, s), trail);
    TrimKeepsTightMatch(ws, s, pat, lead, trail);
    var p :| 0 <= p <= |s| - |pat| && OccursAt(s, pat, p);
    assert OccursAt(Trim(ws, s), pat, p - |lead|);
  }

  /** The text of `s` before the first `sep`, or all of `s` when there is none. */
  function PrefixBefore(s: string, sep: char): (r: string)
    ensures StartsWith(s, r) && sep !in r
    ensures |r| < |s| ==> s[|r|] == sep
  {
    if s == [] || s[0] == sep then [] else [s[0]] + PrefixBefore(s[1..], sep)
  }

  /** Inverse of `Split`: the parts glued back together with `sep` between. */
  function Join(parts: seq<string>, sep: char): string
    requires parts != []
  {
    if |parts| == 1 then parts[0] else parts[0] + [sep] + Join(parts[1..], sep)
  }

  /** JavaScript's `s.split(sep)` for a one-character separator: every
      `sep`-free segment, including empty ones at either end. */
  function Split(s: string, sep: char): (parts: seq<string>)
    ensures parts != []
    ensures forall k :: 0 <= k < |parts| ==> sep !in parts[k]
    ensures Join(parts, sep) == s
    decreases |s|
  {
    var head := PrefixBefore(s, sep);
    if |head| == |s| then [s]
    else
      assert s == head + [sep] + s[|head| + 1..];
      [head] + Split(s[|head| + 1..], sep)
  }

  /** The first two parts of a split, read off the separators directly:
      the text before the first `sep`, and the text between the first and
      second `sep` (there is a second part exactly when `sep` occurs). */
  lemma SplitLeadingParts(s: string, sep: char)
    ensures Split(s, sep)[0] == PrefixBefore(s, sep)
    ensures |Split(s, sep)| > 1 <==> sep in s
    ensures sep in s ==>
      Split(s, sep)[1] == PrefixBefore(s[|PrefixBefore(s, sep)| + 1..], sep)
  {
    var head := PrefixBefore(s, sep);
    if |head| == |s| {
      assert head == s;
    } else {
      assert s[|head|] == sep;
      var rest := s[|head| + 1..];
      assert Split(s, sep) == [head] + Split(rest, sep);
      SplitHead(rest, sep);
    }
  }

  lemma SplitHead(s: string, sep: char)
    ensures Split(s, sep)[0] == PrefixBefore(s, sep)
  {
    var head := PrefixBefore(s, sep);
    if |head| == |s| {
      assert head == s[..|head|] == s;
    }
  }

  /** Splitting a join of `sep`-free parts gives those parts back. */
  lemma {:induction false} SplitJoin(parts: seq<string>, sep: char)
    requires parts != []
    requires forall k :: 0 <= k < |parts| ==> sep !in parts[k]
    ensures Split(Join(parts, sep), sep) == parts
    decreases |parts|
  {
    if |parts| == 1 {
      PrefixBeforeOf(parts[0], sep, []);
      assert parts[0] + [] == parts[0];
    } else {
      SplitJoin(parts[1..], sep);
      SplitCons(parts[0], sep, Join(parts[1..], sep));
      assert parts == [parts[0]] + parts[1..];
    }
  }

  /** Text up to a first separator becomes the first part. */
  lemma SplitCons(a: string, sep: char, b: string)
    requires sep !in a
    ensures Split(a + [sep] + b, sep) == [a] + Split(b, sep)
  {
    var s := a + [sep] + b;
    assert s == a + ([sep] + b);
    PrefixBeforeOf(a, sep, [sep] + b);
    assert s[|a| + 1..] == b;
  }

  lemma {:induction false} PrefixBeforeOf(a: string, sep: char, b: string)
    requires sep !in a
    requires b == [] || b[0] == sep
    ensures PrefixBefore(a + b, sep) == a
    decreases |a|
  {
    if a != [] {
      assert (a + b)[1..] == a[1..] + b;
      PrefixBeforeOf(a[1..], sep, b);
    }
  }
}
