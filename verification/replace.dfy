/** Python's `str.replace(target, repl)` with no count: every occurrence of
    `target`, found scanning left to right and never overlapping a match
    already taken, is replaced by `repl`. */
module Replace {
  import opened Text

  /** `s.replace(target, repl)`. An empty `target` matches before every
      character and at the end, as in Python. */
  function ReplaceAll(s: string, target: string, repl: string): (r: string)
    ensures !Contains(s, target) ==> r == s
    decreases |s|
  {
    if target == [] then
      assert OccursAt(s, target, 0);
      if s == [] then repl else repl + [s[0]] + ReplaceAll(s[1..], target, repl)
    else if |s| < |target| then s
    else if StartsWith(s, target) then
      assert OccursAt(s, target, 0);
      repl + ReplaceAll(s[|target|..], target, repl)
    else
      OccursInSuffix(s, target, 1);
      [s[0]] + ReplaceAll(s[1..], target, repl)
  }

  /** A match inside a suffix of `s` is a match inside `s`. */
  lemma OccursInSuffix(s: string, pat: string, k: nat)
    requires k <= |s|
    ensures Contains(s[k..], pat) ==> Contains(s, pat)
  {
    if Contains(s[k..], pat) {
      var j :| 0 <= j <= |s[k..]| - |pat| && OccursAt(s[k..], pat, j);
      assert s[k..][j..j + |pat|] == s[j + k..j + k + |pat|];
      assert OccursAt(s, pat, j + k);
    }
  }

  /** `a` and `b` differ somewhere within their common length, so neither
      is a prefix of the other. */
  predicate Clash(a: string, b: string) {
    exists q | 0 <= q < |a| && q < |b| :: a[q] != b[q]
  }

  /** No proper suffix of `w` is compatible with the start of `repl`. */
  predicate SuffixesClash(w: string, repl: string) {
    forall k :: 1 <= k < |w| ==> Clash(w[k..], repl)
  }

  /** No match of `target` can start inside an inserted `repl`, and no
      proper suffix of `target` can run into the start of an inserted `repl`.
      When this holds, replacing creates no new match of `target`. */
  predicate SelfSeparating(target: string, repl: string) {
    && target != []
    && SuffixesClash(target, repl)
    && (forall p :: 0 <= p < |repl| ==> Clash(repl[p..], target))
  }

  /** Every occurrence of a nonempty `target` leaves a `repl` behind: the
      result contains `repl` whenever `s` contained `target`. */
  lemma {:induction false} ReplacementPresent(s: string, target: string, repl: string)
    requires target != [] && Contains(s, target)
    ensures Contains(ReplaceAll(s, target, repl), repl)
    decreases |s|
  {
    var r := ReplaceAll(s, target, repl);
    var p :| 0 <= p <= |s| - |target| && OccursAt(s, target, p);
    if StartsWith(s, target) {
      assert OccursAt(r, repl, 0);
    } else {
      assert s == [s[0]] + s[1..];
      OccursAtShift([s[0]], s[1..], target, p - 1);
      ReplacementPresent(s[1..], target, repl);
      ReplaceKeepsChar(s[0], s[1..], target, repl);
      ContainsShift([s[0]], ReplaceAll(s[1..], target, repl), repl);
    }
  }

  /** If the replaced text begins with a proper suffix of `w`, so did the
      original, provided no such suffix is compatible with `repl`: an
      inserted `repl` never supplies the rest of a partial `w`. */
  lemma {:induction false} SuffixStartsResult(t: string, target: string, repl: string, w: string, k: nat)
    requires target != [] && SuffixesClash(w, repl) && 1 <= k <= |w|
    ensures StartsWith(ReplaceAll(t, target, repl), w[k..]) ==> StartsWith(t, w[k..])
    decreases |t|
  {
    var u := w[k..];
    var r := ReplaceAll(t, target, repl);
    if u == [] || |t| < |target| {
    } else if StartsWith(t, target) {
      assert Clash(u, repl);
      var q :| 0 <= q < |u| && q < |repl| && u[q] != repl[q];
      assert r[q] == repl[q];
      assert !StartsWith(r, u);
    } else {
      var tail := ReplaceAll(t[1..], target, repl);
      assert r == [t[0]] + tail;
      SuffixStartsResult(t[1..], target, repl, w, k + 1);
      assert u[1..] == w[k + 1..];
      StartsWithCons(t[0], tail, u);
      assert t == [t[0]] + t[1..];
      StartsWithCons(t[0], t[1..], u);
    }
  }

  /** Under `SelfSeparating`, nothing of `target` survives the replacement. */
  lemma {:induction false} NoTargetLeft(s: string, target: string, repl: string)
    requires SelfSeparating(target, repl)
    ensures !Contains(ReplaceAll(s, target, repl), target)
    decreases |s|
  {
    if |s| < |target| {
    } else if StartsWith(s, target) {
      NoTargetLeft(s[|target|..], target, repl);
      NoTargetAfterRepl(repl, ReplaceAll(s[|target|..], target, repl), target);
    } else {
      NoTargetLeft(s[1..], target, repl);
      SuffixStartsResult(s[1..], target, repl, target, 1);
      NoTargetAfterChar(s, ReplaceAll(s[1..], target, repl), target);
    }
  }

  lemma NoTargetAfterRepl(repl: string, tail: string, target: string)
    requires SelfSeparating(target, repl) && !Contains(tail, target)
    ensures !Contains(repl + tail, target)
  {
    var r := repl + tail;
    forall p | 0 <= p <= |r| - |target| ensures !OccursAt(r, target, p) {
      if p < |repl| {
        assert Clash(repl[p..], target);
        var q :| 0 <= q < |repl| - p && q < |target| && repl[p..][q] != target[q];
        assert r[p + q] == repl[p + q];
      } else {
        OccursAtShift(repl, tail, target, p - |repl|);
      }
    }
  }

  /** One kept character cannot complete a match of `target` with a tail
      that does not begin with the rest of `target`. */
  lemma NoTargetAfterChar(s: string, tail: string, target: string)
    requires target != [] && !OccursAt(s, target, 0) && s != []
    requires !Contains(tail, target)
    requires StartsWith(tail, target[1..]) ==> StartsWith(s[1..], target[1..])
    ensures !Contains([s[0]] + tail, target)
  {
    var r := [s[0]] + tail;
    forall p | 0 <= p <= |r| - |target| ensures !OccursAt(r, target, p) {
      if p == 0 {
        NoMatchAtFront(s, tail, target);
      } else {
        OccursAtShift([s[0]], tail, target, p - 1);
      }
    }
  }

  /** Replacing back restores the original: when `s` held no `repl` and no
      proper suffix of `repl` is compatible with its start, every `repl` in
      the result is one the forward replacement inserted. */
  lemma {:induction false} ReplaceRoundTrip(s: string, target: string, repl: string)
    requires target != [] && repl != [] && SuffixesClash(repl, repl)
    requires !Contains(s, repl)
    ensures ReplaceAll(ReplaceAll(s, target, repl), repl, target) == s
    decreases |s|
  {
    if |s| < |target| {
    } else if StartsWith(s, target) {
      var rest := s[|target|..];
      OccursInSuffix(s, repl, |target|);
      ReplaceRoundTrip(rest, target, repl);
      ReplaceAtFront(repl, ReplaceAll(rest, target, repl), target);
      assert s == target + rest;
    } else {
      var tail := ReplaceAll(s[1..], target, repl);
      OccursInSuffix(s, repl, 1);
      ReplaceRoundTrip(s[1..], target, repl);
      SuffixStartsResult(s[1..], target, repl, repl, 1);
      NoMatchAtFront(s, tail, repl);
      ReplaceKeepsChar(s[0], tail, repl, target);
      assert s == [s[0]] + s[1..];
    }
  }

  /** A text that begins with `pat` has that first `pat` replaced. */
  lemma ReplaceAtFront(pat: string, x: string, rep: string)
    requires pat != []
    ensures ReplaceAll(pat + x, pat, rep) == rep + ReplaceAll(x, pat, rep)
  {
    assert (pat + x)[|pat|..] == x;
  }

  /** A leading character that starts no match is kept as it is. */
  lemma ReplaceKeepsChar(c: char, x: string, pat: string, rep: string)
    requires pat != [] && !StartsWith([c] + x, pat)
    ensures ReplaceAll([c] + x, pat, rep) == [c] + ReplaceAll(x, pat, rep)
  {
    assert ([c] + x)[1..] == x;
    if |[c] + x| < |pat| {
      assert !Contains(x, pat);
    }
  }

  /** `[s[0]] + tail` cannot begin with `pat` when `s` does not and `tail`
      begins with the rest of `pat` only if `s[1..]` does. */
  lemma NoMatchAtFront(s: string, tail: string, pat: string)
    requires s != [] && pat != [] && !OccursAt(s, pat, 0)
    requires StartsWith(tail, pat[1..]) ==> StartsWith(s[1..], pat[1..])
    ensures !StartsWith([s[0]] + tail, pat)
  {
    assert s == [s[0]] + s[1..];
    StartsWithCons(s[0], s[1..], pat);
    StartsWithCons(s[0], tail, pat);
  }
}
