/** `StrExt::replace_with` (src/util.rs) and the two standard-library string
    replacements the renderer relies on (`str::replace`, `str::replacen`). */
module StrExt {
  import opened Wrappers

  /** The replacer callback: (match number, character index of the match, matched text). */
  type Replacer = (nat, nat, string) -> string

  predicate OccursAt(s: string, pat: string, p: nat) {
    p + |pat| <= |s| && s[p..p + |pat|] == pat
  }

  /** The first occurrence of `pat` at or after `from` (see FindFromFirst). */
  function FindFrom(s: string, pat: string, from: nat): (r: Option<nat>)
    requires |pat| > 0 && from <= |s|
    ensures r.Some? ==> from <= r.value && r.value + |pat| <= |s|
    decreases |s| - from
  {
    if from + |pat| > |s| then None
    else if OccursAt(s, pat, from) then Some(from)
    else FindFrom(s, pat, from + 1)
  }

  /** FindFrom finds an occurrence, and the first one: nothing occurs between
      `from` and the position it returns, or anywhere after `from` if it
      returns None. */
  lemma {:induction false} FindFromFirst(s: string, pat: string, from: nat)
    requires |pat| > 0 && from <= |s|
    ensures FindFrom(s, pat, from).Some? ==> OccursAt(s, pat, FindFrom(s, pat, from).value)
    ensures forall j :: from <= j && (FindFrom(s, pat, from).Some? ==> j < FindFrom(s, pat, from).value)
                        ==> !OccursAt(s, pat, j)
    decreases |s| - from
  {
    if from + |pat| <= |s| && !OccursAt(s, pat, from) {
      FindFromFirst(s, pat, from + 1);
    }
  }

  /** Positions `ms` of matches of length `n`, in increasing order, not
      overlapping, all at or after `last` and all inside a text of length `len`. */
  predicate Ordered(ms: seq<nat>, n: nat, last: nat, len: nat)
    decreases |ms|
  {
    && last <= len
    && (ms != [] ==> last <= ms[0] && ms[0] + n <= len && Ordered(ms[1..], n, ms[0] + n, len))
  }

  /** Every match of an ordered list lies between `last` and the end. */
  lemma {:induction false} OrderedAt(ms: seq<nat>, n: nat, last: nat, len: nat, k: nat)
    requires Ordered(ms, n, last, len) && k < |ms|
    ensures last <= ms[k] && ms[k] + n <= len
    decreases k
  {
    if k > 0 {
      OrderedAt(ms[1..], n, ms[0] + n, len, k - 1);
    }
  }

  /** `str::match_indices` from `from` on: leftmost occurrences, each search
      resuming after the previous match. */
  function MatchIndicesFrom(s: string, pat: string, from: nat): (ms: seq<nat>)
    requires |pat| > 0 && from <= |s|
    ensures Ordered(ms, |pat|, from, |s|)
    decreases |s| - from
  {
    match FindFrom(s, pat, from)
    case None => []
    case Some(p) => [p] + MatchIndicesFrom(s, pat, p + |pat|)
  }

  function MatchIndices(s: string, pat: string): (ms: seq<nat>)
    requires |pat| > 0
  {
    MatchIndicesFrom(s, pat, 0)
  }

  /** Every match is an occurrence, so the matched text passed to the
      replacer is always the pattern itself. */
  lemma {:induction false} MatchIndicesOccur(s: string, pat: string, from: nat)
    requires |pat| > 0 && from <= |s|
    ensures forall k :: 0 <= k < |MatchIndicesFrom(s, pat, from)| ==>
      OccursAt(s, pat, MatchIndicesFrom(s, pat, from)[k])
    decreases |s| - from
  {
    FindFromFirst(s, pat, from);
    var found := FindFrom(s, pat, from);
    if found.Some? {
      var p := found.value;
      MatchIndicesOccur(s, pat, p + |pat|);
      assert MatchIndicesFrom(s, pat, from) == [p] + MatchIndicesFrom(s, pat, p + |pat|);
    }
  }

  /** No occurrence is skipped: every occurrence of `pat` at or after `from`
      either is one of the matches or starts inside one of them. */
  lemma {:induction false} MatchIndicesComplete(s: string, pat: string, from: nat, j: nat) returns (k: nat)
    requires |pat| > 0 && from <= |s|
    requires from <= j && OccursAt(s, pat, j)
    ensures k < |MatchIndicesFrom(s, pat, from)|
    ensures MatchIndicesFrom(s, pat, from)[k] <= j < MatchIndicesFrom(s, pat, from)[k] + |pat|
    decreases |s| - from
  {
    var found := FindFrom(s, pat, from);
    FindFromFirst(s, pat, from);
    assert found.Some?;
    var p := found.value;
    assert p <= j;
    assert p + |pat| <= |s|;
    var rest := MatchIndicesFrom(s, pat, p + |pat|);
    var ms := [p] + rest;
    assert MatchIndicesFrom(s, pat, from) == ms;
    if j >= p + |pat| {
      var k' := MatchIndicesComplete(s, pat, p + |pat|, j);
      assert rest[k'] <= j < rest[k'] + |pat|;
      assert ms[k' + 1] == rest[k'];
      k := k' + 1;
    } else {
      k := 0;
    }
  }

  /** The text `s` from `last` on, with the match at `ms[k]` (of length `n`)
      replaced by `f(idx + k, ms[k], matched text)` and everything between and
      after the matches copied unchanged. */
  function Spliced(s: string, n: nat, ms: seq<nat>, f: Replacer, last: nat, idx: nat): string
    requires Ordered(ms, n, last, |s|)
    decreases |ms|
  {
    if ms == [] then s[last..]
    else
      var p := ms[0];
      s[last..p] + f(idx, p, s[p..p + n]) + Spliced(s, n, ms[1..], f, p + n, idx + 1)
  }

  /** What `replace_with` returns. */
  function ReplacedWith(s: string, pat: string, f: Replacer): string
    requires |pat| > 0
  {
    Spliced(s, |pat|, MatchIndices(s, pat), f, 0, 0)
  }

  /** `s.replace_with(pattern, replacer)`. The replacer is called once per
      match, in order, with the match number, its offset and the matched text. */
  method ReplaceWith(s: string, pattern: string, replacer: Replacer) returns (r: string)
    requires |pattern| > 0
    ensures r == ReplacedWith(s, pattern, replacer)
    ensures MatchIndices(s, pattern) == [] ==> r == s
  {
    var matches := MatchIndices(s, pattern);
    ghost var whole := ReplacedWith(s, pattern, replacer);
    var result := "";
    var lastpos: nat := 0;
    for idx := 0 to |matches|
      invariant idx > 0 ==> lastpos > 0
      invariant idx == 0 ==> result == "" && lastpos == 0
      invariant SpliceState(s, |pattern|, matches, replacer, idx, lastpos, result, whole)
    {
      SplicedAdvance(s, |pattern|, matches, replacer, idx, lastpos, result, whole);
      var pos := matches[idx];
      var substr := s[pos..pos + |pattern|];
      var replacement := replacer(idx, pos, substr);
      result := result + s[lastpos..pos] + replacement;
      lastpos := pos + |pattern|;
    }
    SplicedFinish(s, |pattern|, matches, replacer, lastpos, result, whole);
    if lastpos == 0 {
      assert result + s[0..] == whole && result == "";
      r := s;
    } else {
      result := result + s[lastpos..];
      r := result;
    }
  }

  /** The state of ReplaceWith's loop before match `idx`: `done` holds the
      text up to `last`, and splicing the rest completes `whole`. */
  ghost predicate SpliceState(s: string, n: nat, ms: seq<nat>, f: Replacer, idx: nat, last: nat, done: string, whole: string) {
    && idx <= |ms|
    && Ordered(ms[idx..], n, last, |s|)
    && done + Spliced(s, n, ms[idx..], f, last, idx) == whole
  }

  /** The loop of ReplaceWith at match `idx`: the text before the match and
      the replacement are done, the rest is still to be spliced. */
  lemma SplicedAdvance(s: string, n: nat, ms: seq<nat>, f: Replacer, idx: nat, last: nat, done: string, whole: string)
    requires idx < |ms| && SpliceState(s, n, ms, f, idx, last, done, whole)
    ensures last <= ms[idx] && ms[idx] + n <= |s|
    ensures SpliceState(s, n, ms, f, idx + 1, ms[idx] + n,
                        done + s[last..ms[idx]] + f(idx, ms[idx], s[ms[idx]..ms[idx] + n]), whole)
  {
    var p := ms[idx];
    SplicedStep(s, n, ms[idx..], f, last, idx);
    assert ms[idx..][0] == p && ms[idx..][1..] == ms[idx + 1..];
    var gap, rep, rest := s[last..p], f(idx, p, s[p..p + n]), Spliced(s, n, ms[idx + 1..], f, p + n, idx + 1);
    assert done + (gap + rep + rest) == done + gap + rep + rest;
  }

  /** After the last match, the rest of the text is copied. */
  lemma SplicedFinish(s: string, n: nat, ms: seq<nat>, f: Replacer, last: nat, done: string, whole: string)
    requires SpliceState(s, n, ms, f, |ms|, last, done, whole)
    ensures last <= |s| && done + s[last..] == whole
  {
    assert ms[|ms|..] == [];
  }

  /** One step of Spliced: the gap, the replaced match, and the rest. */
  lemma SplicedStep(s: string, n: nat, ms: seq<nat>, f: Replacer, last: nat, idx: nat)
    requires Ordered(ms, n, last, |s|) && ms != []
    ensures Ordered(ms[1..], n, ms[0] + n, |s|)
    ensures Spliced(s, n, ms, f, last, idx)
         == s[last..ms[0]] + f(idx, ms[0], s[ms[0]..ms[0] + n]) + Spliced(s, n, ms[1..], f, ms[0] + n, idx + 1)
  {
  }

  lemma {:induction false} SplicedIdentity(s: string, n: nat, ms: seq<nat>, f: Replacer, last: nat, idx: nat)
    requires Ordered(ms, n, last, |s|)
    requires forall i, p, t :: f(i, p, t) == t
    ensures Spliced(s, n, ms, f, last, idx) == s[last..]
    decreases |ms|
  {
    if ms != [] {
      var p := ms[0];
      SplicedStep(s, n, ms, f, last, idx);
      SplicedIdentity(s, n, ms[1..], f, p + n, idx + 1);
      assert f(idx, p, s[p..p + n]) == s[p..p + n];
      assert s[last..] == s[last..p] + s[p..p + n] + s[p + n..];
    }
  }

  /** A replacer that gives back the matched text leaves the string unchanged. */
  lemma ReplacedWithIdentity(s: string, pat: string, f: Replacer)
    requires |pat| > 0
    requires forall i, p, t :: f(i, p, t) == t
    ensures ReplacedWith(s, pat, f) == s
  {
    SplicedIdentity(s, |pat|, MatchIndices(s, pat), f, 0, 0);
  }

  /** `s.replace(pat, rep)`: every match replaced by the same text. */
  function ReplaceAll(s: string, pat: string, rep: string): string
    requires |pat| > 0
  {
    ReplacedWith(s, pat, (i, p, t) => rep)
  }

  lemma {:induction false} SplicedConstantAvoids(s: string, c: char, ms: seq<nat>, rep: string, last: nat, idx: nat)
    requires Ordered(ms, 1, last, |s|)
    requires forall k :: 0 <= k < |ms| ==> ms[k] < |s| && s[ms[k]] == c
    requires forall j :: last <= j < |s| && s[j] == c ==> j in ms
    requires c !in rep
    ensures c !in Spliced(s, 1, ms, (i, p, t) => rep, last, idx)
    decreases |ms|
  {
    if ms == [] {
    } else {
      var p := ms[0];
      forall j | p + 1 <= j < |s| && s[j] == c ensures j in ms[1..] {
        assert j in ms;
        var k :| 0 <= k < |ms| && ms[k] == j;
        if k == 0 { assert false; }
        assert ms[1..][k - 1] == j;
      }
      SplicedConstantAvoids(s, c, ms[1..], rep, p + 1, idx + 1);
      forall j | last <= j < p ensures s[j] != c {
        if s[j] == c {
          assert j in ms;
          var k :| 0 <= k < |ms| && ms[k] == j;
          if k > 0 { OrderedIncreasing(ms, 1, last, |s|, 0, k); }
        }
      }
    }
  }

  lemma {:induction false} OrderedIncreasing(ms: seq<nat>, n: nat, last: nat, len: nat, a: nat, b: nat)
    requires Ordered(ms, n, last, len)
    requires a < b < |ms|
    ensures ms[a] + n <= ms[b]
    decreases a
  {
    if a == 0 {
      OrderedAt(ms[1..], n, ms[0] + n, len, b - 1);
    } else {
      OrderedIncreasing(ms[1..], n, ms[0] + n, len, a - 1, b - 1);
    }
  }

  /** Replacing every `c` by a text without `c` leaves no `c` behind. */
  lemma ReplaceAllRemoves(s: string, c: char, rep: string)
    requires c !in rep
    ensures c !in ReplaceAll(s, [c], rep)
  {
    var ms := MatchIndices(s, [c]);
    MatchIndicesOccur(s, [c], 0);
    forall k | 0 <= k < |ms| ensures s[ms[k]] == c {
      assert OccursAt(s, [c], ms[k]);
      assert s[ms[k]..ms[k] + 1] == [c];
    }
    forall j | 0 <= j < |s| && s[j] == c ensures j in ms {
      assert s[j..j + 1] == [c];
      var k := MatchIndicesComplete(s, [c], 0, j);
    }
    SplicedConstantAvoids(s, c, ms, rep, 0, 0);
  }

  /** `s.replacen(pat, rep, 1)`: only the first match is replaced. */
  function ReplaceFirst(s: string, pat: string, rep: string): (r: string)
    requires |pat| > 0
    ensures FindFrom(s, pat, 0).None? ==> r == s
    ensures FindFrom(s, pat, 0).Some? ==>
      var p := FindFrom(s, pat, 0).value;
      r == s[..p] + rep + s[p + |pat|..]
  {
    match FindFrom(s, pat, 0)
    case None => s
    case Some(p) => s[..p] + rep + s[p + |pat|..]
  }

  /** `replacen(pat, rep, 1)` read directly: when the pattern occurs, the
      leftmost occurrence, and only it, is replaced; otherwise the text is
      returned as it is. */
  lemma ReplaceFirstLeftmost(s: string, pat: string, rep: string)
    requires |pat| > 0
    ensures (forall q :: 0 <= q <= |s| ==> !OccursAt(s, pat, q)) ==> ReplaceFirst(s, pat, rep) == s
    ensures forall p :: 0 <= p <= |s| && OccursAt(s, pat, p) && (forall q :: 0 <= q < p ==> !OccursAt(s, pat, q)) ==>
              ReplaceFirst(s, pat, rep) == s[..p] + rep + s[p + |pat|..]
  {
    FindFromFirst(s, pat, 0);
    forall p | 0 <= p <= |s| && OccursAt(s, pat, p) && (forall q :: 0 <= q < p ==> !OccursAt(s, pat, q))
      ensures FindFrom(s, pat, 0) == Some(p)
    {
      FindLeftmost(s, pat, p);
    }
  }

  /** The leftmost occurrence is the one FindFrom finds. */
  lemma {:induction false} FindLeftmost(s: string, pat: string, p: nat)
    requires |pat| > 0 && p <= |s| && OccursAt(s, pat, p)
    requires forall q :: 0 <= q < p ==> !OccursAt(s, pat, q)
    ensures FindFrom(s, pat, 0) == Some(p)
  {
    FindFromFirst(s, pat, 0);
    var r := FindFrom(s, pat, 0);
    if r.Some? {
      assert !(r.value < p);
      assert !(p < r.value);
    }
  }
}
