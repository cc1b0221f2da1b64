/** `extract_parts` (src/lib.rs): the brace-depth scanner that splits a
    pattern into text parts and top-level `{...}` block parts. */
module Tokenizer {
  import opened Wrappers

  /** `ElementTypeAndVal`: a String element or the inside of a Block element. */
  datatype Part = StringPart(value: string) | BlockPart(value: string)

  const NoMatchingOpen: string := "No matching } for {"
  const Mismatched: string := "There are mismatched { or } in the pattern"

  /** Brace depth reached after reading `s`. */
  function Delta(c: char): int {
    if c == '{' then 1 else if c == '}' then -1 else 0
  }

  function Depth(s: string): int {
    if s == [] then 0 else Depth(s[..|s| - 1]) + Delta(s[|s| - 1])
  }

  /** No prefix closes more braces than it opens. */
  predicate NeverNegative(s: string) {
    forall j :: 0 <= j <= |s| ==> Depth(s[..j]) >= 0
  }

  predicate Balanced(s: string) {
    NeverNegative(s) && Depth(s) == 0
  }

  predicate NoBraces(s: string) {
    forall k :: 0 <= k < |s| ==> s[k] != '{' && s[k] != '}'
  }

  predicate AllOpen(stack: seq<char>) {
    forall k :: 0 <= k < |stack| ==> stack[k] == '{'
  }

  /** Number of `}` that bring the depth back to 0. */
  function Closes(s: string): nat {
    if s == [] then 0
    else Closes(s[..|s| - 1]) + (if s[|s| - 1] == '}' && Depth(s) == 0 then 1 else 0)
  }

  function BlockCount(parts: seq<Part>): nat {
    if parts == [] then 0
    else BlockCount(parts[..|parts| - 1]) + (if parts[|parts| - 1].BlockPart? then 1 else 0)
  }

  /** The pattern text a part was cut from: a block part gets its braces back. */
  function Render(p: Part): string {
    match p
    case StringPart(v) => v
    case BlockPart(v) => "{" + v + "}"
  }

  function Join(parts: seq<Part>): string {
    if parts == [] then "" else Join(parts[..|parts| - 1]) + Render(parts[|parts| - 1])
  }

  /** What the scanner promises of its parts: text parts are non-empty and
      brace-free, no two text parts are adjacent, and a block part holds a
      balanced text shorter than the pattern. */
  predicate WellFormed(parts: seq<Part>, len: nat) {
    && (forall k :: 0 <= k < |parts| && parts[k].StringPart? ==>
          parts[k].value != [] && NoBraces(parts[k].value))
    && (forall k :: 0 <= k < |parts| && parts[k].BlockPart? ==>
          Balanced(parts[k].value) && |parts[k].value| < len)
    && (forall k :: 0 <= k < |parts| - 1 ==> !(parts[k].StringPart? && parts[k + 1].StringPart?))
  }

  /** `next_char_index`: the index of the first character of `s` (always 0), or
      its length when it has none. */
  function NextCharIndex(s: string): (r: nat)
    ensures r <= |s|
    ensures r == 0
  {
    if s != [] then 0 else |s|
  }

  /** Where the next part starts after the brace at `pos`: as written, the
      code takes `next_char_index(&pattern[pos..])`; the evidently intended
      position is just past the brace. */
  function Resume(s: string, pos: nat, intended: bool): (r: nat)
    requires pos < |s|
    ensures r <= pos + 1
    ensures !intended ==> r == 0
  {
    if intended then pos + 1 else NextCharIndex(s[pos..])
  }

  /** The scanner's variables: the brace stack, the start of the current
      part, and the parts found so far. */
  datatype ScanState = ScanState(stack: seq<char>, prev: nat, results: seq<Part>)

  predicate StateOk(s: string, i: nat, st: ScanState) {
    st.prev <= i <= |s| && AllOpen(st.stack)
  }

  /** One match of BRACES_RE (or a character it skips) at index `i`. */
  function ScanStep(s: string, intended: bool, i: nat, st: ScanState): (r: Outcome<ScanState>)
    requires i < |s| && StateOk(s, i, st)
    ensures r.Ok? ==> StateOk(s, i + 1, r.value)
  {
    if s[i] == '}' then
      if st.stack == [] then Panic(NoMatchingOpen)
      else
        var stack' := st.stack[..|st.stack| - 1];
        if stack' == [] then
          Ok(ScanState(stack', Resume(s, i, intended), st.results + [BlockPart(s[st.prev..i])]))
        else Ok(st.(stack := stack'))
    else if s[i] == '{' then
      if st.stack == [] then
        var sub := s[st.prev..i];
        var results' := if sub != [] then st.results + [StringPart(sub)] else st.results;
        Ok(ScanState(st.stack + ['{'], Resume(s, i, intended), results'))
      else Ok(st.(stack := st.stack + ['{']))
    else Ok(st)
  }

  /** After the last match: an open brace left on the stack is an error,
      otherwise the remaining text becomes a final String part. */
  function ScanEnd(s: string, st: ScanState): Outcome<seq<Part>>
    requires StateOk(s, |s|, st)
  {
    if st.stack != [] then Panic(Mismatched)
    else
      var rest := s[st.prev..];
      Ok(if rest != [] then st.results + [StringPart(rest)] else st.results)
  }

  /** The scanner from index `i` on. */
  function ScanFrom(s: string, intended: bool, i: nat, st: ScanState): Outcome<seq<Part>>
    requires StateOk(s, i, st)
    decreases |s| - i
  {
    if i == |s| then ScanEnd(s, st)
    else match ScanStep(s, intended, i, st)
      case Panic(m) => Panic(m)
      case Ok(st') => ScanFrom(s, intended, i + 1, st')
  }

  const Start: ScanState := ScanState([], 0, [])

  /** What `extract_parts` computes, with the next part starting after the brace. */
  function Tokenize(s: string): Outcome<seq<Part>> {
    ScanFrom(s, true, 0, Start)
  }

  /** What `extract_parts` computes as written, with `prev_pos` reset to
      `next_char_index` of the rest of the pattern. */
  function TokenizeAsWritten(s: string): Outcome<seq<Part>> {
    ScanFrom(s, false, 0, Start)
  }

  /** The scanner at index `i` in state `st` is on its way to `target`. */
  predicate Scans(s: string, intended: bool, i: nat, st: ScanState, target: Outcome<seq<Part>>) {
    StateOk(s, i, st) && ScanFrom(s, intended, i, st) == target
  }

  /** One step of the scanner: a panic ends it, otherwise it goes on from
      the next index. */
  lemma ScanFromNext(s: string, intended: bool, i: nat, st: ScanState, target: Outcome<seq<Part>>)
    requires i < |s| && Scans(s, intended, i, st, target)
    ensures ScanStep(s, intended, i, st).Panic? ==> target == Panic(ScanStep(s, intended, i, st).message)
    ensures ScanStep(s, intended, i, st).Ok? ==> Scans(s, intended, i + 1, ScanStep(s, intended, i, st).value, target)
  {
  }

  /** `extract_parts` with the part boundary moved past each top-level brace. */
  method ExtractParts(pattern: string) returns (r: Outcome<seq<Part>>)
    ensures r == Tokenize(pattern)
  {
    var prevPos: nat := 0;
    var braceStack: seq<char> := [];
    var results: seq<Part> := [];
    var i := 0;
    while i < |pattern|
      invariant Scans(pattern, true, i, ScanState(braceStack, prevPos, results), Tokenize(pattern))
    {
      ghost var st := ScanState(braceStack, prevPos, results);
      ScanFromNext(pattern, true, i, st, Tokenize(pattern));
      var pos := i;
      if pattern[pos] == '}' {
        if braceStack == [] {
          return Panic(NoMatchingOpen);
        }
        var brace := braceStack[|braceStack| - 1];
        braceStack := braceStack[..|braceStack| - 1];
        assert brace == '{';
        if braceStack == [] {
          results := results + [BlockPart(pattern[prevPos..pos])];
          prevPos := pos + 1;
        }
      } else if pattern[pos] == '{' {
        if braceStack == [] {
          var substr := pattern[prevPos..pos];
          if substr != [] {
            results := results + [StringPart(substr)];
          }
          prevPos := pos + 1;
        }
        braceStack := braceStack + ['{'];
      }
      assert ScanStep(pattern, true, pos, st) == Ok(ScanState(braceStack, prevPos, results));
      i := i + 1;
    }
    if braceStack != [] {
      return Panic(Mismatched);
    }
    var substr := pattern[prevPos..];
    if substr != [] {
      results := results + [StringPart(substr)];
    }
    return Ok(results);
  }

  /** `extract_parts` as written: `prev_pos` is reset to `next_char_index`
      of the text from the brace on. */
  method ExtractPartsAsWritten(pattern: string) returns (r: Outcome<seq<Part>>)
    ensures r == TokenizeAsWritten(pattern)
  {
    var prevPos: nat := 0;
    var braceStack: seq<char> := [];
    var results: seq<Part> := [];
    var i := 0;
    while i < |pattern|
      invariant Scans(pattern, false, i, ScanState(braceStack, prevPos, results), TokenizeAsWritten(pattern))
    {
      ghost var st := ScanState(braceStack, prevPos, results);
      ScanFromNext(pattern, false, i, st, TokenizeAsWritten(pattern));
      var pos := i;
      if pattern[pos] == '}' {
        if braceStack == [] {
          return Panic(NoMatchingOpen);
        }
        var brace := braceStack[|braceStack| - 1];
        braceStack := braceStack[..|braceStack| - 1];
        assert brace == '{';
        if braceStack == [] {
          results := results + [BlockPart(pattern[prevPos..pos])];
          prevPos := NextCharIndex(pattern[pos..]);
        }
      } else if pattern[pos] == '{' {
        if braceStack == [] {
          var substr := pattern[prevPos..pos];
          if substr != [] {
            results := results + [StringPart(substr)];
          }
          prevPos := NextCharIndex(pattern[pos..]);
        }
        braceStack := braceStack + ['{'];
      }
      assert ScanStep(pattern, false, pos, st) == Ok(ScanState(braceStack, prevPos, results));
      i := i + 1;
    }
    if braceStack != [] {
      return Panic(Mismatched);
    }
    var substr := pattern[prevPos..];
    if substr != [] {
      results := results + [StringPart(substr)];
    }
    return Ok(results);
  }

  // ----- depth arithmetic -----

  lemma DepthSnoc(s: string, i: nat)
    requires i < |s|
    ensures Depth(s[..i + 1]) == Depth(s[..i]) + Delta(s[i])
    ensures Closes(s[..i + 1]) == Closes(s[..i]) + (if s[i] == '}' && Depth(s[..i + 1]) == 0 then 1 else 0)
  {
    assert s[..i + 1][..i] == s[..i];
  }

  lemma {:induction false} DepthAppend(a: string, b: string)
    ensures Depth(a + b) == Depth(a) + Depth(b)
    decreases |b|
  {
    if b != [] {
      var b' := b[..|b| - 1];
      assert (a + b)[..|a + b| - 1] == a + b';
      assert (a + b)[|a + b| - 1] == b[|b| - 1];
      DepthAppend(a, b');
    } else {
      assert a + b == a;
    }
  }

  lemma NeverNegativeSnoc(s: string, i: nat)
    requires i < |s|
    requires NeverNegative(s[..i]) && Depth(s[..i + 1]) >= 0
    ensures NeverNegative(s[..i + 1])
  {
    var t := s[..i + 1];
    forall j | 0 <= j <= |t| ensures Depth(t[..j]) >= 0 {
      if j <= i {
        assert t[..j] == s[..i][..j];
      } else {
        assert t[..j] == t;
      }
    }
  }

  lemma BlockCountSnoc(ps: seq<Part>, p: Part)
    ensures BlockCount(ps + [p]) == BlockCount(ps) + (if p.BlockPart? then 1 else 0)
  {
    assert (ps + [p])[..|ps|] == ps;
  }

  // ----- outcome: which patterns are accepted -----

  /** Brace nesting after reading `s[..i]`: the stack holds one `{` per open block. */
  ghost predicate Nesting(s: string, i: nat, stack: seq<char>) {
    i <= |s| && AllOpen(stack) && NeverNegative(s[..i]) && |stack| == Depth(s[..i])
  }

  /** One step keeps the nesting, fails exactly when a `}` has nothing to
      close, and adds a block part exactly when the depth returns to 0. */
  lemma OutcomeStep(s: string, intended: bool, i: nat, st: ScanState)
    requires i < |s| && StateOk(s, i, st) && Nesting(s, i, st.stack)
    ensures ScanStep(s, intended, i, st).Ok? <==> Depth(s[..i + 1]) >= 0
    ensures ScanStep(s, intended, i, st).Panic? ==>
      ScanStep(s, intended, i, st).message == NoMatchingOpen && !NeverNegative(s)
    ensures ScanStep(s, intended, i, st).Ok? ==>
      && Nesting(s, i + 1, ScanStep(s, intended, i, st).value.stack)
      && BlockCount(ScanStep(s, intended, i, st).value.results) + Closes(s[..i])
         == BlockCount(st.results) + Closes(s[..i + 1])
  {
    DepthSnoc(s, i);
    var r := ScanStep(s, intended, i, st);
    if r.Ok? {
      NeverNegativeSnoc(s, i);
      if s[i] == '}' && |st.stack| == 1 {
        BlockCountSnoc(st.results, BlockPart(s[st.prev..i]));
      } else if s[i] == '{' && st.stack == [] {
        var sub := s[st.prev..i];
        if sub != [] {
          BlockCountSnoc(st.results, StringPart(sub));
        }
      }
    } else {
      assert Depth(s[..i + 1]) < 0;
    }
  }

  /** Whatever the resume rule, the scanner accepts exactly the balanced
      patterns, names the two ways of failing apart, and emits one block
      part per `}` that brings the depth back to 0. */
  lemma {:induction false} ScanOutcome(s: string, intended: bool, i: nat, st: ScanState)
    requires StateOk(s, i, st) && Nesting(s, i, st.stack)
    ensures ScanFrom(s, intended, i, st).Ok? <==> Balanced(s)
    ensures ScanFrom(s, intended, i, st) == Panic(NoMatchingOpen) <==> !NeverNegative(s)
    ensures ScanFrom(s, intended, i, st) == Panic(Mismatched) <==> NeverNegative(s) && Depth(s) != 0
    ensures ScanFrom(s, intended, i, st).Ok? ==>
      BlockCount(ScanFrom(s, intended, i, st).value) + Closes(s[..i]) == BlockCount(st.results) + Closes(s)
    decreases |s| - i
  {
    if i == |s| {
      assert s[..i] == s;
      if st.stack == [] {
        var rest := s[st.prev..];
        if rest != [] {
          BlockCountSnoc(st.results, StringPart(rest));
        }
      }
    } else {
      OutcomeStep(s, intended, i, st);
      var r := ScanStep(s, intended, i, st);
      if r.Ok? {
        ScanOutcome(s, intended, i + 1, r.value);
      }
    }
  }

  // ----- parts: what the intended scanner emits -----

  lemma JoinSnoc(ps: seq<Part>, p: Part)
    ensures Join(ps + [p]) == Join(ps) + Render(p)
  {
    assert (ps + [p])[..|ps|] == ps;
  }

  lemma WellFormedSnoc(ps: seq<Part>, p: Part, len: nat)
    requires WellFormed(ps, len)
    requires p.StringPart? ==> p.value != [] && NoBraces(p.value) && (ps != [] ==> ps[|ps| - 1].BlockPart?)
    requires p.BlockPart? ==> Balanced(p.value) && |p.value| < len
    ensures WellFormed(ps + [p], len)
  {
    var qs := ps + [p];
    assert forall k :: 0 <= k < |ps| ==> qs[k] == ps[k];
  }

  /** The text between a top-level `{` (ending at `prev`) and its matching
      `}` (at `i`) is balanced. */
  lemma BlockBalanced(s: string, prev: nat, i: nat)
    requires prev <= i <= |s|
    requires Depth(s[..prev]) == 1 && Depth(s[..i]) == 1
    requires forall j :: prev <= j <= i ==> Depth(s[..j]) >= 1
    ensures Balanced(s[prev..i])
  {
    var c := s[prev..i];
    forall j | 0 <= j <= |c| ensures Depth(c[..j]) >= 0 {
      assert c[..j] == s[prev..prev + j];
      assert s[..prev + j] == s[..prev] + s[prev..prev + j];
      DepthAppend(s[..prev], c[..j]);
    }
    assert s[..i] == s[..prev] + c;
    DepthAppend(s[..prev], c);
  }

  /** Outside any block: the parts reassemble `s[..prev]` and the open text
      `s[prev..i]` holds no brace. */
  ghost predicate Outside(s: string, i: nat, prev: nat, results: seq<Part>) {
    && prev <= i <= |s|
    && Join(results) == s[..prev]
    && NoBraces(s[prev..i])
    && (results != [] ==> results[|results| - 1].BlockPart?)
  }

  /** Inside a top-level block opened by the `{` at `prev - 1`: the depth has
      stayed at least 1 since. */
  ghost predicate Inside(s: string, i: nat, prev: nat, results: seq<Part>) {
    && 0 < prev <= i <= |s|
    && Join(results) == s[..prev - 1] && s[prev - 1] == '{'
    && Depth(s[..prev]) == 1
    && (forall j :: prev <= j <= i ==> Depth(s[..j]) >= 1)
  }

  /** The intended scanner's state between two characters. */
  ghost predicate PartsInv(s: string, i: nat, st: ScanState) {
    && StateOk(s, i, st)
    && Nesting(s, i, st.stack)
    && WellFormed(st.results, |s|)
    && (|st.stack| == 0 ==> Outside(s, i, st.prev, st.results))
    && (|st.stack| > 0 ==> Inside(s, i, st.prev, st.results))
  }

  lemma SliceAround(s: string, i: nat, prev: nat)
    requires 0 < prev <= i < |s| && s[prev - 1] == '{' && s[i] == '}'
    ensures s[..i + 1] == s[..prev - 1] + ("{" + s[prev..i] + "}")
  {
    var c := s[prev..i];
    calc {
      s[..i + 1];
      s[..prev - 1] + s[prev - 1..prev] + c + s[i..i + 1];
    }
  }

  lemma CloseOutside(s: string, i: nat, prev: nat, results: seq<Part>)
    requires Inside(s, i, prev, results) && i < |s| && s[i] == '}'
    ensures Outside(s, i + 1, i + 1, results + [BlockPart(s[prev..i])])
  {
    JoinSnoc(results, BlockPart(s[prev..i]));
    SliceAround(s, i, prev);
  }

  lemma OpenInside(s: string, i: nat, prev: nat, results: seq<Part>)
    requires Outside(s, i, prev, results) && i < |s| && s[i] == '{'
    requires Depth(s[..i + 1]) == 1
    ensures var sub := s[prev..i];
      Inside(s, i + 1, i + 1, if sub != [] then results + [StringPart(sub)] else results)
  {
    var sub := s[prev..i];
    assert s[..i] == s[..prev] + sub;
    if sub != [] {
      JoinSnoc(results, StringPart(sub));
    } else {
      assert s[..i] == s[..prev];
    }
  }

  lemma OtherOutside(s: string, i: nat, prev: nat, results: seq<Part>)
    requires Outside(s, i, prev, results) && i < |s| && s[i] != '{' && s[i] != '}'
    ensures Outside(s, i + 1, prev, results)
  {
    assert s[prev..i + 1] == s[prev..i] + [s[i]];
  }

  lemma PartsStepClose(s: string, i: nat, st: ScanState)
    requires PartsInv(s, i, st) && i < |s| && s[i] == '}' && |st.stack| == 1
    ensures PartsInv(s, i + 1, ScanState([], i + 1, st.results + [BlockPart(s[st.prev..i])]))
    ensures ScanStep(s, true, i, st).Ok? ==> PartsInv(s, i + 1, ScanStep(s, true, i, st).value)
  {
    OutcomeStep(s, true, i, st);
    BlockBalanced(s, st.prev, i);
    WellFormedSnoc(st.results, BlockPart(s[st.prev..i]), |s|);
    CloseOutside(s, i, st.prev, st.results);
  }

  lemma PartsStepOpen(s: string, i: nat, st: ScanState)
    requires PartsInv(s, i, st) && i < |s| && s[i] == '{' && st.stack == []
    ensures var sub := s[st.prev..i];
      PartsInv(s, i + 1, ScanState(['{'], i + 1, if sub != [] then st.results + [StringPart(sub)] else st.results))
  {
    DepthSnoc(s, i);
    NeverNegativeSnoc(s, i);
    OpenInside(s, i, st.prev, st.results);
    if s[st.prev..i] != [] {
      OpenAfterText(s, i, st);
    } else {
      OpenAfterBlock(s, i, st);
    }
  }

  /** A top-level `{` after some text: the text becomes a part. */
  lemma OpenAfterText(s: string, i: nat, st: ScanState)
    requires PartsInv(s, i, st) && i < |s| && s[i] == '{' && st.stack == [] && s[st.prev..i] != []
    requires Nesting(s, i + 1, ['{'])
    requires Inside(s, i + 1, i + 1, st.results + [StringPart(s[st.prev..i])])
    ensures PartsInv(s, i + 1, ScanState(['{'], i + 1, st.results + [StringPart(s[st.prev..i])]))
  {
    WellFormedSnoc(st.results, StringPart(s[st.prev..i]), |s|);
  }

  /** A top-level `{` right after a block or at the start: no part is added. */
  lemma OpenAfterBlock(s: string, i: nat, st: ScanState)
    requires PartsInv(s, i, st) && i < |s| && s[i] == '{' && st.stack == []
    requires Nesting(s, i + 1, ['{'])
    requires Inside(s, i + 1, i + 1, st.results)
    ensures PartsInv(s, i + 1, ScanState(['{'], i + 1, st.results))
  {
  }

  lemma ScanStepOpen(s: string, i: nat, st: ScanState)
    requires PartsInv(s, i, st) && i < |s| && s[i] == '{' && st.stack == []
    ensures ScanStep(s, true, i, st).Ok? ==> PartsInv(s, i + 1, ScanStep(s, true, i, st).value)
  {
    PartsStepOpen(s, i, st);
    var sub := s[st.prev..i];
    assert st.stack + ['{'] == ['{'];
    assert Resume(s, i, true) == i + 1;
    assert ScanStep(s, true, i, st)
        == Ok(ScanState(['{'], i + 1, if sub != [] then st.results + [StringPart(sub)] else st.results));
  }

  lemma InsideExtend(s: string, i: nat, prev: nat, results: seq<Part>)
    requires Inside(s, i, prev, results) && i < |s| && Depth(s[..i + 1]) >= 1
    ensures Inside(s, i + 1, prev, results)
  {
  }

  lemma PartsStepNestedOpen(s: string, i: nat, st: ScanState)
    requires PartsInv(s, i, st) && i < |s| && s[i] == '{' && st.stack != []
    ensures PartsInv(s, i + 1, st.(stack := st.stack + ['{']))
    ensures ScanStep(s, true, i, st).Ok? ==> PartsInv(s, i + 1, ScanStep(s, true, i, st).value)
  {
    DepthSnoc(s, i);
    NeverNegativeSnoc(s, i);
    InsideExtend(s, i, st.prev, st.results);
  }

  lemma PartsStepNestedClose(s: string, i: nat, st: ScanState)
    requires PartsInv(s, i, st) && i < |s| && s[i] == '}' && |st.stack| > 1
    ensures PartsInv(s, i + 1, st.(stack := st.stack[..|st.stack| - 1]))
    ensures ScanStep(s, true, i, st).Ok? ==> PartsInv(s, i + 1, ScanStep(s, true, i, st).value)
  {
    DepthSnoc(s, i);
    NeverNegativeSnoc(s, i);
    InsideExtend(s, i, st.prev, st.results);
  }

  lemma PartsStepOther(s: string, i: nat, st: ScanState)
    requires PartsInv(s, i, st) && i < |s| && s[i] != '{' && s[i] != '}'
    ensures PartsInv(s, i + 1, st)
    ensures ScanStep(s, true, i, st).Ok? ==> PartsInv(s, i + 1, ScanStep(s, true, i, st).value)
  {
    DepthSnoc(s, i);
    NeverNegativeSnoc(s, i);
    assert Nesting(s, i + 1, st.stack);
    if st.stack == [] {
      OtherOutside(s, i, st.prev, st.results);
    } else {
      InsideExtend(s, i, st.prev, st.results);
    }
    assert ScanStep(s, true, i, st) == Ok(st);
  }

  /** One character of the intended scanner keeps PartsInv. */
  lemma PartsStep(s: string, i: nat, st: ScanState)
    requires PartsInv(s, i, st) && i < |s|
    ensures ScanStep(s, true, i, st).Ok? ==> PartsInv(s, i + 1, ScanStep(s, true, i, st).value)
  {
    if s[i] == '}' && |st.stack| == 1 {
      PartsStepClose(s, i, st);
    } else if s[i] == '{' && st.stack == [] {
      ScanStepOpen(s, i, st);
    } else if s[i] == '{' {
      PartsStepNestedOpen(s, i, st);
    } else if s[i] == '}' && st.stack != [] {
      PartsStepNestedClose(s, i, st);
    } else if s[i] != '}' {
      PartsStepOther(s, i, st);
    }
  }

  lemma EndJoin(s: string, st: ScanState)
    requires PartsInv(s, |s|, st) && st.stack == []
    ensures var rest := s[st.prev..];
      Join(if rest != [] then st.results + [StringPart(rest)] else st.results) == s
  {
    var rest := s[st.prev..];
    assert s == s[..st.prev] + rest;
    if rest != [] {
      JoinSnoc(st.results, StringPart(rest));
    }
  }

  lemma EndWellFormed(s: string, st: ScanState)
    requires PartsInv(s, |s|, st) && st.stack == []
    ensures var rest := s[st.prev..];
      WellFormed(if rest != [] then st.results + [StringPart(rest)] else st.results, |s|)
  {
    var rest := s[st.prev..];
    assert rest == s[st.prev..|s|];
    if rest != [] {
      WellFormedSnoc(st.results, StringPart(rest), |s|);
    }
  }

  lemma {:induction false} ScanParts(s: string, i: nat, st: ScanState)
    requires PartsInv(s, i, st)
    ensures ScanFrom(s, true, i, st).Ok? ==>
      Join(ScanFrom(s, true, i, st).value) == s && WellFormed(ScanFrom(s, true, i, st).value, |s|)
    decreases |s| - i
  {
    if i == |s| {
      if st.stack == [] {
        EndJoin(s, st);
        EndWellFormed(s, st);
      }
    } else {
      PartsStep(s, i, st);
      var r := ScanStep(s, true, i, st);
      if r.Ok? {
        ScanParts(s, i + 1, r.value);
      }
    }
  }

  /** `extract_parts` (with the intended resume position) accepts exactly the
      balanced patterns, names the two ways of failing apart, and emits one
      block part per `}` that closes a top-level block. */
  lemma TokenizeOutcome(s: string)
    ensures Tokenize(s).Ok? <==> Balanced(s)
    ensures Tokenize(s) == Panic(NoMatchingOpen) <==> !NeverNegative(s)
    ensures Tokenize(s) == Panic(Mismatched) <==> NeverNegative(s) && Depth(s) != 0
    ensures Tokenize(s).Ok? ==> BlockCount(Tokenize(s).value) == Closes(s)
  {
    assert s[..0] == [];
    ScanOutcome(s, true, 0, Start);
  }

  /** On success the parts reassemble the pattern; text parts are non-empty,
      brace-free and never adjacent; block parts are balanced and shorter
      than the pattern. */
  lemma TokenizeParts(s: string)
    ensures Tokenize(s).Ok? ==> Join(Tokenize(s).value) == s && WellFormed(Tokenize(s).value, |s|)
  {
    assert s[..0] == [];
    assert PartsInv(s, 0, Start);
    ScanParts(s, 0, Start);
  }

  // ----- extract_parts as written -----

  /** Every part is a prefix of the pattern. */
  predicate AllPrefixes(parts: seq<Part>, s: string) {
    forall k :: 0 <= k < |parts| ==> |parts[k].value| <= |s| && parts[k].value == s[..|parts[k].value|]
  }

  lemma PrefixesSnoc(parts: seq<Part>, p: Part, s: string)
    requires AllPrefixes(parts, s)
    requires |p.value| <= |s| && p.value == s[..|p.value|]
    ensures AllPrefixes(parts + [p], s)
  {
  }

  lemma {:induction false} ScanAsWrittenPrefixes(s: string, i: nat, st: ScanState)
    requires StateOk(s, i, st) && st.prev == 0 && AllPrefixes(st.results, s)
    ensures ScanFrom(s, false, i, st).Ok? ==> AllPrefixes(ScanFrom(s, false, i, st).value, s)
    decreases |s| - i
  {
    if i == |s| {
      if st.stack == [] && s != [] {
        PrefixesSnoc(st.results, StringPart(s), s);
      }
    } else {
      var r := ScanStep(s, false, i, st);
      if r.Ok? {
        if s[i] == '}' && |st.stack| == 1 {
          PrefixesSnoc(st.results, BlockPart(s[..i]), s);
        } else if s[i] == '{' && st.stack == [] && i > 0 {
          PrefixesSnoc(st.results, StringPart(s[..i]), s);
        }
        ScanAsWrittenPrefixes(s, i + 1, r.value);
      }
    }
  }

  /** As written, `prev_pos` never leaves 0: every part is a prefix of the
      pattern, so any part after the first repeats text already emitted. */
  lemma TokenizeAsWrittenPrefixes(s: string)
    ensures TokenizeAsWritten(s).Ok? ==> AllPrefixes(TokenizeAsWritten(s).value, s)
  {
    ScanAsWrittenPrefixes(s, 0, Start);
  }

  /** The resume position never decides between success and failure: as
      written, `extract_parts` fails on exactly the same patterns, with the
      same message. */
  lemma TokenizeAsWrittenSameOutcome(s: string)
    ensures TokenizeAsWritten(s).Ok? <==> Tokenize(s).Ok?
    ensures TokenizeAsWritten(s).Panic? ==> TokenizeAsWritten(s) == Tokenize(s)
  {
    assert s[..0] == [];
    ScanOutcome(s, true, 0, Start);
    ScanOutcome(s, false, 0, Start);
  }

  lemma {:induction false} ScanNoBraces(s: string, intended: bool, i: nat)
    requires NoBraces(s) && i <= |s|
    ensures ScanFrom(s, intended, i, Start) == Ok(if s != [] then [StringPart(s)] else [])
    decreases |s| - i
  {
    if i < |s| {
      ScanNoBraces(s, intended, i + 1);
    } else {
      assert s[0..] == s;
      assert Start.results + [StringPart(s)] == [StringPart(s)];
    }
  }

  /** A pattern without braces is one String part, under either resume rule. */
  lemma TokenizeNoBraces(s: string)
    requires NoBraces(s) && s != []
    ensures Tokenize(s) == Ok([StringPart(s)])
    ensures TokenizeAsWritten(s) == Ok([StringPart(s)])
  {
    ScanNoBraces(s, true, 0);
    ScanNoBraces(s, false, 0);
  }

  /** "a{b}c" as written: the block part and the last text part both start
      at the beginning of the pattern, and the parts no longer reassemble it. */
  lemma AsWrittenCounterexample()
    ensures TokenizeAsWritten("a{b}c") == Ok([StringPart("a"), BlockPart("a{b"), StringPart("a{b}c")])
    ensures Join(TokenizeAsWritten("a{b}c").value) != "a{b}c"
  {
    var s := "a{b}c";
    assert s[0] == 'a' && s[1] == '{' && s[2] == 'b' && s[3] == '}' && s[4] == 'c';
    var s1 := ScanState(['{'], 0, [StringPart("a")]);
    var s3 := ScanState([], 0, [StringPart("a"), BlockPart("a{b")]);
    assert s[0..1] == "a" && s[0..3] == "a{b" && s[0..] == s;
    assert Resume(s, 1, false) == 0 && Resume(s, 3, false) == 0;
    assert [] + ['{'] == ['{'] && ['{'][..0] == [];
    assert [] + [StringPart("a")] == [StringPart("a")];
    assert [StringPart("a")] + [BlockPart("a{b")] == s3.results;
    assert ScanStep(s, false, 0, Start) == Ok(Start);
    assert ScanStep(s, false, 1, Start) == Ok(s1);
    assert ScanStep(s, false, 2, s1) == Ok(s1);
    assert ScanStep(s, false, 3, s1) == Ok(s3);
    assert ScanStep(s, false, 4, s3) == Ok(s3);
    var parts := [StringPart("a"), BlockPart("a{b"), StringPart("a{b}c")];
    assert s3.results + [StringPart(s)] == parts;
    assert ScanFrom(s, false, 5, s3) == Ok(parts);
    assert ScanFrom(s, false, 4, s3) == Ok(parts);
    assert ScanFrom(s, false, 3, s1) == Ok(parts);
    assert ScanFrom(s, false, 2, s1) == Ok(parts);
    assert ScanFrom(s, false, 1, Start) == Ok(parts);
    assert parts[..2] == [StringPart("a"), BlockPart("a{b")];
    assert |Join(parts)| == |Join(parts[..2])| + 5;
  }

  /** "a{b}c" with the intended resume position: text, block, text. */
  lemma IntendedExample()
    ensures Tokenize("a{b}c") == Ok([StringPart("a"), BlockPart("b"), StringPart("c")])
  {
    var s := "a{b}c";
    assert s[0] == 'a' && s[1] == '{' && s[2] == 'b' && s[3] == '}' && s[4] == 'c';
    var s1 := ScanState(['{'], 2, [StringPart("a")]);
    var s3 := ScanState([], 4, [StringPart("a"), BlockPart("b")]);
    assert s[0..1] == "a" && s[2..3] == "b" && s[4..] == "c";
    assert [] + ['{'] == ['{'] && ['{'][..0] == [];
    assert [] + [StringPart("a")] == [StringPart("a")];
    assert [StringPart("a")] + [BlockPart("b")] == s3.results;
    assert ScanStep(s, true, 0, Start) == Ok(Start);
    assert ScanStep(s, true, 1, Start) == Ok(s1);
    assert ScanStep(s, true, 2, s1) == Ok(s1);
    assert ScanStep(s, true, 3, s1) == Ok(s3);
    assert ScanStep(s, true, 4, s3) == Ok(s3);
    var parts := [StringPart("a"), BlockPart("b"), StringPart("c")];
    assert s3.results + [StringPart("c")] == parts;
    assert ScanFrom(s, true, 5, s3) == Ok(parts);
    assert ScanFrom(s, true, 4, s3) == Ok(parts);
    assert ScanFrom(s, true, 3, s1) == Ok(parts);
    assert ScanFrom(s, true, 2, s1) == Ok(parts);
    assert ScanFrom(s, true, 1, Start) == Ok(parts);
  }

  /** "{name}" as written: the block part keeps its opening brace and the
      final text part is the whole pattern. */
  lemma BraceFirstAsWritten()
    ensures TokenizeAsWritten("{name}") == Ok([BlockPart("{name"), StringPart("{name}")])
  {
    var s := "{name}";
    assert s[0] == '{' && s[1] == 'n' && s[2] == 'a' && s[3] == 'm' && s[4] == 'e' && s[5] == '}';
    assert s[0..0] == [] && s[0..5] == "{name" && s[0..] == s;
    assert [] + ['{'] == ['{'] && ['{'][..0] == [];
    assert Resume(s, 0, false) == 0 && Resume(s, 5, false) == 0;
    assert [] + [BlockPart("{name")] == [BlockPart("{name")];
    var parts := [BlockPart("{name"), StringPart("{name}")];
    assert [BlockPart("{name")] + [StringPart(s)] == parts;
    var w1 := ScanState(['{'], 0, []);
    var w5 := ScanState([], 0, [BlockPart("{name")]);
    assert ScanStep(s, false, 0, Start) == Ok(w1);
    assert ScanStep(s, false, 5, w1) == Ok(w5);
    assert ScanFrom(s, false, 6, w5) == Ok(parts);
    assert ScanFrom(s, false, 5, w1) == Ok(parts);
    assert ScanFrom(s, false, 1, w1) == Ok(parts);
  }

  /** "{name}" with the intended advance: one block part, the name. */
  lemma BraceFirstIntended()
    ensures Tokenize("{name}") == Ok([BlockPart("name")])
  {
    var s := "{name}";
    assert s[0] == '{' && s[1] == 'n' && s[2] == 'a' && s[3] == 'm' && s[4] == 'e' && s[5] == '}';
    assert s[0..0] == [] && s[1..5] == "name" && s[6..] == [];
    assert [] + ['{'] == ['{'] && ['{'][..0] == [];
    assert [] + [BlockPart("name")] == [BlockPart("name")];
    var i1 := ScanState(['{'], 1, []);
    var i5 := ScanState([], 6, [BlockPart("name")]);
    assert ScanStep(s, true, 0, Start) == Ok(i1);
    assert ScanStep(s, true, 5, i1) == Ok(i5);
    assert ScanFrom(s, true, 6, i5) == Ok([BlockPart("name")]);
    assert ScanFrom(s, true, 5, i1) == Ok([BlockPart("name")]);
    assert ScanFrom(s, true, 1, i1) == Ok([BlockPart("name")]);
  }
}
