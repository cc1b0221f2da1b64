/** The regular expressions of src/lib.rs, each written out as a small
    scanner: block headers (PLURAL_BLOCK_RE, ORDINAL_BLOCK_RE,
    SELECT_BLOCK_RE, SIMPLE_RE), option-key clean-up (KV_RE,
    WHITESPACES_RE) and the block classifier `parse_block_type`. */
module Syntax {
  import opened Wrappers
  import opened Digits

  /** `\s`: the Unicode White_Space property. */
  predicate IsWhitespace(c: char) {
    || '\t' <= c <= '\r' || c == ' ' || c == '\U{0085}' || c == '\U{00A0}'
    || c == '\U{1680}' || '\U{2000}' <= c <= '\U{200A}' || c == '\U{2028}'
    || c == '\U{2029}' || c == '\U{202F}' || c == '\U{205F}' || c == '\U{3000}'
  }

  /** `\w`, restricted to ASCII: letters, digits and `_`. */
  predicate IsWordChar(c: char) {
    'a' <= c <= 'z' || 'A' <= c <= 'Z' || IsDigit(c) || c == '_'
  }

  /** End of the run of whitespace starting at `i`. */
  function SkipWhitespace(s: string, i: nat): (j: nat)
    requires i <= |s|
    ensures i <= j <= |s|
    ensures forall k :: i <= k < j ==> IsWhitespace(s[k])
    ensures j < |s| ==> !IsWhitespace(s[j])
    decreases |s| - i
  {
    if i < |s| && IsWhitespace(s[i]) then SkipWhitespace(s, i + 1) else i
  }

  /** End of the run of word characters starting at `i`. */
  function SkipWord(s: string, i: nat): (j: nat)
    requires i <= |s|
    ensures i <= j <= |s|
    ensures forall k :: i <= k < j ==> IsWordChar(s[k])
    ensures j < |s| ==> !IsWordChar(s[j])
    decreases |s| - i
  {
    if i < |s| && IsWordChar(s[i]) then SkipWord(s, i + 1) else i
  }

  /** End of the run of ASCII digits starting at `i`. */
  function SkipDigits(s: string, i: nat): (j: nat)
    requires i <= |s|
    ensures i <= j <= |s|
    ensures AllDigits(s[i..j])
    ensures j < |s| ==> !IsDigit(s[j])
    decreases |s| - i
  {
    if i < |s| && IsDigit(s[i]) then SkipDigits(s, i + 1) else i
  }

  /** What a header expression captures: the argument name, and where the
      match ends (the header is replaced by "" up to there). */
  datatype Header = Header(name: string, end: nat)

  /** Where the keyword of a choice header starts: after `^\s*(\w+)\s*,\s*`.
      The character classes are disjoint, so the match, when there is one,
      is the one these runs describe. */
  function KeywordStart(s: string): (r: Option<nat>)
    ensures r.Some? ==> r.value <= |s|
  {
    var a := SkipWhitespace(s, 0);
    var b := SkipWord(s, a);
    if a == b then None
    else
      var c := SkipWhitespace(s, b);
      if c == |s| || s[c] != ',' then None
      else Some(SkipWhitespace(s, c + 1))
  }

  /** `^\s*(\w+)\s*,\s*KEYWORD\s*,` for KEYWORD = select or selectordinal
      (and the head of the plural expression). */
  function MatchChoiceHeader(s: string, keyword: string): (r: Option<Header>)
    ensures r.Some? ==> r.value.end <= |s| && |r.value.name| > 0
    ensures r.Some? ==> forall k :: 0 <= k < |r.value.name| ==> IsWordChar(r.value.name[k])
  {
    match KeywordStart(s)
    case None => None
    case Some(d) =>
      if d + |keyword| > |s| || s[d..d + |keyword|] != keyword then None
      else
        var e := SkipWhitespace(s, d + |keyword|);
        if e == |s| || s[e] != ',' then None
        else
          var a := SkipWhitespace(s, 0);
          Some(Header(s[a..SkipWord(s, a)], e + 1))
  }

  /** What PLURAL_BLOCK_RE captures: the name and the optional offset digits. */
  datatype PluralHeader = PluralHeader(name: string, offset: Option<string>, end: nat)

  /** `^\s*(\w+)\s*,\s*plural\s*,(?:\s*offset:(\d+))?`: the optional group
      is taken whenever it matches, with all the digits that follow. */
  function MatchPluralHeader(s: string): (r: Option<PluralHeader>)
    ensures r.Some? <==> MatchChoiceHeader(s, "plural").Some?
    ensures r.Some? ==> r.value.name == MatchChoiceHeader(s, "plural").value.name
    ensures r.Some? ==> r.value.end <= |s|
    ensures r.Some? && r.value.offset.Some? ==>
      |r.value.offset.value| > 0 && AllDigits(r.value.offset.value)
  {
    match MatchChoiceHeader(s, "plural")
    case None => None
    case Some(h) =>
      var f := SkipWhitespace(s, h.end);
      if f + 7 <= |s| && s[f..f + 7] == "offset:" && SkipDigits(s, f + 7) > f + 7 then
        var g := SkipDigits(s, f + 7);
        Some(PluralHeader(h.name, Some(s[f + 7..g]), g))
      else Some(PluralHeader(h.name, None, h.end))
  }

  /** `^\s*\w`: the first character after leading whitespace is a word character. */
  predicate StartsWithWord(s: string) {
    var a := SkipWhitespace(s, 0);
    a < |s| && IsWordChar(s[a])
  }

  datatype BlockType = Plural | Ordinal | Select | Simple | Unknown

  /** `parse_block_type`: plural, then selectordinal, then select, then a
      simple placeholder; anything else is Unknown. Because the headers
      exclude each other, the order of the tests does not matter: each
      choice kind is chosen exactly when its header matches, and Unknown
      exactly when no word character opens the block. */
  function ParseBlockType(value: string): (r: BlockType)
    ensures r == Plural <==> MatchChoiceHeader(value, "plural").Some?
    ensures r == Ordinal <==> MatchChoiceHeader(value, "selectordinal").Some?
    ensures r == Select <==> MatchChoiceHeader(value, "select").Some?
    ensures r == Unknown <==> !StartsWithWord(value)
  {
    PluralExcludes(value);
    OrdinalExcludesSelect(value);
    HeaderStartsWithWord(value, "selectordinal");
    HeaderStartsWithWord(value, "select");
    if MatchPluralHeader(value).Some? then Plural
    else if MatchChoiceHeader(value, "selectordinal").Some? then Ordinal
    else if MatchChoiceHeader(value, "select").Some? then Select
    else if StartsWithWord(value) then Simple
    else Unknown
  }

  /** `^\s*\w` read directly: some word character has only whitespace before it. */
  lemma StartsWithWordMeans(s: string)
    ensures StartsWithWord(s) <==>
      exists a :: 0 <= a < |s| && IsWordChar(s[a]) && forall k :: 0 <= k < a ==> IsWhitespace(s[k])
  {
    if a :| 0 <= a < |s| && IsWordChar(s[a]) && forall k :: 0 <= k < a ==> IsWhitespace(s[k]) {
      SkipWhitespaceOver(s, 0, a);
    }
  }

  /** Every header starts, after whitespace, with the argument name's first word character. */
  lemma HeaderStartsWithWord(s: string, keyword: string)
    ensures MatchChoiceHeader(s, keyword).Some? ==> StartsWithWord(s)
  {
  }

  /** The plural header excludes the other two: its keyword starts with `p`. */
  lemma PluralExcludes(s: string)
    ensures MatchChoiceHeader(s, "plural").Some? ==>
      MatchChoiceHeader(s, "selectordinal").None? && MatchChoiceHeader(s, "select").None?
  {
    if MatchChoiceHeader(s, "plural").Some? {
      var d := KeywordStart(s).value;
      assert s[d..d + 6][0] == 'p';
      if d + 13 <= |s| {
        assert s[d..d + 13][0] == 'p';
      }
    }
  }

  /** selectordinal excludes select: after `select` comes `o`, not `\s*,`. */
  lemma OrdinalExcludesSelect(s: string)
    ensures MatchChoiceHeader(s, "selectordinal").Some? ==> MatchChoiceHeader(s, "select").None?
  {
    if MatchChoiceHeader(s, "selectordinal").Some? {
      var d := KeywordStart(s).value;
      assert s[d + 6] == "selectordinal"[6];
      assert SkipWhitespace(s, d + 6) == d + 6;
    }
  }

  /** `WHITESPACES_RE.replace_all(key, "")`: every whitespace character removed. */
  function RemoveWhitespace(s: string): (r: string)
    ensures forall k :: 0 <= k < |r| ==> !IsWhitespace(r[k])
    ensures |r| <= |s|
  {
    if s == [] then []
    else if IsWhitespace(s[0]) then RemoveWhitespace(s[1..])
    else [s[0]] + RemoveWhitespace(s[1..])
  }

  /** One character is dropped exactly when it is whitespace. */
  lemma RemoveWhitespaceChar(c: char)
    ensures RemoveWhitespace([c]) == if IsWhitespace(c) then [] else [c]
  {
    assert [c][1..] == [];
  }

  /** The characters of a text are treated one by one, independently of
      their neighbours: with RemoveWhitespaceChar this pins the result down. */
  lemma {:induction false} RemoveWhitespaceAppend(a: string, b: string)
    ensures RemoveWhitespace(a + b) == RemoveWhitespace(a) + RemoveWhitespace(b)
  {
    if a == [] {
      assert a + b == b;
    } else {
      assert (a + b)[0] == a[0] && (a + b)[1..] == a[1..] + b;
      RemoveWhitespaceAppend(a[1..], b);
      if !IsWhitespace(a[0]) {
        assert [a[0]] + (RemoveWhitespace(a[1..]) + RemoveWhitespace(b))
            == [a[0]] + RemoveWhitespace(a[1..]) + RemoveWhitespace(b);
      }
    }
  }

  /** Text without whitespace is left as it is. */
  lemma {:induction false} RemoveWhitespaceKeeps(s: string)
    requires forall k :: 0 <= k < |s| ==> !IsWhitespace(s[k])
    ensures RemoveWhitespace(s) == s
  {
    if s != [] {
      RemoveWhitespaceKeeps(s[1..]);
    }
  }

  /** One match of KV_RE = `\s*=?(\w+)\s*` starting at `p`: where the
      captured word starts and ends, and where the match ends. */
  datatype KvMatch = KvMatch(wordStart: nat, wordEnd: nat, end: nat)

  function KvMatchAt(s: string, p: nat): (r: Option<KvMatch>)
    requires p <= |s|
    ensures r.Some? ==> p <= r.value.wordStart < r.value.wordEnd <= r.value.end <= |s|
    ensures r.Some? ==> forall k :: p <= k < r.value.wordStart ==> IsWhitespace(s[k]) || s[k] == '='
    ensures r.Some? ==> forall k :: r.value.wordStart <= k < r.value.wordEnd ==> IsWordChar(s[k])
    ensures r.Some? ==> forall k :: r.value.wordEnd <= k < r.value.end ==> IsWhitespace(s[k])
  {
    var a := SkipWhitespace(s, p);
    var w :=
      if a + 1 < |s| && s[a] == '=' && IsWordChar(s[a + 1]) then a + 1
      else a;
    if w < |s| && IsWordChar(s[w]) then
      var we := SkipWord(s, w);
      Some(KvMatch(w, we, SkipWhitespace(s, we)))
    else None
  }

  /** `KV_RE.replace_all(key, |caps| caps[1])` from `p` on: each leftmost match
      is replaced by its word, the text where no match starts is copied. */
  function KvReplaceFrom(s: string, p: nat): (r: string)
    requires p <= |s|
    ensures |r| <= |s| - p
    decreases |s| - p
  {
    if p == |s| then []
    else match KvMatchAt(s, p)
      case Some(m) => s[m.wordStart..m.wordEnd] + KvReplaceFrom(s, m.end)
      case None => [s[p]] + KvReplaceFrom(s, p + 1)
  }

  /** KV_RE only ever drops whitespace and `=`: every other character of
      the key survives, in order, and the key never grows. */
  function KvReplace(s: string): (r: string)
    ensures |r| <= |s|
    ensures Significant(r) == Significant(s)
  {
    KvReplaceSignificant(s, 0);
    KvReplaceFrom(s, 0)
  }

  /** The key without its whitespace and `=` characters. */
  function Significant(s: string): string {
    if s == [] then []
    else (if IsWhitespace(s[0]) || s[0] == '=' then [] else [s[0]]) + Significant(s[1..])
  }

  lemma {:induction false} SignificantAppend(a: string, b: string)
    ensures Significant(a + b) == Significant(a) + Significant(b)
  {
    if a == [] {
      assert a + b == b;
    } else {
      assert (a + b)[0] == a[0] && (a + b)[1..] == a[1..] + b;
      SignificantAppend(a[1..], b);
    }
  }

  lemma {:induction false} SignificantDropped(s: string)
    requires forall k :: 0 <= k < |s| ==> IsWhitespace(s[k]) || s[k] == '='
    ensures Significant(s) == []
  {
    if s != [] {
      SignificantDropped(s[1..]);
    }
  }

  lemma {:induction false} SignificantWord(s: string)
    requires AllWord(s)
    ensures Significant(s) == s
  {
    if s != [] {
      SignificantWord(s[1..]);
    }
  }

  /** One match of KV_RE holds exactly its word's significant characters. */
  lemma KvMatchSignificant(s: string, p: nat)
    requires p <= |s| && KvMatchAt(s, p).Some?
    ensures var m := KvMatchAt(s, p).value;
      Significant(s[p..m.end]) == s[m.wordStart..m.wordEnd]
  {
    var m := KvMatchAt(s, p).value;
    var lead, word, trail := s[p..m.wordStart], s[m.wordStart..m.wordEnd], s[m.wordEnd..m.end];
    assert s[p..m.end] == lead + (word + trail);
    SignificantAppend(lead, word + trail);
    SignificantAppend(word, trail);
    SignificantDropped(lead);
    SignificantWord(word);
    SignificantDropped(trail);
  }

  /** Each replacement step keeps the significant characters. */
  lemma {:induction false} KvReplaceSignificant(s: string, p: nat)
    requires p <= |s|
    ensures Significant(KvReplaceFrom(s, p)) == Significant(s[p..])
    decreases |s| - p
  {
    if p < |s| {
      var mm := KvMatchAt(s, p);
      if mm.Some? {
        KvReplaceSignificant(s, mm.value.end);
        KvMatchStep(s, p);
      } else {
        KvReplaceSignificant(s, p + 1);
        KvCopyStep(s, p);
      }
    }
  }

  lemma KvMatchStep(s: string, p: nat)
    requires p < |s| && KvMatchAt(s, p).Some?
    requires Significant(KvReplaceFrom(s, KvMatchAt(s, p).value.end)) == Significant(s[KvMatchAt(s, p).value.end..])
    ensures Significant(KvReplaceFrom(s, p)) == Significant(s[p..])
  {
    var lead, word, e := KvMatchParts(s, p);
    SignificantJoin(lead, s[e..], word, KvReplaceFrom(s, e));
  }

  /** A KV_RE match at `p`: the text it covers, the word it keeps and
      where it ends. */
  lemma KvMatchParts(s: string, p: nat) returns (lead: string, word: string, e: nat)
    requires p < |s| && KvMatchAt(s, p).Some?
    ensures e == KvMatchAt(s, p).value.end && e <= |s|
    ensures KvReplaceFrom(s, p) == word + KvReplaceFrom(s, e)
    ensures AllWord(word) && Significant(lead) == word && s[p..] == lead + s[e..]
  {
    var m := KvMatchAt(s, p).value;
    lead, word, e := s[p..m.end], s[m.wordStart..m.wordEnd], m.end;
    KvMatchSignificant(s, p);
    KvMatchWord(s, p);
    SliceSplit(s, p, e);
  }

  /** The word a KV_RE match keeps is made of word characters. */
  lemma KvMatchWord(s: string, p: nat)
    requires p < |s| && KvMatchAt(s, p).Some?
    ensures var m := KvMatchAt(s, p).value;
      AllWord(s[m.wordStart..m.wordEnd])
  {
  }

  lemma {:induction false} SliceSplit(s: string, a: nat, b: nat)
    requires a <= b <= |s|
    ensures s[a..] == s[a..b] + s[b..]
  {
  }

  /** Texts whose significant characters agree part by part agree whole. */
  lemma {:induction false} SignificantJoin(x: string, y: string, word: string, rest: string)
    requires AllWord(word) && Significant(x) == word && Significant(y) == Significant(rest)
    ensures Significant(x + y) == Significant(word + rest)
  {
    SignificantAppend(x, y);
    SignificantAppend(word, rest);
    SignificantWord(word);
  }

  lemma KvCopyStep(s: string, p: nat)
    requires p < |s| && KvMatchAt(s, p).None?
    requires Significant(KvReplaceFrom(s, p + 1)) == Significant(s[p + 1..])
    ensures Significant(KvReplaceFrom(s, p)) == Significant(s[p..])
  {
    var rest := KvReplaceFrom(s, p + 1);
    assert KvReplaceFrom(s, p) == [s[p]] + rest;
    assert s[p..] == [s[p]] + s[p + 1..];
    SignificantAppend([s[p]], s[p + 1..]);
    SignificantAppend([s[p]], rest);
  }

  predicate AllWhitespace(s: string) {
    forall k :: 0 <= k < |s| ==> IsWhitespace(s[k])
  }

  predicate AllWord(s: string) {
    forall k :: 0 <= k < |s| ==> IsWordChar(s[k])
  }

  /** A key written `  =word  ` (leading whitespace up to `i`, an optional
      `=`, the word at `[a, b)`, trailing whitespace) becomes just `word`. */
  lemma KvReplaceStrips(s: string, i: nat, a: nat, b: nat)
    requires i <= a < b <= |s|
    requires forall k :: 0 <= k < i ==> IsWhitespace(s[k])
    requires a == i || (a == i + 1 && s[i] == '=')
    requires forall k :: a <= k < b ==> IsWordChar(s[k])
    requires forall k :: b <= k < |s| ==> IsWhitespace(s[k])
    ensures KvReplace(s) == s[a..b]
  {
    SkipWhitespaceOver(s, 0, i);
    SkipWordOver(s, a, b);
    SkipWhitespaceOver(s, b, |s|);
    assert KvMatchAt(s, 0) == Some(KvMatch(a, b, |s|));
    assert KvReplaceFrom(s, |s|) == [];
  }

  lemma {:induction false} SkipWhitespaceOver(s: string, i: nat, j: nat)
    requires i <= j <= |s|
    requires forall k :: i <= k < j ==> IsWhitespace(s[k])
    requires j < |s| ==> !IsWhitespace(s[j])
    ensures SkipWhitespace(s, i) == j
    decreases j - i
  {
    if i < j {
      SkipWhitespaceOver(s, i + 1, j);
    }
  }

  lemma {:induction false} SkipWordOver(s: string, i: nat, j: nat)
    requires i <= j <= |s|
    requires forall k :: i <= k < j ==> IsWordChar(s[k])
    requires j < |s| ==> !IsWordChar(s[j])
    ensures SkipWord(s, i) == j
    decreases j - i
  {
    if i < j {
      SkipWordOver(s, i + 1, j);
    }
  }
}
