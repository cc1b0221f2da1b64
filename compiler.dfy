/** The pattern compiler of src/lib.rs: literal protection
    (`insert_placeholders`, `build_placeholder`), the block classifier's
    caller `parse_block`, and the three choice parsers. A compiled pattern
    is a tree of `Block`s; choice blocks hold an option table. */
module Compiler {
  import opened Wrappers
  import opened Digits
  import opened Param
  import opened StrExt
  import Syntax
  import opened Tokenizer

  /** `Block`: `String` is named `Text` here. */
  datatype Block =
    | Text(value: string)
    | Simple(name: string)
    | Select(options: seq<Branch>)
    | Plural(options: seq<Branch>)
    | Ordinal(options: seq<Branch>)

  /** One entry of a choice block's `HashMap<ParamValue, Vec<Block>>`.
      The table is kept as a list with unique keys (see Insert). */
  datatype Branch = Branch(key: ParamValue, body: seq<Block>)

  const ArgumentName: string := "argumentName"
  const ArgumentOffset: string := "argumentOffset"
  /** `OTHER`, as a key. */
  const Other: ParamValue := Str("other")

  // ---------------------------------------------------------------------
  // The option table

  predicate UniqueKeys(options: seq<Branch>) {
    forall a, b :: 0 <= a < b < |options| ==> options[a].key != options[b].key
  }

  /** Where `key` is in the table, if anywhere (`HashMap::get`). */
  function IndexOf(options: seq<Branch>, key: ParamValue): (r: Option<nat>)
    ensures r.Some? ==> r.value < |options| && options[r.value].key == key
    ensures r.Some? ==> forall k :: r.value < k < |options| ==> options[k].key != key
    ensures r.None? ==> forall k :: 0 <= k < |options| ==> options[k].key != key
  {
    if options == [] then None
    else if options[|options| - 1].key == key then Some(|options| - 1)
    else IndexOf(options[..|options| - 1], key)
  }

  /** In a table with unique keys, IndexOf finds the one entry with that key. */
  lemma IndexOfUnique(options: seq<Branch>, j: nat)
    requires UniqueKeys(options) && j < |options|
    ensures IndexOf(options, options[j].key) == Some(j)
  {
  }

  function Lookup(options: seq<Branch>, key: ParamValue): Option<seq<Block>> {
    match IndexOf(options, key)
    case Some(i) => Some(options[i].body)
    case None => None
  }

  /** `HashMap::insert`: an existing entry for `key` is overwritten where
      it stands, otherwise the entry is added. */
  function Insert(options: seq<Branch>, key: ParamValue, body: seq<Block>): (r: seq<Branch>)
    ensures |options| <= |r| <= |options| + 1
    ensures forall k :: 0 <= k < |options| ==> r[k].key == options[k].key
    ensures forall k :: 0 <= k < |r| ==> r[k] == Branch(key, body) || (k < |options| && r[k] == options[k])
    ensures IndexOf(r, key).Some? && r[IndexOf(r, key).value] == Branch(key, body)
    ensures UniqueKeys(options) ==> UniqueKeys(r)
  {
    match IndexOf(options, key)
    case Some(i) => options[i := Branch(key, body)]
    case None => options + [Branch(key, body)]
  }

  /** The map laws of `insert` followed by `get`. */
  lemma InsertLookup(options: seq<Branch>, key: ParamValue, body: seq<Block>, k: ParamValue)
    requires UniqueKeys(options)
    ensures Lookup(Insert(options, key, body), k) == if k == key then Some(body) else Lookup(options, k)
  {
    var r := Insert(options, key, body);
    if k == key {
      IndexOfUnique(r, IndexOf(r, key).value);
    } else {
      match IndexOf(options, k)
      case Some(j) =>
        IndexOfUnique(r, j);
      case None =>
    }
  }

  /** Option keys are written as text; a key that reads as an i64 becomes a
      number, so that it can meet a numeric parameter value. */
  function KeyOf(text: string): ParamValue {
    match ParseNumber(text)
    case Some(v) => v
    case None => Str(text)
  }

  /** Keys written as numbers are numeric keys, other keys stay text. */
  lemma KeyOfReadsNumbers(n: I64, word: string)
    requires ParseNumber(word).None?
    ensures KeyOf(Display(Int(n))) == Int(n)
    ensures KeyOf(word) == Str(word)
  {
    ParseNumberOfDisplay(n);
  }

  // ---------------------------------------------------------------------
  // Literal tokens

  const LiteralMarker: char := '\U{FDDF}'

  /** The token `build_placeholder` returns for entry `idx` of the table. */
  function Placeholder(idx: nat): (r: string)
    ensures |r| >= 4
  {
    "_" + [LiteralMarker] + NatToString(idx) + "_"
  }

  /** A token is `_`, the marker, the decimal text of its index, then `_`. */
  lemma PlaceholderParts(idx: nat)
    ensures var r := Placeholder(idx);
      && r[0] == '_' && r[1] == LiteralMarker && r[|r| - 1] == '_'
      && r[2..|r| - 1] == NatToString(idx)
  {
    var r := Placeholder(idx);
    assert r == "_" + [LiteralMarker] + NatToString(idx) + "_";
  }

  /** Distinct indices give distinct tokens. */
  lemma PlaceholderInjective(a: nat, b: nat)
    requires Placeholder(a) == Placeholder(b)
    ensures a == b
  {
    PlaceholderParts(a);
    PlaceholderParts(b);
    NatToStringInjective(a, b);
  }

  /** A token holds no character the compiler or the renderer reacts to. */
  lemma PlaceholderInert(idx: nat)
    ensures '\'' !in Placeholder(idx) && '#' !in Placeholder(idx)
    ensures '{' !in Placeholder(idx) && '}' !in Placeholder(idx)
  {
    var r := Placeholder(idx);
    PlaceholderParts(idx);
    forall k | 0 <= k < |r| ensures r[k] != '\'' && r[k] != '#' && r[k] != '{' && r[k] != '}' {
      if 2 <= k < |r| - 1 {
        assert r[k] == NatToString(idx)[k - 2];
      }
    }
  }

  // ---------------------------------------------------------------------
  // Literal protection

  /** The replacer of the `''` pass: match number i gets entry base + i. */
  function QuoteTokens(base: nat): Replacer {
    (i: nat, p: nat, t: string) => Placeholder(base + i)
  }

  /** `n` entries holding a single `'`. */
  function Apostrophes(n: nat): (r: seq<string>)
    ensures |r| == n && forall k :: 0 <= k < n ==> r[k] == "'"
  {
    if n == 0 then [] else Apostrophes(n - 1) + ["'"]
  }

  /** The `''` pass over the remaining matches `ms`, `out` being the text
      produced so far: the text before each match is copied, the match
      becomes the next token, and a `'` entry is appended. */
  function QuoteFrom(s: string, ms: seq<nat>, last: nat, out: string, lits: seq<string>)
    : (string, seq<string>)
    requires Ordered(ms, 2, last, |s|)
    decreases |ms|
  {
    if ms == [] then (out + s[last..], lits)
    else
      var p := ms[0];
      QuoteFrom(s, ms[1..], p + 2, out + s[last..p] + Placeholder(|lits|), lits + ["'"])
  }

  /** DOUBLE_APOSTROPHE_RE pass over the leftmost non-overlapping `''`s. */
  function QuotePass(s: string, lits: seq<string>): (string, seq<string>) {
    QuoteFrom(s, MatchIndices(s, "''"), 0, "", lits)
  }

  /** One step of the `''` pass, at match number `idx`. */
  lemma QuoteFromNext(s: string, ms: seq<nat>, idx: nat, last: nat, out: string, lits: seq<string>)
    requires idx < |ms| && Ordered(ms[idx..], 2, last, |s|)
    ensures last <= ms[idx] && ms[idx] + 2 <= |s| && Ordered(ms[idx + 1..], 2, ms[idx] + 2, |s|)
    ensures QuoteFrom(s, ms[idx..], last, out, lits)
         == QuoteFrom(s, ms[idx + 1..], ms[idx] + 2, out + s[last..ms[idx]] + Placeholder(|lits|), lits + ["'"])
  {
    assert ms[idx..][0] == ms[idx];
    assert ms[idx..][1..] == ms[idx + 1..];
  }

  /** The text the `''` pass produces is the spliced text. */
  lemma {:induction false} QuoteFromText(s: string, ms: seq<nat>, last: nat, out: string,
                                         lits: seq<string>, base: nat, idx: nat)
    requires Ordered(ms, 2, last, |s|)
    requires |lits| == base + idx
    ensures QuoteFrom(s, ms, last, out, lits).0 == out + Spliced(s, 2, ms, QuoteTokens(base), last, idx)
    decreases |ms|
  {
    if ms != [] {
      var head := QuoteFromSplice(s, ms, last, out, lits, base, idx);
      var rest := Spliced(s, 2, ms[1..], QuoteTokens(base), ms[0] + 2, idx + 1);
      QuoteFromText(s, ms[1..], ms[0] + 2, out + head, lits + ["'"], base, idx + 1);
      assert out + head + rest == out + (head + rest);
    }
  }

  /** Both sides of `QuoteFromText` unfold by the first match, which
      contributes the same text `head` to each. */
  lemma QuoteFromSplice(s: string, ms: seq<nat>, last: nat, out: string,
                        lits: seq<string>, base: nat, idx: nat) returns (head: string)
    requires Ordered(ms, 2, last, |s|) && ms != []
    requires |lits| == base + idx
    ensures Ordered(ms[1..], 2, ms[0] + 2, |s|)
    ensures QuoteFrom(s, ms, last, out, lits) == QuoteFrom(s, ms[1..], ms[0] + 2, out + head, lits + ["'"])
    ensures Spliced(s, 2, ms, QuoteTokens(base), last, idx)
         == head + Spliced(s, 2, ms[1..], QuoteTokens(base), ms[0] + 2, idx + 1)
  {
    var p := ms[0];
    head := s[last..p] + Placeholder(|lits|);
    SplicedStep(s, 2, ms, QuoteTokens(base), last, idx);
    assert QuoteTokens(base)(idx, p, s[p..p + 2]) == Placeholder(|lits|);
    assert out + s[last..p] + Placeholder(|lits|) == out + head;
  }

  /** The table the `''` pass produces gains one `'` per match. */
  lemma {:induction false} QuoteFromTable(s: string, ms: seq<nat>, last: nat, out: string, lits: seq<string>)
    requires Ordered(ms, 2, last, |s|)
    ensures QuoteFrom(s, ms, last, out, lits).1 == lits + Apostrophes(|ms|)
    decreases |ms|
  {
    if ms == [] {
      assert lits + Apostrophes(0) == lits;
    } else {
      var p := ms[0];
      QuoteFromTable(s, ms[1..], p + 2, out + s[last..p] + Placeholder(|lits|), lits + ["'"]);
      assert lits + ["'"] + Apostrophes(|ms| - 1) == lits + Apostrophes(|ms|);
    }
  }

  /** The `''` pass is `replace_with` whose replacer numbers the tokens from
      the table's length, and every match adds a `'` entry. */
  lemma QuotePassReplaces(s: string, lits: seq<string>)
    ensures QuotePass(s, lits)
         == (ReplacedWith(s, "''", QuoteTokens(|lits|)), lits + Apostrophes(|MatchIndices(s, "''")|))
  {
    var ms := MatchIndices(s, "''");
    QuoteFromText(s, ms, 0, "", lits, |lits|, 0);
    QuoteFromTable(s, ms, 0, "", lits);
    assert "" + Spliced(s, 2, ms, QuoteTokens(|lits|), 0, 0) == ReplacedWith(s, "''", QuoteTokens(|lits|));
  }

  /** The lazy `.*?'` of LITERAL_RE from `j`: the first `'`, provided no
      line break comes before it. */
  function ClosingQuote(s: string, j: nat): (r: Option<nat>)
    requires j <= |s|
    ensures r.Some? ==> j <= r.value < |s| && s[r.value] == '\''
    decreases |s| - j
  {
    if j == |s| then None
    else if s[j] == '\'' then Some(j)
    else if s[j] == '\n' then None
    else ClosingQuote(s, j + 1)
  }

  /** The quote found is the first one, and no line break comes before it. */
  lemma {:induction false} ClosingQuoteSome(s: string, j: nat)
    requires j <= |s|
    ensures ClosingQuote(s, j).Some? ==>
              forall k :: j <= k < ClosingQuote(s, j).value ==> s[k] != '\'' && s[k] != '\n'
    decreases |s| - j
  {
    if j < |s| && s[j] != '\'' && s[j] != '\n' {
      ClosingQuoteSome(s, j + 1);
    }
  }

  /** A match of LITERAL_RE = `'([{}#].*?)'` starting at `p`: where its
      closing quote is. */
  function LiteralAt(s: string, p: nat): (r: Option<nat>)
    requires p <= |s|
    ensures r.Some? ==> p + 2 <= r.value < |s| && s[p] == '\'' && s[p + 1] in "{}#"
    ensures r.Some? ==> s[r.value] == '\''
    ensures !(p + 2 <= |s| && s[p] == '\'' && s[p + 1] in "{}#") ==> r.None?
  {
    if p + 2 <= |s| && s[p] == '\'' && s[p + 1] in "{}#" then ClosingQuote(s, p + 2)
    else None
  }

  /** A match holds no quote and no line break between its delimiters. */
  lemma LiteralAtSome(s: string, p: nat)
    requires p <= |s|
    ensures LiteralAt(s, p).Some? ==>
              forall k :: p + 2 <= k < LiteralAt(s, p).value ==> s[k] != '\'' && s[k] != '\n'
  {
    if p + 2 <= |s| {
      ClosingQuoteSome(s, p + 2);
    }
  }

  /** When the search fails, every later `'` has a line break before it. */
  lemma {:induction false} ClosingQuoteNone(s: string, j: nat)
    requires j <= |s|
    ensures ClosingQuote(s, j).None? ==>
              forall k :: j <= k < |s| && s[k] == '\'' ==> exists m :: j <= m < k && s[m] == '\n'
    decreases |s| - j
  {
    if j < |s| && s[j] != '\'' && s[j] != '\n' {
      ClosingQuoteNone(s, j + 1);
    }
  }

  /** An opening quote followed by `{`, `}` or `#` with no match: every
      later `'` has a line break before it. */
  lemma LiteralAtNone(s: string, p: nat)
    requires p <= |s|
    ensures LiteralAt(s, p).None? && p + 2 <= |s| && s[p] == '\'' && s[p + 1] in "{}#" ==>
              forall k :: p + 2 <= k < |s| && s[k] == '\'' ==> exists m :: p + 2 <= m < k && s[m] == '\n'
  {
    if p + 2 <= |s| {
      ClosingQuoteNone(s, p + 2);
    }
  }

  /** LITERAL_RE pass from `p` on, `out` being the text produced so far: each
      leftmost match becomes a token whose entry is the captured text. */
  function SpanPass(s: string, p: nat, out: string, lits: seq<string>): (string, seq<string>)
    requires p <= |s|
    decreases |s| - p
  {
    if p == |s| then (out, lits)
    else match LiteralAt(s, p)
      case Some(q) => SpanPass(s, q + 1, out + Placeholder(|lits|), lits + [s[p + 1..q]])
      case None => SpanPass(s, p + 1, out + [s[p]], lits)
  }

  /** What `insert_placeholders` returns, with the table after it. */
  function Protect(s: string, lits: seq<string>): (string, seq<string>) {
    var (s1, lits1) := QuotePass(s, lits);
    SpanPass(s1, 0, "", lits1)
  }

  /** A quoted span's entry: it opens with `{`, `}` or `#` and holds no
      quote and no line break. */
  predicate SpanEntry(e: string) {
    |e| > 0 && e[0] in "{}#" && '\'' !in e && '\n' !in e
  }

  /** The table only grows, and every entry the span pass adds is a quoted
      span's entry. */
  lemma {:induction false} SpanPassEntries(s: string, p: nat, out: string, lits: seq<string>)
    requires p <= |s|
    ensures var (_, lits') := SpanPass(s, p, out, lits);
      && |lits| <= |lits'| && lits'[..|lits|] == lits
      && forall k :: |lits| <= k < |lits'| ==> SpanEntry(lits'[k])
    decreases |s| - p
  {
    if p < |s| {
      match LiteralAt(s, p)
      case Some(q) =>
        var e := s[p + 1..q];
        LiteralEntry(s, p, q);
        SpanPassEntries(s, q + 1, out + Placeholder(|lits|), lits + [e]);
        EntriesGrow(lits, e, SpanPass(s, q + 1, out + Placeholder(|lits|), lits + [e]).1);
      case None =>
        SpanPassEntries(s, p + 1, out + [s[p]], lits);
    }
  }

  /** The text between a span's quotes is a span entry. */
  lemma LiteralEntry(s: string, p: nat, q: nat)
    requires p <= |s| && LiteralAt(s, p) == Some(q)
    ensures SpanEntry(s[p + 1..q])
  {
    LiteralAtSome(s, p);
    var e := s[p + 1..q];
    assert e[0] == s[p + 1];
    forall k | 0 <= k < |e|
      ensures e[k] != '\'' && e[k] != '\n'
    {
      assert e[k] == s[p + 1 + k];
    }
  }

  /** A table that starts with `lits + [e]` and adds only span entries
      starts with `lits` and adds only span entries after it. */
  lemma EntriesGrow(lits: seq<string>, e: string, big: seq<string>)
    requires SpanEntry(e) && |lits| + 1 <= |big| && big[..|lits| + 1] == lits + [e]
    requires forall k :: |lits| + 1 <= k < |big| ==> SpanEntry(big[k])
    ensures big[..|lits|] == lits
    ensures forall k :: |lits| <= k < |big| ==> SpanEntry(big[k])
  {
    assert big[..|lits|] == big[..|lits| + 1][..|lits|];
    assert big[|lits|] == big[..|lits| + 1][|lits|];
  }


  /** A text with no quote is left as it is by the span pass, and adds nothing. */
  lemma {:induction false} SpanPassNoQuote(s: string, p: nat, out: string, lits: seq<string>)
    requires p <= |s|
    requires forall k :: p <= k < |s| ==> s[k] != '\''
    ensures SpanPass(s, p, out, lits) == (out + s[p..], lits)
    decreases |s| - p
  {
    if p < |s| {
      assert LiteralAt(s, p).None?;
      SpanPassNoQuote(s, p + 1, out + [s[p]], lits);
      assert out + [s[p]] + s[p + 1..] == out + s[p..];
    } else {
      assert out + s[p..] == out;
    }
  }

  /** Every `''` match gets the next token, and its entry is a single `'`. */
  lemma QuotePassEntries(s: string, lits: seq<string>)
    ensures var (_, lits') := QuotePass(s, lits);
      && |lits'| == |lits| + |MatchIndices(s, "''")|
      && lits'[..|lits|] == lits
      && forall k :: |lits| <= k < |lits'| ==> lits'[k] == "'"
    ensures forall i, p, t :: QuoteTokens(|lits|)(i, p, t) == Placeholder(|lits| + i)
  {
    QuotePassReplaces(s, lits);
    var (_, lits') := QuotePass(s, lits);
    assert lits'[..|lits|] == lits;
    forall k | |lits| <= k < |lits'| ensures lits'[k] == "'" {
      assert lits'[k] == Apostrophes(|MatchIndices(s, "''")|)[k - |lits|];
    }
  }

  // ---------------------------------------------------------------------
  // Choice blocks

  datatype ChoiceKind = SelectKind | PluralKind | OrdinalKind

  const LogicError: string := "logic error"
  const UnwrapNone: string := "called `Option::unwrap()` on a `None` value"
  const OffsetOverflow: string :=
    "called `Result::unwrap()` on an `Err` value: ParseIntError { kind: PosOverflow }"
  const ExpectedBlockType: string := "expected block type"
  const UnknownBlockType: string := "unknown block type for pattern "
  /** The offset is parsed into an `i32`. */
  const MaxI32: int := 0x7FFF_FFFF

  function MissingValue(kind: ChoiceKind): string {
    match kind
    case SelectKind => "missing or invalid select value element"
    case PluralKind => "missing or invalid plural element"
    case OrdinalKind => "missing or invalid ordinal value element"
  }

  function MissingOther(kind: ChoiceKind): string {
    match kind
    case SelectKind => "missing other key in select statement"
    case PluralKind => "missing other key in plural statement"
    case OrdinalKind => "missing other key in ordinal statement"
  }

  /** Select keys lose all whitespace (WHITESPACES_RE); plural and ordinal
      keys are rewritten by KV_RE, which drops the whitespace around a word
      and an `=` before it. */
  function CleanKey(kind: ChoiceKind, text: string): string {
    if kind == SelectKind then Syntax.RemoveWhitespace(text) else Syntax.KvReplace(text)
  }

  /** What the header expression of a choice block yields: the argument
      name, the offset (0 where there is none) and where the header ends. */
  datatype ChoiceHeader = ChoiceHeader(name: string, offset: nat, end: nat)

  /** The header of a choice block, or the panic of a block without one
      (`expect("logic error")` for select, `unwrap()` for the others) or of
      an offset beyond `i32`. */
  function MatchHeader(kind: ChoiceKind, v: string): (r: Outcome<ChoiceHeader>)
    ensures r.Ok? ==> 0 < r.value.end <= |v| && r.value.offset <= MaxI32
  {
    match kind
    case SelectKind =>
      (match Syntax.MatchChoiceHeader(v, "select")
       case None => Panic(LogicError)
       case Some(h) => Ok(ChoiceHeader(h.name, 0, h.end)))
    case OrdinalKind =>
      (match Syntax.MatchChoiceHeader(v, "selectordinal")
       case None => Panic(UnwrapNone)
       case Some(h) => Ok(ChoiceHeader(h.name, 0, h.end)))
    case PluralKind =>
      match Syntax.MatchPluralHeader(v)
      case None => Panic(UnwrapNone)
      case Some(h) =>
        var offset := if h.offset.Some? then DigitsValue(h.offset.value) else 0;
        if offset > MaxI32 then Panic(OffsetOverflow) else Ok(ChoiceHeader(h.name, offset, h.end))
  }

  /** The header of each kind: select and ordinal blocks panic without
      their header, a plural block also when its offset exceeds `i32`; the
      offset is the header's digits, and 0 when there are none or for an
      ordinal block. */
  lemma MatchHeaderCases(kind: ChoiceKind, v: string)
    ensures var r := MatchHeader(kind, v);
      && (r.Ok? ==> |r.value.name| > 0)
      && (kind == SelectKind ==>
            (r.Ok? <==> Syntax.MatchChoiceHeader(v, "select").Some?) && (r.Panic? ==> r.message == LogicError)
            && (r.Ok? ==> r.value.offset == 0))
      && (kind == OrdinalKind ==>
            (r.Ok? <==> Syntax.MatchChoiceHeader(v, "selectordinal").Some?) && (r.Panic? ==> r.message == UnwrapNone)
            && (r.Ok? ==> r.value.offset == 0))
      && (kind == PluralKind ==> match Syntax.MatchPluralHeader(v)
            case None => r == Panic(UnwrapNone)
            case Some(h) =>
              var offset := if h.offset.Some? then DigitsValue(h.offset.value) else 0;
              if offset > MaxI32 then r == Panic(OffsetOverflow)
              else r.Ok? && r.value.offset == offset && r.value.name == h.name)
  {
  }

  /** The entries stored before any option is read: the argument name
      under `argumentName` and, for plural and ordinal blocks, the offset's
      decimal text under `argumentOffset`. No `other` yet, so the check that
      follows the options always depends on the user's keys. */
  function Reserved(kind: ChoiceKind, h: ChoiceHeader): (r: seq<Branch>)
    ensures TableComplete(kind, r)
    ensures |r| == if kind == SelectKind then 1 else 2
    ensures Lookup(r, Str(ArgumentName)) == Some([Text(h.name)])
    ensures kind != SelectKind ==> Lookup(r, Str(ArgumentOffset)) == Some([Text(NatToString(h.offset))])
    ensures kind != SelectKind ==> ParseSignedDigits(NatToString(h.offset)) == Some(h.offset)
    ensures Lookup(r, Other).None?
  {
    assert Complete([Text(h.name)]);
    assert Complete([Text(NatToString(h.offset))]);
    ParseSignedDigitsOfIntToString(h.offset);
    [Branch(Str(ArgumentName), [Text(h.name)])]
    + (if kind == SelectKind then [] else [Branch(Str(ArgumentOffset), [Text(NatToString(h.offset))])])
  }

  /** The reserved entries of a plural or ordinal table: name, then offset. */
  lemma ReservedChoice(kind: ChoiceKind, h: ChoiceHeader)
    requires kind != SelectKind
    ensures Reserved(kind, h) == [Branch(Str(ArgumentName), [Text(h.name)]),
                                  Branch(Str(ArgumentOffset), [Text(NatToString(h.offset))])]
  {
  }

  /** Every block part is shorter than `bound`. */
  predicate Shorter(parts: seq<Part>, bound: nat) {
    forall k :: 0 <= k < |parts| && parts[k].BlockPart? ==> |parts[k].value| < bound
  }

  /** The parts of a text are shorter than it. */
  lemma TokenizeShorter(s: string)
    ensures Tokenize(s).Ok? ==> Shorter(Tokenize(s).value, |s|)
  {
    TokenizeParts(s);
  }

  // ---------------------------------------------------------------------
  // Compilation, as functions. The second and third components of each
  // `decreases` order the mutually recursive calls on texts of one length.

  /** What `parse_block` returns. */
  function CompileBlock(s: string): Outcome<seq<Block>>
    decreases |s|, 3, 0
  {
    TokenizeShorter(s);
    match Tokenize(s)
    case Panic(m) => Panic(m)
    case Ok(parts) => CompileParts(|s|, parts, 0, [])
  }

  /** The loop of `parse_block` from part `i` on. */
  function CompileParts(bound: nat, parts: seq<Part>, i: nat, acc: seq<Block>): Outcome<seq<Block>>
    requires i <= |parts| && Shorter(parts, bound)
    decreases bound, 2, |parts| - i
  {
    if i == |parts| then Ok(acc)
    else match parts[i]
      case StringPart(t) => CompileParts(bound, parts, i + 1, acc + [Text(t)])
      case BlockPart(v) =>
        match ClassifyBlock(v)
        case Panic(m) => Panic(m)
        case Ok(b) => CompileParts(bound, parts, i + 1, acc + [b])
  }

  /** The block a `{...}` part compiles to, by its `parse_block_type`. */
  function ClassifyBlock(v: string): Outcome<Block>
    decreases |v|, 5, 0
  {
    var t := Syntax.ParseBlockType(v);
    if t.Select? then
      match ParseChoice(SelectKind, v) case Panic(m) => Panic(m) case Ok(o) => Ok(Select(o))
    else if t.Plural? then
      match ParseChoice(PluralKind, v) case Panic(m) => Panic(m) case Ok(o) => Ok(Plural(o))
    else if t.Ordinal? then
      match ParseChoice(OrdinalKind, v) case Panic(m) => Panic(m) case Ok(o) => Ok(Ordinal(o))
    else if t.Simple? then Ok(Simple(v))
    else Panic(UnknownBlockType + v)
  }

  /** What `parse_select_block`, `parse_plural_block` and
      `parse_ordinal_block` return. */
  function ParseChoice(kind: ChoiceKind, v: string): Outcome<seq<Branch>>
    decreases |v|, 4, 0
  {
    match MatchHeader(kind, v)
    case Panic(m) => Panic(m)
    case Ok(h) => ChoiceBody(kind, |v|, v[h.end..], Reserved(kind, h))
  }

  /** A choice block after its header: the options are read into the table
      holding the reserved entries, and `other` must be among them. */
  function ChoiceBody(kind: ChoiceKind, bound: nat, rest: string, init: seq<Branch>): Outcome<seq<Branch>>
    requires |rest| <= bound
    decreases bound, 3, 1
  {
    TokenizeShorter(rest);
    match Tokenize(rest)
    case Panic(m) => Panic(m)
    case Ok(parts) => RequireOther(kind, ParseOptions(kind, bound, parts, 0, init))
  }

  /** The closing `assert!(result.contains_key(OTHER), ...)`. */
  function RequireOther(kind: ChoiceKind, o: Outcome<seq<Branch>>): (r: Outcome<seq<Branch>>)
    ensures r.Ok? <==> o.Ok? && IndexOf(o.value, Other).Some?
    ensures r.Ok? ==> r == o
    ensures r.Panic? ==> r.message == if o.Panic? then o.message else MissingOther(kind)
  {
    match o
    case Panic(m) => Panic(m)
    case Ok(options) => if IndexOf(options, Other).None? then Panic(MissingOther(kind)) else o
  }

  /** The `(key block)+` loop of the choice parsers from part `pos` on. */
  function ParseOptions(kind: ChoiceKind, bound: nat, parts: seq<Part>, pos: nat, acc: seq<Branch>)
    : Outcome<seq<Branch>>
    requires pos <= |parts| && Shorter(parts, bound)
    decreases bound, 1, |parts| - pos
  {
    if pos == |parts| then Ok(acc)
    else if pos + 1 == |parts| then Panic(MissingValue(kind))
    else match parts[pos + 1]
      case StringPart(_) => Panic(ExpectedBlockType)
      case BlockPart(w) =>
        match CompileBlock(w)
        case Panic(m) => Panic(m)
        case Ok(body) =>
          ParseOptions(kind, bound, parts, pos + 2, Insert(acc, KeyOf(CleanKey(kind, parts[pos].value)), body))
  }

  /** One step of the `parse_block` loop. */
  lemma CompilePartsNext(bound: nat, parts: seq<Part>, i: nat, acc: seq<Block>)
    requires i < |parts| && Shorter(parts, bound)
    ensures parts[i].StringPart? ==>
      CompileParts(bound, parts, i, acc) == CompileParts(bound, parts, i + 1, acc + [Text(parts[i].value)])
    ensures parts[i].BlockPart? && ClassifyBlock(parts[i].value).Panic? ==>
      CompileParts(bound, parts, i, acc) == Panic(ClassifyBlock(parts[i].value).message)
    ensures parts[i].BlockPart? && ClassifyBlock(parts[i].value).Ok? ==>
      CompileParts(bound, parts, i, acc) == CompileParts(bound, parts, i + 1, acc + [ClassifyBlock(parts[i].value).value])
  {
  }

  /** One pair of the choice loop. */
  lemma ParseOptionsNext(kind: ChoiceKind, bound: nat, parts: seq<Part>, pos: nat, acc: seq<Branch>)
    requires pos < |parts| && Shorter(parts, bound)
    ensures pos + 1 == |parts| ==> ParseOptions(kind, bound, parts, pos, acc) == Panic(MissingValue(kind))
    ensures pos + 1 < |parts| && parts[pos + 1].StringPart? ==>
      ParseOptions(kind, bound, parts, pos, acc) == Panic(ExpectedBlockType)
    ensures pos + 1 < |parts| && parts[pos + 1].BlockPart? && CompileBlock(parts[pos + 1].value).Panic? ==>
      ParseOptions(kind, bound, parts, pos, acc) == Panic(CompileBlock(parts[pos + 1].value).message)
    ensures pos + 1 < |parts| && parts[pos + 1].BlockPart? && CompileBlock(parts[pos + 1].value).Ok? ==>
      ParseOptions(kind, bound, parts, pos, acc)
      == ParseOptions(kind, bound, parts, pos + 2,
                      Insert(acc, KeyOf(CleanKey(kind, parts[pos].value)), CompileBlock(parts[pos + 1].value).value))
  {
  }

  /** A successful step of the options loop reads a key and a block. */
  lemma ParseOptionsOkStep(kind: ChoiceKind, bound: nat, parts: seq<Part>, pos: nat, acc: seq<Branch>)
    requires pos < |parts| && Shorter(parts, bound)
    requires ParseOptions(kind, bound, parts, pos, acc).Ok?
    ensures pos + 1 < |parts| && parts[pos + 1].BlockPart? && CompileBlock(parts[pos + 1].value).Ok?
    ensures ParseOptions(kind, bound, parts, pos, acc)
      == ParseOptions(kind, bound, parts, pos + 2,
                      Insert(acc, KeyOf(CleanKey(kind, parts[pos].value)), CompileBlock(parts[pos + 1].value).value))
  {
  }

  // ---------------------------------------------------------------------
  // Properties of compiled patterns

  /** Every choice node of a tree has an `other` option, unique keys, and
      complete bodies. */
  predicate Complete(blocks: seq<Block>)
    decreases blocks
  {
    forall k :: 0 <= k < |blocks| ==> BlockComplete(blocks[k])
  }

  predicate BlockComplete(b: Block)
    decreases b
  {
    match b
    case Text(_) => true
    case Simple(_) => true
    case Select(o) => OptionsComplete(o)
    case Plural(o) => OptionsComplete(o)
    case Ordinal(o) => OptionsComplete(o)
  }

  predicate OptionsComplete(options: seq<Branch>)
    decreases options
  {
    && IndexOf(options, Other).Some?
    && UniqueKeys(options)
    && forall k :: 0 <= k < |options| ==> Complete(options[k].body)
  }

  /** The reserved entries keep their places at the head of the table (a
      user key can overwrite their bodies, not move them). */
  predicate ReservedHead(kind: ChoiceKind, options: seq<Branch>) {
    && |options| >= 1 && options[0].key == Str(ArgumentName)
    && (kind != SelectKind ==> |options| >= 2 && options[1].key == Str(ArgumentOffset))
  }

  /** Whatever compiles, compiles to a complete tree. */
  lemma {:induction false} CompileBlockComplete(s: string)
    ensures CompileBlock(s).Ok? ==> Complete(CompileBlock(s).value)
    decreases |s|, 3, 0
  {
    TokenizeShorter(s);
    if Tokenize(s).Ok? {
      CompilePartsComplete(|s|, Tokenize(s).value, 0, []);
    }
  }

  lemma {:induction false} CompilePartsComplete(bound: nat, parts: seq<Part>, i: nat, acc: seq<Block>)
    requires i <= |parts| && Shorter(parts, bound)
    requires Complete(acc)
    ensures CompileParts(bound, parts, i, acc).Ok? ==> Complete(CompileParts(bound, parts, i, acc).value)
    decreases bound, 2, |parts| - i
  {
    if i < |parts| {
      match parts[i]
      case StringPart(t) =>
        assert Complete(acc + [Text(t)]) by {
          assert forall k :: 0 <= k < |acc| ==> (acc + [Text(t)])[k] == acc[k];
        }
        CompilePartsComplete(bound, parts, i + 1, acc + [Text(t)]);
      case BlockPart(v) =>
        ClassifyComplete(v);
        if ClassifyBlock(v).Ok? {
          var b := ClassifyBlock(v).value;
          assert Complete(acc + [b]) by {
            assert forall k :: 0 <= k < |acc| ==> (acc + [b])[k] == acc[k];
          }
          CompilePartsComplete(bound, parts, i + 1, acc + [b]);
        }
    }
  }

  lemma {:induction false} ClassifyComplete(v: string)
    ensures ClassifyBlock(v).Ok? ==> BlockComplete(ClassifyBlock(v).value)
    decreases |v|, 5, 0
  {
    ParseChoiceComplete(SelectKind, v);
    ParseChoiceComplete(PluralKind, v);
    ParseChoiceComplete(OrdinalKind, v);
  }

  /** A table being built: unique keys, reserved entries at the head, and
      complete bodies. */
  predicate TableComplete(kind: ChoiceKind, acc: seq<Branch>) {
    && UniqueKeys(acc) && ReservedHead(kind, acc)
    && forall k :: 0 <= k < |acc| ==> Complete(acc[k].body)
  }

  /** A choice block that compiles has `other`, unique keys, its reserved
      entries at the head, a header, and complete bodies. */
  lemma {:induction false} ParseChoiceComplete(kind: ChoiceKind, v: string)
    ensures ParseChoice(kind, v).Ok? ==>
      && MatchHeader(kind, v).Ok?
      && OptionsComplete(ParseChoice(kind, v).value)
      && ReservedHead(kind, ParseChoice(kind, v).value)
    decreases |v|, 4, 0
  {
    if MatchHeader(kind, v).Ok? {
      var h := MatchHeader(kind, v).value;
      var rest := v[h.end..];
      TokenizeShorter(rest);
      assert ParseChoice(kind, v) == ChoiceBody(kind, |v|, rest, Reserved(kind, h));
      if Tokenize(rest).Ok? {
        ParseOptionsComplete(kind, |v|, Tokenize(rest).value, 0, Reserved(kind, h));
      }
    }
  }

  /** Inserting a complete body keeps a table complete. */
  lemma InsertComplete(kind: ChoiceKind, acc: seq<Branch>, key: ParamValue, body: seq<Block>)
    requires TableComplete(kind, acc) && Complete(body)
    ensures TableComplete(kind, Insert(acc, key, body))
  {
  }

  /** One pair of the choice loop keeps the table complete. */
  lemma ParseOptionsCompleteStep(kind: ChoiceKind, bound: nat, parts: seq<Part>, pos: nat, acc: seq<Branch>)
    returns (acc': seq<Branch>)
    requires pos < |parts| && Shorter(parts, bound)
    requires TableComplete(kind, acc) && ParseOptions(kind, bound, parts, pos, acc).Ok?
    ensures pos + 1 < |parts| && parts[pos + 1].BlockPart? && CompileBlock(parts[pos + 1].value).Ok?
    ensures acc' == Insert(acc, KeyOf(CleanKey(kind, parts[pos].value)), CompileBlock(parts[pos + 1].value).value)
    ensures TableComplete(kind, acc') && ParseOptions(kind, bound, parts, pos, acc) == ParseOptions(kind, bound, parts, pos + 2, acc')
    decreases bound, 1, |parts| - pos
  {
    ParseOptionsOkStep(kind, bound, parts, pos, acc);
    var w := parts[pos + 1].value;
    CompileBlockComplete(w);
    acc' := Insert(acc, KeyOf(CleanKey(kind, parts[pos].value)), CompileBlock(w).value);
    InsertComplete(kind, acc, KeyOf(CleanKey(kind, parts[pos].value)), CompileBlock(w).value);
  }

  lemma {:induction false} ParseOptionsComplete(kind: ChoiceKind, bound: nat, parts: seq<Part>, pos: nat, acc: seq<Branch>)
    requires pos <= |parts| && Shorter(parts, bound)
    requires TableComplete(kind, acc)
    ensures ParseOptions(kind, bound, parts, pos, acc).Ok? ==>
      TableComplete(kind, ParseOptions(kind, bound, parts, pos, acc).value)
    decreases bound, 1, |parts| - pos + 2
  {
    if pos == |parts| {
      assert ParseOptions(kind, bound, parts, pos, acc) == Ok(acc);
    } else {
      ParseOptionsCompleteNext(kind, bound, parts, pos, acc);
    }
  }

  /** `ParseOptionsComplete` from a part that is not the last. */
  lemma {:induction false} ParseOptionsCompleteNext(kind: ChoiceKind, bound: nat, parts: seq<Part>, pos: nat, acc: seq<Branch>)
    requires pos < |parts| && Shorter(parts, bound)
    requires TableComplete(kind, acc)
    ensures ParseOptions(kind, bound, parts, pos, acc).Ok? ==>
      TableComplete(kind, ParseOptions(kind, bound, parts, pos, acc).value)
    decreases bound, 1, |parts| - pos + 1
  {
    if ParseOptions(kind, bound, parts, pos, acc).Ok? {
      var acc' := ParseOptionsCompleteStep(kind, bound, parts, pos, acc);
      ParseOptionsComplete(kind, bound, parts, pos + 2, acc');
    }
  }

  /** A block part of unknown type makes compilation panic with its text. */
  lemma ClassifyUnknown(v: string)
    requires !Syntax.StartsWithWord(v)
    ensures ClassifyBlock(v) == Panic(UnknownBlockType + v)
  {
  }

  /** `"{name}"`: as written, `parse_block` meets the block part `{name`
      first and panics on it (with the part start moved past each brace the
      pattern compiles to one simple placeholder: SimplePatternCompiles). */
  lemma AsWrittenSimplePanics()
    ensures TokenizeAsWritten("{name}") == Ok([BlockPart("{name"), StringPart("{name}")])
    ensures CompileParts(6, [BlockPart("{name"), StringPart("{name}")], 0, []) == Panic(UnknownBlockType + "{name")
  {
    BraceFirstAsWritten();
    var v := "{name";
    assert v[0] == '{';
    assert Syntax.SkipWhitespace(v, 0) == 0;
    ClassifyUnknown(v);
  }

  /** `"{name}"` compiles to the simple placeholder `name`. */
  lemma SimplePatternCompiles()
    ensures CompileBlock("{name}") == Ok([Simple("name")])
  {
    var n := "name";
    BraceFirstIntended();
    NameIsSimple();
    assert [] + [Simple(n)] == [Simple(n)];
    assert CompileParts(6, [BlockPart(n)], 1, [Simple(n)]) == Ok([Simple(n)]);
  }

  /** The block `name` is a simple placeholder. */
  lemma NameIsSimple()
    ensures ClassifyBlock("name") == Ok(Simple("name"))
  {
    var n := "name";
    assert n[0] == 'n' && n[1] == 'a' && n[2] == 'm' && n[3] == 'e';
    assert Syntax.SkipWhitespace(n, 0) == 0 && Syntax.SkipWhitespace(n, 4) == 4;
    Syntax.SkipWordOver(n, 0, 4);
    assert Syntax.KeywordStart(n).None?;
    assert Syntax.StartsWithWord(n);
    assert Syntax.ParseBlockType(n) == Syntax.Simple;
  }

  // ---------------------------------------------------------------------
  // The compiler object

  class MessageFormat {
    var pattern: Option<string>
    var initialLiterals: seq<string>
    var parsedPattern: Option<seq<Block>>

    /** `MessageFormat::new`. */
    constructor (pattern: string)
      ensures this.pattern == Some(pattern) && initialLiterals == [] && parsedPattern == None
    {
      this.pattern := Some(pattern);
      initialLiterals := [];
      parsedPattern := None;
    }

    /** `build_placeholder`: the text becomes the next table entry, and the
        token names its index. */
    method BuildPlaceholder(text: string) returns (token: string)
      modifies this
      ensures initialLiterals == old(initialLiterals) + [text]
      ensures token == Placeholder(|old(initialLiterals)|)
      ensures pattern == old(pattern) && parsedPattern == old(parsedPattern)
    {
      var idx := |initialLiterals|;
      initialLiterals := initialLiterals + [text];
      token := Placeholder(idx);
    }

    /** `insert_placeholders`: first every `''`, then every quoted span. */
    method InsertPlaceholders(s: string) returns (r: string)
      modifies this
      ensures (r, initialLiterals) == Protect(s, old(initialLiterals))
      ensures pattern == old(pattern) && parsedPattern == old(parsedPattern)
    {
      var quoted := ReplaceDoubleApostrophes(s);
      r := ReplaceQuotedSpans(quoted);
    }

    /** `DOUBLE_APOSTROPHE_RE.replace_all(&pattern, |_| self.build_placeholder("'"))`. */
    method ReplaceDoubleApostrophes(s: string) returns (r: string)
      modifies this
      ensures (r, initialLiterals) == QuotePass(s, old(initialLiterals))
      ensures pattern == old(pattern) && parsedPattern == old(parsedPattern)
    {
      var matches := MatchIndices(s, "''");
      ghost var target := QuoteFrom(s, matches, 0, "", initialLiterals);
      assert matches[0..] == matches;
      r := "";
      var lastpos: nat := 0;
      for idx := 0 to |matches|
        invariant Ordered(matches[idx..], 2, lastpos, |s|)
        invariant QuoteFrom(s, matches[idx..], lastpos, r, initialLiterals) == target
        invariant pattern == old(pattern) && parsedPattern == old(parsedPattern)
      {
        var pos := matches[idx];
        QuoteFromNext(s, matches, idx, lastpos, r, initialLiterals);
        var token := BuildPlaceholder("'");
        r := r + s[lastpos..pos] + token;
        lastpos := pos + 2;
      }
      assert matches[|matches|..] == [];
      r := r + s[lastpos..];
    }

    /** `LITERAL_RE.replace_all(&pattern, |caps| self.build_placeholder(&caps[1]))`. */
    method ReplaceQuotedSpans(s: string) returns (r: string)
      modifies this
      ensures (r, initialLiterals) == SpanPass(s, 0, "", old(initialLiterals))
      ensures pattern == old(pattern) && parsedPattern == old(parsedPattern)
    {
      r := "";
      var p := 0;
      while p < |s|
        invariant p <= |s|
        invariant SpanPass(s, p, r, initialLiterals) == SpanPass(s, 0, "", old(initialLiterals))
        invariant pattern == old(pattern) && parsedPattern == old(parsedPattern)
        decreases |s| - p
      {
        match LiteralAt(s, p) {
        case Some(q) =>
          var token := BuildPlaceholder(s[p + 1..q]);
          r := r + token;
          p := q + 1;
        case None =>
          r := r + [s[p]];
          p := p + 1;
        }
      }
    }

    /** `parse_block`. */
    method ParseBlock(pattern: string) returns (r: Outcome<seq<Block>>)
      ensures r == CompileBlock(pattern)
      decreases |pattern|, 3, 0
    {
      var parts := ExtractParts(pattern);
      if parts.Panic? {
        return Panic(parts.message);
      }
      TokenizeShorter(pattern);
      var ps := parts.value;
      var result: seq<Block> := [];
      for i := 0 to |ps|
        invariant CompileParts(|pattern|, ps, i, result) == CompileBlock(pattern)
      {
        CompilePartsNext(|pattern|, ps, i, result);
        var block: Block;
        match ps[i] {
        case StringPart(t) =>
          block := Text(t);
        case BlockPart(v) =>
          var t := Syntax.ParseBlockType(v);
          if t.Select? {
            var o := ParseSelectBlock(v);
            if o.Panic? {
              return Panic(o.message);
            }
            block := Select(o.value);
          } else if t.Plural? {
            var o := ParsePluralBlock(v);
            if o.Panic? {
              return Panic(o.message);
            }
            block := Plural(o.value);
          } else if t.Ordinal? {
            var o := ParseOrdinalBlock(v);
            if o.Panic? {
              return Panic(o.message);
            }
            block := Ordinal(o.value);
          } else if t.Simple? {
            block := Simple(v);
          } else {
            return Panic(UnknownBlockType + v);
          }
        }
        result := result + [block];
      }
      return Ok(result);
    }

    /** The `(key block)+` loop the three choice parsers share. */
    method ReadOptions(kind: ChoiceKind, bound: nat, parts: seq<Part>, initial: seq<Branch>)
      returns (r: Outcome<seq<Branch>>)
      requires Shorter(parts, bound)
      ensures r == ParseOptions(kind, bound, parts, 0, initial)
      decreases bound, 2, 0
    {
      var result := initial;
      var pos := 0;
      while pos < |parts|
        invariant pos <= |parts|
        invariant ParseOptions(kind, bound, parts, pos, result) == ParseOptions(kind, bound, parts, 0, initial)
        decreases |parts| - pos
      {
        ParseOptionsNext(kind, bound, parts, pos, result);
        var key := parts[pos].value;
        pos := pos + 1;
        if pos >= |parts| {
          return Panic(MissingValue(kind));
        }
        var value: seq<Block>;
        match parts[pos] {
        case StringPart(_) =>
          return Panic(ExpectedBlockType);
        case BlockPart(w) =>
          var sub := ParseBlock(w);
          if sub.Panic? {
            return Panic(sub.message);
          }
          value := sub.value;
        }
        result := Insert(result, KeyOf(CleanKey(kind, key)), value);
        pos := pos + 1;
      }
      return Ok(result);
    }

    /** What the three choice parsers do after the header: `extract_parts`
        on the rest, the pair loop, and the `other` check. */
    method ParseChoiceBody(kind: ChoiceKind, bound: nat, rest: string, init: seq<Branch>)
      returns (r: Outcome<seq<Branch>>)
      requires |rest| <= bound
      ensures r == ChoiceBody(kind, bound, rest, init)
      decreases bound, 3, 1
    {
      var parts := ExtractParts(rest);
      if parts.Panic? {
        return Panic(parts.message);
      }
      TokenizeShorter(rest);
      r := ReadOptions(kind, bound, parts.value, init);
      if r.Ok? && IndexOf(r.value, Other).None? {
        r := Panic(MissingOther(kind));
      }
    }

    /** `parse_select_block`. */
    method ParseSelectBlock(pattern: string) returns (r: Outcome<seq<Branch>>)
      ensures r == ParseChoice(SelectKind, pattern)
      decreases |pattern|, 4, 0
    {
      var header := Syntax.MatchChoiceHeader(pattern, "select");
      if header.None? {
        return Panic(LogicError);
      }
      var result := [Branch(Str(ArgumentName), [Text(header.value.name)])];
      ghost var h := ChoiceHeader(header.value.name, 0, header.value.end);
      assert MatchHeader(SelectKind, pattern) == Ok(h);
      assert Reserved(SelectKind, h) == result;
      r := ParseChoiceBody(SelectKind, |pattern|, pattern[header.value.end..], result);
    }

    /** `parse_plural_block`. */
    method ParsePluralBlock(pattern: string) returns (r: Outcome<seq<Branch>>)
      ensures r == ParseChoice(PluralKind, pattern)
      decreases |pattern|, 4, 0
    {
      var header := Syntax.MatchPluralHeader(pattern);
      if header.None? {
        return Panic(UnwrapNone);
      }
      var offset: nat := 0;
      if header.value.offset.Some? {
        offset := DigitsValue(header.value.offset.value);
        if offset > MaxI32 {
          return Panic(OffsetOverflow);
        }
      }
      var result := [Branch(Str(ArgumentName), [Text(header.value.name)]),
                     Branch(Str(ArgumentOffset), [Text(NatToString(offset))])];
      ghost var h := ChoiceHeader(header.value.name, offset, header.value.end);
      assert MatchHeader(PluralKind, pattern) == Ok(h);
      ReservedChoice(PluralKind, h);
      r := ParseChoiceBody(PluralKind, |pattern|, pattern[header.value.end..], result);
    }

    /** `parse_ordinal_block`. */
    method ParseOrdinalBlock(pattern: string) returns (r: Outcome<seq<Branch>>)
      ensures r == ParseChoice(OrdinalKind, pattern)
      decreases |pattern|, 4, 0
    {
      var header := Syntax.MatchChoiceHeader(pattern, "selectordinal");
      if header.None? {
        return Panic(UnwrapNone);
      }
      var result := [Branch(Str(ArgumentName), [Text(header.value.name)]),
                     Branch(Str(ArgumentOffset), [Text("0")])];
      assert NatToString(0) == "0";
      ghost var h := ChoiceHeader(header.value.name, 0, header.value.end);
      assert MatchHeader(OrdinalKind, pattern) == Ok(h);
      assert Reserved(OrdinalKind, h) == result;
      r := ParseChoiceBody(OrdinalKind, |pattern|, pattern[header.value.end..], result);
    }

    /** `init`: on first use the pattern is taken, its literals protected
        into a fresh table, and the result compiled. A panic is returned as
        `Panic`; the state it leaves behind is never used. */
    method Init() returns (r: Outcome<()>)
      modifies this
      ensures old(pattern).None? ==>
        r.Ok? && pattern == None && initialLiterals == old(initialLiterals) && parsedPattern == old(parsedPattern)
      ensures old(pattern).Some? ==>
        var (protected, lits) := Protect(old(pattern).value, []);
        && pattern == None && initialLiterals == lits
        && (r.Ok? <==> CompileBlock(protected).Ok?)
        && (r.Ok? ==> parsedPattern == Some(CompileBlock(protected).value))
        && (r.Panic? ==> r.message == CompileBlock(protected).message)
    {
      if pattern.Some? {
        var p := pattern.value;
        pattern := None;
        initialLiterals := [];
        var protected := InsertPlaceholders(p);
        var blocks := ParseBlock(protected);
        if blocks.Panic? {
          return Panic(blocks.message);
        }
        parsedPattern := Some(blocks.value);
      }
      return Ok(());
    }
  }
}
