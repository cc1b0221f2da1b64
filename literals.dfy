/** What `insert_placeholders` (src/lib.rs) and the restoring loop of
    `format` (src/format.rs) do together: a pattern's escapes are read by
    `Unescape`, defined here on the pattern itself, without tokens or a
    table, and protecting then restoring a pattern gives exactly that. */
module Literals {
  import opened Wrappers
  import opened Digits
  import opened StrExt
  import Compiler
  import Format

  // ---------------------------------------------------------------------
  // Pieces: a text as characters and tokens

  /** A character of the text, or the token of table entry `idx`. */
  datatype Piece = Chr(c: char) | Tok(idx: nat)

  function SpellOne(x: Piece): string {
    match x
    case Chr(c) => [c]
    case Tok(i) => Compiler.Placeholder(i)
  }

  /** The text the pieces stand for, each token written out. */
  function Spell(ps: seq<Piece>): string {
    if ps == [] then [] else SpellOne(ps[0]) + Spell(ps[1..])
  }

  /** The token indices of `ps`, in order. */
  function TokSeq(ps: seq<Piece>): seq<nat> {
    if ps == [] then []
    else (if ps[0].Tok? then [ps[0].idx] else []) + TokSeq(ps[1..])
  }

  /** No character of `ps` is the token marker, so every marker in its
      spelling belongs to a token. */
  predicate Clean(ps: seq<Piece>) {
    forall k :: 0 <= k < |ps| ==> ps[k] != Chr(Compiler.LiteralMarker)
  }

  /** Every token of `ps` is numbered below `n`. */
  predicate Below(ps: seq<Piece>, n: nat) {
    forall k :: 0 <= k < |ps| && ps[k].Tok? ==> ps[k].idx < n
  }

  lemma {:induction false} SpellAppend(a: seq<Piece>, b: seq<Piece>)
    ensures Spell(a + b) == Spell(a) + Spell(b)
  {
    if a == [] {
      assert a + b == b;
    } else {
      assert (a + b)[0] == a[0] && (a + b)[1..] == a[1..] + b;
      SpellAppend(a[1..], b);
    }
  }

  lemma {:induction false} TokSeqAppend(a: seq<Piece>, b: seq<Piece>)
    ensures TokSeq(a + b) == TokSeq(a) + TokSeq(b)
  {
    if a == [] {
      assert a + b == b;
    } else {
      assert (a + b)[0] == a[0] && (a + b)[1..] == a[1..] + b;
      TokSeqAppend(a[1..], b);
    }
  }

  // ---------------------------------------------------------------------
  // The escapes of a pattern, read directly

  /** A `''` stands at `i`. */
  predicate PairAt(s: string, i: nat) {
    i + 2 <= |s| && s[i] == '\'' && s[i + 1] == '\''
  }

  /** The `''` pairs of a text from `i` on, leftmost first and without
      overlap, as tokens numbered from `k`; every other character stands
      for itself. */
  function Lex(s: string, i: nat, k: nat): seq<Piece>
    requires i <= |s|
    decreases |s| - i
  {
    if i == |s| then []
    else if PairAt(s, i) then [Tok(k)] + Lex(s, i + 2, k + 1)
    else [Chr(s[i])] + Lex(s, i + 1, k)
  }

  /** The lazy `.*?'` of a quoted span over pieces: the index of the first
      `'`, provided no line break comes before it. A `''` token is neither. */
  function Close(ps: seq<Piece>): (r: Option<nat>)
    ensures r.Some? ==> r.value < |ps| && ps[r.value] == Chr('\'')
  {
    if ps == [] then None
    else if ps[0] == Chr('\'') then Some(0)
    else if ps[0] == Chr('\n') then None
    else match Close(ps[1..])
      case None => None
      case Some(e) => Some(e + 1)
  }

  /** A quoted span `'{…'`, `'}…'` or `'#…'` opens `ps`: its closing quote. */
  function SpanAt(ps: seq<Piece>): (r: Option<nat>)
    ensures r.Some? ==> 2 <= r.value < |ps| && ps[r.value] == Chr('\'')
  {
    if |ps| >= 2 && ps[0] == Chr('\'') && ps[1].Chr? && ps[1].c in "{}#" then
      match Close(ps[2..])
      case None => None
      case Some(e) => Some(e + 2)
    else None
  }

  /** Each quoted span, leftmost first, loses its two quotes. */
  function Unquote(ps: seq<Piece>): seq<Piece>
    decreases |ps|
  {
    if ps == [] then []
    else match SpanAt(ps)
      case Some(e) => ps[1..e] + Unquote(ps[e + 1..])
      case None => [ps[0]] + Unquote(ps[1..])
  }

  /** The text with each `''` token written as a single `'`. */
  function Expand(ps: seq<Piece>): string {
    if ps == [] then []
    else (match ps[0] case Chr(c) => [c] case Tok(_) => "'") + Expand(ps[1..])
  }

  /** The text a pattern stands for: each `''` is one `'`, and a quoted
      span opening with `{`, `}` or `#` stands for its content, in which
      `{`, `}` and `#` are plain characters. */
  function Unescape(s: string): string {
    Expand(Unquote(Lex(s, 0, 0)))
  }

  // ---------------------------------------------------------------------
  // The `''` pass spells out the lexed pattern

  /** The text before the next match may be copied before or after a step. */
  lemma {:induction false} QuoteFromCopy(s: string, ms: seq<nat>, last: nat, i: nat, out: string, lits: seq<string>)
    requires last <= i && Ordered(ms, 2, i, |s|)
    ensures Ordered(ms, 2, last, |s|)
    ensures Compiler.QuoteFrom(s, ms, last, out, lits) == Compiler.QuoteFrom(s, ms, i, out + s[last..i], lits)
  {
    if ms == [] {
      assert out + s[last..] == out + s[last..i] + s[i..];
    } else {
      var p := ms[0];
      assert out + s[last..p] + Compiler.Placeholder(|lits|)
          == out + s[last..i] + s[i..p] + Compiler.Placeholder(|lits|);
    }
  }

  /** One step of the match search: a `''` at `i` is the next match. */
  lemma {:induction false} MatchStep(s: string, i: nat)
    requires i < |s|
    ensures PairAt(s, i) ==> MatchIndicesFrom(s, "''", i) == [i] + MatchIndicesFrom(s, "''", i + 2)
    ensures !PairAt(s, i) ==> MatchIndicesFrom(s, "''", i) == MatchIndicesFrom(s, "''", i + 1)
  {
    if PairAt(s, i) {
      assert s[i..i + 2] == "''";
      assert FindFrom(s, "''", i) == Some(i);
    } else {
      assert !OccursAt(s, "''", i) by {
        if i + 2 <= |s| {
          assert s[i..i + 2][0] == s[i] && s[i..i + 2][1] == s[i + 1];
        }
      }
      assert FindFrom(s, "''", i) == FindFrom(s, "''", i + 1);
    }
  }

  lemma {:induction false} SpellCons(x: Piece, t: seq<Piece>)
    ensures Spell([x] + t) == SpellOne(x) + Spell(t)
  {
    assert ([x] + t)[0] == x && ([x] + t)[1..] == t;
  }

  /** The spelling of the lexed text from `i`: a token for a `''`, or the
      character itself, then the spelling of the rest. */
  lemma {:induction false} LexSpell(s: string, i: nat, k: nat)
    requires i < |s|
    ensures PairAt(s, i) ==> Spell(Lex(s, i, k)) == Compiler.Placeholder(k) + Spell(Lex(s, i + 2, k + 1))
    ensures !PairAt(s, i) ==> Spell(Lex(s, i, k)) == [s[i]] + Spell(Lex(s, i + 1, k))
  {
    if PairAt(s, i) {
      SpellCons(Tok(k), Lex(s, i + 2, k + 1));
    } else {
      SpellCons(Chr(s[i]), Lex(s, i + 1, k));
    }
  }

  /** From position `i` on, the `''` pass writes `w`. */
  predicate QuoteTo(s: string, i: nat, out: string, lits: seq<string>, w: string)
    requires i <= |s|
  {
    Compiler.QuoteFrom(s, MatchIndicesFrom(s, "''", i), i, out, lits).0 == w
  }

  /** `QuoteTo` behind `k` unfoldings, so that proofs which only chain steps
      of the pass need not look into it: `Quotes(…, 1)` is `QuoteTo`
      (QuotesMeans). */
  predicate Quotes(s: string, i: nat, out: string, lits: seq<string>, w: string, k: nat)
    requires i <= |s|
    decreases k
  {
    if k == 0 then QuoteTo(s, i, out, lits, w) else Quotes(s, i, out, lits, w, k - 1)
  }

  lemma {:induction false} QuotesMeans(s: string, i: nat, out: string, lits: seq<string>, w: string)
    requires i <= |s|
    ensures Quotes(s, i, out, lits, w, 1) == QuoteTo(s, i, out, lits, w)
  {
    assert Quotes(s, i, out, lits, w, 1) == Quotes(s, i, out, lits, w, 0);
  }

  /** From position `i` on, the `''` pass writes the lexed rest of the text,
      its tokens numbered on from the table's length. */
  lemma {:induction false} QuoteLex(s: string, i: nat, out: string, lits: seq<string>)
    requires i <= |s|
    ensures Compiler.QuoteFrom(s, MatchIndicesFrom(s, "''", i), i, out, lits).0
         == out + Spell(Lex(s, i, |lits|))
  {
    QuoteLexes(s, i, out, lits);
    QuotesMeans(s, i, out, lits, out + Spell(Lex(s, i, |lits|)));
  }

  lemma {:induction false} QuoteLexes(s: string, i: nat, out: string, lits: seq<string>)
    requires i <= |s|
    ensures Quotes(s, i, out, lits, out + Spell(Lex(s, i, |lits|)), 1)
    decreases |s| - i
  {
    if i == |s| {
      QuotesMeans(s, i, out, lits, out + Spell(Lex(s, i, |lits|)));
      assert s[i..] == [];
    } else if PairAt(s, i) {
      QuoteLexes(s, i + 2, out + Compiler.Placeholder(|lits|), lits + ["'"]);
      LexSpell(s, i, |lits|);
      QuoteLexPair(s, i, out, lits, Spell(Lex(s, i, |lits|)), Spell(Lex(s, i + 2, |lits| + 1)));
    } else {
      QuoteLexes(s, i + 1, out + [s[i]], lits);
      LexSpell(s, i, |lits|);
      QuoteLexChar(s, i, out, lits, Spell(Lex(s, i, |lits|)), Spell(Lex(s, i + 1, |lits|)));
    }
  }

  /** A `''` at `i`: the pass writes the next token, the lexer makes it;
      `tail` is what both make of the rest. */
  lemma {:induction false} QuoteLexPair(s: string, i: nat, out: string, lits: seq<string>, lexed: string, tail: string)
    requires PairAt(s, i)
    requires lexed == Compiler.Placeholder(|lits|) + tail
    requires Quotes(s, i + 2, out + Compiler.Placeholder(|lits|), lits + ["'"], out + Compiler.Placeholder(|lits|) + tail, 1)
    ensures Quotes(s, i, out, lits, out + lexed, 1)
  {
    var tok := Compiler.Placeholder(|lits|);
    QuotesPair(s, i, out, lits, out + tok + tail);
    assert out + tok + tail == out + (tok + tail);
  }

  /** The `''` pass at a `''`: the next token, then on after the pair. */
  lemma {:induction false} QuotesPair(s: string, i: nat, out: string, lits: seq<string>, w: string)
    requires PairAt(s, i)
    requires Quotes(s, i + 2, out + Compiler.Placeholder(|lits|), lits + ["'"], w, 1)
    ensures Quotes(s, i, out, lits, w, 1)
  {
    QuotesMeans(s, i + 2, out + Compiler.Placeholder(|lits|), lits + ["'"], w);
    QuotesMeans(s, i, out, lits, w);
    QuotePairStep(s, i, out, lits);
  }

  lemma {:induction false} QuotePairStep(s: string, i: nat, out: string, lits: seq<string>)
    requires PairAt(s, i)
    ensures Compiler.QuoteFrom(s, MatchIndicesFrom(s, "''", i), i, out, lits)
         == Compiler.QuoteFrom(s, MatchIndicesFrom(s, "''", i + 2), i + 2, out + Compiler.Placeholder(|lits|), lits + ["'"])
  {
    MatchStep(s, i);
    var ms := MatchIndicesFrom(s, "''", i);
    assert ms[0] == i && ms[1..] == MatchIndicesFrom(s, "''", i + 2);
    assert out + s[i..i] == out;
  }

  /** Any other character at `i`: the pass and the lexer copy it;
      `tail` is what both make of the rest. */
  lemma {:induction false} QuoteLexChar(s: string, i: nat, out: string, lits: seq<string>, lexed: string, tail: string)
    requires i < |s| && !PairAt(s, i)
    requires lexed == [s[i]] + tail
    requires Quotes(s, i + 1, out + [s[i]], lits, out + [s[i]] + tail, 1)
    ensures Quotes(s, i, out, lits, out + lexed, 1)
  {
    QuotesChar(s, i, out, lits, out + [s[i]] + tail);
    assert out + [s[i]] + tail == out + ([s[i]] + tail);
  }

  /** The `''` pass at any other character: copied, then on after it. */
  lemma {:induction false} QuotesChar(s: string, i: nat, out: string, lits: seq<string>, w: string)
    requires i < |s| && !PairAt(s, i)
    requires Quotes(s, i + 1, out + [s[i]], lits, w, 1)
    ensures Quotes(s, i, out, lits, w, 1)
  {
    QuotesMeans(s, i + 1, out + [s[i]], lits, w);
    QuotesMeans(s, i, out, lits, w);
    QuoteCharStep(s, i, out, lits);
  }

  lemma {:induction false} QuoteCharStep(s: string, i: nat, out: string, lits: seq<string>)
    requires i < |s| && !PairAt(s, i)
    ensures Compiler.QuoteFrom(s, MatchIndicesFrom(s, "''", i), i, out, lits)
         == Compiler.QuoteFrom(s, MatchIndicesFrom(s, "''", i + 1), i + 1, out + [s[i]], lits)
  {
    MatchStep(s, i);
    QuoteFromCopy(s, MatchIndicesFrom(s, "''", i + 1), i, i + 1, out, lits);
    assert s[i..i + 1] == [s[i]];
  }

  /** `ts` counts up by one from `k`. */
  predicate Numbered(ts: seq<nat>, k: nat) {
    forall j :: 0 <= j < |ts| ==> ts[j] == k + j
  }

  lemma {:induction false} TokCons(x: Piece, t: seq<Piece>)
    ensures TokSeq([x] + t) == (if x.Tok? then [x.idx] else []) + TokSeq(t)
  {
    assert ([x] + t)[0] == x && ([x] + t)[1..] == t;
  }

  lemma {:induction false} NumberedCons(ts: seq<nat>, k: nat)
    requires Numbered(ts, k + 1)
    ensures Numbered([k] + ts, k)
  {
    forall j | 0 <= j < |[k] + ts|
      ensures ([k] + ts)[j] == k + j
    {
      if j > 0 {
        assert ([k] + ts)[j] == ts[j - 1];
      }
    }
  }

  /** The lexer makes one token per match, numbered on from `k`. */
  lemma {:induction false} LexTokens(s: string, i: nat, k: nat)
    requires i <= |s|
    ensures |TokSeq(Lex(s, i, k))| == |MatchIndicesFrom(s, "''", i)|
    ensures Numbered(TokSeq(Lex(s, i, k)), k)
    decreases |s| - i
  {
    if i < |s| {
      MatchStep(s, i);
      if PairAt(s, i) {
        var tail := Lex(s, i + 2, k + 1);
        LexTokens(s, i + 2, k + 1);
        TokCons(Tok(k), tail);
        NumberedCons(TokSeq(tail), k);
      } else {
        var tail := Lex(s, i + 1, k);
        LexTokens(s, i + 1, k);
        TokCons(Chr(s[i]), tail);
      }
    }
  }

  // ---------------------------------------------------------------------
  // Finding a token: the first occurrence of its text is the token itself

  /** A text that does not open with the token marker. */
  predicate NoMarkerHead(t: string) {
    |t| > 0 ==> t[0] != Compiler.LiteralMarker
  }

  /** Inside a token the marker stands only at index 1; its other
      characters are `_` or digits. */
  lemma {:induction false} PlaceholderShape(i: nat)
    ensures var r := Compiler.Placeholder(i);
      forall k :: 2 <= k < |r| - 1 ==> IsDigit(r[k])
  {
    var r := Compiler.Placeholder(i);
    forall k | 2 <= k < |r| - 1 ensures IsDigit(r[k]) {
      assert r[k] == r[2..|r| - 1][k - 2];
    }
  }

  /** A text that opens with the token of `i` holds no token of another
      index at its start: no token is a prefix of another. */
  lemma {:induction false} TokenNotAtStart(x: string, i: nat, j: nat)
    requires i != j
    requires |Compiler.Placeholder(i)| <= |x| && x[..|Compiler.Placeholder(i)|] == Compiler.Placeholder(i)
    ensures !OccursAt(x, Compiler.Placeholder(j), 0)
  {
    var a, b := Compiler.Placeholder(i), Compiler.Placeholder(j);
    PlaceholderShape(i);
    PlaceholderShape(j);
    if |b| <= |x| {
      if |a| == |b| {
        assert a != b by {
          if a == b {
            Compiler.PlaceholderInjective(i, j);
          }
        }
      } else if |a| < |b| {
        assert x[..|b|][|a| - 1] == a[|a| - 1] != b[|a| - 1];
      } else {
        assert x[..|b|][|b| - 1] == a[|b| - 1] != b[|b| - 1];
      }
    }
  }

  /** The spelling of clean pieces followed by a text that does not open
      with the marker does not open with it either. */
  lemma {:induction false} SpellHead(o: seq<Piece>, t: string)
    requires Clean(o) && NoMarkerHead(t)
    ensures NoMarkerHead(Spell(o) + t)
  {
    if o != [] {
      assert (Spell(o) + t)[0] == SpellOne(o[0])[0];
    }
  }

  /** Token `j` does not start inside the spelling of one piece that is
      neither the marker nor a token numbered `j` or above. */
  lemma {:induction false} NotInPiece(x: Piece, y: string, j: nat, q: nat)
    requires x != Chr(Compiler.LiteralMarker) && (x.Tok? ==> x.idx < j) && NoMarkerHead(y)
    requires q < |SpellOne(x)|
    ensures !OccursAt(SpellOne(x) + y, Compiler.Placeholder(j), q)
  {
    var b, z := Compiler.Placeholder(j), SpellOne(x) + y;
    if q + |b| <= |z| {
      assert b[1] == Compiler.LiteralMarker;
      match x
      case Chr(c) =>
        assert z[q..q + |b|][1] == y[0];
      case Tok(i) =>
        var a := Compiler.Placeholder(i);
        PlaceholderShape(i);
        if q == 0 {
          assert z[..|a|] == a;
          TokenNotAtStart(z, i, j);
        } else if q + 1 < |a| {
          assert z[q..q + |b|][1] == a[q + 1];
        } else {
          assert z[q..q + |b|][1] == y[0];
        }
    }
  }

  lemma {:induction false} OccursShift(h: string, y: string, b: string, q: nat)
    requires |h| <= q
    ensures OccursAt(h + y, b, q) == OccursAt(y, b, q - |h|)
  {
    if q + |b| <= |h + y| {
      assert (h + y)[q..q + |b|] == y[q - |h|..q - |h| + |b|];
    }
  }

  /** Before the end of the spelling of `o`, which has no token `j`, the
      text of token `j` does not occur. */
  lemma {:induction false} NoEarlierToken(o: seq<Piece>, t: string, j: nat)
    requires Clean(o) && Below(o, j) && NoMarkerHead(t)
    ensures forall q :: 0 <= q < |Spell(o)| ==> !OccursAt(Spell(o) + t, Compiler.Placeholder(j), q)
  {
    if o != [] {
      var b := Compiler.Placeholder(j);
      var head, y := SpellOne(o[0]), Spell(o[1..]) + t;
      var x := Spell(o) + t;
      assert Spell(o) == head + Spell(o[1..]);
      assert x == head + y;
      NoEarlierToken(o[1..], t, j);
      SpellHead(o[1..], t);
      forall q | 0 <= q < |Spell(o)| ensures !OccursAt(x, b, q) {
        if q >= |head| {
          OccursShift(head, y, b, q);
        } else {
          NotInPiece(o[0], y, j, q);
        }
      }
    }
  }

  /** Replacing the first occurrence of token `j` after pieces without it
      replaces that token. */
  lemma {:induction false} ReplaceToken(o: seq<Piece>, j: nat, rest: string, e: string)
    requires Clean(o) && Below(o, j)
    ensures ReplaceFirst(Spell(o) + Compiler.Placeholder(j) + rest, Compiler.Placeholder(j), e)
         == Spell(o) + e + rest
  {
    var b := Compiler.Placeholder(j);
    var x := Spell(o) + b + rest;
    assert x == Spell(o) + (b + rest);
    NoEarlierToken(o, b + rest, j);
    FindFromFirst(x, b, 0);
    assert x[|Spell(o)|..|Spell(o)| + |b|] == b;
    assert OccursAt(x, b, |Spell(o)|);
    assert FindFrom(x, b, 0) == Some(|Spell(o)|);
    assert x[..|Spell(o)|] == Spell(o);
    assert x[|Spell(o)| + |b|..] == rest;
  }

  // ---------------------------------------------------------------------
  // Restoring the table from the top down

  /** The restoring loop stopped once entry `a` is the top: the entries
      from the top down to `a` are put back, last first. */
  function Pop(m: string, lits: seq<string>, a: nat): string
    requires a <= |lits|
    decreases |lits|
  {
    if |lits| == a then m
    else
      var n := |lits| - 1;
      Pop(ReplaceFirst(m, Compiler.Placeholder(n), lits[n]), lits[..n], a)
  }

  /** Restoring is popping down to `a`, then restoring what is below. */
  lemma {:induction false} RestoreSplit(m: string, lits: seq<string>, a: nat)
    requires a <= |lits|
    ensures Format.Restore(m, lits) == Format.Restore(Pop(m, lits, a), lits[..a])
    decreases |lits|
  {
    if |lits| == a {
      assert lits[..a] == lits;
    } else {
      var n := |lits| - 1;
      RestoreSplit(ReplaceFirst(m, Compiler.Placeholder(n), lits[n]), lits[..n], a);
      assert lits[..n][..a] == lits[..a];
    }
  }

  /** The last pop down to `a` puts back entry `a`. */
  lemma {:induction false} PopStep(m: string, lits: seq<string>, a: nat)
    requires a < |lits|
    ensures Pop(m, lits, a) == ReplaceFirst(Pop(m, lits, a + 1), Compiler.Placeholder(a), lits[a])
    decreases |lits|
  {
    var m', below := PopUnfold(m, lits, a);
    if |below| > a {
      var _, _ := PopUnfold(m, lits, a + 1);
      assert below[a] == lits[a];
      PopStep(m', below, a);
    }
  }

  /** One round of the restoring loop: the top entry replaces its token,
      giving `m'`, and the table shrinks to `below`. */
  lemma {:induction false} PopUnfold(m: string, lits: seq<string>, a: nat) returns (m': string, below: seq<string>)
    requires a < |lits|
    ensures below == lits[..|lits| - 1] && |below| >= a
    ensures m' == ReplaceFirst(m, Compiler.Placeholder(|below|), lits[|below|])
    ensures Pop(m, lits, a) == Pop(m', below, a)
    ensures |below| == a ==> Pop(m, lits, a) == m' && Pop(m, lits, a + 1) == m
  {
    below := lits[..|lits| - 1];
    m' := ReplaceFirst(m, Compiler.Placeholder(|below|), lits[|below|]);
  }

  // ---------------------------------------------------------------------
  // The quoted-span pass reads the spans of the pieces

  /** A token holds neither a quote nor a line break. */
  lemma {:induction false} TokenQuiet(i: nat)
    ensures '\'' !in Compiler.Placeholder(i) && '\n' !in Compiler.Placeholder(i)
  {
    Compiler.PlaceholderInert(i);
    PlaceholderShape(i);
    var r := Compiler.Placeholder(i);
    forall k | 0 <= k < |r| ensures r[k] != '\n' {
      if 2 <= k < |r| - 1 {
        assert IsDigit(r[k]);
      }
    }
  }

  /** The closing-quote search passes over text without quotes or line breaks. */
  lemma {:induction false} ClosingSkip(s: string, j: nat, k: nat)
    requires j <= k <= |s|
    requires forall i :: j <= i < k ==> s[i] != '\'' && s[i] != '\n'
    ensures Compiler.ClosingQuote(s, j) == Compiler.ClosingQuote(s, k)
    decreases k - j
  {
    if j < k {
      ClosingSkip(s, j + 1, k);
    }
  }

  /** A spelling is its first piece's spelling followed by the rest's; a
      piece never spells as nothing. */
  lemma {:induction false} SpellUnfold(pre: string, r: seq<Piece>)
    requires r != []
    ensures pre + Spell(r) == pre + SpellOne(r[0]) + Spell(r[1..])
    ensures |SpellOne(r[0])| > 0
  {
    var h, t := SpellOne(r[0]), Spell(r[1..]);
    assert Spell(r) == h + t;
    assert pre + (h + t) == pre + h + t;
    SpellOneHead(r[0]);
  }

  /** The first character a piece spells: itself, or the `_` a token opens with. */
  lemma {:induction false} SpellOneHead(x: Piece)
    ensures |SpellOne(x)| > 0 && SpellOne(x)[0] == (if x.Chr? then x.c else '_')
  {
    if x.Tok? {
      Compiler.PlaceholderParts(x.idx);
    }
  }

  /** The characters of the middle part of a three-part text. */
  lemma {:induction false} TextAt(s: string, a: string, h: string, b: string)
    requires s == a + h + b
    ensures forall i :: |a| <= i < |a| + |h| ==> s[i] == h[i - |a|]
  {
  }

  lemma {:induction false} SpellTwo(x: Piece, y: Piece)
    ensures Spell([x, y]) == SpellOne(x) + SpellOne(y)
  {
    assert [x, y][1..] == [y];
    assert [y][1..] == [];
    assert Spell([y]) == SpellOne(y) + Spell([]);
    assert Spell([x, y]) == SpellOne(x) + Spell([y]);
  }

  /** The spelling of the first `e + 1` pieces. */
  lemma {:induction false} SpellPrefixStep(r: seq<Piece>, e: nat)
    requires e < |r|
    ensures |Spell(r[..e + 1])| == |SpellOne(r[0])| + |Spell(r[1..][..e])|
  {
    assert r[..e + 1] == [r[0]] + r[1..][..e];
    SpellAppend([r[0]], r[1..][..e]);
  }

  /** The closing-quote search steps over text without quotes or line breaks. */
  lemma {:induction false} ClosingOver(s: string, a: string, h: string, b: string)
    requires s == a + h + b && '\'' !in h && '\n' !in h
    ensures Compiler.ClosingQuote(s, |a|) == Compiler.ClosingQuote(s, |a| + |h|)
  {
    TextAt(s, a, h, b);
    ClosingSkip(s, |a|, |a| + |h|);
  }

  /** Where a closing search over pieces ends, spelled out after `pre`. */
  function SpelledAt(pre: string, r: seq<Piece>, e: Option<nat>): Option<nat>
    requires e.Some? ==> e.value <= |r|
  {
    match e case None => None case Some(k) => Some(|pre| + |Spell(r[..k])|)
  }

  /** The closing-quote search over a spelling finds the spelling of the
      closing piece, or fails exactly when `Close` does. */
  lemma {:induction false} ClosingMatches(s: string, pre: string, r: seq<Piece>)
    requires s == pre + Spell(r)
    ensures Compiler.ClosingQuote(s, |pre|) == SpelledAt(pre, r, Close(r))
    decreases |r|
  {
    if r == [] {
      assert s == pre;
    } else {
      SpellUnfold(pre, r);
      if r[0] == Chr('\'') || r[0] == Chr('\n') {
        ClosingHere(s, pre, r);
      } else {
        ClosingMatches(s, pre + SpellOne(r[0]), r[1..]);
        ClosingPass(s, pre, r);
      }
    }
  }

  /** A quote or a line break first: the search stops there. */
  lemma {:induction false} ClosingHere(s: string, pre: string, r: seq<Piece>)
    requires r != [] && (r[0] == Chr('\'') || r[0] == Chr('\n'))
    requires s == pre + SpellOne(r[0]) + Spell(r[1..])
    ensures Compiler.ClosingQuote(s, |pre|) == SpelledAt(pre, r, Close(r))
  {
    TextAt(s, pre, SpellOne(r[0]), Spell(r[1..]));
    assert r[..0] == [];
  }

  /** Any other piece first: the search goes on after its spelling. */
  lemma {:induction false} ClosingPass(s: string, pre: string, r: seq<Piece>)
    requires r != [] && r[0] != Chr('\'') && r[0] != Chr('\n')
    requires s == pre + SpellOne(r[0]) + Spell(r[1..])
    requires Compiler.ClosingQuote(s, |pre + SpellOne(r[0])|)
          == SpelledAt(pre + SpellOne(r[0]), r[1..], Close(r[1..]))
    ensures Compiler.ClosingQuote(s, |pre|) == SpelledAt(pre, r, Close(r))
  {
    ClosingOverOne(s, pre, r[0], Spell(r[1..]));
    SpelledAtStep(pre, r);
  }

  /** The closing-quote search steps over one piece other than a quote or
      a line break. */
  lemma {:induction false} ClosingOverOne(s: string, pre: string, x: Piece, rest: string)
    requires x != Chr('\'') && x != Chr('\n')
    requires s == pre + SpellOne(x) + rest
    ensures Compiler.ClosingQuote(s, |pre|) == Compiler.ClosingQuote(s, |pre + SpellOne(x)|)
  {
    assert |pre + SpellOne(x)| == |pre| + |SpellOne(x)|;
    match x
    case Chr(c) =>
      ClosingOver(s, pre, [c], rest);
    case Tok(i) =>
      TokenQuiet(i);
      ClosingOver(s, pre, Compiler.Placeholder(i), rest);
  }

  lemma {:induction false} SpelledAtStep(pre: string, r: seq<Piece>)
    requires r != [] && r[0] != Chr('\'') && r[0] != Chr('\n')
    ensures SpelledAt(pre + SpellOne(r[0]), r[1..], Close(r[1..])) == SpelledAt(pre, r, Close(r))
  {
    var c := Close(r[1..]);
    if c.Some? {
      CloseSome(r, c.value);
      SpelledAtShift(pre, r, c.value);
    } else {
      CloseNone(r);
    }
  }

  lemma {:induction false} CloseSome(r: seq<Piece>, e: nat)
    requires r != [] && r[0] != Chr('\'') && r[0] != Chr('\n') && Close(r[1..]) == Some(e)
    ensures Close(r) == Some(e + 1)
  {
  }

  lemma {:induction false} CloseNone(r: seq<Piece>)
    requires r != [] && r[0] != Chr('\'') && r[0] != Chr('\n') && Close(r[1..]).None?
    ensures Close(r).None?
  {
  }

  lemma {:induction false} SpelledAtShift(pre: string, r: seq<Piece>, e: nat)
    requires r != [] && e + 1 <= |r|
    ensures SpelledAt(pre + SpellOne(r[0]), r[1..], Some(e)) == SpelledAt(pre, r, Some(e + 1))
  {
    SpellPrefixStep(r, e);
  }

  /** A quoted span opens `r`: its opening quote and character. */
  predicate Opens(r: seq<Piece>) {
    |r| >= 2 && r[0] == Chr('\'') && r[1].Chr? && r[1].c in "{}#"
  }

  /** LITERAL_RE at the start of a spelling matches exactly when a quoted
      span opens the pieces, and ends at the spelling of its closing quote. */
  lemma {:induction false} SpanMatches(s: string, pre: string, r: seq<Piece>)
    requires s == pre + Spell(r)
    ensures Compiler.LiteralAt(s, |pre|) == SpelledAt(pre, r, SpanAt(r))
  {
    if r == [] {
      assert s == pre;
    } else if Opens(r) {
      SpanOpens(s, pre, r);
    } else {
      SpanShut(s, pre, r);
    }
  }

  /** No span opens the pieces: LITERAL_RE does not match there. */
  lemma {:induction false} SpanShut(s: string, pre: string, r: seq<Piece>)
    requires s == pre + Spell(r) && r != [] && !Opens(r)
    ensures Compiler.LiteralAt(s, |pre|).None?
  {
    SpellUnfold(pre, r);
    SpellOneHead(r[0]);
    TextAt(s, pre, SpellOne(r[0]), Spell(r[1..]));
    if r[0] == Chr('\'') && |r| >= 2 {
      var t := r[1..];
      SpellUnfold(pre + SpellOne(r[0]), t);
      SpellOneHead(t[0]);
      TextAt(s, pre + SpellOne(r[0]), SpellOne(t[0]), Spell(t[1..]));
    }
  }

  /** The spelling of pieces that open with a span's quote and character. */
  lemma {:induction false} OpenSpelling(r: seq<Piece>)
    requires Opens(r)
    ensures Spell(r) == ("'" + [r[1].c]) + Spell(r[2..])
  {
    SpellTwo(r[0], r[1]);
    assert r == [r[0], r[1]] + r[2..];
    SpellAppend([r[0], r[1]], r[2..]);
  }

  /** The span case of SpanMatches. */
  lemma {:induction false} SpanOpens(s: string, pre: string, r: seq<Piece>)
    requires s == pre + Spell(r) && Opens(r)
    ensures Compiler.LiteralAt(s, |pre|) == SpelledAt(pre, r, SpanAt(r))
  {
    var open := "'" + [r[1].c];
    OpenSpelling(r);
    assert s == pre + open + Spell(r[2..]);
    TextAt(s, pre, open, Spell(r[2..]));
    assert Compiler.LiteralAt(s, |pre|) == Compiler.ClosingQuote(s, |pre + open|);
    ClosingMatches(s, pre + open, r[2..]);
    SpanOpensAt(pre, r);
  }

  lemma {:induction false} SpanOpensAt(pre: string, r: seq<Piece>)
    requires Opens(r)
    ensures SpelledAt(pre + ("'" + [r[1].c]), r[2..], Close(r[2..])) == SpelledAt(pre, r, SpanAt(r))
  {
    var head, tail := [r[0], r[1]], r[2..];
    SpellTwo(r[0], r[1]);
    if Close(tail).Some? {
      var e := Close(tail).value;
      assert r[..e + 2] == head + tail[..e];
      SpellAppend(head, tail[..e]);
    }
  }

  /** The quoted-span pass copies text without quotes as it is. */
  lemma {:induction false} SpanPassSkip(s: string, p: nat, k: nat, out: string, lits: seq<string>)
    requires p <= k <= |s|
    requires forall i :: p <= i < k ==> s[i] != '\''
    ensures Compiler.SpanPass(s, p, out, lits) == Compiler.SpanPass(s, k, out + s[p..k], lits)
    decreases k - p
  {
    if p < k {
      assert Compiler.LiteralAt(s, p).None?;
      SpanPassSkip(s, p + 1, k, out + [s[p]], lits);
      assert out + [s[p]] + s[p + 1..k] == out + s[p..k];
    } else {
      assert out + s[p..k] == out;
    }
  }

  /** A single piece spells as itself. */
  lemma {:induction false} SpellSingle(x: Piece)
    ensures Spell([x]) == SpellOne(x)
  {
    assert [x][1..] == [];
  }

  /** Appending one piece appends its spelling. */
  lemma {:induction false} SpellSnoc(o: seq<Piece>, x: Piece)
    ensures Spell(o + [x]) == Spell(o) + SpellOne(x)
  {
    SpellAppend(o, [x]);
    SpellSingle(x);
  }

  /** The spelling of a span up to and including its closing quote. */
  lemma {:induction false} SpanSpelling(r: seq<Piece>, e: nat)
    requires SpanAt(r) == Some(e)
    ensures Spell(r[..e]) == "'" + Spell(r[1..e])
    ensures Spell(r[..e + 1]) == Spell(r[..e]) + "'"
  {
    assert r[..e + 1] == r[..e] + [r[e]];
    SpellAppend(r[..e], [r[e]]);
    SpellSingle(r[e]);
    assert r[..e] == [r[0]] + r[1..e];
    SpellAppend([r[0]], r[1..e]);
    SpellSingle(r[0]);
  }

  /** The middle of a three-part text. */
  lemma {:induction false} SliceMiddle(a: string, b: string, c: string)
    ensures (a + b + c)[|a|..|a| + |b|] == b
  {
  }

  /** The pieces of a span at the head of `r`, closing at `e`, spelled out. */
  lemma {:induction false} SpanSplit(s: string, pre: string, r: seq<Piece>, e: nat)
    requires s == pre + Spell(r) && SpanAt(r) == Some(e)
    ensures s == pre + Spell(r[..e + 1]) + Spell(r[e + 1..])
    ensures |Spell(r[..e + 1])| == |Spell(r[..e])| + 1
    ensures s[|pre| + 1..|pre| + |Spell(r[..e])|] == Spell(r[1..e])
  {
    assert r == r[..e + 1] + r[e + 1..];
    SpellAppend(r[..e + 1], r[e + 1..]);
    SpanSpelling(r, e);
    var body := Spell(r[1..e]);
    assert s == (pre + "'") + body + ("'" + Spell(r[e + 1..]));
    SliceMiddle(pre + "'", body, "'" + Spell(r[e + 1..]));
  }

  /** A span heading the pieces loses its quotes. */
  lemma {:induction false} UnquoteSpan(r: seq<Piece>, e: nat)
    requires SpanAt(r) == Some(e)
    ensures Spell(Unquote(r)) == Spell(r[1..e]) + Spell(Unquote(r[e + 1..]))
  {
    assert Unquote(r) == r[1..e] + Unquote(r[e + 1..]);
    SpellAppend(r[1..e], Unquote(r[e + 1..]));
  }

  /** Where no span heads the pieces, the first one is kept. */
  lemma {:induction false} UnquoteCopy(r: seq<Piece>)
    requires r != [] && SpanAt(r).None?
    ensures Spell(Unquote(r)) == SpellOne(r[0]) + Spell(Unquote(r[1..]))
  {
    assert Unquote(r) == [r[0]] + Unquote(r[1..]);
    SpellAppend([r[0]], Unquote(r[1..]));
    SpellSingle(r[0]);
  }

  // One step of the quoted-span pass, on the text alone.

  /** Where LITERAL_RE matches, the span pass writes the next token, records
      the text between the quotes and goes on after the closing quote. */
  lemma {:induction false} SpanPassAt(s: string, p: nat, q: nat, out: string, lits: seq<string>)
    requires p <= |s| && Compiler.LiteralAt(s, p) == Some(q)
    ensures q + 1 <= |s|
    ensures Compiler.SpanPass(s, p, out, lits)
         == Compiler.SpanPass(s, q + 1, out + Compiler.Placeholder(|lits|), lits + [s[p + 1..q]])
  {
  }

  /** Where LITERAL_RE does not match, the span pass copies one character. */
  lemma {:induction false} SpanPassChar(s: string, p: nat, c: char, out: string, lits: seq<string>)
    requires p < |s| && s[p] == c && Compiler.LiteralAt(s, p).None?
    ensures Compiler.SpanPass(s, p, out, lits) == Compiler.SpanPass(s, p + 1, out + [c], lits)
  {
  }

  /** The span pass copies a text without quotes as it is. */
  lemma {:induction false} SpanPassOver(s: string, a: string, h: string, b: string, out: string, lits: seq<string>)
    requires s == a + h + b && '\'' !in h
    ensures Compiler.SpanPass(s, |a|, out, lits) == Compiler.SpanPass(s, |a| + |h|, out + h, lits)
  {
    TextAt(s, a, h, b);
    SliceMiddle(a, h, b);
    SpanPassSkip(s, |a|, |a| + |h|, out, lits);
  }

  // One step of the quoted-span pass, on the pieces.

  /** A character where LITERAL_RE does not match: the pass copies it. */
  lemma {:induction false} CopyChr(s: string, pre: string, c: char, rest: string, out: string, lits: seq<string>)
    requires s == pre + [c] + rest && Compiler.LiteralAt(s, |pre|).None?
    ensures |pre| + 1 <= |s|
    ensures Compiler.SpanPass(s, |pre|, out, lits) == Compiler.SpanPass(s, |pre| + 1, out + [c], lits)
  {
    TextAt(s, pre, [c], rest);
    SpanPassChar(s, |pre|, c, out, lits);
  }

  /** A token: the pass copies its text. */
  lemma {:induction false} CopyTok(s: string, pre: string, x: Piece, rest: string, out: string, lits: seq<string>)
    requires s == pre + SpellOne(x) + rest && x.Tok?
    ensures |pre| + |SpellOne(x)| <= |s|
    ensures Compiler.SpanPass(s, |pre|, out, lits)
         == Compiler.SpanPass(s, |pre| + |SpellOne(x)|, out + SpellOne(x), lits)
  {
    TokenQuiet(x.idx);
    SpanPassOver(s, pre, SpellOne(x), rest, out, lits);
  }

  /** Where no span heads `r`, the span pass copies the first piece's
      spelling: a character by one step, a token by stepping over it. */
  lemma {:induction false} CopyPass(s: string, pre: string, r: seq<Piece>, out: string, lits: seq<string>)
    requires s == pre + Spell(r) && r != [] && SpanAt(r).None?
    ensures s == pre + SpellOne(r[0]) + Spell(r[1..])
    ensures Compiler.SpanPass(s, |pre|, out, lits)
         == Compiler.SpanPass(s, |pre + SpellOne(r[0])|, out + SpellOne(r[0]), lits)
  {
    SpellUnfold(pre, r);
    SpanMatches(s, pre, r);
    CopyPiece(s, pre, r[0], Spell(r[1..]), out, lits);
  }

  /** CopyChr or CopyTok, as the piece is. */
  lemma {:induction false} CopyPiece(s: string, pre: string, x: Piece, rest: string, out: string, lits: seq<string>)
    requires s == pre + SpellOne(x) + rest && (x.Chr? ==> Compiler.LiteralAt(s, |pre|).None?)
    ensures Compiler.SpanPass(s, |pre|, out, lits)
         == Compiler.SpanPass(s, |pre + SpellOne(x)|, out + SpellOne(x), lits)
  {
    match x
    case Chr(c) => CopyChr(s, pre, c, rest, out, lits);
    case Tok(_) => CopyTok(s, pre, x, rest, out, lits);
  }

  /** Where a span heads `r`, the span pass writes the next token, records
      the span's content and goes on after the span. */
  lemma {:induction false} SpanStepPass(s: string, pre: string, r: seq<Piece>, out: string, lits: seq<string>, e: nat)
    requires s == pre + Spell(r) && SpanAt(r) == Some(e)
    ensures s == pre + Spell(r[..e + 1]) + Spell(r[e + 1..])
    ensures Compiler.SpanPass(s, |pre|, out, lits)
         == Compiler.SpanPass(s, |pre + Spell(r[..e + 1])|, out + Compiler.Placeholder(|lits|), lits + [Spell(r[1..e])])
  {
    SpanSplit(s, pre, r, e);
    SpanMatches(s, pre, r);
    SpanPassEntry(s, |pre|, |pre| + |Spell(r[..e])|, |pre + Spell(r[..e + 1])|, Spell(r[1..e]), out, lits);
  }

  /** SpanPassAt, with the position after the span and the entry named. */
  lemma {:induction false} SpanPassEntry(s: string, p: nat, q: nat, n: nat, ent: string, out: string, lits: seq<string>)
    requires p <= |s| && Compiler.LiteralAt(s, p) == Some(q) && n == q + 1
    requires p + 1 <= q && s[p + 1..q] == ent
    ensures n <= |s|
    ensures Compiler.SpanPass(s, p, out, lits) == Compiler.SpanPass(s, n, out + Compiler.Placeholder(|lits|), lits + [ent])
  {
    SpanPassAt(s, p, q, out, lits);
  }

  // ---------------------------------------------------------------------
  // Popping what the quoted-span pass added

  /** Popping an entry whose token follows the pieces `o` puts the entry
      in the token's place. */
  lemma {:induction false} PopToken(m: string, lits: seq<string>, o: seq<Piece>, a: nat, x: string)
    requires Clean(o) && Below(o, a) && a < |lits|
    requires Pop(m, lits, a + 1) == Spell(o) + Compiler.Placeholder(a) + x
    ensures Pop(m, lits, a) == Spell(o) + lits[a] + x
  {
    PopStep(m, lits, a);
    ReplaceToken(o, a, x, lits[a]);
  }

  /** What the quoted-span pass does from `p` on, `out` being the text
      written so far: once the entries it adds are popped, the message is
      the text written so far followed by `tail`. */
  predicate PopsTo(s: string, p: nat, out: string, lits: seq<string>, tail: string)
    requires p <= |s|
  {
    var res := Compiler.SpanPass(s, p, out, lits);
    |lits| <= |res.1| && Pop(res.0, res.1, |lits|) == out + tail
  }

  /** `PopsTo` behind `k` unfoldings, so that proofs which only chain steps
      of the pass need not look into it: `Pops(…, 1)` is `PopsTo` (PopsMeans). */
  predicate Pops(s: string, p: nat, out: string, lits: seq<string>, tail: string, k: nat)
    requires p <= |s|
    decreases k
  {
    if k == 0 then PopsTo(s, p, out, lits, tail) else Pops(s, p, out, lits, tail, k - 1)
  }

  lemma {:induction false} PopsMeans(s: string, p: nat, out: string, lits: seq<string>, tail: string)
    requires p <= |s|
    ensures Pops(s, p, out, lits, tail, 1) == PopsTo(s, p, out, lits, tail)
  {
    assert Pops(s, p, out, lits, tail, 1) == Pops(s, p, out, lits, tail, 0);
  }

  /** Where the pass from `p` does what the pass from `p'` does with `h`
      written, popping gives `h` ahead of what popping from `p'` gives. */
  lemma {:induction false} PopsCopy(s: string, p: nat, p': nat, out: string, h: string, lits: seq<string>, x: string)
    requires p <= |s| && p' <= |s|
    requires Compiler.SpanPass(s, p, out, lits) == Compiler.SpanPass(s, p', out + h, lits)
    requires Pops(s, p', out + h, lits, x, 1)
    ensures Pops(s, p, out, lits, h + x, 1)
  {
    PopsMeans(s, p', out + h, lits, x);
    PopsMeans(s, p, out, lits, h + x);
    assert out + h + x == out + (h + x);
  }

  lemma {:induction false} LastEntry(big: seq<string>, lits: seq<string>, ent: string)
    requires |lits| < |big| && big[..|lits| + 1] == lits + [ent]
    ensures big[|lits|] == ent
  {
    assert big[|lits|] == big[..|lits| + 1][|lits|];
  }

  /** The entries the pass adds from `p` come after those it starts with. */
  lemma {:induction false} PassKeepsEntry(s: string, p: nat, out: string, lits: seq<string>, ent: string)
    requires p <= |s|
    ensures |lits| < |Compiler.SpanPass(s, p, out, lits + [ent]).1|
    ensures Compiler.SpanPass(s, p, out, lits + [ent]).1[|lits|] == ent
  {
    var big := Compiler.SpanPass(s, p, out, lits + [ent]).1;
    Compiler.SpanPassEntries(s, p, out, lits + [ent]);
    assert big[..|lits| + 1] == lits + [ent];
    LastEntry(big, lits, ent);
  }

  /** Where the pass from `p` records `ent` under the next token and goes
      on from `p'`, popping gives `ent` ahead of what popping from `p'` gives. */
  lemma {:induction false} PopsSpan(s: string, p: nat, p': nat, o: seq<Piece>, lits: seq<string>, ent: string, x: string)
    requires p <= |s| && p' <= |s| && Clean(o) && Below(o, |lits|)
    requires Compiler.SpanPass(s, p, Spell(o), lits)
          == Compiler.SpanPass(s, p', Spell(o) + Compiler.Placeholder(|lits|), lits + [ent])
    requires Pops(s, p', Spell(o) + Compiler.Placeholder(|lits|), lits + [ent], x, 1)
    ensures Pops(s, p, Spell(o), lits, ent + x, 1)
  {
    var a := |lits|;
    PopsMeans(s, p', Spell(o) + Compiler.Placeholder(a), lits + [ent], x);
    PopsMeans(s, p, Spell(o), lits, ent + x);
    var res := Compiler.SpanPass(s, p', Spell(o) + Compiler.Placeholder(a), lits + [ent]);
    PassKeepsEntry(s, p', Spell(o) + Compiler.Placeholder(a), lits, ent);
    PopToken(res.0, res.1, o, a, x);
    assert Spell(o) + ent + x == Spell(o) + (ent + x);
  }

  /** A piece copied by the pass: popping gives its spelling ahead. */
  lemma {:induction false} StepCopy(s: string, pre: string, r: seq<Piece>, o: seq<Piece>, lits: seq<string>, x: string)
    requires s == pre + Spell(r) && r != [] && SpanAt(r).None?
    requires |pre + SpellOne(r[0])| <= |s|
    requires Pops(s, |pre + SpellOne(r[0])|, Spell(o) + SpellOne(r[0]), lits, x, 1)
    ensures Pops(s, |pre|, Spell(o), lits, SpellOne(r[0]) + x, 1)
  {
    CopyPass(s, pre, r, Spell(o), lits);
    PopsCopy(s, |pre|, |pre + SpellOne(r[0])|, Spell(o), SpellOne(r[0]), lits, x);
  }

  /** A span replaced by the pass: popping gives its content ahead. */
  lemma {:induction false} StepSpan(s: string, pre: string, r: seq<Piece>, o: seq<Piece>, lits: seq<string>, e: nat, x: string)
    requires s == pre + Spell(r) && SpanAt(r) == Some(e) && Clean(o) && Below(o, |lits|)
    requires |pre + Spell(r[..e + 1])| <= |s|
    requires Pops(s, |pre + Spell(r[..e + 1])|, Spell(o) + Compiler.Placeholder(|lits|), lits + [Spell(r[1..e])], x, 1)
    ensures Pops(s, |pre|, Spell(o), lits, Spell(r[1..e]) + x, 1)
  {
    SpanStepPass(s, pre, r, Spell(o), lits, e);
    PopsSpan(s, |pre|, |pre + Spell(r[..e + 1])|, o, lits, Spell(r[1..e]), x);
  }

  /** The pieces from `k` on are clean and below any larger bound. */
  lemma {:induction false} CleanDrop(r: seq<Piece>, n: nat, k: nat, n': nat)
    requires Clean(r) && Below(r, n) && k <= |r| && n <= n'
    ensures Clean(r[k..]) && Below(r[k..], n')
  {
    assert forall j :: 0 <= j < |r[k..]| ==> r[k..][j] == r[k + j];
  }

  /** One more clean piece, below a larger bound. */
  lemma {:induction false} CleanSnoc(o: seq<Piece>, x: Piece, n: nat, n': nat)
    requires Clean(o) && Below(o, n) && n <= n'
    requires x != Chr(Compiler.LiteralMarker) && (x.Tok? ==> x.idx < n')
    ensures Clean(o + [x]) && Below(o + [x], n')
  {
    assert forall j :: 0 <= j < |o| ==> (o + [x])[j] == o[j];
    assert (o + [x])[|o|] == x;
  }

  /** Spans and tokens alike: from the spelling of `r` on, the pass writes
      what, once its own entries are popped, reads as `r` with each quoted
      span replaced by its content. */
  lemma {:induction false} SpanPassPops(s: string, pre: string, r: seq<Piece>, o: seq<Piece>, lits: seq<string>)
    requires s == pre + Spell(r)
    requires Clean(r) && Below(r, |lits|) && Clean(o) && Below(o, |lits|)
    ensures Pops(s, |pre|, Spell(o), lits, Spell(Unquote(r)), 1)
    decreases |r|
  {
    if r == [] {
      PopsMeans(s, |pre|, Spell(o), lits, Spell(Unquote(r)));
      assert s == pre;
      assert Spell(o) + Spell(Unquote(r)) == Spell(o);
    } else {
      match SpanAt(r)
      case None =>
        var h := SpellOne(r[0]);
        SpellUnfold(pre, r);
        SpellSnoc(o, r[0]);
        CleanDrop(r, |lits|, 1, |lits|);
        CleanSnoc(o, r[0], |lits|, |lits|);
        SpanPassPops(s, pre + h, r[1..], o + [r[0]], lits);
        StepCopy(s, pre, r, o, lits, Spell(Unquote(r[1..])));
        UnquoteCopy(r);
      case Some(e) =>
        var a, ent := |lits|, Spell(r[1..e]);
        SpanSplit(s, pre, r, e);
        SpellSnoc(o, Tok(a));
        CleanDrop(r, a, e + 1, a + 1);
        CleanSnoc(o, Tok(a), a, a + 1);
        SpanPassPops(s, pre + Spell(r[..e + 1]), r[e + 1..], o + [Tok(a)], lits + [ent]);
        StepSpan(s, pre, r, o, lits, e, Spell(Unquote(r[e + 1..])));
        UnquoteSpan(r, e);
    }
  }

  // ---------------------------------------------------------------------
  // Restoring the `''` entries

  /** The pieces of `ps` are clean; so are those of any text it is cut from. */
  lemma {:induction false} CleanCons(x: Piece, t: seq<Piece>)
    requires x != Chr(Compiler.LiteralMarker) && Clean(t)
    ensures Clean([x] + t)
  {
    assert forall j :: 1 <= j < |[x] + t| ==> ([x] + t)[j] == t[j - 1];
  }

  /** The lexed pattern holds the marker only if the pattern does. */
  lemma {:induction false} LexClean(s: string, i: nat, k: nat)
    requires i <= |s| && Compiler.LiteralMarker !in s
    ensures Clean(Lex(s, i, k))
    decreases |s| - i
  {
    if i < |s| {
      if PairAt(s, i) {
        LexClean(s, i + 2, k + 1);
        CleanCons(Tok(k), Lex(s, i + 2, k + 1));
      } else {
        LexClean(s, i + 1, k);
        CleanCons(Chr(s[i]), Lex(s, i + 1, k));
      }
    }
  }

  /** Every piece left by Unquote was a piece before. */
  lemma {:induction false} UnquoteSubset(ps: seq<Piece>)
    ensures forall x :: x in Unquote(ps) ==> x in ps
    decreases |ps|
  {
    if ps != [] {
      match SpanAt(ps)
      case Some(e) =>
        var body, rest := ps[1..e], ps[e + 1..];
        UnquoteSubset(rest);
        assert Unquote(ps) == body + Unquote(rest);
        assert forall x :: x in body ==> x in ps;
        assert forall x :: x in rest ==> x in ps;
      case None =>
        UnquoteSubset(ps[1..]);
        assert Unquote(ps) == [ps[0]] + Unquote(ps[1..]);
        assert forall x :: x in ps[1..] ==> x in ps;
    }
  }

  lemma {:induction false} UnquoteClean(ps: seq<Piece>)
    requires Clean(ps)
    ensures Clean(Unquote(ps))
  {
    UnquoteSubset(ps);
    var u := Unquote(ps);
    forall k | 0 <= k < |u| ensures u[k] != Chr(Compiler.LiteralMarker) {
      assert u[k] in u;
    }
  }

  /** Unquote drops only quote characters: the tokens stay, in order. */
  lemma {:induction false} UnquoteTokens(ps: seq<Piece>)
    ensures TokSeq(Unquote(ps)) == TokSeq(ps)
    decreases |ps|
  {
    if ps != [] {
      match SpanAt(ps)
      case Some(e) =>
        var body, rest := ps[1..e], ps[e + 1..];
        UnquoteTokens(rest);
        assert Unquote(ps) == body + Unquote(rest);
        TokSeqAppend(body, Unquote(rest));
        SpanTokens(ps, e);
      case None =>
        UnquoteTokens(ps[1..]);
        assert Unquote(ps) == [ps[0]] + Unquote(ps[1..]);
        TokCons(ps[0], Unquote(ps[1..]));
        TokCons(ps[0], ps[1..]);
        assert [ps[0]] + ps[1..] == ps;
    }
  }

  /** The tokens of pieces that a span heads: those inside it, then after it. */
  lemma {:induction false} SpanTokens(ps: seq<Piece>, e: nat)
    requires SpanAt(ps) == Some(e)
    ensures TokSeq(ps) == TokSeq(ps[1..e]) + TokSeq(ps[e + 1..])
  {
    var body, rest := ps[1..e], ps[e + 1..];
    assert ps == [ps[0]] + (body + ([ps[e]] + rest));
    TokCons(ps[0], body + ([ps[e]] + rest));
    TokSeqAppend(body, [ps[e]] + rest);
    TokCons(ps[e], rest);
  }

  /** Where the tokens count up from 0, each is below their number. */
  lemma {:induction false} TokBelow(ps: seq<Piece>, n: nat)
    requires forall j :: 0 <= j < |TokSeq(ps)| ==> TokSeq(ps)[j] < n
    ensures Below(ps, n)
    decreases |ps|
  {
    if ps != [] {
      var x, t := ps[0], ps[1..];
      assert ps == [x] + t;
      TokCons(x, t);
      var head := if x.Tok? then [x.idx] else [];
      assert forall j :: 0 <= j < |TokSeq(t)| ==> TokSeq(t)[j] == TokSeq(ps)[|head| + j];
      TokBelow(t, n);
      forall k | 0 <= k < |ps| && ps[k].Tok? ensures ps[k].idx < n {
        if k == 0 {
          assert TokSeq(ps)[0] == x.idx;
        } else {
          assert ps[k] == t[k - 1];
        }
      }
    }
  }

  lemma {:induction false} ExpandSnoc(o: seq<Piece>, x: Piece)
    ensures Expand(o + [x]) == Expand(o) + (if x.Chr? then [x.c] else "'")
    decreases |o|
  {
    if o == [] {
      assert o + [x] == [x] && [x][1..] == [];
    } else {
      assert (o + [x])[0] == o[0] && (o + [x])[1..] == o[1..] + [x];
      ExpandSnoc(o[1..], x);
    }
  }

  /** How many unfoldings `QuoteTable` is kept behind. A named constant
      rather than a literal, so that the verifier only unfolds it as far as
      it unfolds any recursive call. */
  const Depth: nat := 2

  /** The pieces are clean, their tokens count up from 0 and the table
      holds one `'` per token; behind `k` unfoldings, so that the proofs
      which only pass it on need not look into it (QuoteTableMeans). */
  predicate QuoteTable(p: seq<Piece>, lits: seq<string>, k: nat)
    decreases k
  {
    if k == 0 then
      && Clean(p) && |TokSeq(p)| == |lits| && Numbered(TokSeq(p), 0)
      && forall j :: 0 <= j < |lits| ==> lits[j] == "'"
    else QuoteTable(p, lits, k - 1)
  }

  lemma {:induction false} QuoteTableMeans(p: seq<Piece>, lits: seq<string>, k: nat)
    ensures QuoteTable(p, lits, k)
        <==> && Clean(p) && |TokSeq(p)| == |lits| && Numbered(TokSeq(p), 0)
             && forall j :: 0 <= j < |lits| ==> lits[j] == "'"
    decreases k
  {
    if k > 0 {
      QuoteTableMeans(p, lits, k - 1);
    }
  }

  /** Popping the `''` entries of pieces whose tokens count up from 0
      writes each token as a single `'`. */
  lemma {:induction false} QuotesPop(p: seq<Piece>, q: string, lits: seq<string>)
    requires QuoteTable(p, lits, Depth)
    ensures Pop(Spell(p) + q, lits, 0) == Expand(p) + q
    decreases |p|, 1
  {
    if p == [] {
      QuoteTableMeans(p, lits, Depth);
      assert Spell(p) + q == q;
    } else if p[|p| - 1].Chr? {
      QuotesPopChr(p, q, lits);
    } else {
      QuotesPopTok(p, q, lits);
    }
  }

  /** QuotesPop where the pieces end with a character. */
  lemma {:induction false} QuotesPopChr(p: seq<Piece>, q: string, lits: seq<string>)
    requires p != [] && p[|p| - 1].Chr? && QuoteTable(p, lits, Depth)
    ensures Pop(Spell(p) + q, lits, 0) == Expand(p) + q
    decreases |p|, 0
  {
    var o, q' := LastChr(p, q, lits);
    QuotesPop(o, q', lits);
  }

  /** QuotesPop where the pieces end with a token: the top entry's. */
  lemma {:induction false} QuotesPopTok(p: seq<Piece>, q: string, lits: seq<string>)
    requires p != [] && p[|p| - 1].Tok? && QuoteTable(p, lits, Depth)
    ensures Pop(Spell(p) + q, lits, 0) == Expand(p) + q
    decreases |p|, 0
  {
    var o, n := LastTok(p, q, lits);
    QuotesPop(o, "'" + q, lits[..n]);
    QuotePopLast(o, n, q, lits);
  }

  /** Pieces ending with a character `c`: the pieces before it, followed
      by `c` and then `q`, read as before. */
  lemma {:induction false} LastChr(p: seq<Piece>, q: string, lits: seq<string>) returns (o: seq<Piece>, q': string)
    requires p != [] && p[|p| - 1].Chr? && QuoteTable(p, lits, Depth)
    ensures |o| < |p| && QuoteTable(o, lits, Depth)
    ensures Spell(p) + q == Spell(o) + q' && Expand(p) + q == Expand(o) + q'
  {
    var c := p[|p| - 1].c;
    o, q' := p[..|p| - 1], [c] + q;
    LastPiece(p, lits);
    Regroup(Spell(o), [c], q);
    Regroup(Expand(o), [c], q);
  }

  lemma {:induction false} Regroup(a: string, b: string, c: string)
    ensures a + b + c == a + (b + c)
  {
  }

  /** Pieces ending with a token: it is the token of the top entry `n`, a
      `'`, and the pieces before it hold the tokens of the entries below. */
  lemma {:induction false} LastTok(p: seq<Piece>, q: string, lits: seq<string>) returns (o: seq<Piece>, n: nat)
    requires p != [] && p[|p| - 1].Tok? && QuoteTable(p, lits, Depth)
    ensures |o| < |p| && |lits| == n + 1 && lits[n] == "'"
    ensures Clean(o) && Below(o, n) && QuoteTable(o, lits[..n], Depth)
    ensures Spell(p) + q == Spell(o) + Compiler.Placeholder(n) + q
    ensures Expand(p) + q == Expand(o) + "'" + q
  {
    LastPiece(p, lits);
    o, n := p[..|p| - 1], |lits| - 1;
  }

  /** The last piece of pieces whose tokens count up from 0: a character,
      after pieces with the same tokens, or the token of the top entry,
      after pieces with the tokens below it. */
  lemma {:induction false} LastPiece(p: seq<Piece>, lits: seq<string>)
    requires p != [] && QuoteTable(p, lits, Depth)
    ensures var o, x := p[..|p| - 1], p[|p| - 1];
      && Spell(p) == Spell(o) + SpellOne(x)
      && Expand(p) == Expand(o) + (if x.Chr? then [x.c] else "'")
      && (x.Chr? ==> QuoteTable(o, lits, Depth))
      && (x.Tok? ==> && |lits| > 0 && x.idx == |lits| - 1 && lits[|lits| - 1] == "'"
                     && Clean(o) && Below(o, |lits| - 1) && QuoteTable(o, lits[..|lits| - 1], Depth))
  {
    var o, x := p[..|p| - 1], p[|p| - 1];
    var n := |lits|;
    QuoteTableMeans(p, lits, Depth);
    assert p == o + [x];
    TokSeqAppend(o, [x]);
    TokCons(x, []);
    assert [x] + [] == [x];
    SpellSnoc(o, x);
    ExpandSnoc(o, x);
    assert forall j :: 0 <= j < |o| ==> o[j] == p[j];
    assert forall j :: 0 <= j < |TokSeq(o)| ==> TokSeq(o)[j] == TokSeq(p)[j];
    if x.Tok? {
      assert TokSeq(p)[n - 1] == x.idx;
      TokBelow(o, n - 1);
      QuoteTableMeans(o, lits[..n - 1], Depth);
    } else {
      QuoteTableMeans(o, lits, Depth);
    }
  }

  /** The last token of the pieces is the top entry: popping it first
      writes it as `'`, and the entries below pop as before. */
  lemma {:induction false} QuotePopLast(o: seq<Piece>, n: nat, q: string, lits: seq<string>)
    requires Clean(o) && Below(o, n) && |lits| == n + 1 && lits[n] == "'"
    requires Pop(Spell(o) + ("'" + q), lits[..n], 0) == Expand(o) + ("'" + q)
    ensures Pop(Spell(o) + Compiler.Placeholder(n) + q, lits, 0) == Expand(o) + "'" + q
  {
    PopTop(Spell(o) + Compiler.Placeholder(n) + q, lits);
    ReplaceToken(o, n, q, "'");
    Regroup(Spell(o), "'", q);
    Regroup(Expand(o), "'", q);
  }

  /** Popping down to 0 pops the top entry first. */
  lemma {:induction false} PopTop(m: string, lits: seq<string>)
    requires |lits| > 0
    ensures var n := |lits| - 1;
      Pop(m, lits, 0) == Pop(ReplaceFirst(m, Compiler.Placeholder(n), lits[n]), lits[..n], 0)
  {
  }

  // ---------------------------------------------------------------------
  // The round trip

  /** The `''` pass of a pattern writes its lexed pieces, and the table it
      fills holds a `'` for each of their tokens, which count up from 0. */
  lemma {:induction false} QuotePassLexes(s: string)
    requires Compiler.LiteralMarker !in s
    ensures Compiler.QuotePass(s, []).0 == Spell(Lex(s, 0, 0))
    ensures QuoteTable(Lex(s, 0, 0), Compiler.QuotePass(s, []).1, Depth)
  {
    var l := Lex(s, 0, 0);
    QuoteLex(s, 0, "", []);
    assert "" + Spell(l) == Spell(l);
    Compiler.QuotePassEntries(s, []);
    LexTokens(s, 0, 0);
    LexClean(s, 0, 0);
    QuoteTableMeans(l, Compiler.QuotePass(s, []).1, Depth);
  }

  /** Restoring after the quoted-span pass over the spelling of clean
      pieces gives back their spelling with each span unquoted, still
      holding the tokens of the entries below. */
  lemma {:induction false} SpanPassRestores(s: string, r: seq<Piece>, lits: seq<string>)
    requires s == Spell(r) && Clean(r) && Below(r, |lits|)
    ensures var (m, lits') := Compiler.SpanPass(s, 0, "", lits);
      Format.Restore(m, lits') == Format.Restore(Spell(Unquote(r)), lits)
  {
    assert s == "" + Spell(r);
    assert Spell([]) == "";
    SpanPassPops(s, "", r, [], lits);
    PopsMeans(s, 0, "", lits, Spell(Unquote(r)));
    var (m, lits') := Compiler.SpanPass(s, 0, "", lits);
    Compiler.SpanPassEntries(s, 0, "", lits);
    RestoreSplit(m, lits', |lits|);
    assert "" + Spell(Unquote(r)) == Spell(Unquote(r));
  }

  /** Restoring the `''` entries into the unquoted pieces writes each of
      their tokens as `'`. */
  lemma {:induction false} QuotesRestore(r: seq<Piece>, lits: seq<string>)
    requires QuoteTable(r, lits, Depth)
    ensures Format.Restore(Spell(Unquote(r)), lits) == Expand(Unquote(r))
  {
    var u := Unquote(r);
    QuoteTableMeans(r, lits, Depth);
    UnquoteTokens(r);
    UnquoteClean(r);
    QuoteTableMeans(u, lits, Depth);
    RestoreSplit(Spell(u), lits, 0);
    assert lits[..0] == [];
    QuotesPop(u, "", lits);
    assert Spell(u) + "" == Spell(u) && Expand(u) + "" == Expand(u);
  }

  /** The whole round trip: protecting a pattern's escapes with
      `insert_placeholders` and restoring them as `format` does gives the
      pattern's text as Unescape reads it, whenever the pattern does not
      hold the token marker itself. */
  lemma {:induction false} ProtectRestore(s: string)
    requires Compiler.LiteralMarker !in s
    ensures var (m, lits) := Compiler.Protect(s, []); Format.Restore(m, lits) == Unescape(s)
  {
    var l := Lex(s, 0, 0);
    var (s1, lits1) := Compiler.QuotePass(s, []);
    QuotePassLexes(s);
    QuoteTableMeans(l, lits1, Depth);
    TokBelow(l, |lits1|);
    SpanPassRestores(s1, l, lits1);
    QuotesRestore(l, lits1);
  }
}
