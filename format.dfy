/** The renderer of src/format.rs: a walk over a compiled pattern that
    pushes text onto a result list and parameter values onto the literal
    table, then joins the result and puts the table's entries back in
    place of their tokens. Plural rules and number formatting are the
    locale's collaborators, passed in as functions. */
module Format {
  import opened Wrappers
  import opened Param
  import opened StrExt
  import opened Compiler

  /** The runtime parameters (`HashMap<String, ParamValue>`). */
  type Params = map<string, ParamValue>

  /** `plural_rules_select`: the locale's cardinal category name
      ("zero", "one", "two", "few", "many" or "other") for a number. */
  type PluralSelector = (Locale, nat) -> string

  /** What a Formatter renders with: its locale, its `ignore_pound` flag
      and the locale's collaborators. */
  datatype Setting = Setting(locale: Locale, ignorePound: bool, cardinal: PluralSelector, fdf: DecimalFormat)

  /** The two `&mut Vec<String>` a rendering step works on. */
  datatype Acc = Acc(literals: seq<string>, result: seq<string>)

  const InvalidArgumentName: string := "invalid argument name"
  const InvalidArgumentOffset: string := "invalid argument offset"
  const MissingSelectOption: string := "Invalid option or missing other option for select block"
  const MissingPluralOption: string := "Invalid option or missing other option for plural block"
  const PoundLeft: string := "not all # were replaced"

  function Undefined(name: string): string { "Undefined parameter - " + name }
  function InvalidParameter(name: string): string { "Invalid parameter - " + name }
  function InvalidOffset(text: string): string { "Invalid offset - " + text }

  /** `Vec<String>::join("")`. */
  function Concat(parts: seq<string>): string {
    if parts == [] then "" else Concat(parts[..|parts| - 1]) + parts[|parts| - 1]
  }

  /** `ordinal_rules_select`: ordinals are not supported, so the cardinal
      rules are used. */
  function OrdinalSelector(d: Setting): PluralSelector {
    d.cardinal
  }

  /** `parsed_blocks.get(key).and_then(|b| b.first())` matched against
      `Some(Block::String(text))`. */
  function FirstText(options: seq<Branch>, key: string): (r: Option<string>)
    ensures r.Some? <==> Lookup(options, Str(key)).Some? && |Lookup(options, Str(key)).value| > 0
                         && Lookup(options, Str(key)).value[0].Text?
    ensures r.Some? ==> r.value == Lookup(options, Str(key)).value[0].value
  {
    match IndexOf(options, Str(key))
    case None => None
    case Some(i) =>
      var body := options[i].body;
      if |body| > 0 && body[0].Text? then Some(body[0].value) else None
  }

  /** `parsed_blocks.get(&key).or_else(|| parsed_blocks.get(&OTHER))`, as
      the index of the chosen option. */
  function Choose(options: seq<Branch>, key: ParamValue): (r: Option<nat>)
    ensures r.Some? ==> r.value < |options|
  {
    match IndexOf(options, key)
    case Some(i) => Some(i)
    case None => IndexOf(options, Other)
  }

  // ---------------------------------------------------------------------
  // Rendering, as functions of the state before and after

  /** `format_block` from block `i` on. */
  function RenderFrom(d: Setting, params: Params, blocks: seq<Block>, i: nat, acc: Acc): Outcome<Acc>
    requires i <= |blocks|
    decreases blocks, |blocks| - i
  {
    if i == |blocks| then Ok(acc)
    else
      match RenderOne(d, params, blocks[i], acc)
      case Panic(m) => Panic(m)
      case Ok(next) => RenderFrom(d, params, blocks, i + 1, next)
  }

  /** One iteration of `format_block`'s loop. */
  function RenderOne(d: Setting, params: Params, b: Block, acc: Acc): Outcome<Acc>
    decreases b, 0
  {
    match b
    case Text(v) => Ok(acc.(result := acc.result + [v]))
    case Simple(name) => Ok(SimpleStep(d, params, name, acc))
    case Select(options) => SelectStep(d, params, options, acc)
    case Plural(options) => PluralStep(d, params, options, d.cardinal, acc)
    case Ordinal(options) => PluralStep(d, params, options, OrdinalSelector(d), acc)
  }

  /** `format_simple_placeholder`. */
  function SimpleStep(d: Setting, params: Params, name: string, acc: Acc): Acc {
    if name !in params then acc.(result := acc.result + [Undefined(name)])
    else
      Acc(acc.literals + [FormatWithLocale(params[name], d.locale, d.fdf)],
          acc.result + [Placeholder(|acc.literals|)])
  }

  /** `format_select_block`. */
  function SelectStep(d: Setting, params: Params, options: seq<Branch>, acc: Acc): Outcome<Acc>
    decreases options, 0
  {
    match FirstText(options, ArgumentName)
    case None => Panic(InvalidArgumentName)
    case Some(name) =>
      if name !in params then Ok(acc.(result := acc.result + [Undefined(name)]))
      else
        match Choose(options, params[name])
        case None => Panic(MissingSelectOption)
        case Some(i) => RenderFrom(d, params, options[i].body, 0, acc)
  }

  /** The text pushed for a rendered plural branch: `#` becomes the
      formatted difference unless `#` is ignored. */
  function Pound(d: Setting, plural: string, diff: int): string {
    if d.ignorePound then plural else ReplaceAll(plural, "#", d.fdf(d.locale, diff))
  }

  /** The option a plural or ordinal block renders for a value: the entry
      for the raw parameter value, else the entry for the category of
      |diff|, else `other`. */
  function ChoosePlural(options: seq<Branch>, raw: ParamValue, category: string): (r: Option<nat>)
    ensures r.Some? ==> r.value < |options|
  {
    match IndexOf(options, raw)
    case Some(i) => Some(i)
    case None => Choose(options, Str(category))
  }

  /** `format_plural_ordinal_block`. */
  function PluralStep(d: Setting, params: Params, options: seq<Branch>, select: PluralSelector, acc: Acc)
    : Outcome<Acc>
    decreases options, 0
  {
    match FirstText(options, ArgumentName)
    case None => Panic(InvalidArgumentName)
    case Some(name) =>
      match FirstText(options, ArgumentOffset)
      case None => Panic(InvalidArgumentOffset)
      case Some(offsetText) =>
        if name !in params then Ok(acc.(result := acc.result + [Undefined(name)]))
        else
          match AsDecimal(params[name])
          case None => Ok(acc.(result := acc.result + [InvalidParameter(name)]))
          case Some(value) =>
            match ParseSignedDigits(offsetText)
            case None => Ok(acc.(result := acc.result + [InvalidOffset(offsetText)]))
            case Some(offset) =>
              var diff := value - offset;
              var magnitude: nat := if diff < 0 then -diff else diff;
              match ChoosePlural(options, params[name], select(d.locale, magnitude))
              case None => Panic(MissingPluralOption)
              case Some(i) =>
                match RenderFrom(d, params, options[i].body, 0, Acc(acc.literals, []))
                case Panic(m) => Panic(m)
                case Ok(sub) =>
                  Ok(Acc(sub.literals, acc.result + [Pound(d, Concat(sub.result), diff)]))
  }

  /** The restoring loop of `format`: the last entry replaces the first
      occurrence of its token, then the entry before it, down to entry 0. */
  function Restore(message: string, literals: seq<string>): string
    decreases |literals|
  {
    if literals == [] then message
    else
      var n := |literals| - 1;
      Restore(ReplaceFirst(message, Placeholder(n), literals[n]), literals[..n])
  }

  // ---------------------------------------------------------------------
  // Properties of rendering

  /** Blocks are rendered in order: rendering `a + b` renders `a`, then `b`
      from where `a` left off. */
  lemma {:induction false} RenderFromAppend(d: Setting, params: Params, a: seq<Block>, b: seq<Block>, i: nat, acc: Acc)
    requires i <= |a|
    ensures RenderFrom(d, params, a + b, i, acc)
         == match RenderFrom(d, params, a, i, acc)
            case Panic(m) => Panic(m)
            case Ok(mid) => RenderFrom(d, params, b, 0, mid)
    decreases |a| - i
  {
    if i == |a| {
      RenderFromShift(d, params, a, b, 0, acc);
    } else {
      assert (a + b)[i] == a[i];
      match RenderOne(d, params, a[i], acc)
      case Panic(m) =>
      case Ok(next) =>
        RenderFromAppend(d, params, a, b, i + 1, next);
    }
  }

  lemma {:induction false} RenderFromShift(d: Setting, params: Params, a: seq<Block>, b: seq<Block>, j: nat, acc: Acc)
    requires j <= |b|
    ensures RenderFrom(d, params, a + b, |a| + j, acc) == RenderFrom(d, params, b, j, acc)
    decreases |b| - j
  {
    if j < |b| {
      assert (a + b)[|a| + j] == b[j];
      match RenderOne(d, params, b[j], acc)
      case Panic(m) =>
      case Ok(next) =>
        RenderFromShift(d, params, a, b, j + 1, next);
    }
  }

  /** The outcome of rendering onto a result that already holds `res`. */
  function After(res: seq<string>, o: Outcome<Acc>): Outcome<Acc> {
    match o
    case Panic(m) => Panic(m)
    case Ok(a) => Ok(a.(result := res + a.result))
  }

  /** Rendering only appends to `result` and never reads it: what is
      already there stays in front of what the blocks produce. */
  lemma {:induction false} RenderFromAppends(d: Setting, params: Params, blocks: seq<Block>, i: nat,
                                             literals: seq<string>, res: seq<string>, x: seq<string>)
    requires i <= |blocks|
    ensures RenderFrom(d, params, blocks, i, Acc(literals, res + x))
         == After(res, RenderFrom(d, params, blocks, i, Acc(literals, x)))
    decreases blocks, |blocks| - i
  {
    if i < |blocks| {
      RenderOneAppends(d, params, blocks[i], literals, res, x);
      match RenderOne(d, params, blocks[i], Acc(literals, x))
      case Panic(m) =>
      case Ok(next) =>
        RenderFromAppends(d, params, blocks, i + 1, next.literals, res, next.result);
    }
  }

  lemma {:induction false} RenderOneAppends(d: Setting, params: Params, b: Block,
                                            literals: seq<string>, res: seq<string>, x: seq<string>)
    ensures RenderOne(d, params, b, Acc(literals, res + x)) == After(res, RenderOne(d, params, b, Acc(literals, x)))
    decreases b, 0
  {
    match b
    case Text(v) =>
      assert res + x + [v] == res + (x + [v]);
    case Simple(name) =>
      assert res + x + [Undefined(name)] == res + (x + [Undefined(name)]);
      assert res + x + [Placeholder(|literals|)] == res + (x + [Placeholder(|literals|)]);
    case Select(options) =>
      SelectStepAppends(d, params, options, literals, res, x);
    case Plural(options) =>
      PluralStepAppends(d, params, options, d.cardinal, literals, res, x);
    case Ordinal(options) =>
      PluralStepAppends(d, params, options, OrdinalSelector(d), literals, res, x);
  }

  lemma {:induction false} SelectStepAppends(d: Setting, params: Params, options: seq<Branch>,
                                             literals: seq<string>, res: seq<string>, x: seq<string>)
    ensures SelectStep(d, params, options, Acc(literals, res + x))
         == After(res, SelectStep(d, params, options, Acc(literals, x)))
    decreases options, 0
  {
    match FirstText(options, ArgumentName)
    case None =>
    case Some(name) =>
      if name !in params {
        assert res + x + [Undefined(name)] == res + (x + [Undefined(name)]);
      } else {
        match Choose(options, params[name])
        case None =>
        case Some(i) =>
          RenderFromAppends(d, params, options[i].body, 0, literals, res, x);
      }
  }

  lemma PluralStepAppends(d: Setting, params: Params, options: seq<Branch>, select: PluralSelector,
                          literals: seq<string>, res: seq<string>, x: seq<string>)
    ensures PluralStep(d, params, options, select, Acc(literals, res + x))
         == After(res, PluralStep(d, params, options, select, Acc(literals, x)))
  {
    forall v: string ensures res + x + [v] == res + (x + [v]) {
    }
  }

  /** Rendering only appends to the literal table. */
  lemma {:induction false} RenderFromKeepsLiterals(d: Setting, params: Params, blocks: seq<Block>, i: nat, acc: Acc)
    requires i <= |blocks|
    ensures RenderFrom(d, params, blocks, i, acc).Ok? ==>
      acc.literals <= RenderFrom(d, params, blocks, i, acc).value.literals
    decreases blocks, |blocks| - i
  {
    if i < |blocks| {
      RenderOneKeepsLiterals(d, params, blocks[i], acc);
      match RenderOne(d, params, blocks[i], acc)
      case Panic(m) =>
      case Ok(next) =>
        RenderFromKeepsLiterals(d, params, blocks, i + 1, next);
    }
  }

  lemma {:induction false} RenderOneKeepsLiterals(d: Setting, params: Params, b: Block, acc: Acc)
    ensures RenderOne(d, params, b, acc).Ok? ==> acc.literals <= RenderOne(d, params, b, acc).value.literals
    decreases b, 0
  {
    match b
    case Text(v) =>
    case Simple(name) =>
    case Select(options) =>
      SelectStepKeepsLiterals(d, params, options, acc);
    case Plural(options) =>
      PluralStepKeepsLiterals(d, params, options, d.cardinal, acc);
    case Ordinal(options) =>
      PluralStepKeepsLiterals(d, params, options, OrdinalSelector(d), acc);
  }

  lemma {:induction false} SelectStepKeepsLiterals(d: Setting, params: Params, options: seq<Branch>, acc: Acc)
    ensures SelectStep(d, params, options, acc).Ok? ==> acc.literals <= SelectStep(d, params, options, acc).value.literals
    decreases options, 0
  {
    match FirstText(options, ArgumentName)
    case None =>
    case Some(name) =>
      if name in params {
        match Choose(options, params[name])
        case None =>
        case Some(i) =>
          RenderFromKeepsLiterals(d, params, options[i].body, 0, acc);
      }
  }

  lemma {:induction false} PluralStepKeepsLiterals(d: Setting, params: Params, options: seq<Branch>,
                                                   select: PluralSelector, acc: Acc)
    ensures PluralStep(d, params, options, select, acc).Ok? ==>
      acc.literals <= PluralStep(d, params, options, select, acc).value.literals
    decreases options, 0
  {
    match FirstText(options, ArgumentName)
    case None =>
    case Some(name) =>
      match FirstText(options, ArgumentOffset)
      case None =>
      case Some(offsetText) =>
        if name in params && AsDecimal(params[name]).Some? && ParseSignedDigits(offsetText).Some? {
          var diff := AsDecimal(params[name]).value - ParseSignedDigits(offsetText).value;
          var magnitude: nat := if diff < 0 then -diff else diff;
          match ChoosePlural(options, params[name], select(d.locale, magnitude))
          case None =>
          case Some(i) =>
            RenderFromKeepsLiterals(d, params, options[i].body, 0, Acc(acc.literals, []));
        }
  }

  /** The two panics for a value with no option and no `other`. */
  predicate MissingOption(o: Outcome<Acc>) {
    o == Panic(MissingSelectOption) || o == Panic(MissingPluralOption)
  }

  /** A tree the compiler accepts (every choice block has `other`, at every
      depth) never panics for want of an option. */
  lemma {:induction false} CompleteNeverMissing(d: Setting, params: Params, blocks: seq<Block>, i: nat, acc: Acc)
    requires i <= |blocks| && Complete(blocks)
    ensures !MissingOption(RenderFrom(d, params, blocks, i, acc))
    decreases blocks, |blocks| - i
  {
    if i < |blocks| {
      BlockNeverMissing(d, params, blocks[i], acc);
      match RenderOne(d, params, blocks[i], acc)
      case Panic(m) =>
      case Ok(next) =>
        CompleteNeverMissing(d, params, blocks, i + 1, next);
    }
  }

  lemma {:induction false} BlockNeverMissing(d: Setting, params: Params, b: Block, acc: Acc)
    requires BlockComplete(b)
    ensures !MissingOption(RenderOne(d, params, b, acc))
    decreases b, 0
  {
    match b
    case Text(v) =>
    case Simple(name) =>
    case Select(options) =>
      SelectNeverMissing(d, params, options, acc);
    case Plural(options) =>
      PluralNeverMissing(d, params, options, d.cardinal, acc);
    case Ordinal(options) =>
      PluralNeverMissing(d, params, options, OrdinalSelector(d), acc);
  }

  lemma {:induction false} SelectNeverMissing(d: Setting, params: Params, options: seq<Branch>, acc: Acc)
    requires OptionsComplete(options)
    ensures !MissingOption(SelectStep(d, params, options, acc))
    decreases options, 0
  {
    match FirstText(options, ArgumentName)
    case None =>
    case Some(name) =>
      if name in params {
        var i := Choose(options, params[name]).value;
        CompleteNeverMissing(d, params, options[i].body, 0, acc);
      }
  }

  lemma {:induction false} PluralNeverMissing(d: Setting, params: Params, options: seq<Branch>,
                                              select: PluralSelector, acc: Acc)
    requires OptionsComplete(options)
    ensures !MissingOption(PluralStep(d, params, options, select, acc))
    decreases options, 0
  {
    match FirstText(options, ArgumentName)
    case None =>
    case Some(name) =>
      match FirstText(options, ArgumentOffset)
      case None =>
      case Some(offsetText) =>
        if name in params && AsDecimal(params[name]).Some? && ParseSignedDigits(offsetText).Some? {
          var diff := AsDecimal(params[name]).value - ParseSignedDigits(offsetText).value;
          var magnitude: nat := if diff < 0 then -diff else diff;
          var i := ChoosePlural(options, params[name], select(d.locale, magnitude)).value;
          CompleteNeverMissing(d, params, options[i].body, 0, Acc(acc.literals, []));
        }
  }

  /** Select renders the option for the parameter's value, else `other`;
      a missing parameter only adds a diagnostic. */
  lemma SelectChooses(d: Setting, params: Params, options: seq<Branch>, acc: Acc, name: string)
    requires FirstText(options, ArgumentName) == Some(name)
    ensures name !in params ==>
      SelectStep(d, params, options, acc) == Ok(Acc(acc.literals, acc.result + [Undefined(name)]))
    ensures name in params && Lookup(options, params[name]).Some? ==>
      SelectStep(d, params, options, acc) == RenderFrom(d, params, Lookup(options, params[name]).value, 0, acc)
    ensures name in params && Lookup(options, params[name]).None? && Lookup(options, Other).Some? ==>
      SelectStep(d, params, options, acc) == RenderFrom(d, params, Lookup(options, Other).value, 0, acc)
    ensures name in params && Lookup(options, params[name]).None? && Lookup(options, Other).None? ==>
      SelectStep(d, params, options, acc) == Panic(MissingSelectOption)
  {
  }

  /** The diagnostics of a plural or ordinal block: a missing parameter,
      then one that is not a number, then an offset that is not one. */
  lemma PluralDiagnostics(d: Setting, params: Params, options: seq<Branch>, select: PluralSelector, acc: Acc,
                          name: string, offsetText: string)
    requires FirstText(options, ArgumentName) == Some(name) && FirstText(options, ArgumentOffset) == Some(offsetText)
    ensures name !in params ==>
      PluralStep(d, params, options, select, acc) == Ok(Acc(acc.literals, acc.result + ["Undefined parameter - " + name]))
    ensures name in params && AsDecimal(params[name]).None? ==>
      PluralStep(d, params, options, select, acc) == Ok(Acc(acc.literals, acc.result + ["Invalid parameter - " + name]))
    ensures name in params && AsDecimal(params[name]).Some? && ParseSignedDigits(offsetText).None? ==>
      PluralStep(d, params, options, select, acc) == Ok(Acc(acc.literals, acc.result + ["Invalid offset - " + offsetText]))
  {
  }

  /** The option a plural or ordinal block takes: the raw value's entry,
      else the category's, else `other`. */
  lemma PluralChooses(options: seq<Branch>, raw: ParamValue, category: string)
    ensures Lookup(options, raw).Some? ==> options[ChoosePlural(options, raw, category).value].body == Lookup(options, raw).value
    ensures Lookup(options, raw).None? && Lookup(options, Str(category)).Some? ==>
      options[ChoosePlural(options, raw, category).value].body == Lookup(options, Str(category)).value
    ensures Lookup(options, raw).None? && Lookup(options, Str(category)).None? ==>
      ChoosePlural(options, raw, category) == IndexOf(options, Other)
  {
  }

  /** An exact match on the raw value wins: the plural rules are then not
      consulted, so any two selectors render alike. */
  lemma ExactMatchIgnoresRules(d: Setting, params: Params, options: seq<Branch>, acc: Acc,
                               name: string, s1: PluralSelector, s2: PluralSelector)
    requires FirstText(options, ArgumentName) == Some(name) && name in params
    requires Lookup(options, params[name]).Some?
    ensures PluralStep(d, params, options, s1, acc) == PluralStep(d, params, options, s2, acc)
  {
  }

  /** Unless `#` is ignored, a rendered plural branch keeps no `#` (when
      the formatted number has none); when it is ignored, the branch is
      pushed as rendered. */
  lemma PoundReplaced(d: Setting, plural: string, diff: int)
    ensures d.ignorePound ==> Pound(d, plural, diff) == plural
    ensures !d.ignorePound && '#' !in d.fdf(d.locale, diff) ==> '#' !in Pound(d, plural, diff)
  {
    if !d.ignorePound && '#' !in d.fdf(d.locale, diff) {
      ReplaceAllRemoves(plural, '#', d.fdf(d.locale, diff));
      assert "#" == ['#'];
    }
  }

  /** A message without tokens comes back unchanged from the restoring loop. */
  lemma {:induction false} RestoreWithoutTokens(message: string, literals: seq<string>)
    requires LiteralMarker !in message
    ensures Restore(message, literals) == message
    decreases |literals|
  {
    if literals != [] {
      var n := |literals| - 1;
      var token := Placeholder(n);
      FindFromFirst(message, token, 0);
      if FindFrom(message, token, 0).Some? {
        PlaceholderParts(n);
        assert false;
      }
      RestoreWithoutTokens(message, literals[..n]);
    }
  }

  /** A placeholder on its own renders as the parameter's formatted value,
      whatever it holds: `#`, braces and quotes in values are never
      interpreted. */
  lemma SimpleRoundTrip(d: Setting, params: Params, name: string)
    requires name in params
    ensures Render(d, params, [], [Simple(name)]) == Ok(FormatWithLocale(params[name], d.locale, d.fdf))
  {
    var v := FormatWithLocale(params[name], d.locale, d.fdf);
    var token := Placeholder(0);
    assert SimpleStep(d, params, name, Acc([], [])) == Acc([v], [token]);
    assert RenderOne(d, params, Simple(name), Acc([], [])) == Ok(Acc([v], [token]));
    assert RenderFrom(d, params, [Simple(name)], 1, Acc([v], [token])) == Ok(Acc([v], [token]));
    assert RenderFrom(d, params, [Simple(name)], 0, Acc([], [])) == Ok(Acc([v], [token]));
    assert Concat([token]) == token;
    PlaceholderInert(0);
    RestoreSingle(v);
  }

  /** The only placeholder of a one-entry table is replaced by its entry. */
  lemma RestoreSingle(v: string)
    ensures Restore(Placeholder(0), [v]) == v
  {
    var token := Placeholder(0);
    assert OccursAt(token, token, 0);
    assert ReplaceFirst(token, token, v) == v;
    assert [v][..0] == [];
  }

  /** `Formatter::format`. */
  function Render(d: Setting, params: Params, initialLiterals: seq<string>, pattern: seq<Block>): Outcome<string> {
    if pattern == [] then Ok("")
    else
      match RenderFrom(d, params, pattern, 0, Acc(initialLiterals, []))
      case Panic(m) => Panic(m)
      case Ok(acc) =>
        var message := Concat(acc.result);
        if !d.ignorePound && '#' in message then Panic(PoundLeft)
        else Ok(Restore(message, acc.literals))
  }

  /** The three ways `format` ends: a panic of the walk is passed on; a `#`
      left in the joined message panics unless `ignore_pound` is set, and
      only then; otherwise the message is returned with its literals restored. */
  lemma RenderOutcome(d: Setting, params: Params, initialLiterals: seq<string>, pattern: seq<Block>)
    requires pattern != []
    ensures var walked := RenderFrom(d, params, pattern, 0, Acc(initialLiterals, []));
      walked.Panic? ==> Render(d, params, initialLiterals, pattern) == Panic(walked.message)
    ensures var walked := RenderFrom(d, params, pattern, 0, Acc(initialLiterals, []));
      walked.Ok? ==>
        var message := Concat(walked.value.result);
        && (Render(d, params, initialLiterals, pattern) == Panic(PoundLeft) <==> !d.ignorePound && '#' in message)
        && (d.ignorePound || '#' !in message ==>
              Render(d, params, initialLiterals, pattern) == Ok(Restore(message, walked.value.literals)))
  {
  }

  /** A pattern that compiled to one text block renders as that text with
      its literals restored, unless a `#` is left in it. */
  lemma RenderText(d: Setting, params: Params, initialLiterals: seq<string>, t: string)
    ensures !d.ignorePound && '#' in t ==> Render(d, params, initialLiterals, [Text(t)]) == Panic(PoundLeft)
    ensures d.ignorePound || '#' !in t ==>
      Render(d, params, initialLiterals, [Text(t)]) == Ok(Restore(t, initialLiterals))
  {
    var acc := Acc(initialLiterals, [t]);
    assert [] + [t] == [t];
    assert RenderOne(d, params, Text(t), Acc(initialLiterals, [])) == Ok(acc);
    assert RenderFrom(d, params, [Text(t)], 1, acc) == Ok(acc);
    assert [t][..0] == [];
    assert Concat([t]) == "" + t == t;
    assert RenderFrom(d, params, [Text(t)], 0, Acc(initialLiterals, [])) == Ok(acc);
  }

  // ---------------------------------------------------------------------
  // The formatter object

  class Formatter {
    const locale: Locale
    const initialLiterals: seq<string>
    const parsedPattern: seq<Block>
    const ignorePound: bool
    const cardinal: PluralSelector
    const fdf: DecimalFormat

    /** `Formatter::new`; the collaborators are the locale's. */
    constructor (locale: Locale, initialLiterals: seq<string>, parsedPattern: seq<Block>, ignorePound: bool,
                 cardinal: PluralSelector, fdf: DecimalFormat)
      ensures this.locale == locale && this.initialLiterals == initialLiterals
      ensures this.parsedPattern == parsedPattern && this.ignorePound == ignorePound
      ensures this.cardinal == cardinal && this.fdf == fdf
    {
      this.locale := locale;
      this.initialLiterals := initialLiterals;
      this.parsedPattern := parsedPattern;
      this.ignorePound := ignorePound;
      this.cardinal := cardinal;
      this.fdf := fdf;
    }

    /** The fields rendering depends on. */
    function Config(): Setting {
      Setting(locale, ignorePound, cardinal, fdf)
    }

    /** `format`: renders into a copy of the literal table, so the
        formatter itself is left as it was. */
    method Format(namedParameters: Option<Params>) returns (r: Outcome<string>)
      ensures r == Render(Config(), if namedParameters.Some? then namedParameters.value else map[],
                          initialLiterals, parsedPattern)
      ensures parsedPattern == [] ==> r == Ok("")
    {
      if parsedPattern == [] {
        return Ok("");
      }
      var params := if namedParameters.Some? then namedParameters.value else map[];
      var rendered := FormatBlock(parsedPattern, params, initialLiterals, []);
      if rendered.Panic? {
        return Panic(rendered.message);
      }
      var literals := rendered.value.literals;
      var message := Concat(rendered.value.result);
      if !ignorePound && '#' in message {
        return Panic(PoundLeft);
      }
      message := RestoreLiterals(message, literals);
      r := Ok(message);
    }

    /** The `while let Some(literal) = literals.pop()` loop of `format`. */
    method RestoreLiterals(message: string, literals: seq<string>) returns (r: string)
      ensures r == Restore(message, literals)
    {
      r := message;
      var rest := literals;
      while rest != []
        invariant Restore(r, rest) == Restore(message, literals)
        decreases |rest|
      {
        var n := |rest| - 1;
        assert Restore(r, rest) == Restore(ReplaceFirst(r, Placeholder(n), rest[n]), rest[..n]);
        r := ReplaceFirst(r, Placeholder(n), rest[n]);
        rest := rest[..n];
      }
    }

    /** `format_block`. */
    method FormatBlock(blocks: seq<Block>, params: Params, literals: seq<string>, result: seq<string>)
      returns (r: Outcome<Acc>)
      ensures r == RenderFrom(Config(), params, blocks, 0, Acc(literals, result))
      decreases blocks, 1
    {
      var acc := Acc(literals, result);
      for i := 0 to |blocks|
        invariant RenderFrom(Config(), params, blocks, i, acc) == RenderFrom(Config(), params, blocks, 0, Acc(literals, result))
      {
        var step: Outcome<Acc>;
        match blocks[i] {
          case Text(v) =>
            step := Ok(acc.(result := acc.result + [v]));
          case Simple(name) =>
            var next := FormatSimplePlaceholder(name, params, acc);
            step := Ok(next);
          case Select(options) =>
            step := FormatSelectBlock(options, params, acc);
          case Plural(options) =>
            step := FormatPluralOrdinalBlock(options, params, acc, cardinal);
          case Ordinal(options) =>
            step := FormatPluralOrdinalBlock(options, params, acc, OrdinalSelector(Config()));
        }
        if step.Panic? {
          return Panic(step.message);
        }
        acc := step.value;
      }
      r := Ok(acc);
    }

    /** `format_simple_placeholder`. */
    method FormatSimplePlaceholder(param: string, params: Params, acc: Acc) returns (r: Acc)
      ensures r == SimpleStep(Config(), params, param, acc)
      ensures param !in params ==> r == Acc(acc.literals, acc.result + ["Undefined parameter - " + param])
      ensures param in params ==>
        && r.literals == acc.literals + [FormatWithLocale(params[param], locale, fdf)]
        && r.result == acc.result + [Placeholder(|acc.literals|)]
    {
      if param !in params {
        return acc.(result := acc.result + [Undefined(param)]);
      }
      var value := FormatWithLocale(params[param], locale, fdf);
      var placeholder := Placeholder(|acc.literals|);
      r := Acc(acc.literals + [value], acc.result + [placeholder]);
    }

    /** `format_select_block`. */
    method FormatSelectBlock(options: seq<Branch>, params: Params, acc: Acc) returns (r: Outcome<Acc>)
      ensures r == SelectStep(Config(), params, options, acc)
      decreases options, 1
    {
      var argumentName := FirstText(options, ArgumentName);
      if argumentName.None? {
        return Panic(InvalidArgumentName);
      }
      var name := argumentName.value;
      if name !in params {
        return Ok(acc.(result := acc.result + [Undefined(name)]));
      }
      var option := Choose(options, params[name]);
      if option.None? {
        return Panic(MissingSelectOption);
      }
      r := FormatBlock(options[option.value].body, params, acc.literals, acc.result);
    }

    /** `format_plural_ordinal_block`, with the selector it is given. */
    method FormatPluralOrdinalBlock(options: seq<Branch>, params: Params, acc: Acc, select: PluralSelector)
      returns (r: Outcome<Acc>)
      ensures r == PluralStep(Config(), params, options, select, acc)
      decreases options, 1
    {
      var argumentName := FirstText(options, ArgumentName);
      if argumentName.None? {
        return Panic(InvalidArgumentName);
      }
      var argumentOffset := FirstText(options, ArgumentOffset);
      if argumentOffset.None? {
        return Panic(InvalidArgumentOffset);
      }
      var name := argumentName.value;
      if name !in params {
        return Ok(acc.(result := acc.result + [Undefined(name)]));
      }
      var value := AsDecimal(params[name]);
      if value.None? {
        return Ok(acc.(result := acc.result + [InvalidParameter(name)]));
      }
      var offset := ParseSignedDigits(argumentOffset.value);
      if offset.None? {
        return Ok(acc.(result := acc.result + [InvalidOffset(argumentOffset.value)]));
      }
      var diff := value.value - offset.value;
      var magnitude: nat := if diff < 0 then -diff else diff;
      var option := ChoosePlural(options, params[name], select(locale, magnitude));
      if option.None? {
        return Panic(MissingPluralOption);
      }
      var sub := FormatBlock(options[option.value].body, params, acc.literals, []);
      if sub.Panic? {
        return Panic(sub.message);
      }
      var plural := Concat(sub.value.result);
      var pushed := if ignorePound then plural else ReplaceAll(plural, "#", fdf(locale, diff));
      r := Ok(Acc(sub.value.literals, acc.result + [pushed]));
    }
  }
}
