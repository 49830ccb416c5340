/** src/chromalogging/__init__.py: the package-level formatter of the
    chromalogging variant. Its template set-up (`_formatter_message`) adds the
    level-name width fix of module Widths and uses a colour table that differs
    from the one of module Directives only in its `RESET` entry, which no
    template can reach. */
module ChromaLogging {
  import opened Ansi
  import opened Text
  import opened Scanning
  import opened Directives
  import opened Widths
  import opened Wrappers
  import opened Placeholders
  import opened Logging

  /** `_COLOR_WORD_TO_COLOR`: the same words in the same order; `RESET` maps
      to the full reset. */
  const LegacyWordToColor: seq<(string, string)> := WordToColor[8 := ("RESET", RESET_ALL)]

  lemma LegacyOk()
    ensures TableOk(LegacyWordToColor)
  {
    WordToColorOk();
  }

  /** The passes of `_formatter_message` with colour on. */
  function LegacyRules(bold: string): seq<Rule> {
    LegacyOk();
    Rules(LegacyWordToColor, bold)
  }

  /** Wherever the literal `$RESET` matches, the reset rule already matched,
      so the table's `RESET` entry (rule 10) is never the first to match. */
  lemma ResetEntryNeverFirst(t: string, bold: string)
    ensures Hit(Rules(WordToColor, bold), t) != 10
  {
    WordToColorOk();
    var rules := Rules(WordToColor, bold);
    assert rules[10].pat == Literal("RESET");
    if MatchLen(Literal("RESET"), t) > 0 {
      assert MatchLen(ResetOrR, t) > 0;
    }
    HitFirst(rules, t);
  }

  /** The two tables give the same patterns, and the same replacements
      everywhere but at the `RESET` entry. */
  lemma RulesAgree(bold: string)
    requires TableOk(WordToColor) && TableOk(LegacyWordToColor)
    ensures var r1, r2 := Rules(WordToColor, bold), Rules(LegacyWordToColor, bold);
      |r1| == |r2| && (forall i :: 0 <= i < |r1| ==> r1[i].pat == r2[i].pat) &&
      (forall i :: 0 <= i < |r1| && i != 10 ==> r1[i].repl == r2[i].repl)
  {
    assert forall i :: 0 <= i < |WordToColor| && i != 8 ==> LegacyWordToColor[i] == WordToColor[i];
  }

  /** So this variant's table resolves every template as the other one does. */
  lemma LegacyResolve(s: string, bold: string)
    ensures Scan(LegacyRules(bold), s) == Resolve(s, bold)
  {
    WordToColorOk();
    LegacyOk();
    RulesAgree(bold);
    var r1 := Rules(WordToColor, bold);
    forall t | t != []
      ensures Hit(r1, t) != 10
    {
      ResetEntryNeverFirst(t, bold);
    }
    ScanDeadRule(r1, LegacyRules(bold), 10, s);
  }

  /** `_formatter_message`: with colour off the directives are deleted and
      no width is touched; with colour on the template is wrapped in
      `bold ... $RESET`, its level-name width fixed, and every directive
      resolved (reset rule, bold rule, then the table in order). */
  method FormatterMessage(msg: string, useColor: bool, bold: string) returns (r: string)
    ensures !useColor ==> r == Strip(msg)
    ensures useColor && '$' !in bold && '%' !in bold ==>
              r == bold + Resolve(AdjustFormatLengths(msg, true, bold), bold) + RESET_ALL + bold
  {
    if !useColor {
      r := Pass(AnyWord, "", msg);
      return;
    }
    LegacyOk();
    var m0 := AdjustFormatLengths(bold + msg + "$RESET", useColor, bold);
    r := ResolvePasses(m0, LegacyWordToColor, bold);
    if '$' !in bold && '%' !in bold {
      RulesOkFor(LegacyWordToColor, bold);
      ChainIsScan(LegacyRules(bold), m0);
      LegacyResolve(m0, bold);
      AdjustWrapped(msg, bold, true);
      ResolveWrapped(AdjustFormatLengths(msg, true, bold), bold);
    }
  }

  // ---------------------------------------------------------------------
  // `_init_record`, with the level name

  /** First touch: remember message, level name and arguments. */
  function Snapshot(st: RecordState): RecordState {
    st.(originalMsg := Some(st.msg), originalLvl := Some(st.levelname),
        originalArgs := Some(st.args), consumed := Some(true))
  }

  /** `_init_record`, statement by statement: restore the message, then the
      level name, then the arguments; a missing attribute raises
      `AttributeError`, caught by taking a snapshot of the record as it is
      at that point. */
  function InitRecordSpec(st: RecordState): (r: RecordState)
    ensures r.levelno == st.levelno
    ensures st.consumed == Some(false) ==> r == st
    ensures st.consumed != Some(false) ==>
      r.consumed == Some(true) && r.originalMsg == Some(r.msg) &&
      r.originalLvl == Some(r.levelname) && r.originalArgs == Some(r.args)
  {
    match st.consumed
    case None => Snapshot(st)
    case Some(c) =>
      if !c then st
      else
        match st.originalMsg
        case None => Snapshot(st)
        case Some(m) =>
          match st.originalLvl
          case None => Snapshot(st.(msg := m))
          case Some(l) =>
            match st.originalArgs
            case None => Snapshot(st.(msg := m, levelname := l))
            case Some(a) => st.(msg := m, levelname := l, args := a)
  }

  method InitRecord(record: LogRecord)
    modifies record
    ensures record.State() == InitRecordSpec(old(record.State()))
  {
    if record.consumed.Some? && !record.consumed.value {
      return;
    }
    if record.consumed.Some? && record.originalMsg.Some? {
      record.msg := record.originalMsg.value;
      if record.originalLvl.Some? {
        record.levelname := record.originalLvl.value;
        if record.originalArgs.Some? {
          record.args := record.originalArgs.value;
          return;
        }
      }
    }
    record.originalMsg := Some(record.msg);
    record.originalLvl := Some(record.levelname);
    record.originalArgs := Some(record.args);
    record.consumed := Some(true);
  }

  /** The record carries a snapshot of message m0, level name l0 and
      arguments a0. */
  predicate Snapshotted(st: RecordState, m0: string, l0: string, a0: seq<string>) {
    st.consumed == Some(true) && st.originalMsg == Some(m0) &&
    st.originalLvl == Some(l0) && st.originalArgs == Some(a0)
  }

  /** The first call snapshots the record and changes nothing else. */
  lemma InitRecordFirst(st: RecordState)
    requires Untouched(st)
    ensures var r := InitRecordSpec(st);
      Snapshotted(r, st.msg, st.levelname, st.args) && r.msg == st.msg &&
      r.levelname == st.levelname && r.args == st.args && r.levelno == st.levelno
  {
  }

  /** Every later call puts all three back and keeps the snapshot. */
  lemma InitRecordRestores(st: RecordState, m0: string, l0: string, a0: seq<string>)
    requires Snapshotted(st, m0, l0, a0)
    ensures InitRecordSpec(st) == st.(msg := m0, levelname := l0, args := a0)
  {
  }

  lemma InitRecordIdempotent(st: RecordState)
    ensures InitRecordSpec(InitRecordSpec(st)) == InitRecordSpec(st)
  {
  }

  /** Colours one formatter put into the message and level name of a fresh
      record never reach the next formatter. */
  lemma SecondFormatterSeesPristine(st: RecordState, m: string, l: string, a: seq<string>)
    requires Untouched(st)
    ensures var seen := InitRecordSpec(InitRecordSpec(st).(msg := m, levelname := l, args := a));
      seen.msg == st.msg && seen.levelname == st.levelname && seen.args == st.args
  {
    InitRecordFirst(st);
    InitRecordRestores(InitRecordSpec(st).(msg := m, levelname := l, args := a), st.msg, st.levelname, st.args);
  }

  // ---------------------------------------------------------------------
  // `format`

  const ARGS: int := -10
  const BRACKET: int := -20

  /** The module-level `color_map` as the package defines it. */
  const DefaultColorMap: map<int, string> := map[
    DEBUG := LIGHTBLUE_EX, INFO := WHITE, WARNING := YELLOW, ERROR := LIGHTRED_EX,
    CRITICAL := RED, ARGS := CYAN, BRACKET := RESET_ALL]

  /** The module's own map has every standard level and both pseudo-levels,
      each an escape code: `format` with it never raises `KeyError` and
      colours every standard level. */
  lemma DefaultColorMapComplete()
    ensures forall lvl :: lvl in {DEBUG, INFO, WARNING, ERROR, CRITICAL, ARGS, BRACKET} ==> lvl in DefaultColorMap
    ensures forall lvl :: lvl in DefaultColorMap ==> EscapeCode(DefaultColorMap[lvl])
  {
  }

  /** What replaces each `{}` on the coloured path. */
  function ArgMarker(ac: string, bc: string, lc: string): string {
    bc + "[" + ac + "%s" + bc + "]" + lc
  }

  /** The message on the coloured path. */
  function ColourMessage(msg: string, hasArgs: bool, marker: string, lc: string): string {
    if hasArgs then ReplaceAll(lc + msg, "{}", marker) else lc + msg
  }

  /** The format-time behaviour of the package's `ChromaFormatter`. The
      module-level `color_map` is read on every call; it is the `colorMap`
      argument of `Format`. */
  class ChromaFormatter {
    var useColor: bool
    /** BRIGHT when the whole line is bold, else empty. */
    var allBold: string
    /** The template (`self._style._fmt`), fixed at construction. */
    var fmt: string

    constructor (msg: string, useColor: bool, allBold: bool)
      ensures this.useColor == useColor && this.allBold == (if allBold then BRIGHT else "")
      ensures !useColor ==> fmt == Strip(msg)
      ensures useColor ==>
                fmt == this.allBold + Resolve(AdjustFormatLengths(msg, true, this.allBold), this.allBold)
                       + RESET_ALL + this.allBold
    {
      this.useColor := useColor;
      var b := if allBold then BRIGHT else "";
      this.allBold := b;
      var t := FormatterMessage(msg, useColor, b);
      fmt := t;
    }

    /** `format`: restore the record, then either fill every `{}` without
        colour, or colour the message and the level name. A map without the
        ARGS or BRACKET entry raises `KeyError`. */
    method Format(record: LogRecord, colorMap: map<int, string>, render: Render)
      returns (r: Result<string>)
      modifies record
      ensures var st := InitRecordSpec(old(record.State()));
        if !useColor || st.levelno !in colorMap then
          record.State() == st.(msg := ReplaceAll(st.msg, "{}", "[%s]")) &&
          r == Ok(render(fmt, record.State()))
        else if BRACKET !in colorMap || ARGS !in colorMap then
          record.State() == st && r == MissingKey(if BRACKET !in colorMap then BRACKET else ARGS)
        else
          var bc := colorMap[BRACKET] + allBold;
          var ac := colorMap[ARGS] + allBold;
          var lc := colorMap[st.levelno] + allBold;
          record.State() == st.(msg := ColourMessage(st.msg, st.args != [], ArgMarker(ac, bc, lc), lc),
                                levelname := lc + st.levelname + RESET_ALL) &&
          r == Ok(render(fmt, record.State()))
    {
      InitRecord(record);
      if !useColor || record.levelno !in colorMap {
        record.msg := ReplaceAll(record.msg, "{}", "[%s]");
        r := Ok(render(fmt, record.State()));
        return;
      }
      if BRACKET !in colorMap {
        return MissingKey(BRACKET);
      }
      var bc := colorMap[BRACKET] + allBold;
      if ARGS !in colorMap {
        return MissingKey(ARGS);
      }
      var ac := colorMap[ARGS] + allBold;
      var lc := colorMap[record.levelno] + allBold;
      record.msg := lc + record.msg;
      if record.args != [] {
        record.msg := ReplaceAll(record.msg, "{}", ArgMarker(ac, bc, lc));
      }
      record.levelname := lc + record.levelname + RESET_ALL;
      r := Ok(render(fmt, record.State()));
    }
  }

  /** Uncoloured path: a message without escape codes gets none. */
  lemma PlainPathAddsNoColour(msg: string)
    requires ESC !in msg
    ensures ESC !in ReplaceAll(msg, "{}", "[%s]")
  {
    ReplaceAllFree(msg, "{}", "[%s]", ESC);
  }

  /** Coloured path: the message starts with the level colour, then the
      original message with each `{}` filled by the marker. */
  lemma ColourMessageShape(msg: string, marker: string, lc: string)
    requires '{' !in lc
    ensures ColourMessage(msg, true, marker, lc) == lc + ReplaceAll(msg, "{}", marker)
  {
    ReplaceAllKeepsPrefix(lc, msg, "{}", marker);
  }

  /** This variant has no lookaround guard: the `{}` inside `{{}}` is
      filled, where the guarded rewrite of module ColorFormatter keeps it. */
  lemma UnguardedFillsDoubled(x: string)
    ensures ReplaceAll("{{}}", "{}", x) == "{" + x + "}"
    ensures LoneBraces("{{}}", x) == "{{}}"
  {
    PrefixSlice("{{}}", "{}");
    assert "{{}}"[1..] == "{}" + "}";
    ReplaceAllAtStart("{}", "}", x);
    ReplaceAllKeepsPrefix("}", [], "{}", x);
    assert "}" + [] == "}";
    LoneSparesDoubled(x);
  }
}
