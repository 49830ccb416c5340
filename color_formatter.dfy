/** The formatter of src/chromalogging/chroma_formatter.py: the record
    snapshot/restore `_init_record` and the class `ChromaFormatter`, whose
    `format` colours one record at a time. Its template directives are
    resolved once, at construction, by `Directives.FormatMessage`. */
module ColorFormatter {
  import opened Wrappers
  import opened Ansi
  import opened Text
  import opened Directives
  import opened Placeholders
  import opened Logging

  /** Pseudo-levels keying the argument and bracket colours in the map. */
  const ARGS: int := -10
  const BRACKETS: int := -20

  const DefaultColorMap: map<int, string> := map[
    DEBUG := BLUE, INFO := CYAN, WARNING := YELLOW, ERROR := LIGHTRED_EX,
    CRITICAL := RED, ARGS := WHITE, BRACKETS := ""]

  // ---------------------------------------------------------------------
  // `_init_record`

  /** First touch: remember message and arguments and mark the record. */
  function Snapshot(st: RecordState): RecordState {
    st.(originalMsg := Some(st.msg), originalArgs := Some(st.args), consumed := Some(true))
  }

  /** `_init_record`, statement by statement. An attribute the record lacks
      raises `AttributeError`, which is caught by taking a snapshot; a
      restore made before the failing read stays in place. */
  function InitRecordSpec(st: RecordState): (r: RecordState)
    ensures r.levelname == st.levelname && r.levelno == st.levelno && r.originalLvl == st.originalLvl
    ensures st.consumed == Some(false) ==> r == st
    ensures st.consumed != Some(false) ==>
      r.consumed == Some(true) && r.originalMsg == Some(r.msg) && r.originalArgs == Some(r.args)
  {
    match st.consumed
    case None => Snapshot(st)
    case Some(c) =>
      if !c then st
      else
        match st.originalMsg
        case None => Snapshot(st)
        case Some(m) =>
          match st.originalArgs
          case None => Snapshot(st.(msg := m))
          case Some(a) => st.(msg := m, args := a)
  }

  method InitRecord(record: LogRecord)
    modifies record
    ensures record.State() == InitRecordSpec(old(record.State()))
  {
    if record.consumed.None? {
      record.originalMsg := Some(record.msg);
      record.originalArgs := Some(record.args);
      record.consumed := Some(true);
    } else if record.consumed.value {
      if record.originalMsg.None? {
        record.originalMsg := Some(record.msg);
        record.originalArgs := Some(record.args);
        record.consumed := Some(true);
      } else {
        record.msg := record.originalMsg.value;
        if record.originalArgs.None? {
          record.originalMsg := Some(record.msg);
          record.originalArgs := Some(record.args);
          record.consumed := Some(true);
        } else {
          record.args := record.originalArgs.value;
        }
      }
    }
  }

  /** The record carries a snapshot of message m0 and arguments a0. */
  predicate Snapshotted(st: RecordState, m0: string, a0: seq<string>) {
    st.consumed == Some(true) && st.originalMsg == Some(m0) && st.originalArgs == Some(a0)
  }

  /** The first call snapshots the record and changes nothing else. */
  lemma InitRecordFirst(st: RecordState)
    requires Untouched(st)
    ensures var r := InitRecordSpec(st);
      Snapshotted(r, st.msg, st.args) && r.msg == st.msg && r.args == st.args &&
      r.levelname == st.levelname && r.levelno == st.levelno && r.originalLvl == st.originalLvl
  {
  }

  /** Every later call puts the snapshot back and keeps it. */
  lemma InitRecordRestores(st: RecordState, m0: string, a0: seq<string>)
    requires Snapshotted(st, m0, a0)
    ensures InitRecordSpec(st) == st.(msg := m0, args := a0)
  {
  }

  /** A second call right after the first changes nothing. */
  lemma InitRecordIdempotent(st: RecordState)
    ensures InitRecordSpec(InitRecordSpec(st)) == InitRecordSpec(st)
  {
  }

  /** Whatever one formatter wrote into the message and arguments of a fresh
      record, the next formatter starts from the record as it was logged. */
  lemma SecondFormatterSeesPristine(st: RecordState, m: string, a: seq<string>)
    requires Untouched(st)
    ensures var seen := InitRecordSpec(InitRecordSpec(st).(msg := m, args := a));
      seen.msg == st.msg && seen.args == st.args
  {
    InitRecordFirst(st);
    InitRecordRestores(InitRecordSpec(st).(msg := m, args := a), st.msg, st.args);
  }

  // ---------------------------------------------------------------------
  // `format`

  /** What replaces a lone `{}` on the uncoloured path. */
  function PlainMarker(addBrackets: bool): string {
    if addBrackets then "[%s]" else "%s"
  }

  /** What replaces a lone `{}` on the coloured path: the argument in the
      argument colour, optionally between brackets in the bracket colour,
      followed by the level colour. */
  function ArgMarker(ac: string, bc: string, lc: string, addBrackets: bool): string {
    if addBrackets then ac + bc + "[" + ac + "%s" + bc + "]" + lc else ac + "%s" + lc
  }

  /** The message on the coloured path. */
  function ColourMessage(msg: string, hasArgs: bool, marker: string, lc: string): string {
    if hasArgs then LoneBraces(lc + msg, marker) else lc + msg
  }

  /** The saved template with every bold code moved to the front. Deleting
      the bold codes adds no character: a `$LEVEL`-free template stays so. */
  function BoldTemplate(t: string, bold: string): (r: string)
    ensures bold == [] ==> r == t
    ensures bold != [] ==> HasPrefix(r, BRIGHT)
    ensures forall c :: c !in t && c !in BRIGHT ==> c !in r
  {
    BoldFacts(t);
    if bold != [] then BRIGHT + ReplaceAll(t, BRIGHT, "") else t
  }

  /** Helper for BoldTemplate. */
  lemma BoldFacts(t: string)
    ensures HasPrefix(BRIGHT + ReplaceAll(t, BRIGHT, ""), BRIGHT)
    ensures forall c :: c !in t && c !in BRIGHT ==> c !in BRIGHT + ReplaceAll(t, BRIGHT, "")
  {
    PrefixSlice(BRIGHT + ReplaceAll(t, BRIGHT, ""), BRIGHT);
    forall c | c !in t && c !in BRIGHT
      ensures c !in BRIGHT + ReplaceAll(t, BRIGHT, "")
    {
      ReplaceAllFree(t, BRIGHT, "", c);
    }
  }

  /** The template the coloured path renders with, computed from the saved
      original alone. Bracket recolouring is the `colorBrackets` parameter.
      It ends in RESET_ALL, and with a level colour that is an escape code no
      `$LEVEL` is left, whatever the template and the bracket recolouring. */
  function ColourTemplate(orig: string, bold: string, bracketColour: string, lc: string,
                          colorBrackets: (string, string) -> string): (r: string)
    ensures |r| >= |RESET_ALL| && r[|r| - |RESET_ALL|..] == RESET_ALL
    ensures lc != [] && lc[0] == ESC && '$' !in lc ==> !Occurs(r, "$LEVEL")
  {
    var t := BoldTemplate(orig, bold);
    var t2 := if bracketColour != [] then colorBrackets(t, bracketColour + bold) else t;
    LevelFacts(t2, lc);
    ReplaceAll(t2, "$LEVEL", lc) + RESET_ALL
  }

  /** Helper for ColourTemplate. */
  lemma LevelFacts(t: string, lc: string)
    ensures var u := ReplaceAll(t, "$LEVEL", lc) + RESET_ALL;
      |u| >= |RESET_ALL| && u[|u| - |RESET_ALL|..] == RESET_ALL &&
      (lc != [] && lc[0] == ESC && '$' !in lc ==> !Occurs(u, "$LEVEL"))
  {
    var v := ReplaceAll(t, "$LEVEL", lc);
    assert (v + RESET_ALL)[|v|..] == RESET_ALL;
    if lc != [] && lc[0] == ESC && '$' !in lc {
      ReplaceAllRemoves(t, "$LEVEL", lc);
      NoOccurrenceAppend(v, RESET_ALL, "$LEVEL");
    }
  }

  /** Uncoloured path: a message without escape codes gets none, and
      without doubled braces every `{}` is filled. */
  lemma PlainPathAddsNoColour(msg: string, addBrackets: bool)
    ensures ESC !in msg ==> ESC !in LoneBraces(msg, PlainMarker(addBrackets))
    ensures NoBraceRuns(msg) ==>
              LoneBraces(msg, PlainMarker(addBrackets)) == ReplaceAll(msg, "{}", PlainMarker(addBrackets))
  {
    if ESC !in msg {
      LoneFree(msg, false, PlainMarker(addBrackets), ESC);
    }
    if NoBraceRuns(msg) {
      LoneIsPlain(msg, false, PlainMarker(addBrackets));
    }
  }

  /** Coloured path: the message starts with the level colour, then the
      original message with its lone `{}` filled by the marker. */
  lemma ColourMessageShape(msg: string, marker: string, lc: string)
    requires '{' !in lc
    ensures ColourMessage(msg, true, marker, lc) == lc + LoneBraces(msg, marker)
    ensures ColourMessage(msg, false, marker, lc) == lc + msg
  {
    LoneKeepsPrefix(lc, msg, marker);
  }

  /** The level colour is the map entry read on this call, followed by the
      bold code: it stands where the first `$LEVEL` of the (bold-moved,
      bracket-recoloured) template stood. */
  lemma ColourTemplateUsesEntry(orig: string, bold: string, bracketColour: string, entry: string,
                                colorBrackets: (string, string) -> string, pre: string, post: string)
    requires '$' !in pre
    requires (if bracketColour != [] then colorBrackets(BoldTemplate(orig, bold), bracketColour + bold)
              else BoldTemplate(orig, bold)) == pre + "$LEVEL" + post
    ensures ColourTemplate(orig, bold, bracketColour, entry + bold, colorBrackets)
         == pre + (entry + bold) + ReplaceAll(post, "$LEVEL", entry + bold) + RESET_ALL
  {
    ReplaceAllFirst(pre, "$LEVEL", post, entry + bold);
  }

  /** Bracket recolouring runs only when the BRACKETS colour is set: with it
      empty the template does not depend on it. */
  lemma BracketGuard(orig: string, bold: string, lc: string, f: (string, string) -> string,
                     g: (string, string) -> string)
    ensures ColourTemplate(orig, bold, "", lc, f) == ColourTemplate(orig, bold, "", lc, g)
  {
  }

  class ChromaFormatter {
    var useColor: bool
    var addBracketsToArgs: bool
    /** BRIGHT when the whole line is bold, else empty. */
    var bold: string
    /** The working template (`self._style._fmt`). */
    var fmt: string
    /** The template as resolved at construction; only set with colour on. */
    var originalStyleFmt: Option<string>
    var colorMap: map<int, string>

    /** The attributes `format` relies on exist. */
    predicate Valid()
      reads this
    {
      useColor ==> originalStyleFmt.Some?
    }

    constructor (msg: string, useColor: bool, allBold: bool)
      ensures Valid()
      ensures this.useColor == useColor && addBracketsToArgs
      ensures bold == (if allBold then BRIGHT else "")
      ensures !useColor ==> fmt == Strip(msg) && originalStyleFmt == None
      ensures useColor ==>
                fmt == bold + Resolve(msg, bold) + RESET_ALL + bold && originalStyleFmt == Some(fmt)
      ensures colorMap == DefaultColorMap
    {
      this.useColor := useColor;
      addBracketsToArgs := true;
      var b := if allBold then BRIGHT else "";
      bold := b;
      var t := FormatMessage(msg, useColor, b);
      fmt := t;
      originalStyleFmt := if useColor then Some(t) else None;
      colorMap := DefaultColorMap;
    }

    /** `format`: restore the record, then either fill lone `{}` without
        colour, or rebuild the template from the saved original and colour
        the message. A missing ARGS or BRACKETS entry raises `KeyError`. */
    method Format(record: LogRecord, render: Render, colorBrackets: (string, string) -> string)
      returns (r: Result<string>)
      requires Valid()
      modifies this, record
      ensures Valid() && unchanged(this`useColor, this`addBracketsToArgs, this`bold)
      ensures unchanged(this`originalStyleFmt, this`colorMap)
      ensures var st := InitRecordSpec(old(record.State()));
        if !useColor || st.levelno !in colorMap then
          fmt == old(fmt) &&
          record.State() == st.(msg := LoneBraces(st.msg, PlainMarker(addBracketsToArgs))) &&
          r == Ok(render(fmt, record.State()))
        else if BRACKETS !in colorMap || ARGS !in colorMap then
          fmt == BoldTemplate(originalStyleFmt.value, bold) && record.State() == st &&
          r == MissingKey(if BRACKETS !in colorMap then BRACKETS else ARGS)
        else
          var bc := colorMap[BRACKETS] + bold;
          var ac := colorMap[ARGS] + bold;
          var lc := colorMap[st.levelno] + bold;
          fmt == ColourTemplate(originalStyleFmt.value, bold, colorMap[BRACKETS], lc, colorBrackets) &&
          record.State() ==
            st.(msg := ColourMessage(st.msg, st.args != [], ArgMarker(ac, bc, lc, addBracketsToArgs), lc)) &&
          r == Ok(render(fmt, record.State()))
    {
      InitRecord(record);
      if !useColor || record.levelno !in colorMap {
        record.msg := LoneBraces(record.msg, PlainMarker(addBracketsToArgs));
        r := Ok(render(fmt, record.State()));
        return;
      }
      fmt := BoldTemplate(originalStyleFmt.value, bold);
      if BRACKETS !in colorMap {
        return MissingKey(BRACKETS);
      }
      var bc := colorMap[BRACKETS] + bold;
      if ARGS !in colorMap {
        return MissingKey(ARGS);
      }
      var ac := colorMap[ARGS] + bold;
      var lc := colorMap[record.levelno] + bold;
      if colorMap[BRACKETS] != [] {
        fmt := colorBrackets(fmt, bc);
      }
      ColourRecord(record, ArgMarker(ac, bc, lc, addBracketsToArgs), lc);
      fmt := ReplaceAll(fmt, "$LEVEL", lc) + RESET_ALL;
      r := Ok(render(fmt, record.State()));
    }
    }

  /** The message rewrite of the coloured path: the level colour in front,
      and, when there are arguments, each lone `{}` replaced by the marker. */
  method ColourRecord(record: LogRecord, marker: string, lc: string)
    modifies record
    ensures record.State() ==
      old(record.State()).(msg := ColourMessage(old(record.msg), old(record.args) != [], marker, lc))
  {
    record.msg := lc + record.msg;
    if record.args != [] {
      record.msg := LoneBraces(record.msg, marker);
    }
  }
}
