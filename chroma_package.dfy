/** The formatter of src/chromaformatter/__init__.py. The template keeps its
    `$LEVEL` markers; each `format` rebuilds the working template from the
    saved original with the level's colour, optionally wraps the message's
    `%s`/`%d` specs in argument colours, renders, and puts the message back. */
module ChromaPackage {
  import opened Wrappers
  import opened Ansi
  import opened Text
  import opened Placeholders
  import opened Logging

  /** The marker a template uses for the level colour. */
  const LEVEL_COLOR: string := "$LEVEL"

  const DefaultColorMap: map<int, string> := map[
    NOTSET := LIGHTBLUE_EX, DEBUG := BLUE, INFO := CYAN, WARNING := YELLOW,
    ERROR := LIGHTRED_EX, CRITICAL := RED]

  /** Python truthiness of an optional colour. */
  predicate IsSet(c: Option<string>) {
    c.Some? && c.value != []
  }

  /** The message the coloured path renders: specs wrapped and `$LEVEL`
      resolved, when there are arguments and both argument colours are set.
      Then no `$LEVEL` is left, whatever colours were configured; a message
      without `%` and `$` is never changed. */
  function ArgMessage(msg: string, hasArgs: bool, start: Option<string>, end: Option<string>,
                      lc: string): (r: string)
    ensures hasArgs && IsSet(start) && IsSet(end) && EscapeCode(lc) ==> !Occurs(r, LEVEL_COLOR)
    ensures '%' !in msg && '$' !in msg ==> r == msg
  {
    if hasArgs && IsSet(start) && IsSet(end) then
      var w := WrapSpecs(msg, start.value, end.value);
      ReplaceFacts(w, lc);
      ReplaceAll(w, LEVEL_COLOR, lc)
    else msg
  }

  /** Helper for ArgMessage. */
  lemma ReplaceFacts(w: string, lc: string)
    ensures EscapeCode(lc) ==> !Occurs(ReplaceAll(w, LEVEL_COLOR, lc), LEVEL_COLOR)
    ensures '$' !in w ==> ReplaceAll(w, LEVEL_COLOR, lc) == w
  {
    if EscapeCode(lc) {
      LevelResolvedEverywhere(w, lc);
    }
    if '$' !in w {
      ReplaceAllKeepsPrefix(w, [], LEVEL_COLOR, lc);
      assert w + [] == w;
    }
  }

  class ChromaFormatter {
    /** The working template (`self._style._fmt`). */
    var fmt: string
    var originalStyleFmt: string
    var argStartColor: Option<string>
    var argEndColor: Option<string>
    var colorMap: map<int, string>

    constructor (fmt: string, argStartColor: Option<string>, argEndColor: Option<string>)
      ensures this.fmt == fmt + RESET_ALL && originalStyleFmt == this.fmt
      ensures this.argStartColor == argStartColor && this.argEndColor == argEndColor
      ensures colorMap == DefaultColorMap
    {
      this.fmt := fmt + RESET_ALL;
      originalStyleFmt := fmt + RESET_ALL;
      this.argStartColor := argStartColor;
      this.argEndColor := argEndColor;
      colorMap := DefaultColorMap;
    }

    /** `format`. A level outside the map renders with the working template
        as the previous call left it. The record is as before afterwards. */
    method Format(record: LogRecord, render: Render) returns (s: string)
      modifies this, record
      ensures unchanged(this`originalStyleFmt, this`argStartColor, this`argEndColor, this`colorMap)
      ensures record.State() == old(record.State())
      ensures var st := old(record.State());
        if st.levelno !in colorMap then
          fmt == old(fmt) && s == render(fmt, st)
        else
          var lc := colorMap[st.levelno];
          fmt == ReplaceAll(originalStyleFmt, LEVEL_COLOR, lc) &&
          s == render(fmt, st.(msg := ArgMessage(st.msg, st.args != [], argStartColor, argEndColor, lc)))
    {
      var msg := record.msg;
      if record.levelno !in colorMap {
        s := render(fmt, record.State());
        return;
      }
      fmt := originalStyleFmt;
      var lc := colorMap[record.levelno];
      if record.args != [] && IsSet(argStartColor) && IsSet(argEndColor) {
        record.msg := ReplaceAll(WrapSpecs(record.msg, argStartColor.value, argEndColor.value), LEVEL_COLOR, lc);
      }
      fmt := ReplaceAll(fmt, LEVEL_COLOR, lc);
      s := render(fmt, record.State());
      record.msg := msg;
    }
  }

  /** A formatter built from fmt: the template gains RESET_ALL and keeps its
      `$LEVEL` markers; after a call with a level in the map, the template
      holds none of them and still ends in RESET_ALL. */
  lemma TemplateResolved(fmt: string, lc: string)
    requires lc != [] && lc[0] == ESC && '$' !in lc
    ensures var t := ReplaceAll(fmt + RESET_ALL, LEVEL_COLOR, lc);
      !Occurs(t, LEVEL_COLOR) && |t| >= |RESET_ALL| && t[|t| - |RESET_ALL|..] == RESET_ALL
  {
    ReplaceAllRemoves(fmt + RESET_ALL, LEVEL_COLOR, lc);
    ReplaceAllSuffix(fmt, RESET_ALL, LEVEL_COLOR, lc);
    var u := ReplaceAll(fmt, LEVEL_COLOR, lc);
    assert (u + RESET_ALL)[|u|..] == RESET_ALL;
  }

  /** The colour used is the map's entry on this call: it stands where the
      first `$LEVEL` of the template stood. */
  lemma TemplateUsesEntry(pre: string, post: string, entry: string)
    requires '$' !in pre
    ensures ReplaceAll(pre + LEVEL_COLOR + post, LEVEL_COLOR, entry)
         == pre + entry + ReplaceAll(post, LEVEL_COLOR, entry)
  {
    ReplaceAllFirst(pre, LEVEL_COLOR, post, entry);
  }

  /** A message with one `%s`: the argument is preceded by the start colour
      and followed by the end colour. An end colour of `$LEVEL` becomes the
      level colour, so the text after the argument returns to it. */
  lemma OneArgColoured(pre: string, post: string, start: string, lc: string)
    requires '%' !in pre && '%' !in post && '$' !in pre && '$' !in post && '$' !in start && start != []
    ensures ArgMessage(pre + "%s" + post, true, Some(start), Some(LEVEL_COLOR), lc)
         == pre + start + "%s" + lc + post
  {
    WrapOneSpec(pre, post, start, LEVEL_COLOR);
    var head := pre + start + "%s";
    assert head + LEVEL_COLOR + post == pre + start + "%s" + LEVEL_COLOR + post;
    ReplaceAllFirst(head, LEVEL_COLOR, post, lc);
    ReplaceAllKeepsPrefix(post, [], LEVEL_COLOR, lc);
    assert post + [] == post;
  }

  /** Without arguments, or with either argument colour unset or empty, the
      message is rendered as logged. */
  lemma UnsetColoursKeepMessage(msg: string, hasArgs: bool, start: Option<string>,
                                end: Option<string>, lc: string)
    requires !hasArgs || !IsSet(start) || !IsSet(end)
    ensures ArgMessage(msg, hasArgs, start, end, lc) == msg
  {
  }

  /** The template of tests/test_chroma_formatter.py, before construction:
      a head, `$LEVEL`, a middle, `$LEVEL`, and a tail. */
  const ExampleHead: string := GREEN + "[%(asctime)-0s]"
  const ExampleMiddle: string := "[%(levelname)-0s]" + MAGENTA + "[%(filename)-0s:" + "%(lineno)-0d]"
  const ExampleTail: string := ": %(message)s"
  const ExampleFormat: string := ExampleHead + LEVEL_COLOR + ExampleMiddle + LEVEL_COLOR + ExampleTail

  /** With the INFO colour, both markers of that template become CYAN, and
      the template ends in RESET_ALL. */
  lemma ExampleTemplateAtInfo()
    ensures ReplaceAll(ExampleFormat + RESET_ALL, LEVEL_COLOR, DefaultColorMap[INFO])
         == ExampleHead + CYAN + ExampleMiddle + CYAN + ExampleTail + RESET_ALL
  {
    assert '$' !in ExampleHead && '$' !in ExampleMiddle && '$' !in ExampleTail;
    TwoMarkers(ExampleHead, ExampleMiddle, ExampleTail, RESET_ALL, CYAN);
  }

  /** Helper for ExampleTemplateAtInfo, in the shape of its template. */
  lemma TwoMarkers(h: string, m: string, t: string, z: string, lc: string)
    requires '$' !in h && '$' !in m && '$' !in t && '$' !in z
    ensures ReplaceAll(h + LEVEL_COLOR + m + LEVEL_COLOR + t + z, LEVEL_COLOR, lc)
         == h + lc + m + lc + t + z
  {
    var post := t + z;
    var rest := m + LEVEL_COLOR + post;
    AppendAssoc(h + LEVEL_COLOR + m + LEVEL_COLOR, t, z);
    AppendAssoc(h + LEVEL_COLOR, m, LEVEL_COLOR);
    AppendAssoc(h + LEVEL_COLOR, m + LEVEL_COLOR, post);
    ReplaceAllFirst(h, LEVEL_COLOR, rest, lc);
    ReplaceAllFirst(m, LEVEL_COLOR, post, lc);
    ReplaceAllKeepsPrefix(post, [], LEVEL_COLOR, lc);
    assert post + [] == post;
    AppendAssoc(h + lc, m + lc, post);
    AppendAssoc(h + lc, m, lc);
    AppendAssoc(h + lc + m + lc, t, z);
  }
}
