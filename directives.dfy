/** The directive resolver of src/chromalogging/chroma_formatter.py
    (`_format_message`): `$RESET`, `$BOLD`, `$RED`, ... in a template become
    escape codes, or every `$WORD` directive is deleted when colour is off.

    The resolver is a chain of passes (reset rule, bold rule, then one
    `str.replace` per colour-table entry in table order). By Scanning.ChainIsScan
    the chain reads the template once, left to right, trying the rules in that
    order at every `$`; Resolve is that single reading, and the lemmas below
    state what it does to each directive. */
module Directives {
  import opened Ansi
  import opened Text
  import opened Scanning

  /** The colour words of the table and their codes, in iteration order. */
  const WordToColor: seq<(string, string)> := [
    ("BLACK", BLACK), ("RED", RED), ("GREEN", GREEN), ("YELLOW", YELLOW),
    ("BLUE", BLUE), ("MAGENTA", MAGENTA), ("CYAN", CYAN), ("WHITE", WHITE),
    ("RESET", FORE_RESET),
    ("LI_BLACK", LIGHTBLACK_EX), ("LI_RED", LIGHTRED_EX),
    ("LI_GREEN", LIGHTGREEN_EX), ("LI_YELLOW", LIGHTYELLOW_EX),
    ("LI_BLUE", LIGHTBLUE_EX), ("LI_MAGENTA", LIGHTMAGENTA_EX),
    ("LI_CYAN", LIGHTCYAN_EX), ("LI_WHITE", LIGHTWHITE_EX)]

  /** What the resolver needs of a colour table: every word is a directive
      name and every colour an escape code. */
  predicate TableOk(table: seq<(string, string)>) {
    forall i :: 0 <= i < |table| ==> WordOk(table[i].0) && EscapeCode(table[i].1)
  }

  lemma WordToColorOk()
    ensures TableOk(WordToColor)
  {
  }

  /** The passes of `_format_message` with colour on, in the order they run:
      the reset rule, the bold rule, then `$word` -> colour + bold for each
      table entry. */
  function Rules(table: seq<(string, string)>, bold: string): (rules: seq<Rule>)
    requires TableOk(table)
    ensures |rules| == 2 + |table|
    ensures rules[0] == Rule(ResetOrR, RESET_ALL + bold) && rules[1] == Rule(BoldOrB, BRIGHT)
    ensures forall i :: 0 <= i < |table| ==> rules[2 + i] == Rule(Literal(table[i].0), table[i].1 + bold)
  {
    [Rule(ResetOrR, RESET_ALL + bold), Rule(BoldOrB, BRIGHT)] +
    seq(|table|, i requires 0 <= i < |table| => Rule(Literal(table[i].0), table[i].1 + bold))
  }

  /** The passes compose (Scanning.ChainIsScan applies) as long as `bold`
      holds no `$`. */
  lemma RulesOkFor(table: seq<(string, string)>, bold: string)
    requires TableOk(table)
    ensures '$' !in bold ==> ReplOk(Rules(table, bold))
  {
    var rules := Rules(table, bold);
    forall i | 0 <= i < |rules|
      ensures '$' !in bold ==> '$' !in rules[i].repl && LeadSafe(rules[i])
    {
      if i >= 2 {
        var c := table[i - 2].1;
        assert rules[i].repl == c + bold;
        assert (c + bold)[0] == c[0];
      }
    }
  }

  /** The template read once, left to right: at each `$` the reset rule, the
      bold rule and then the table entries are tried in that order. This is
      what the colour-on passes of `_format_message`, run one after another,
      compute; a template without `$` is left as it is. */
  function Resolve(s: string, bold: string): (r: string)
    ensures '$' !in bold ==> r == Chain(Rules(WordToColor, bold), s)
    ensures '$' !in s ==> r == s
  {
    WordToColorOk();
    RulesOkFor(WordToColor, bold);
    var rules := Rules(WordToColor, bold);
    ResolveFacts(rules, s, '$' !in bold);
    Scan(rules, s)
  }

  /** Resolution is the single scan with the resolver's rules. */
  lemma ResolveIsScan(s: string, bold: string)
    ensures TableOk(WordToColor)
    ensures Resolve(s, bold) == Scan(Rules(WordToColor, bold), s)
  {
    WordToColorOk();
  }

  /** Helper for Resolve: the chain and the copy facts of the scan. */
  lemma ResolveFacts(rules: seq<Rule>, s: string, ok: bool)
    requires ok ==> ReplOk(rules)
    ensures ok ==> Scan(rules, s) == Chain(rules, s)
    ensures '$' !in s ==> Scan(rules, s) == s
  {
    if ok {
      ChainIsScan(rules, s);
    }
    if '$' !in s {
      DollarFreeUnchanged(rules, s);
    }
  }

  /** `re.sub(r'\$[A-Z_]+\b', '', msg)`: the colour-off path. It only deletes
      characters, so it adds no escape code or anything else. */
  function Strip(s: string): (r: string)
    ensures Subseq(r, s)
  {
    PassDeletes(AnyWord, s);
    Pass(AnyWord, "", s)
  }

  /** `_format_message`: with colour off the directives are deleted; with
      colour on the template is wrapped in `bold ... $RESET` and every
      directive resolved. */
  method FormatMessage(msg: string, useColor: bool, bold: string) returns (r: string)
    ensures !useColor ==> r == Strip(msg)
    ensures useColor && '$' !in bold ==> r == bold + Resolve(msg, bold) + RESET_ALL + bold
  {
    if !useColor {
      r := Pass(AnyWord, "", msg);
      return;
    }
    WordToColorOk();
    var m0 := bold + msg + "$RESET";
    r := ResolvePasses(m0, WordToColor, bold);
    if '$' !in bold {
      RulesOkFor(WordToColor, bold);
      ChainIsScan(Rules(WordToColor, bold), m0);
      ResolveWrapped(msg, bold);
    }
  }

  /** The colour-on passes over a template: the reset rule, the bold rule,
      then one `str.replace` per table entry, in table order. */
  method ResolvePasses(m: string, table: seq<(string, string)>, bold: string) returns (r: string)
    requires TableOk(table)
    ensures r == Chain(Rules(table, bold), m)
  {
    ghost var rules := Rules(table, bold);
    assert rules[..0] == [];
    r := Pass(ResetOrR, RESET_ALL + bold, m);
    ChainStep(rules, 0, m);
    r := Pass(BoldOrB, BRIGHT, r);
    ChainStep(rules, 1, m);
    for i := 0 to |table|
      invariant r == Chain(rules[..2 + i], m)
    {
      r := Pass(Literal(table[i].0), table[i].1 + bold, r);
      ChainStep(rules, 2 + i, m);
    }
    assert rules[..2 + |table|] == rules;
  }

  /** Text without `$` is copied unchanged. */
  lemma ResolveKeepsPrefix(a: string, b: string, bold: string)
    requires '$' !in a
    ensures Resolve(a + b, bold) == a + Resolve(b, bold)
  {
    WordToColorOk();
    RulesOkFor(WordToColor, bold);
    ScanKeepsPrefix(Rules(WordToColor, bold), a, b);
  }

  /** Directives never straddle a non-word character: the text resolves
      piece by piece. */
  lemma ResolveSplit(a: string, b: string, bold: string)
    requires LeadOk(b)
    ensures Resolve(a + b, bold) == Resolve(a, bold) + Resolve(b, bold)
  {
    WordToColorOk();
    RulesOkFor(WordToColor, bold);
    ScanSplit(Rules(WordToColor, bold), a, b);
  }

  /** The wrapping `bold` and `$RESET` resolve to the leading bold and the
      trailing `RESET + bold`. */
  lemma ResolveWrapped(msg: string, bold: string)
    requires '$' !in bold
    ensures Resolve(bold + msg + "$RESET", bold) == bold + Resolve(msg, bold) + RESET_ALL + bold
  {
    assert bold + msg + "$RESET" == bold + (msg + "$RESET");
    ResolveKeepsPrefix(bold, msg + "$RESET", bold);
    ResolveSplit(msg, "$RESET", bold);
    ResolveResetWord(bold);
    AppendAssoc(bold, Resolve(msg, bold), RESET_ALL + bold);
  }

  /** `$RESET` resolves to `RESET + bold`, whatever follows it. */
  lemma ResolveReset(rest: string, bold: string)
    ensures Resolve("$RESET" + rest, bold) == RESET_ALL + bold + Resolve(rest, bold)
  {
    WordToColorOk();
    var rules, s := Rules(WordToColor, bold), "$RESET" + rest;
    assert s[1..] == "RESET" + rest;
    PrefixSlice(s[1..], "RESET");
    HitIs(rules, s, 0);
    ScanUnfold(rules, s, 6, RESET_ALL + bold);
    assert s[6..] == rest;
  }

  /** `$RESET` on its own resolves to `RESET + bold`. */
  lemma ResolveResetWord(bold: string)
    ensures Resolve("$RESET", bold) == RESET_ALL + bold
  {
    ResolveReset("", bold);
    assert "$RESET" + "" == "$RESET";
    assert Resolve("", bold) == "";
  }

  /** A bare `$R` resolves to `RESET + bold` whatever follows it, unless it
      starts `$RESET` (the long form) or `$RED` (the lookahead `(?!ED)`):
      `$Rx` becomes `RESET + bold` then `x`. */
  lemma ResolveShortReset(rest: string, bold: string)
    requires !HasPrefix(rest, "ED") && !HasPrefix(rest, "ESET")
    ensures Resolve("$R" + rest, bold) == RESET_ALL + bold + Resolve(rest, bold)
  {
    WordToColorOk();
    var rules, s := Rules(WordToColor, bold), "$R" + rest;
    assert s[1..] == "R" + rest && s[1..][1..] == rest;
    assert !HasPrefix(s[1..], "RESET") by {
      assert "RESET"[1..] == "ESET";
    }
    assert HasPrefix(s[1..], "R") by {
      assert "R"[1..] == [];
    }
    HitIs(rules, s, 0);
    ScanUnfold(rules, s, 2, RESET_ALL + bold);
    assert s[2..] == rest;
  }

  /** The reset rule never consumes `$RED`: `$R` is only taken when no `ED`
      follows. */
  lemma ResetSparesRed(t: string)
    ensures MatchLen(ResetOrR, "$RED" + t) == 0
  {
    var s := "$RED" + t;
    assert s[1..] == "RED" + t && s[1..][1..] == "ED" + t;
    PrefixSlice(s[1..], "RESET");
    if |s[1..]| >= 5 {
      assert s[1..][..5][2] == 'D';
    }
    PrefixSlice("ED" + t, "ED");
  }

  /** `$BOLD` resolves to BRIGHT, whatever follows it. */
  lemma ResolveBold(rest: string, bold: string)
    ensures Resolve("$BOLD" + rest, bold) == BRIGHT + Resolve(rest, bold)
  {
    WordToColorOk();
    var rules, s := Rules(WordToColor, bold), "$BOLD" + rest;
    assert s[1..] == "BOLD" + rest;
    PrefixSlice(s[1..], "BOLD");
    assert !HasPrefix(s[1..], "RESET") && !HasPrefix(s[1..], "R");
    HitIs(rules, s, 1);
    ScanUnfold(rules, s, 5, BRIGHT);
    assert s[5..] == rest;
  }

  /** A bare `$B` resolves to BRIGHT whatever follows it, unless it starts
      `$BOLD` (the long form), `$BLUE` or `$BLACK` (the lookahead
      `(?!LUE|LACK)`): `$Bx` becomes BRIGHT then `x`. */
  lemma ResolveShortBold(rest: string, bold: string)
    requires !HasPrefix(rest, "OLD") && !HasPrefix(rest, "LUE") && !HasPrefix(rest, "LACK")
    ensures Resolve("$B" + rest, bold) == BRIGHT + Resolve(rest, bold)
  {
    WordToColorOk();
    var rules, s := Rules(WordToColor, bold), "$B" + rest;
    assert s[1..] == "B" + rest && s[1..][1..] == rest;
    assert !HasPrefix(s[1..], "RESET") && !HasPrefix(s[1..], "R");
    assert !HasPrefix(s[1..], "BOLD") by {
      assert "BOLD"[1..] == "OLD";
    }
    assert HasPrefix(s[1..], "B") by {
      assert "B"[1..] == [];
    }
    HitIs(rules, s, 1);
    ScanUnfold(rules, s, 2, BRIGHT);
    assert s[2..] == rest;
  }

  /** The bold rule never consumes `$BLUE` or `$BLACK`. */
  lemma BoldSparesBlueAndBlack(t: string)
    ensures MatchLen(BoldOrB, "$BLUE" + t) == 0
    ensures MatchLen(BoldOrB, "$BLACK" + t) == 0
  {
    var s, s' := "$BLUE" + t, "$BLACK" + t;
    assert s[1..] == "BLUE" + t && s[1..][1..] == "LUE" + t;
    assert s'[1..] == "BLACK" + t && s'[1..][1..] == "LACK" + t;
    PrefixSlice(s[1..], "BOLD");
    PrefixSlice(s'[1..], "BOLD");
    assert s[1..][..4][1] == 'L' && s'[1..][..4][1] == 'L';
    PrefixSlice("LUE" + t, "LUE");
    PrefixSlice("LACK" + t, "LACK");
  }

  // ---------------------------------------------------------------------
  // The colour table: every entry but RESET is reached.

  /** `$word` of table entry i resolves to its colour followed by bold,
      whatever follows it: `str.replace` has no word boundary, so `$GREENish`
      becomes GREEN + bold + `ish`. The table's own RESET entry (Fore.RESET)
      is never reached: the reset rule runs first and takes every `$RESET`
      (ResolveReset). */
  lemma ResolveTableWord(i: nat, rest: string, bold: string)
    requires i < |WordToColor| && i != 8
    ensures Resolve("$" + WordToColor[i].0 + rest, bold) == WordToColor[i].1 + bold + Resolve(rest, bold)
  {
    WordToColorOk();
    var w, c := WordToColor[i].0, WordToColor[i].1 + bold;
    var rules, s := Rules(WordToColor, bold), "$" + w + rest;
    TableWordHit(i, rest, bold);
    ScanUnfold(rules, s, 1 + |w|, c);
    assert s[1 + |w|..] == rest;
  }

  /** Colour on and colour off disagree on a directive glued to a word: with
      colour on `$GREENish` becomes GREEN + bold + `ish` (`str.replace`
      needs no boundary), with colour off `\b` fails after `$GREEN` and the
      whole `$GREENish` is kept. */
  lemma GluedDirective(i: nat, rest: string, bold: string)
    requires i < |WordToColor| && i != 8
    requires rest != [] && IsWordChar(rest[0]) && !IsTokenChar(rest[0])
    ensures Resolve("$" + WordToColor[i].0 + rest, bold) == WordToColor[i].1 + bold + Resolve(rest, bold)
    ensures Strip("$" + WordToColor[i].0 + rest) == "$" + WordToColor[i].0 + Strip(rest)
  {
    ResolveTableWord(i, rest, bold);
    WordToColorOk();
    StripKeepsGlued(WordToColor[i].0, rest);
  }

  /** Colour off: a name run on into a lower-case letter or a digit is no
      directive, and is kept. */
  lemma StripKeepsGlued(w: Name, rest: string)
    requires rest != [] && IsWordChar(rest[0]) && !IsTokenChar(rest[0])
    ensures Strip("$" + w + rest) == "$" + w + Strip(rest)
  {
    var rules, s := [Rule(AnyWord, "")], "$" + w + rest;
    assert s[1..] == w + rest;
    TokenRunExtend(w, rest);
    TokenRunAll(w);
    assert (w + rest)[|w|] == rest[0];
    assert MatchLen(AnyWord, s) == 0;
    assert '$' !in w by {
      assert forall k :: 0 <= k < |w| ==> IsTokenChar(w[k]);
    }
    SkipsMiss(rules, s, w, rest);
  }

  /** Entry i is the first rule that matches at `$word`, whatever follows the
      word, and it takes the whole `$word`. */
  lemma TableWordHit(i: nat, rest: string, bold: string)
    requires i < |WordToColor| && i != 8
    ensures TableOk(WordToColor)
    ensures Hit(Rules(WordToColor, bold), "$" + WordToColor[i].0 + rest) == 2 + i
    ensures MatchLen(Literal(WordToColor[i].0), "$" + WordToColor[i].0 + rest) == 1 + |WordToColor[i].0|
  {
    WordToColorOk();
    var w := WordToColor[i].0;
    var rules, s := Rules(WordToColor, bold), "$" + w + rest;
    assert s[1..] == w + rest && s[0] == '$';
    assert MatchLen(rules[2 + i].pat, s) == 1 + |w| by {
      PrefixSlice(w, w);
      PrefixAppend(w, rest, w);
    }
    assert MatchLen(rules[0].pat, s) == 0 && MatchLen(rules[1].pat, s) == 0 by {
      ResetBoldMiss(i);
      WordMissesLookahead(w, rest, "RESET", "R", "ED", "ED");
      WordMissesLookahead(w, rest, "BOLD", "B", "LUE", "LACK");
    }
    assert forall j :: 2 <= j < 2 + i ==> MatchLen(rules[j].pat, s) == 0 by {
      Unshadowed(i);
      Unprefixed(i);
      EarlierWordsMiss(WordToColor, i, rest, rules, bold);
    }
    HitIs(rules, s, 2 + i);
  }

  /** Helper for TableWordHit: no table entry before entry i matches at
      `$word`, whatever follows, when no two of them start one another. */
  lemma EarlierWordsMiss(table: seq<(string, string)>, i: nat, rest: string, rules: seq<Rule>, bold: string)
    requires TableOk(table) && i < |table| && rules == Rules(table, bold)
    requires forall j :: 0 <= j < i ==>
      !HasPrefix(table[i].0, table[j].0) && !HasPrefix(table[j].0, table[i].0)
    ensures forall j :: 2 <= j < 2 + i ==>
      MatchLen(rules[j].pat, "$" + table[i].0 + rest) == 0
  {
    var w := table[i].0;
    var s := "$" + w + rest;
    assert s[1..] == w + rest && s[0] == '$';
    forall j | 2 <= j < 2 + i
      ensures MatchLen(rules[j].pat, s) == 0
    {
      var v := table[j - 2].0;
      assert rules[j].pat == Literal(v);
      PrefixCompare(w, rest, v);
    }
  }

  /** A lookahead rule misses `$w...` when it misses `$w` on its own. */
  lemma WordMissesLookahead(w: Name, rest: string, long: string, short: Name, not1: string, not2: string)
    requires !HasPrefix(w, long) && !HasPrefix(long, w)
    requires |short| == 1
    requires HasPrefix(w, short) ==> HasPrefix(w[1..], not1) || HasPrefix(w[1..], not2)
    ensures !HasPrefix(w + rest, long)
    ensures HasPrefix(w + rest, short) ==>
      HasPrefix((w + rest)[1..], not1) || HasPrefix((w + rest)[1..], not2)
  {
    PrefixCompare(w, rest, long);
    if HasPrefix(w + rest, short) {
      PrefixSlice(w + rest, short);
      PrefixSlice(w, short);
      assert w[..1] == (w + rest)[..1];
      assert (w + rest)[1..] == w[1..] + rest;
      PrefixAppend(w[1..], rest, not1);
      PrefixAppend(w[1..], rest, not2);
    }
  }

  /** Neither of two words starting the other, `p` does not start `w + rest`. */
  lemma PrefixCompare(w: string, rest: string, p: string)
    requires !HasPrefix(w, p) && !HasPrefix(p, w)
    ensures !HasPrefix(w + rest, p)
  {
    PrefixSlice(w + rest, p);
    PrefixSlice(w, p);
    PrefixSlice(p, w);
    if |p| <= |w| {
      assert (w + rest)[..|p|] == w[..|p|];
    } else if |p| <= |w + rest| {
      assert (w + rest)[..|p|][..|w|] == w;
    }
  }

  /** A prefix of `w` is a prefix of `w + rest`. */
  lemma PrefixAppend(w: string, rest: string, p: string)
    ensures HasPrefix(w, p) ==> HasPrefix(w + rest, p)
  {
    PrefixSlice(w + rest, p);
    PrefixSlice(w, p);
    if HasPrefix(w, p) {
      assert (w + rest)[..|p|] == w[..|p|];
    }
  }

  /** `$LEVEL` is not a directive of the resolver, whatever follows it: it is
      kept for the per-record formatter to fill in. */
  lemma ResolveLevel(rest: string, bold: string)
    ensures Resolve("$LEVEL" + rest, bold) == "$LEVEL" + Resolve(rest, bold)
  {
    WordToColorOk();
    var rules := Rules(WordToColor, bold);
    assert Scan(rules, "$LEVEL" + rest) == "$LEVEL" + Scan(rules, rest) by {
      LevelMisses(rest, bold);
      SkipsMiss(rules, "$LEVEL" + rest, "LEVEL", rest);
    }
    ResolveIsScan("$LEVEL" + rest, bold);
    ResolveIsScan(rest, bold);
  }

  /** Where no rule matches at `$`, the `$` and the `$`-free name after it
      are copied. */
  lemma SkipsMiss(rules: seq<Rule>, s: string, w: string, rest: string)
    requires s == "$" + w + rest && '$' !in w
    requires forall j :: 0 <= j < |rules| ==> MatchLen(rules[j].pat, s) == 0
    ensures Scan(rules, s) == "$" + w + Scan(rules, rest)
  {
    HitIs(rules, s, |rules|);
    ScanUnfold(rules, s, 1, "$");
    assert s[1..] == w + rest;
    ScanKeepsPrefix(rules, w, rest);
    AppendAssoc("$", w, Scan(rules, rest));
  }

  /** No rule of the resolver matches at `$LEVEL`. */
  lemma LevelMisses(rest: string, bold: string)
    ensures TableOk(WordToColor)
    ensures forall j :: 0 <= j < |Rules(WordToColor, bold)| ==>
      MatchLen(Rules(WordToColor, bold)[j].pat, "$LEVEL" + rest) == 0
  {
    WordToColorOk();
    var rules, s := Rules(WordToColor, bold), "$LEVEL" + rest;
    var t := s[1..];
    assert t == "LEVEL" + rest && t[0] == 'L' && t[1] == 'E';
    FirstLetters();
    LightNames();
    forall j | 0 <= j < |rules|
      ensures MatchLen(rules[j].pat, s) == 0
    {
      if j >= 11 {
        var w := WordToColor[j - 2].0;
        assert w == "LI_" + WordToColor[j - 11].0;
        assert w[1] == 'I';
        PrefixSlice(t, w);
        assert |w| <= |t| ==> t[..|w|][1] == 'E';
      } else if j >= 2 {
        assert WordToColor[j - 2].0[0] != 'L';
      }
    }
  }

  /** No table word is the start of a later one: `$LI_RED` cannot be read as
      an earlier entry followed by more text. */
  lemma Unprefixed(i: nat)
    requires i < |WordToColor|
    ensures forall j :: 0 <= j < i ==> !HasPrefix(WordToColor[j].0, WordToColor[i].0)
  {
    FirstLetters();
    LightNames();
    if i < 9 {
      forall j | 0 <= j < i
        ensures !HasPrefix(WordToColor[j].0, WordToColor[i].0)
      {
        var a, b := WordToColor[i].0, WordToColor[j].0;
        if i == 4 && j == 0 {
          PrefixSlice(b, a);
          assert b[2] != a[2];
        } else if i == 8 && j == 1 {
          assert |b| < |a|;
        } else {
          assert a[0] != b[0];
        }
      }
    } else {
      Unprefixed(i - 9);
      forall j | 0 <= j < i
        ensures !HasPrefix(WordToColor[j].0, WordToColor[i].0)
      {
        if j >= 9 {
          CommonHead("LI_", WordToColor[j - 9].0, WordToColor[i - 9].0);
        }
      }
    }
  }

  /** Only RED and RESET start with R, and only BLUE and BLACK with B. */
  lemma ResetBoldMiss(i: nat)
    requires i < |WordToColor| && i != 8
    ensures !HasPrefix(WordToColor[i].0, "RESET") && !HasPrefix(WordToColor[i].0, "BOLD")
    ensures !HasPrefix("RESET", WordToColor[i].0) && !HasPrefix("BOLD", WordToColor[i].0)
    ensures HasPrefix(WordToColor[i].0, "R") ==> HasPrefix(WordToColor[i].0[1..], "ED")
    ensures HasPrefix(WordToColor[i].0, "B") ==>
      HasPrefix(WordToColor[i].0[1..], "LUE") || HasPrefix(WordToColor[i].0[1..], "LACK")
  {
    if i == 0 {
    } else if i == 1 {
    } else if i == 4 {
    } else {
      FirstLetters();
    }
  }

  lemma FirstLetters()
    ensures forall i :: 0 <= i < 9 ==> WordToColor[i].0[0] != 'L'
    ensures forall i :: 9 <= i < |WordToColor| ==> WordToColor[i].0[0] == 'L'
    ensures forall i :: 0 <= i < |WordToColor| && i != 0 && i != 1 && i != 4 && i != 8 ==>
      WordToColor[i].0[0] != 'R' && WordToColor[i].0[0] != 'B'
  {
  }

  /** The LI_ entries repeat the first eight names behind `LI_`. */
  lemma LightNames()
    ensures forall k :: 0 <= k < 8 ==> WordToColor[9 + k].0 == "LI_" + WordToColor[k].0
  {
  }

  /** No earlier table word is a prefix of entry i, so `str.replace` of an
      earlier entry never eats `$word` of entry i. */
  lemma Unshadowed(i: nat)
    requires i < |WordToColor|
    ensures forall j :: 0 <= j < i ==> !HasPrefix(WordToColor[i].0, WordToColor[j].0)
  {
    if i < 9 {
      BaseUnshadowed(i);
    } else {
      FirstLetters();
      LightNames();
      BaseUnshadowed(i - 9);
      forall j | 0 <= j < i
        ensures !HasPrefix(WordToColor[i].0, WordToColor[j].0)
      {
        if j >= 9 {
          CommonHead("LI_", WordToColor[i - 9].0, WordToColor[j - 9].0);
        }
      }
    }
  }

  lemma BaseUnshadowed(i: nat)
    requires i < 9
    ensures forall j :: 0 <= j < i ==> !HasPrefix(WordToColor[i].0, WordToColor[j].0)
  {
    forall j | 0 <= j < i
      ensures !HasPrefix(WordToColor[i].0, WordToColor[j].0)
    {
      var a, b := WordToColor[i].0, WordToColor[j].0;
      if i == 4 && j == 0 {
        assert |b| > |a|;
      } else if i == 8 && j == 1 {
        PrefixSlice(a, b);
        assert a[2] != b[2];
      } else {
        assert a[0] != b[0];
      }
    }
  }

  /** A shared head does not change whether one text starts with another. */
  lemma {:induction false} CommonHead(c: string, a: string, b: string)
    ensures HasPrefix(c + a, c + b) == HasPrefix(a, b)
  {
    if c != [] {
      assert (c + a)[1..] == c[1..] + a && (c + b)[1..] == c[1..] + b;
      CommonHead(c[1..], a, b);
    } else {
      assert c + a == a && c + b == b;
    }
  }

  // ---------------------------------------------------------------------
  // Colour off: directives are deleted.

  /** `a` is `s` with some characters left out. */
  predicate Subseq(a: string, s: string)
    decreases |s|
  {
    if a == [] then true
    else if s == [] then false
    else (a[0] == s[0] && Subseq(a[1..], s[1..])) || Subseq(a, s[1..])
  }

  lemma {:induction false} SubseqDrop(x: string, s: string, k: nat)
    requires k <= |s| && Subseq(x, s[k..])
    ensures Subseq(x, s)
    decreases k
  {
    if k == 0 {
      assert s[k..] == s;
    } else {
      assert s[1..][k - 1..] == s[k..];
      SubseqDrop(x, s[1..], k - 1);
    }
  }

  /** A pass with an empty replacement only deletes characters. */
  lemma {:induction false} PassDeletes(p: Pattern, s: string)
    ensures Subseq(Pass(p, "", s), s)
    decreases |s|
  {
    if s != [] {
      var rules := [Rule(p, "")];
      var n, e := Skip(rules, s), Emit(rules, s);
      ScanUnfold(rules, s, n, e);
      PassDeletes(p, s[n..]);
      if Hit(rules, s) == 0 {
        assert Pass(p, "", s) == Pass(p, "", s[n..]);
        SubseqDrop(Pass(p, "", s[n..]), s, n);
      } else {
        assert Pass(p, "", s) == [s[0]] + Pass(p, "", s[1..]);
      }
    }
  }

  /** A character missing from s is missing from every subsequence of s. */
  lemma {:induction false} SubseqChars(a: string, s: string, c: char)
    requires Subseq(a, s) && c !in s
    ensures c !in a
    decreases |s|
  {
    if a != [] {
      if a[0] == s[0] && Subseq(a[1..], s[1..]) {
        SubseqChars(a[1..], s[1..], c);
        assert a == [a[0]] + a[1..];
      } else {
        SubseqChars(a, s[1..], c);
      }
    }
  }

  /** With colour off no escape code is added: the result has no ESC the
      template did not have. */
  lemma StripAddsNoCode(s: string)
    requires ESC !in s
    ensures ESC !in Strip(s)
  {
    SubseqChars(Strip(s), s, ESC);
  }

  /** No directive matches anywhere in r. */
  predicate Clean(r: string) {
    forall i :: 0 <= i <= |r| ==> MatchLen(AnyWord, r[i..]) == 0
  }

  lemma CleanCons(c: char, r: string)
    requires MatchLen(AnyWord, [c] + r) == 0 && Clean(r)
    ensures Clean([c] + r)
  {
    forall i | 0 <= i <= |r| + 1
      ensures MatchLen(AnyWord, ([c] + r)[i..]) == 0
    {
      if i == 0 {
        assert ([c] + r)[i..] == [c] + r;
      } else {
        assert ([c] + r)[i..] == r[i - 1..];
      }
    }
  }

  /** No directive is left after stripping: deleting one never makes a new
      one out of the text around it. */
  lemma {:induction false} StripClean(s: string)
    ensures Clean(Strip(s))
    decreases |s|
  {
    if s == [] {
      assert Strip(s) == [];
      assert forall i :: 0 <= i <= 0 ==> s[i..] == s;
    } else {
      var rules := [Rule(AnyWord, "")];
      var n, e := Skip(rules, s), Emit(rules, s);
      ScanUnfold(rules, s, n, e);
      StripClean(s[n..]);
      if Hit(rules, s) == 1 {
        HitFirst(rules, s);
        assert LeadSafe(rules[0]);
        assert ReplOk(rules);
        MatchAfterScan(rules, AnyWord, s);
        CleanCons(s[0], Strip(s[1..]));
      } else {
        assert e == [] && Strip(s) == Strip(s[n..]);
      }
    }
  }

  /** Every directive followed by a non-word character is deleted, `$LEVEL`
      and names outside the table included. */
  lemma StripDirective(w: Name, rest: string)
    requires LeadOk(rest)
    ensures Strip("$" + w + rest) == Strip(rest)
  {
    var rules, s := [Rule(AnyWord, "")], "$" + w + rest;
    assert s[1..] == w + rest;
    TokenRunExtend(w, rest);
    TokenRunAll(w);
    assert MatchLen(AnyWord, s) == 1 + |w|;
    ScanUnfold(rules, s, 1 + |w|, "");
    assert s[1 + |w|..] == rest;
  }

  lemma {:induction false} TokenRunAll(w: Name)
    ensures TokenRun(w) == |w|
  {
    if |w| > 1 {
      var v: Name := w[1..];
      TokenRunAll(v);
    }
  }
}
