/** The argument-placeholder rewrites of the formatters:
    - `re.sub(r'(?<!{){}(?!})', x, msg)`: every lone `{}` (not part of `{{}`
      or `{}}`) becomes x (src/chromalogging/chroma_formatter.py);
    - `re.sub(r'(?<!%)%([-0.\d]*)([sd])', start + spec + end, msg)`: every
      `%s` / `%d` conversion spec not preceded by `%` is wrapped in colours
      (src/chromaformatter/__init__.py).
    Both lookbehinds look at the original text, so the scanners below carry
    the previous original character's class. */
module Placeholders {
  import opened Ansi
  import opened Text

  // ---------------------------------------------------------------------
  // Lone `{}`.

  /** A `{}` that the guarded pattern matches at the start of s, given
      whether the character before it is `{`. */
  predicate LonePairAt(s: string, afterOpen: bool) {
    |s| >= 2 && s[0] == '{' && s[1] == '}' && !afterOpen && (|s| == 2 || s[2] != '}')
  }

  function LoneFrom(s: string, afterOpen: bool, x: string): string
    decreases |s|
  {
    if s == [] then []
    else if LonePairAt(s, afterOpen) then x + LoneFrom(s[2..], false, x)
    else [s[0]] + LoneFrom(s[1..], s[0] == '{', x)
  }

  /** `re.sub(r'(?<!{){}(?!})', x, s)`: with a brace-free replacement no
      lone `{}` is left, and a character in neither the text nor the
      replacement does not appear. */
  function LoneBraces(s: string, x: string): (r: string)
    ensures x != [] && BraceFree(x) ==> NoLonePair(r, false)
    ensures forall c :: c !in s && c !in x ==> c !in r
  {
    LoneFacts(s, x);
    LoneFrom(s, false, x)
  }

  /** No lone `{}` anywhere in r, the first position being preceded by a `{`
      exactly when afterOpen. */
  predicate NoLonePair(r: string, afterOpen: bool) {
    forall i :: 0 <= i < |r| ==> !LonePairAt(r[i..], if i == 0 then afterOpen else r[i - 1] == '{')
  }

  predicate BraceFree(x: string) {
    '{' !in x && '}' !in x
  }

  /** Where the scan copies, the first character of the result is the first
      character of the input. */
  lemma LoneHead(s: string, afterOpen: bool, x: string)
    requires s != [] && !LonePairAt(s, afterOpen)
    ensures LoneFrom(s, afterOpen, x) != [] && LoneFrom(s, afterOpen, x)[0] == s[0]
  {
  }

  /** After the rewrite no lone `{}` is left: a replacement holds no brace, and
      a copied `{}` keeps the neighbour that protected it. */
  lemma {:induction false} LoneLeavesNone(s: string, afterOpen: bool, x: string)
    requires x != [] && BraceFree(x)
    ensures NoLonePair(LoneFrom(s, afterOpen, x), afterOpen)
    decreases |s|
  {
    var r := LoneFrom(s, afterOpen, x);
    if s == [] {
    } else if LonePairAt(s, afterOpen) {
      var t := LoneFrom(s[2..], false, x);
      LoneLeavesNone(s[2..], false, x);
      assert r == x + t;
      forall i | 0 <= i < |r|
        ensures !LonePairAt(r[i..], if i == 0 then afterOpen else r[i - 1] == '{')
      {
        if i < |x| {
          assert r[i] == x[i];
        } else {
          assert r[i..] == t[i - |x|..];
          assert r[i - 1] == (if i == |x| then x[|x| - 1] else t[i - |x| - 1]);
        }
      }
    } else {
      var t := LoneFrom(s[1..], s[0] == '{', x);
      LoneLeavesNone(s[1..], s[0] == '{', x);
      assert r == [s[0]] + t;
      forall i | 0 <= i < |r|
        ensures !LonePairAt(r[i..], if i == 0 then afterOpen else r[i - 1] == '{')
      {
        if i == 0 {
          CopiedPairGuarded(s, afterOpen, x);
        } else {
          assert r[i..] == t[i - 1..];
          assert r[i - 1] == (if i == 1 then s[0] else t[i - 2]);
        }
      }
    }
  }

  /** Helper for LoneLeavesNone: a `{}` the scan did not take is still
      guarded after the rewrite. */
  lemma CopiedPairGuarded(s: string, afterOpen: bool, x: string)
    requires s != [] && !LonePairAt(s, afterOpen) && x != [] && BraceFree(x)
    ensures !LonePairAt([s[0]] + LoneFrom(s[1..], s[0] == '{', x), afterOpen)
  {
    var r := [s[0]] + LoneFrom(s[1..], s[0] == '{', x);
    if |s| >= 2 && s[0] == '{' && s[1] == '}' && !afterOpen {
      assert |s| > 2 && s[2] == '}';
      LoneHead(s[1..], true, x);
      assert !LonePairAt(s[2..], false);
      LoneHead(s[2..], false, x);
      assert r[2] == LoneFrom(s[2..], false, x)[0];
    } else if |s| >= 2 && s[0] == '{' && s[1] != '}' {
      LoneHead(s[1..], true, x);
    }
  }

  /** A character in neither the message nor the replacement is not in the
      result: with a colour-free replacement no colour is inserted. */
  lemma {:induction false} LoneFree(s: string, afterOpen: bool, x: string, c: char)
    requires c !in s && c !in x
    ensures c !in LoneFrom(s, afterOpen, x)
    decreases |s|
  {
    if s != [] {
      if LonePairAt(s, afterOpen) {
        LoneFree(s[2..], false, x, c);
      } else {
        LoneFree(s[1..], s[0] == '{', x, c);
      }
    }
  }

  /** Helper for LoneBraces. */
  lemma LoneFacts(s: string, x: string)
    ensures x != [] && BraceFree(x) ==> NoLonePair(LoneFrom(s, false, x), false)
    ensures forall c :: c !in s && c !in x ==> c !in LoneFrom(s, false, x)
  {
    if x != [] && BraceFree(x) {
      LoneLeavesNone(s, false, x);
    }
    forall c | c !in s && c !in x
      ensures c !in LoneFrom(s, false, x)
    {
      LoneFree(s, false, x, c);
    }
  }

  /** Text without `{` in front of the message is copied unchanged, and the
      message after it is scanned as if it stood alone. */
  lemma {:induction false} LoneKeepsPrefix(a: string, b: string, x: string)
    requires '{' !in a
    ensures LoneFrom(a + b, false, x) == a + LoneFrom(b, false, x)
  {
    if a != [] {
      assert (a + b)[0] == a[0];
      assert (a + b)[1..] == a[1..] + b;
      LoneKeepsPrefix(a[1..], b, x);
    } else {
      assert a + b == b;
    }
  }

  /** No doubled braces in s. */
  predicate NoBraceRuns(s: string) {
    forall i :: 0 <= i < |s| - 1 ==> !(s[i] == '{' && s[i + 1] == '{') && !(s[i] == '}' && s[i + 1] == '}')
  }

  /** Without doubled braces the guard never fires: the guarded rewrite is
      the plain `str.replace` of the other variant. */
  lemma {:induction false} LoneIsPlain(s: string, afterOpen: bool, x: string)
    requires NoBraceRuns(s) && (afterOpen ==> s == [] || s[0] != '{')
    ensures LoneFrom(s, afterOpen, x) == ReplaceAll(s, "{}", x)
    decreases |s|
  {
    if s != [] {
      PrefixSlice(s, "{}");
      if HasPrefix(s, "{}") {
        assert |s| > 2 ==> s[2] != '}';
        LoneIsPlain(s[2..], false, x);
      } else {
        assert |s| > 1 && s[0] == '{' ==> s[1] != '{';
        LoneIsPlain(s[1..], s[0] == '{', x);
      }
    }
  }

  /** The guard at work on the doubled forms. */
  lemma LoneSparesDoubled(x: string)
    ensures LoneBraces("{{}}", x) == "{{}}"
    ensures LoneBraces("{{}", x) == "{{}"
    ensures LoneBraces("{}}", x) == "{}}"
    ensures LoneBraces("{}", x) == x
  {
    assert LoneFrom("}", false, x) == "}";
    assert LoneFrom("}}", false, x) == "}}";
    assert LoneFrom("}}", true, x) == "}}";
    assert LoneFrom("}", true, x) == "}";
    assert LoneFrom("{}}", true, x) == "{}}";
    assert LoneFrom("{}", true, x) == "{}";
  }

  // ---------------------------------------------------------------------
  // `%s` / `%d` conversion specs.

  /** The character class `[-0.\d]` of a spec's flags, width and precision. */
  predicate IsSpecChar(c: char) {
    c == '-' || c == '.' || IsDigit(c)
  }

  /** Length of the leading run of spec characters. */
  function SpecRun(s: string): (n: nat)
    ensures n <= |s| && (forall i :: 0 <= i < n ==> IsSpecChar(s[i]))
    ensures n < |s| ==> !IsSpecChar(s[n])
  {
    if s != [] && IsSpecChar(s[0]) then 1 + SpecRun(s[1..]) else 0
  }

  predicate IsConversion(c: char) {
    c == 's' || c == 'd'
  }

  /** Length of the spec `%([-0.\d]*)([sd])` at the start of s, or 0, given
      whether the character before s is `%`. The greedy run cannot give back
      a character that would end the match, since `s` and `d` are not spec
      characters, so the longest run is the only candidate. */
  function SpecLen(s: string, afterPct: bool): (n: nat)
    ensures n == 0 || (2 <= n <= |s| && s[0] == '%' && IsConversion(s[n - 1]))
  {
    if s == [] || s[0] != '%' || afterPct then 0
    else
      var k := SpecRun(s[1..]);
      if 1 + k < |s| && IsConversion(s[1 + k]) then k + 2 else 0
  }

  function WrapFrom(s: string, afterPct: bool, start: string, end: string): string
    decreases |s|
  {
    if s == [] then []
    else
      var n := SpecLen(s, afterPct);
      if n > 0 then start + s[..n] + end + WrapFrom(s[n..], false, start, end)
      else [s[0]] + WrapFrom(s[1..], s[0] == '%', start, end)
  }

  /** `re.sub(r'(?<!%)%([-0.\d]*)([sd])', start + r'%\1\2' + end, s)`: it
      only inserts the colours, and a message without `%` is left alone. */
  function WrapSpecs(s: string, start: string, end: string): (r: string)
    ensures start == [] && end == [] ==> r == s
    ensures '%' !in s ==> r == s
  {
    WrapFacts(s, start, end);
    WrapFrom(s, false, start, end)
  }

  /** Helper for WrapSpecs. */
  lemma WrapFacts(s: string, start: string, end: string)
    ensures start == [] && end == [] ==> WrapFrom(s, false, start, end) == s
    ensures '%' !in s ==> WrapFrom(s, false, start, end) == s
  {
    WrapOnlyInserts(s, false);
    if '%' !in s {
      WrapNoPercent(s, false, start, end);
    }
  }

  /** The rewrite only inserts: with empty colours it is the identity. */
  lemma {:induction false} WrapOnlyInserts(s: string, afterPct: bool)
    ensures WrapFrom(s, afterPct, "", "") == s
    decreases |s|
  {
    if s != [] {
      var n := SpecLen(s, afterPct);
      if n > 0 {
        WrapAt(s, n, "", "");
        WrapOnlyInserts(s[n..], false);
        Rejoin(s, n);
      } else {
        WrapOnlyInserts(s[1..], s[0] == '%');
        ConsTail(s);
      }
    }
  }

  lemma Rejoin(s: string, n: nat)
    requires n <= |s|
    ensures "" + s[..n] + "" + s[n..] == s
  {
    assert s[..n] + s[n..] == s;
  }

  /** Text with no `%` is left alone. */
  lemma {:induction false} WrapNoPercent(s: string, afterPct: bool, start: string, end: string)
    requires '%' !in s
    ensures WrapFrom(s, afterPct, start, end) == s
    decreases |s|
  {
    if s != [] {
      assert '%' !in s[1..];
      WrapNoPercent(s[1..], false, start, end);
    }
  }

  /** A spec `%` + flags + conversion at a position not preceded by `%` is
      wrapped whole, and the scan carries on after it. */
  lemma WrapSpec(flags: string, c: char, rest: string, start: string, end: string)
    requires forall i :: 0 <= i < |flags| ==> IsSpecChar(flags[i])
    requires IsConversion(c)
    ensures WrapFrom(("%" + flags + [c]) + rest, false, start, end)
         == start + ("%" + flags + [c]) + end + WrapFrom(rest, false, start, end)
  {
    var t := "%" + flags + [c];
    SpecAtStart(flags, c, rest);
    WrapAt(t + rest, |t|, start, end);
    DropAppend(t, rest, |t|);
    assert (t + rest)[..|t|] == t;
  }

  /** One step of the scan at a spec of length n. */
  lemma WrapAt(s: string, n: nat, start: string, end: string)
    requires n > 0 && SpecLen(s, false) == n
    ensures WrapFrom(s, false, start, end) == start + s[..n] + end + WrapFrom(s[n..], false, start, end)
  {
  }

  lemma SpecAtStart(flags: string, c: char, rest: string)
    requires forall i :: 0 <= i < |flags| ==> IsSpecChar(flags[i])
    requires IsConversion(c)
    ensures SpecLen(("%" + flags + [c]) + rest, false) == |flags| + 2
  {
    var s := ("%" + flags + [c]) + rest;
    SpecRunStops(flags, c, rest);
    assert s[1..] == flags + [c] + rest;
  }

  lemma {:induction false} SpecRunStops(flags: string, c: char, rest: string)
    requires forall i :: 0 <= i < |flags| ==> IsSpecChar(flags[i])
    requires !IsSpecChar(c)
    ensures SpecRun(flags + [c] + rest) == |flags|
  {
    if flags != [] {
      assert (flags + [c] + rest)[1..] == flags[1..] + [c] + rest;
      SpecRunStops(flags[1..], c, rest);
    }
  }

  /** Text without `%` in front is copied unchanged, and what follows is
      scanned as if it stood alone. */
  lemma {:induction false} WrapKeepsPrefix(a: string, b: string, start: string, end: string)
    requires '%' !in a
    ensures WrapFrom(a + b, false, start, end) == a + WrapFrom(b, false, start, end)
  {
    if a != [] {
      assert (a + b)[0] == a[0];
      assert (a + b)[1..] == a[1..] + b;
      WrapKeepsPrefix(a[1..], b, start, end);
    } else {
      assert a + b == b;
    }
  }

  /** A message with one `%s` and no other `%` gets exactly that spec
      wrapped. */
  lemma WrapOneSpec(pre: string, post: string, start: string, end: string)
    requires '%' !in pre && '%' !in post
    ensures WrapSpecs(pre + "%s" + post, start, end) == pre + start + "%s" + end + post
  {
    var sp := "%" + "" + ['s'];
    assert sp == "%s";
    WrapSpec("", 's', post, start, end);
    WrapNoPercent(post, false, start, end);
    WrapKeepsPrefix(pre, sp + post, start, end);
    AppendAssoc(pre, sp, post);
    Regroup(pre, start, sp, end, post);
  }

  lemma Regroup(a: string, b: string, c: string, d: string, e: string)
    ensures a + (b + c + d + e) == a + b + c + d + e
  {
  }

  /** An escaped `%%` protects the spec after it: `%%s` and `%%%s` are left
      as they are. */
  lemma WrapSparesEscaped(start: string, end: string)
    ensures WrapSpecs("%%s", start, end) == "%%s"
    ensures WrapSpecs("%%%s", start, end) == "%%%s"
  {
    assert WrapFrom("s", true, start, end) == "s";
    assert WrapFrom("%s", true, start, end) == "%s";
    assert WrapFrom("%%s", true, start, end) == "%%s";
  }

  /** With the end colour `$LEVEL` (as the tests configure it), substituting
      the level colour afterwards leaves no `$LEVEL`, whatever the message. */
  lemma LevelResolvedEverywhere(s: string, lc: string)
    requires EscapeCode(lc)
    ensures !Occurs(ReplaceAll(s, "$LEVEL", lc), "$LEVEL")
  {
    ReplaceAllRemoves(s, "$LEVEL", lc);
  }
}
