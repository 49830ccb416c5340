/** The level-name width fix of the chromalogging variant: colouring the level
    name adds invisible escape codes to it, so a padded `%(levelname)-Ns`
    field in the format template is widened by the length of those codes. */
module Widths {
  import opened Ansi
  import opened Text
  import opened Wrappers

  /** The text a width field starts with. */
  const LevelOpen: string := "%(levelname)-"

  /** How much an escape code adds: a foreground colour and a reset of
      nine characters, and four more for bold. */
  const ColorExtra: nat := 9
  const BoldExtra: nat := 4

  /** Number of leading decimal digits. */
  function DigitRun(s: string): (n: nat)
    ensures n <= |s|
    ensures forall i :: 0 <= i < n ==> IsDigit(s[i])
    ensures n < |s| ==> !IsDigit(s[n])
  {
    if s == [] || !IsDigit(s[0]) then 0 else 1 + DigitRun(s[1..])
  }

  /** Length of the `%(levelname)-<digits>s` field at the start of s, 0 when
      there is none. */
  function FieldLen(s: string): (n: nat)
    ensures n == 0 || (|LevelOpen| + 2 <= n <= |s| && s[0] == '%')
  {
    if |s| < |LevelOpen| || s[..|LevelOpen|] != LevelOpen then 0
    else
      var d := DigitRun(s[|LevelOpen|..]);
      if d > 0 && |LevelOpen| + d < |s| && s[|LevelOpen| + d] == 's' then |LevelOpen| + d + 1 else 0
  }

  function DigitValue(c: char): nat {
    if IsDigit(c) then c as int - '0' as int else 0
  }

  /** The number a run of decimal digits spells, as Python's `int` reads it. */
  function DigitsValue(ds: string): nat {
    if ds == [] then 0 else 10 * DigitsValue(ds[..|ds| - 1]) + DigitValue(ds[|ds| - 1])
  }

  function DigitChar(d: nat): (c: char)
    requires d < 10
    ensures IsDigit(c) && DigitValue(c) == d
  {
    ('0' as int + d) as char
  }

  /** Python's `str` of a natural number. */
  function Decimal(n: nat): (r: string)
    ensures r != [] && forall i :: 0 <= i < |r| ==> IsDigit(r[i])
  {
    if n < 10 then [DigitChar(n)] else Decimal(n / 10) + [DigitChar(n % 10)]
  }

  /** The width written in the field at the start of s. */
  function FieldWidth(s: string): nat
    requires FieldLen(s) > 0
  {
    DigitsValue(s[|LevelOpen|..FieldLen(s) - 1])
  }

  /** The field the substitution writes for width w. */
  function Field(w: nat): string {
    LevelOpen + Decimal(w) + "s"
  }

  /** No position of s starts a width field. */
  predicate NoField(s: string) {
    forall i :: 0 <= i <= |s| ==> FieldLen(s[i..]) == 0
  }

  /** NoField of a non-empty text: none at the start, none in the rest. */
  lemma NoFieldStep(s: string)
    requires s != []
    ensures NoField(s) <==> FieldLen(s) == 0 && NoField(s[1..])
  {
    assert s[0..] == s;
    assert forall i :: 1 <= i <= |s| ==> s[i..] == s[1..][i - 1..];
    if FieldLen(s) == 0 && NoField(s[1..]) {
      forall i | 0 <= i <= |s|
        ensures FieldLen(s[i..]) == 0
      {
        if i > 0 {
          assert s[i..] == s[1..][i - 1..];
        }
      }
    }
  }

  /** `re.sub` of every width field by the field of width w, scanning left to
      right. A template with no `%` is copied. */
  function ReplaceWidths(s: string, w: nat): (r: string)
    ensures '%' !in s ==> r == s
    decreases |s|
  {
    if s == [] then []
    else if FieldLen(s) > 0 then Field(w) + ReplaceWidths(s[FieldLen(s)..], w)
    else [s[0]] + ReplaceWidths(s[1..], w)
  }

  /** `re.search`: the width of the leftmost field, if any. It finds
      nothing exactly when no position starts a field. */
  function FirstWidth(s: string): (r: Option<nat>)
    ensures r == None <==> NoField(s)
    decreases |s|
  {
    if s == [] then
      assert s[0..] == s;
      None
    else
      NoFieldStep(s);
      assert s[0..] == s;
      if FieldLen(s) > 0 then Some(FieldWidth(s))
      else FirstWidth(s[1..])
  }

  /** The width the level-name field needs once its text gains the colour
      and reset codes (and the bold code). */
  function Widened(v: nat, useColor: bool, bold: string): nat {
    v + (if useColor then ColorExtra else 0) + (if bold != [] then BoldExtra else 0)
  }

  /** `_adjust_format_lengths`: every width field takes the first field's
      width plus the length of the codes the level name gains. With no field
      the template is returned as it is; otherwise its first field is
      widened by 9 with colour on and 4 more with bold set. */
  function AdjustFormatLengths(msg: string, useColor: bool, bold: string): (r: string)
    ensures FirstWidth(msg) == None ==> r == msg
    ensures FirstWidth(msg) != None ==> FirstWidth(r) == Some(Widened(FirstWidth(msg).value, useColor, bold))
  {
    var found := FirstWidth(msg);
    if found == None then msg
    else
      var w := Widened(found.value, useColor, bold);
      AdjustSomeFirst(msg, found.value, w);
      ReplaceWidths(msg, w)
  }

  // ---------------------------------------------------------------------
  // Numbers.

  lemma {:induction false} DecimalValue(n: nat)
    ensures DigitsValue(Decimal(n)) == n
  {
    if n >= 10 {
      var r := Decimal(n);
      DecimalValue(n / 10);
      assert r[..|r| - 1] == Decimal(n / 10);
    }
  }

  lemma {:induction false} DigitRunStops(a: string, b: string)
    requires forall i :: 0 <= i < |a| ==> IsDigit(a[i])
    requires b == [] || !IsDigit(b[0])
    ensures DigitRun(a + b) == |a|
  {
    if a != [] {
      assert (a + b)[1..] == a[1..] + b;
      DigitRunStops(a[1..], b);
    } else {
      assert a + b == b;
    }
  }

  /** The field the substitution writes is read back as a field of width w. */
  lemma FieldParses(w: nat, rest: string)
    ensures FieldLen(Field(w) + rest) == |Field(w)|
    ensures FieldWidth(Field(w) + rest) == w
  {
    var x, ds := Field(w) + rest, Decimal(w);
    assert x[..|LevelOpen|] == LevelOpen;
    assert x[|LevelOpen|..] == ds + ("s" + rest);
    DigitRunStops(ds, "s" + rest);
    assert x[|LevelOpen|..|Field(w)| - 1] == ds;
    DecimalValue(w);
  }

  // ---------------------------------------------------------------------
  // The search.

  /** `re.search` finds the leftmost field. */
  lemma {:induction false} FirstWidthAt(s: string, p: nat)
    requires p <= |s| && FieldLen(s[p..]) > 0
    requires forall i :: 0 <= i < p ==> FieldLen(s[i..]) == 0
    ensures FirstWidth(s) == Some(FieldWidth(s[p..]))
    decreases p
  {
    if p == 0 {
      assert s[p..] == s;
    } else {
      assert s[0..] == s;
      assert s[1..][p - 1..] == s[p..];
      forall i | 0 <= i < p - 1
        ensures FieldLen(s[1..][i..]) == 0
      {
        assert s[1..][i..] == s[i + 1..];
      }
      FirstWidthAt(s[1..], p - 1);
    }
  }

  // ---------------------------------------------------------------------
  // Locality: a field never runs into a `%` or a `$`.

  /** A character that ends a field's text before its closing `s`. */
  predicate FieldStop(c: char) {
    c == '%' || c == '$'
  }

  lemma {:induction false} DigitRunExtend(a: string, b: string)
    requires b == [] || !IsDigit(b[0])
    ensures DigitRun(a + b) == DigitRun(a)
  {
    if a == [] {
      assert a + b == b;
    } else {
      assert (a + b)[1..] == a[1..] + b;
      DigitRunExtend(a[1..], b);
    }
  }

  lemma FieldExtend(a: string, b: string)
    requires a != [] && (b == [] || FieldStop(b[0]))
    ensures FieldLen(a + b) == FieldLen(a)
    ensures FieldLen(a) > 0 ==> FieldWidth(a + b) == FieldWidth(a)
  {
    if b == [] {
      assert a + b == a;
    } else if |a| < |LevelOpen| {
      ShortNoField(a, b);
    } else {
      LongField(a, b);
    }
  }

  lemma FieldLenExtend(a: string, b: string)
    requires a != [] && (b == [] || FieldStop(b[0]))
    ensures FieldLen(a + b) == FieldLen(a)
  {
    FieldExtend(a, b);
  }

  lemma ShortNoField(a: string, b: string)
    requires 0 < |a| < |LevelOpen| && b != [] && FieldStop(b[0])
    ensures FieldLen(a + b) == 0
  {
    var x := a + b;
    assert x[|a|] == b[0];
    if |x| >= |LevelOpen| {
      assert x[..|LevelOpen|][|a|] == b[0];
    }
  }

  lemma LongField(a: string, b: string)
    requires |a| >= |LevelOpen| && b != [] && FieldStop(b[0])
    ensures FieldLen(a + b) == FieldLen(a)
    ensures FieldLen(a) > 0 ==> FieldWidth(a + b) == FieldWidth(a)
  {
    var k, x := |LevelOpen|, a + b;
    assert x[..k] == a[..k];
    assert x[k..] == a[k..] + b;
    DigitRunExtend(a[k..], b);
    var d := DigitRun(a[k..]);
    if k + d < |a| {
      assert x[k + d] == a[k + d];
      assert x[k..k + d] == a[k..k + d];
    }
  }

  // ---------------------------------------------------------------------
  // The substitution.

  /** Text before the first `%` is copied as it is. */
  lemma {:induction false} ReplaceCopies(u: string, v: string, w: nat)
    requires '%' !in u
    ensures ReplaceWidths(u + v, w) == u + ReplaceWidths(v, w)
  {
    if u == [] {
      assert u + v == v;
    } else {
      var x := u + v;
      assert x[0] == u[0] && u[0] != '%';
      assert FieldLen(x) == 0;
      assert x[1..] == u[1..] + v;
      ReplaceCopies(u[1..], v, w);
      var rest := ReplaceWidths(v, w);
      assert ReplaceWidths(x, w) == [u[0]] + (u[1..] + rest);
      AppendAssoc([u[0]], u[1..], rest);
      ConsTail(u);
    }
  }

  /** What the substitution writes at a `%` starts with a `%`. */
  lemma ReplaceHead(v: string, w: nat)
    requires v != [] && v[0] == '%'
    ensures ReplaceWidths(v, w) != [] && ReplaceWidths(v, w)[0] == '%'
  {
  }

  /** Copying a character never makes it the start of a field. */
  lemma NoNewField(s: string, w: nat)
    requires s != [] && FieldLen(s) == 0
    ensures FieldLen([s[0]] + ReplaceWidths(s[1..], w)) == 0
  {
    var t := s[1..];
    var i := IndexOf(t, '%');
    var u, v := t[..i], t[i..];
    SplitAt(t, i);
    ReplaceCopies(u, v, w);
    var c := [s[0]] + u;
    AppendAssoc([s[0]], u, ReplaceWidths(v, w));
    ConsTail(s);
    AppendAssoc([s[0]], u, v);
    if v != [] {
      ReplaceHead(v, w);
      FieldExtend(c, ReplaceWidths(v, w));
      FieldExtend(c, v);
    } else {
      assert ReplaceWidths(v, w) == [];
    }
  }

  /** Helper for AdjustFormatLengths. */
  lemma AdjustSomeFirst(msg: string, v: nat, w: nat)
    requires FirstWidth(msg) == Some(v)
    ensures FirstWidth(ReplaceWidths(msg, w)) == Some(w)
  {
    ReplaceFirst(msg, w);
  }

  /** After the substitution the first field has the new width. */
  lemma {:induction false} ReplaceFirst(s: string, w: nat)
    requires FirstWidth(s) != None
    ensures FirstWidth(ReplaceWidths(s, w)) == Some(w)
    decreases |s|
  {
    if FieldLen(s) > 0 {
      FieldParses(w, ReplaceWidths(s[FieldLen(s)..], w));
    } else {
      ReplaceFirst(s[1..], w);
      NoNewField(s, w);
      assert ReplaceWidths(s, w)[1..] == ReplaceWidths(s[1..], w);
    }
  }

  /** Every field met left to right is written with width w. */
  predicate FieldsAre(s: string, w: nat)
    decreases |s|
  {
    if s == [] then true
    else if FieldLen(s) > 0 then s[|LevelOpen|..FieldLen(s) - 1] == Decimal(w) && FieldsAre(s[FieldLen(s)..], w)
    else FieldsAre(s[1..], w)
  }

  /** The substitution gives every field the same width, not just the first. */
  lemma {:induction false} ReplaceSetsAll(s: string, w: nat)
    ensures FieldsAre(ReplaceWidths(s, w), w)
    decreases |s|
  {
    var r := ReplaceWidths(s, w);
    if s != [] {
      if FieldLen(s) > 0 {
        var rest := ReplaceWidths(s[FieldLen(s)..], w);
        ReplaceSetsAll(s[FieldLen(s)..], w);
        FieldParses(w, rest);
        assert r[|Field(w)|..] == rest;
        assert r[|LevelOpen|..|Field(w)| - 1] == Decimal(w);
      } else {
        ReplaceSetsAll(s[1..], w);
        NoNewField(s, w);
        assert r[1..] == ReplaceWidths(s[1..], w);
      }
    }
  }

  lemma FieldIs(s: string, w: nat)
    requires FieldLen(s) > 0 && s[|LevelOpen|..FieldLen(s) - 1] == Decimal(w)
    ensures s[..FieldLen(s)] == Field(w)
  {
    var n, k := FieldLen(s), |LevelOpen|;
    assert s[..k] == LevelOpen;
    assert s[n - 1] == 's';
    SliceThree(s, k, n - 1, n);
    assert s[n - 1..n] == "s";
  }

  lemma SliceThree(s: string, i: nat, j: nat, n: nat)
    requires i <= j <= n <= |s|
    ensures s[..n] == s[..i] + s[i..j] + s[j..n]
  {
  }

  /** A template whose fields all have width w is left alone. */
  lemma {:induction false} ReplaceFixpoint(s: string, w: nat)
    requires FieldsAre(s, w)
    ensures ReplaceWidths(s, w) == s
    decreases |s|
  {
    if s != [] {
      var n := FieldLen(s);
      if n > 0 {
        ReplaceFixpoint(s[n..], w);
        FieldIs(s, w);
        SplitAt(s, n);
      } else {
        ReplaceFixpoint(s[1..], w);
        ConsTail(s);
      }
    }
  }

  /** So the substitution is idempotent. */
  lemma ReplaceIdempotent(s: string, w: nat)
    ensures ReplaceWidths(ReplaceWidths(s, w), w) == ReplaceWidths(s, w)
  {
    ReplaceSetsAll(s, w);
    ReplaceFixpoint(ReplaceWidths(s, w), w);
  }

  // ---------------------------------------------------------------------
  // The template is wrapped in the bold code and `$RESET` before the fix.

  lemma {:induction false} FirstWidthCopies(u: string, v: string)
    requires '%' !in u
    ensures FirstWidth(u + v) == FirstWidth(v)
  {
    if u == [] {
      assert u + v == v;
    } else {
      var x := u + v;
      assert x[0] == u[0] && FieldLen(x) == 0;
      assert x[1..] == u[1..] + v;
      FirstWidthCopies(u[1..], v);
    }
  }

  lemma {:induction false} FirstWidthAppend(x: string, b: string)
    requires '%' !in b && (b == [] || FieldStop(b[0]))
    ensures FirstWidth(x + b) == FirstWidth(x)
    decreases |x|
  {
    if x == [] {
      FirstWidthCopies(b, []);
      assert x + b == b + [];
    } else {
      FieldExtend(x, b);
      assert (x + b)[1..] == x[1..] + b;
      FirstWidthAppend(x[1..], b);
    }
  }

  lemma {:induction false} ReplaceAppend(x: string, b: string, w: nat)
    requires '%' !in b && (b == [] || FieldStop(b[0]))
    ensures ReplaceWidths(x + b, w) == ReplaceWidths(x, w) + b
    decreases |x|
  {
    if x == [] {
      assert x + b == b;
    } else {
      var m := if FieldLen(x) > 0 then FieldLen(x) else 1;
      ReplaceAppend(x[m..], b, w);
      AppendStep(x, b, w, m);
    }
  }

  lemma AppendStep(x: string, b: string, w: nat, m: nat)
    requires x != [] && (b == [] || FieldStop(b[0]))
    requires m == if FieldLen(x) > 0 then FieldLen(x) else 1
    requires ReplaceWidths(x[m..] + b, w) == ReplaceWidths(x[m..], w) + b
    ensures ReplaceWidths(x + b, w) == ReplaceWidths(x, w) + b
  {
    FieldLenExtend(x, b);
    DropAppend(x, b, m);
    AppendAssoc(if FieldLen(x) > 0 then Field(w) else [x[0]], ReplaceWidths(x[m..], w), b);
  }

  /** Text without a `%` around the template neither makes nor widens a
      field. */
  lemma AdjustAround(pre: string, msg: string, post: string, useColor: bool, bold: string)
    requires '%' !in pre && '%' !in post && (post == [] || FieldStop(post[0]))
    ensures AdjustFormatLengths(pre + (msg + post), useColor, bold)
         == pre + (AdjustFormatLengths(msg, useColor, bold) + post)
  {
    var s := pre + (msg + post);
    FirstWidthCopies(pre, msg + post);
    FirstWidthAppend(msg, post);
    assert FirstWidth(s) == FirstWidth(msg);
    match FirstWidth(msg)
    case None =>
    case Some(v) =>
      var w := v + (if useColor then ColorExtra else 0) + (if bold != [] then BoldExtra else 0);
      ReplaceCopies(pre, msg + post, w);
      ReplaceAppend(msg, post, w);
      AdjustSome(s, useColor, bold, v, w);
      AdjustSome(msg, useColor, bold, v, w);
  }

  lemma AdjustSome(msg: string, useColor: bool, bold: string, v: nat, w: nat)
    requires FirstWidth(msg) == Some(v)
    requires w == v + (if useColor then ColorExtra else 0) + (if bold != [] then BoldExtra else 0)
    ensures AdjustFormatLengths(msg, useColor, bold) == ReplaceWidths(msg, w)
  {
  }

  /** Wrapping before the fix is the same as fixing the bare template: the
      bold code and `$RESET` hold no `%`. */
  lemma AdjustWrapped(msg: string, bold: string, useColor: bool)
    requires '%' !in bold
    ensures AdjustFormatLengths(bold + msg + "$RESET", useColor, bold)
         == bold + AdjustFormatLengths(msg, useColor, bold) + "$RESET"
  {
    var tail := "$RESET";
    assert '%' !in tail && FieldStop(tail[0]);
    AdjustAround(bold, msg, tail, useColor, bold);
    AppendAssoc(bold, msg, tail);
    AppendAssoc(bold, AdjustFormatLengths(msg, useColor, bold), tail);
  }
}
