/** The token language of format templates and a left-to-right scanner for it.

    A directive is a `$` followed by capital letters or `_`. Each rewriting step
    of the resolver is one `re.sub` or `str.replace` over the template: it finds
    the leftmost match, replaces it, and carries on after the match. Scan models
    such a step for a list of rules: at each position the first rule of the
    list that matches there wins; when none does the character is copied. A
    single `re.sub`/`str.replace` is a Scan with one rule (Pass).

    The main result here is ChainIsScan: running the one-rule passes one after
    another gives the same text as a single Scan with all the rules in that
    order, as long as no replacement contains a `$` or can be read as the tail
    of a directive. */
module Scanning {
  import opened Ansi
  import opened Text

  /** The patterns the passes match, each starting at a `$`:
      ResetOrR is `\$(RESET|R(?!ED))`, BoldOrB is `\$(BOLD|B(?!LUE|LACK))`,
      Literal(w) is the plain text `$w` of `str.replace`, and AnyWord is
      `\$[A-Z_]+\b`. */
  datatype Pattern = ResetOrR | BoldOrB | Literal(word: Name) | AnyWord

  /** A name made of `[A-Z_]` characters. */
  predicate WordOk(w: string) {
    |w| > 0 && forall i :: 0 <= i < |w| ==> IsTokenChar(w[i])
  }

  /** A directive name: what may follow the `$` of a literal pattern. */
  type Name = w: string | WordOk(w) witness "A"

  /** `s` cannot continue a directive that ends right before it. */
  predicate LeadOk(s: string) {
    s == [] || !IsWordChar(s[0])
  }

  /** Length of the maximal `[A-Z_]` run at the start of s (the greedy `+`). */
  function TokenRun(s: string): (n: nat)
    ensures n <= |s|
    ensures forall i :: 0 <= i < n ==> IsTokenChar(s[i])
    ensures n < |s| ==> !IsTokenChar(s[n])
  {
    if s == [] || !IsTokenChar(s[0]) then 0 else 1 + TokenRun(s[1..])
  }

  /** Number of characters the pattern consumes at the start of s; 0 when it
      does not match there. A match is a `$` followed by at least one more
      character. Because `[A-Z_]+` is greedy and `\b` needs a non-word
      character (or the end) after it, AnyWord matches exactly when the whole
      run of capitals is followed by a non-word character. */
  function MatchLen(p: Pattern, s: string): (k: nat)
    ensures k == 0 || (2 <= k <= |s| && s[0] == '$')
  {
    if s == [] || s[0] != '$' then 0
    else
      var t := s[1..];
      match p
      case ResetOrR =>
        if HasPrefix(t, "RESET") then 6
        else if HasPrefix(t, "R") && !HasPrefix(t[1..], "ED") then 2
        else 0
      case BoldOrB =>
        if HasPrefix(t, "BOLD") then 5
        else if HasPrefix(t, "B") && !HasPrefix(t[1..], "LUE") && !HasPrefix(t[1..], "LACK") then 2
        else 0
      case Literal(w) =>
        if HasPrefix(t, w) then 1 + |w| else 0
      case AnyWord =>
        var n := TokenRun(t);
        if n > 0 && (n == |t| || !IsWordChar(t[n])) then 1 + n else 0
  }

  /** One rule of a scan: a pattern and the text that replaces its matches. */
  datatype Rule = Rule(pat: Pattern, repl: string)

  /** Index of the first rule matching at the start of s, |rules| if none. */
  function Hit(rules: seq<Rule>, s: string): (h: nat)
    ensures h <= |rules|
  {
    if rules == [] then 0
    else if MatchLen(rules[0].pat, s) > 0 then 0
    else 1 + Hit(rules[1..], s)
  }

  /** Hit finds the first rule that matches. */
  lemma {:induction false} HitFirst(rules: seq<Rule>, s: string)
    ensures Hit(rules, s) < |rules| ==> MatchLen(rules[Hit(rules, s)].pat, s) > 0
    ensures forall j :: 0 <= j < Hit(rules, s) ==> MatchLen(rules[j].pat, s) == 0
  {
    if rules != [] && MatchLen(rules[0].pat, s) == 0 {
      HitFirst(rules[1..], s);
      assert forall j :: 1 <= j < |rules| ==> rules[j] == rules[1..][j - 1];
    }
  }

  /** Conversely, the first rule that matches is the one Hit finds. */
  lemma {:induction false} HitIs(rules: seq<Rule>, s: string, h: nat)
    requires h <= |rules|
    requires h < |rules| ==> MatchLen(rules[h].pat, s) > 0
    requires forall j :: 0 <= j < h ==> MatchLen(rules[j].pat, s) == 0
    ensures Hit(rules, s) == h
  {
    if rules != [] && h > 0 {
      assert MatchLen(rules[0].pat, s) == 0;
      assert forall j :: 0 <= j < h - 1 ==> rules[1..][j] == rules[j + 1];
      HitIs(rules[1..], s, h - 1);
    }
  }

  /** How far the scan moves at the start of s. */
  function Skip(rules: seq<Rule>, s: string): (n: nat)
    requires s != []
    ensures 1 <= n <= |s|
  {
    HitFirst(rules, s);
    var h := Hit(rules, s);
    if h < |rules| then MatchLen(rules[h].pat, s) else 1
  }

  /** What the scan writes for the start of s. */
  function Emit(rules: seq<Rule>, s: string): string
    requires s != []
  {
    var h := Hit(rules, s);
    if h < |rules| then rules[h].repl else [s[0]]
  }

  /** Leftmost, non-overlapping replacement of every match of the rules. */
  function Scan(rules: seq<Rule>, s: string): string
    decreases |s|
  {
    if s == [] then []
    else Emit(rules, s) + Scan(rules, s[Skip(rules, s)..])
  }

  /** One `re.sub` / `str.replace` pass. */
  function Pass(p: Pattern, x: string, s: string): string
  {
    Scan([Rule(p, x)], s)
  }

  /** The passes of `rules` run one after another, first rule first. */
  function Chain(rules: seq<Rule>, s: string): string
  {
    if rules == [] then s
    else Pass(rules[|rules| - 1].pat, rules[|rules| - 1].repl, Chain(rules[..|rules| - 1], s))
  }

  /** One more pass at the end of the chain. */
  lemma ChainStep(rules: seq<Rule>, n: nat, s: string)
    requires n < |rules|
    ensures Chain(rules[..n + 1], s) == Pass(rules[n].pat, rules[n].repl, Chain(rules[..n], s))
  {
    assert rules[..n + 1][..n] == rules[..n];
  }

  /** After a replacement the next scan position cannot be read as a
      continuation: the replacement is non-empty and starts with a non-word
      character, or the rule is AnyWord, whose match ends at a boundary. */
  predicate LeadSafe(r: Rule) {
    if r.repl == [] then r.pat == AnyWord else !IsWordChar(r.repl[0])
  }

  /** The conditions under which the passes compose: no replacement holds a
      `$`, and every replacement keeps the next position a boundary. */
  predicate ReplOk(rules: seq<Rule>) {
    forall i :: 0 <= i < |rules| ==> '$' !in rules[i].repl && LeadSafe(rules[i])
  }

  // ---------------------------------------------------------------------
  // Matching is local: it never looks past the next non-word character.

  /** What a match consumes after its `$` are word characters only. */
  lemma MatchLenWord(p: Pattern, s: string)
    ensures forall i :: 1 <= i < MatchLen(p, s) ==> IsWordChar(s[i])
  {
    var k := MatchLen(p, s);
    if k > 0 {
      var t := s[1..];
      var w := match p
        case ResetOrR => if k == 6 then "RESET" else "R"
        case BoldOrB => if k == 5 then "BOLD" else "B"
        case Literal(w) => w
        case AnyWord => t[..k - 1];
      PrefixSlice(t, w);
      forall i | 1 <= i < k
        ensures IsWordChar(s[i])
      {
        assert s[i] == t[..|w|][i - 1];
      }
    }
  }

  /** An AnyWord match ends at a word boundary. */
  lemma AnyWordBoundary(s: string)
    requires MatchLen(AnyWord, s) > 0
    ensures LeadOk(s[MatchLen(AnyWord, s)..])
  {
  }

  lemma TokenRunExtend(a: string, b: string)
    requires b == [] || !IsTokenChar(b[0])
    ensures TokenRun(a + b) == TokenRun(a)
  {
    if a == [] {
      assert a + b == b;
    } else {
      assert (a + b)[1..] == a[1..] + b;
      TokenRunExtend(a[1..], b);
    }
  }

  /** A match never reaches past the end of `a` when `b` cannot continue it. */
  lemma MatchLenExtend(p: Pattern, a: string, b: string)
    requires a != [] && LeadOk(b)
    ensures MatchLen(p, a + b) == MatchLen(p, a)
  {
    var s := a + b;
    assert s[0] == a[0];
    if a[0] == '$' {
      var t, u := s[1..], a[1..];
      assert t == u + b;
      match p
      case ResetOrR =>
        LookaheadExtend(u, b, "RESET", "R", "ED", "ED");
      case BoldOrB =>
        LookaheadExtend(u, b, "BOLD", "B", "LUE", "LACK");
      case Literal(w) =>
        NameExtend(u, b, w);
      case AnyWord =>
        TokenRunExtend(u, b);
    }
  }

  /** The prefix tests of the two lookahead rules are decided by `u` alone. */
  lemma LookaheadExtend(u: string, b: string, long: Name, short: Name, not1: Name, not2: Name)
    requires LeadOk(b)
    ensures HasPrefix(u + b, long) == HasPrefix(u, long)
    ensures HasPrefix(u + b, short) == HasPrefix(u, short)
    ensures |u| >= 1 ==> (u + b)[1..] == u[1..] + b
    ensures |u| >= 1 ==> HasPrefix(u[1..] + b, not1) == HasPrefix(u[1..], not1)
    ensures |u| >= 1 ==> HasPrefix(u[1..] + b, not2) == HasPrefix(u[1..], not2)
  {
    NameExtend(u, b, long);
    NameExtend(u, b, short);
    if |u| >= 1 {
      assert (u + b)[1..] == u[1..] + b;
      NameExtend(u[1..], b, not1);
      NameExtend(u[1..], b, not2);
    }
  }

  /** Whether a name starts `u + b` is decided by `u` when `b` starts with a
      non-word character. */
  lemma NameExtend(u: string, b: string, w: Name)
    requires LeadOk(b)
    ensures HasPrefix(u + b, w) == HasPrefix(u, w)
  {
    HasPrefixExtend(u, b, w);
  }

  /** The same rule wins at the start of `a + b` as at the start of `a`. */
  lemma HitExtend(rules: seq<Rule>, a: string, b: string)
    requires a != [] && LeadOk(b)
    ensures Hit(rules, a + b) == Hit(rules, a)
    ensures Skip(rules, a + b) == Skip(rules, a)
    ensures Emit(rules, a + b) == Emit(rules, a)
  {
    HitExtendRec(rules, a, b);
    var h := Hit(rules, a);
    if h < |rules| {
      MatchLenExtend(rules[h].pat, a, b);
    }
    assert (a + b)[0] == a[0];
  }

  lemma {:induction false} HitExtendRec(rules: seq<Rule>, a: string, b: string)
    requires a != [] && LeadOk(b)
    ensures Hit(rules, a + b) == Hit(rules, a)
  {
    if rules != [] {
      MatchLenExtend(rules[0].pat, a, b);
      HitExtendRec(rules[1..], a, b);
    }
  }

  /** No rule matches where there is no `$`. */
  lemma {:induction false} HitNoDollar(rules: seq<Rule>, s: string)
    requires (s == [] || s[0] != '$')
    ensures Hit(rules, s) == |rules|
  {
    if rules != [] {
      HitNoDollar(rules[1..], s);
    }
  }

  // ---------------------------------------------------------------------
  // Scan is a concatenation of independent pieces.

  lemma ScanUnfold(rules: seq<Rule>, s: string, n: nat, e: string)
    requires s != [] && n == Skip(rules, s) && e == Emit(rules, s)
    ensures Scan(rules, s) == e + Scan(rules, s[n..])
  {
  }

  /** A text where no rule matches at the start, and with no other `$`, is
      copied unchanged. */
  lemma ScanAllMiss(rules: seq<Rule>, s: string)
    requires s != [] && '$' !in s[1..]
    requires forall j :: 0 <= j < |rules| ==> MatchLen(rules[j].pat, s) == 0
    ensures Scan(rules, s) == s
  {
    HitIs(rules, s, |rules|);
    ScanUnfold(rules, s, 1, [s[0]]);
    DollarFreeUnchanged(rules, s[1..]);
    ConsTail(s);
  }

  /** A character other than `$` is copied. */
  lemma ScanCopy(rules: seq<Rule>, s: string)
    requires s != [] && s[0] != '$'
    ensures Scan(rules, s) == [s[0]] + Scan(rules, s[1..])
  {
    HitNoDollar(rules, s);
  }

  /** Text without `$` is copied unchanged. */
  lemma {:induction false} ScanKeepsPrefix(rules: seq<Rule>, a: string, b: string)
    requires '$' !in a
    ensures Scan(rules, a + b) == a + Scan(rules, b)
  {
    if a == [] {
      assert a + b == b;
    } else {
      assert (a + b)[0] == a[0];
      DropAppend(a, b, 1);
      ScanCopy(rules, a + b);
      ScanKeepsPrefix(rules, a[1..], b);
      ConsTail(a);
      AppendAssoc([a[0]], a[1..], Scan(rules, b));
    }
  }

  lemma DollarFreeUnchanged(rules: seq<Rule>, s: string)
    requires '$' !in s
    ensures Scan(rules, s) == s
  {
    ScanKeepsPrefix(rules, s, []);
    assert s + [] == s;
  }

  /** With no rules nothing is replaced. */
  lemma {:induction false} ScanNoRules(s: string)
    ensures Scan([], s) == s
    decreases |s|
  {
    if s != [] {
      ScanUnfold([], s, 1, [s[0]]);
      ScanNoRules(s[1..]);
    }
  }

  /** A scan splits at any point followed by a non-word character. */
  lemma {:induction false} ScanSplit(rules: seq<Rule>, a: string, b: string)
    requires LeadOk(b)
    ensures Scan(rules, a + b) == Scan(rules, a) + Scan(rules, b)
    decreases |a|
  {
    if a == [] {
      assert a + b == b;
    } else {
      HitExtend(rules, a, b);
      var n, e := Skip(rules, a), Emit(rules, a);
      var t := a[n..];
      DropAppend(a, b, n);
      ScanSplit(rules, t, b);
      ScanUnfold(rules, a + b, n, e);
      ScanUnfold(rules, a, n, e);
      Reassociate(Scan(rules, a + b), Scan(rules, a), e, Scan(rules, t), Scan(rules, b));
    }
  }

  lemma Reassociate(whole: string, left: string, e: string, mid: string, right: string)
    requires whole == e + (mid + right) && left == e + mid
    ensures whole == left + right
  {
  }

  /** Scanning keeps the start of the text a boundary. */
  lemma {:induction false} ScanLead(rules: seq<Rule>, s: string)
    requires ReplOk(rules) && LeadOk(s)
    ensures LeadOk(Scan(rules, s))
    decreases |s|
  {
    if s != [] {
      var n, e := Skip(rules, s), Emit(rules, s);
      ScanUnfold(rules, s, n, e);
      var h := Hit(rules, s);
      if h < |rules| && e == [] {
        AnyWordBoundary(s);
        ScanLead(rules, s[n..]);
      }
    }
  }

  /** Split a non-empty text after its first character, at the next `$`. */
  lemma SplitAtDollar(s: string) returns (a: string, v: string)
    requires s != []
    ensures s == a + v && a != [] && a[0] == s[0] && '$' !in a[1..]
    ensures LeadOk(v)
  {
    var j := IndexOf(s[1..], '$');
    a, v := s[..1 + j], s[1 + j..];
    assert a[1..] == s[1..][..j];
  }

  /** Rewriting what follows the first `$`-free stretch of s does not change
      what matches at the start of s. */
  lemma MatchAfterScan(rules: seq<Rule>, p: Pattern, s: string)
    requires ReplOk(rules) && s != []
    ensures MatchLen(p, [s[0]] + Scan(rules, s[1..])) == MatchLen(p, s)
  {
    var a, v := SplitAtDollar(s);
    var u := a[1..];
    assert s[1..] == u + v;
    ScanKeepsPrefix(rules, u, v);
    ScanLead(rules, v);
    var w := Scan(rules, v);
    ConsSplit(s[0], a, u, Scan(rules, s[1..]), w);
    MatchLenExtend(p, a, v);
    MatchLenExtend(p, a, w);
  }

  lemma ConsSplit(c: char, a: string, u: string, r: string, w: string)
    requires a != [] && a[0] == c && u == a[1..] && r == u + w
    ensures [c] + r == a + w
  {
    assert a == [c] + u;
  }

  // ---------------------------------------------------------------------
  // The chain of passes equals the single scan.

  /** The rule list with one more rule at the lowest priority. */
  lemma {:induction false} HitAppend(init: seq<Rule>, last: Rule, s: string)
    ensures Hit(init + [last], s) ==
      if Hit(init, s) < |init| then Hit(init, s)
      else if MatchLen(last.pat, s) > 0 then |init| else |init| + 1
  {
    if init != [] {
      var rules := init + [last];
      assert rules[0] == init[0];
      assert rules[1..] == init[1..] + [last];
      HitAppend(init[1..], last, s);
    }
  }

  /** Running one more pass after a scan is the same as scanning with that
      pass's rule appended at the lowest priority. */
  lemma {:induction false} ScanThenPass(init: seq<Rule>, last: Rule, s: string)
    requires ReplOk(init)
    ensures Pass(last.pat, last.repl, Scan(init, s)) == Scan(init + [last], s)
    decreases |s|, 1
  {
    if s != [] {
      HitAppend(init, last, s);
      if Hit(init, s) < |init| {
        ScanThenPassHit(init, last, s);
      } else {
        ScanThenPassMiss(init, last, s);
      }
    }
  }

  lemma ScanThenPassHit(init: seq<Rule>, last: Rule, s: string)
    requires ReplOk(init)
    requires s != [] && Hit(init, s) < |init| && Hit(init + [last], s) == Hit(init, s)
    ensures Pass(last.pat, last.repl, Scan(init, s)) == Scan(init + [last], s)
    decreases |s|, 0
  {
    var rules := init + [last];
    var h := Hit(init, s);
    assert rules[h] == init[h];
    var k, x := Skip(init, s), init[h].repl;
    var rest := Scan(init, s[k..]);
    ScanUnfold(init, s, k, x);
    ScanUnfold(rules, s, k, x);
    ScanKeepsPrefix([last], x, rest);
    ScanThenPass(init, last, s[k..]);
  }

  lemma ScanThenPassMiss(init: seq<Rule>, last: Rule, s: string)
    requires ReplOk(init)
    requires s != [] && Hit(init, s) == |init|
    requires Hit(init + [last], s) == if MatchLen(last.pat, s) > 0 then |init| else |init| + 1
    ensures Pass(last.pat, last.repl, Scan(init, s)) == Scan(init + [last], s)
    decreases |s|, 0
  {
    var rules := init + [last];
    ScanUnfold(init, s, 1, [s[0]]);
    var t := Scan(init, s);
    MatchAfterScan(init, last.pat, s);
    var m := MatchLen(last.pat, s);
    if m > 0 {
      assert rules[|init|] == last;
      ScanUnfold(rules, s, m, last.repl);
      ScanUnfold([last], t, m, last.repl);
      MissTail(init, last.pat, s, m);
      ScanThenPass(init, last, s[m..]);
    } else {
      ScanUnfold(rules, s, 1, [s[0]]);
      ScanUnfold([last], t, 1, [s[0]]);
      assert t[1..] == Scan(init, s[1..]);
      ScanThenPass(init, last, s[1..]);
    }
  }

  /** After a match of length m at the start of s, scanning what is left of
      the scanned text is scanning what is left of s. */
  lemma MissTail(rules: seq<Rule>, p: Pattern, s: string, m: nat)
    requires ReplOk(rules) && s != []
    requires m == MatchLen(p, s) > 0
    ensures m <= 1 + |Scan(rules, s[1..])|
    ensures ([s[0]] + Scan(rules, s[1..]))[m..] == Scan(rules, s[m..])
  {
    var a, v := SplitAtDollar(s);
    var u := a[1..];
    assert s[1..] == u + v;
    MatchLenExtend(p, a, v);
    ScanKeepsPrefix(rules, u, v);
    var w := Scan(rules, v);
    ConsSplit(s[0], a, u, Scan(rules, s[1..]), w);
    assert '$' !in a[m..] by {
      assert a[m..] == u[m - 1..];
    }
    DropSplit(a, v, w, m);
    assert s[m..] == a[m..] + v;
    ScanKeepsPrefix(rules, a[m..], v);
  }

  lemma DropSplit(a: string, v: string, w: string, m: nat)
    requires m <= |a|
    ensures (a + v)[m..] == a[m..] + v && (a + w)[m..] == a[m..] + w
  {
  }

  /** The chain of one-rule passes computes the single scan. */
  lemma {:induction false} ChainIsScan(rules: seq<Rule>, s: string)
    requires ReplOk(rules)
    ensures Chain(rules, s) == Scan(rules, s)
  {
    if rules == [] {
      ScanNoRules(s);
    } else {
      var init, last := rules[..|rules| - 1], rules[|rules| - 1];
      assert rules == init + [last];
      assert forall i :: 0 <= i < |init| ==> init[i] == rules[i];
      ChainIsScan(init, s);
      ScanThenPass(init, last, s);
    }
  }

  // ---------------------------------------------------------------------
  // A rule that can never be the first to match does not change the scan.

  /** Which rule matches first depends on the patterns only. */
  lemma {:induction false} HitSamePats(r1: seq<Rule>, r2: seq<Rule>, s: string)
    requires |r1| == |r2| && forall i :: 0 <= i < |r1| ==> r1[i].pat == r2[i].pat
    ensures Hit(r1, s) == Hit(r2, s)
  {
    if r1 != [] {
      assert forall i :: 0 <= i < |r1| - 1 ==> r1[1..][i] == r1[i + 1] && r2[1..][i] == r2[i + 1];
      HitSamePats(r1[1..], r2[1..], s);
    }
  }

  lemma {:induction false} ScanDeadRule(r1: seq<Rule>, r2: seq<Rule>, k: nat, s: string)
    requires |r1| == |r2| && forall i :: 0 <= i < |r1| ==> r1[i].pat == r2[i].pat
    requires forall i :: 0 <= i < |r1| && i != k ==> r1[i].repl == r2[i].repl
    requires forall t :: t != [] ==> Hit(r1, t) != k
    ensures Scan(r1, s) == Scan(r2, s)
    decreases |s|
  {
    if s != [] {
      HitSamePats(r1, r2, s);
      var n := Skip(r1, s);
      assert Skip(r2, s) == n && Emit(r2, s) == Emit(r1, s);
      ScanDeadRule(r1, r2, k, s[n..]);
    }
  }
}
