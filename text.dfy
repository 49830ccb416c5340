/** String helpers shared by the rewriters: prefixes, occurrences, and a model
    of Python's `str.replace` / `re.sub` with a literal pattern (leftmost,
    non-overlapping, scanning left to right). */
module Text {

  /** `s` starts with `p`. */
  predicate HasPrefix(s: string, p: string) {
    |p| <= |s| && (p == [] || (s[0] == p[0] && HasPrefix(s[1..], p[1..])))
  }

  lemma {:induction false} PrefixSlice(s: string, p: string)
    ensures HasPrefix(s, p) <==> |p| <= |s| && s[..|p|] == p
  {
    if p != [] && s != [] {
      PrefixSlice(s[1..], p[1..]);
      assert |p| <= |s| <==> |p[1..]| <= |s[1..]|;
      if |p| <= |s| {
        assert s[..|p|] == [s[0]] + s[1..][..|p| - 1];
        assert p == [p[0]] + p[1..];
      }
    }
  }

  /** `pat` occurs somewhere in `s`. */
  predicate Occurs(s: string, pat: string) {
    exists i :: 0 <= i <= |s| && HasPrefix(s[i..], pat)
  }

  /** Index of the first `c` in `s`, or `|s|` when there is none. */
  function IndexOf(s: string, c: char): (i: nat)
    ensures i <= |s| && c !in s[..i]
    ensures i < |s| ==> s[i] == c
  {
    if s == [] then 0
    else if s[0] == c then 0
    else
      var j := IndexOf(s[1..], c);
      assert s[..1 + j] == [s[0]] + s[1..][..j];
      1 + j
  }

  /** Whether `a + b` starts with `w` is decided by `a` alone when the first
      character of `b` cannot continue `w` past the end of `a`. */
  lemma {:induction false} HasPrefixExtend(a: string, b: string, w: string)
    requires b == [] || forall i :: |a| <= i < |w| ==> w[i] != b[0]
    ensures HasPrefix(a + b, w) == HasPrefix(a, w)
  {
    if b == [] {
      assert a + b == a;
    } else if w != [] {
      if a == [] {
        assert a + b == b;
        assert w[0] != b[0];
      } else {
        assert (a + b)[0] == a[0];
        assert (a + b)[1..] == a[1..] + b;
        assert forall i :: |a[1..]| <= i < |w[1..]| ==> w[1..][i] == w[i + 1];
        HasPrefixExtend(a[1..], b, w[1..]);
      }
    }
  }

  /** `s` with every occurrence of `pat` replaced by `x`. */
  function ReplaceAll(s: string, pat: string, x: string): string
    requires pat != []
    decreases |s|
  {
    if s == [] then []
    else if HasPrefix(s, pat) then x + ReplaceAll(s[|pat|..], pat, x)
    else [s[0]] + ReplaceAll(s[1..], pat, x)
  }

  /** Text before the first character of `pat` is copied unchanged. */
  lemma {:induction false} ReplaceAllKeepsPrefix(a: string, b: string, pat: string, x: string)
    requires pat != [] && pat[0] !in a
    ensures ReplaceAll(a + b, pat, x) == a + ReplaceAll(b, pat, x)
  {
    if a != [] {
      assert (a + b)[0] == a[0];
      assert (a + b)[1..] == a[1..] + b;
      ReplaceAllKeepsPrefix(a[1..], b, pat, x);
    } else {
      assert a + b == b;
    }
  }

  /** With no occurrence of `pat`, replacing changes nothing. */
  lemma {:induction false} ReplaceAllAbsent(s: string, pat: string, x: string)
    requires pat != [] && !Occurs(s, pat)
    ensures ReplaceAll(s, pat, x) == s
  {
    if s != [] {
      assert s[0..] == s;
      forall i | 0 <= i <= |s[1..]|
        ensures !HasPrefix(s[1..][i..], pat)
      {
        assert s[1..][i..] == s[i + 1..];
      }
      ReplaceAllAbsent(s[1..], pat, x);
    }
  }

  /** When the replacement can neither start nor complete an occurrence of
      `pat`, none is left afterwards. */
  lemma {:induction false} ReplaceAllRemoves(s: string, pat: string, x: string)
    requires pat != [] && pat[0] !in pat[1..]
    requires x != [] && pat[0] !in x && x[0] !in pat
    ensures !Occurs(ReplaceAll(s, pat, x), pat)
    decreases |s|
  {
    var r := ReplaceAll(s, pat, x);
    if s == [] {
      assert forall i :: 0 <= i <= |r| ==> !HasPrefix(r[i..], pat);
    } else if HasPrefix(s, pat) {
      var t := s[|pat|..];
      ReplaceAllRemoves(t, pat, x);
      forall i | 0 <= i <= |r|
        ensures !HasPrefix(r[i..], pat)
      {
        if i < |x| {
          assert r[i..][0] == x[i];
        } else {
          assert r[i..] == ReplaceAll(t, pat, x)[i - |x|..];
        }
      }
    } else {
      var t := s[1..];
      ReplaceAllRemoves(t, pat, x);
      forall i | 0 <= i <= |r|
        ensures !HasPrefix(r[i..], pat)
      {
        if i == 0 {
          if HasPrefix(r, pat) {
            ReplaceAllNoFalseStart(s, pat, x);
          }
        } else {
          assert r[i..] == ReplaceAll(t, pat, x)[i - 1..];
        }
      }
    }
  }

  /** Helper for ReplaceAllRemoves: an unmatched position stays unmatched. */
  lemma ReplaceAllNoFalseStart(s: string, pat: string, x: string)
    requires pat != [] && pat[0] !in pat[1..]
    requires x != [] && x[0] !in pat
    requires s != [] && !HasPrefix(s, pat)
    ensures !HasPrefix([s[0]] + ReplaceAll(s[1..], pat, x), pat)
  {
    var t := s[1..];
    var j := IndexOf(t, pat[0]);
    var a, b := t[..j], t[j..];
    SplitAt(t, j);
    ReplaceAllKeepsPrefix(a, b, pat, x);
    var rb := ReplaceAll(b, pat, x);
    if b != [] {
      RewrittenHead(b, pat, x);
    }
    ConsTail(s);
    NoFalseStartCases(s[0], a, b, rb, pat, x);
  }

  lemma SplitAt(t: string, j: nat)
    requires j <= |t|
    ensures t[..j] + t[j..] == t
  {
  }

  lemma ConsTail(s: string)
    requires s != []
    ensures [s[0]] + s[1..] == s
  {
  }

  lemma NoFalseStartCases(c: char, a: string, b: string, rb: string, pat: string, x: string)
    requires pat != [] && pat[0] !in pat[1..] && pat[0] !in a
    requires x != [] && x[0] !in pat
    requires !HasPrefix([c] + (a + b), pat)
    requires b == [] ==> rb == []
    requires b != [] ==> b[0] == pat[0] && rb != [] && (rb[0] == x[0] || rb[0] == pat[0])
    ensures !HasPrefix([c] + (a + rb), pat)
  {
    var h := [c] + a;
    AppendAssoc([c], a, b);
    AppendAssoc([c], a, rb);
    if |h| >= |pat| {
      HasPrefixExtend(h, b, pat);
      HasPrefixExtend(h, rb, pat);
    } else if b == [] {
      assert h + b == h + rb;
    } else {
      assert forall i :: 1 <= i < |pat| ==> pat[i] == pat[1..][i - 1];
      HasPrefixExtend(h, rb, pat);
      PrefixSlice(h, pat);
    }
  }

  lemma RewrittenHead(b: string, pat: string, x: string)
    requires pat != [] && x != [] && b != [] && b[0] == pat[0]
    ensures ReplaceAll(b, pat, x) != []
    ensures ReplaceAll(b, pat, x)[0] == (if HasPrefix(b, pat) then x[0] else pat[0])
  {
  }

  // ---------------------------------------------------------------------
  // Sequence algebra, kept in lemmas of their own so that callers with
  // concrete strings in scope do not have to rediscover it.

  lemma AppendAssoc(a: string, b: string, c: string)
    ensures a + (b + c) == a + b + c
  {
  }

  lemma DropAppend(a: string, b: string, m: nat)
    requires m <= |a|
    ensures (a + b)[m..] == a[m..] + b
  {
  }

  /** An occurrence of `pat` at the start is replaced by `x`. */
  lemma ReplaceAllAtStart(pat: string, post: string, x: string)
    requires pat != []
    ensures ReplaceAll(pat + post, pat, x) == x + ReplaceAll(post, pat, x)
  {
    PrefixSlice(pat + post, pat);
    assert (pat + post)[..|pat|] == pat;
    assert (pat + post)[|pat|..] == post;
  }

  /** The first occurrence of `pat`, after text free of its first character,
      is replaced where it stands. */
  lemma ReplaceAllFirst(pre: string, pat: string, post: string, x: string)
    requires pat != [] && pat[0] !in pre
    ensures ReplaceAll(pre + pat + post, pat, x) == pre + x + ReplaceAll(post, pat, x)
  {
    AppendAssoc(pre, pat, post);
    ReplaceAllKeepsPrefix(pre, pat + post, pat, x);
    ReplaceAllAtStart(pat, post, x);
    AppendAssoc(pre, x, ReplaceAll(post, pat, x));
  }

  /** Appending text that can neither start nor continue `pat` creates no
      occurrence. */
  lemma NoOccurrenceAppend(a: string, b: string, pat: string)
    requires pat != [] && !Occurs(a, pat) && pat[0] !in b && (b == [] || b[0] !in pat)
    ensures !Occurs(a + b, pat)
  {
    forall i | 0 <= i <= |a + b|
      ensures !HasPrefix((a + b)[i..], pat)
    {
      if i <= |a| {
        DropAppend(a, b, i);
        HasPrefixExtend(a[i..], b, pat);
      } else {
        assert (a + b)[i..] == b[i - |a|..];
        assert (a + b)[i..] != [] ==> (a + b)[i] != pat[0];
      }
    }
  }

  /** A character in neither the text nor the replacement is not in the
      result. */
  lemma {:induction false} ReplaceAllFree(s: string, pat: string, x: string, c: char)
    requires pat != [] && c !in s && c !in x
    ensures c !in ReplaceAll(s, pat, x)
    decreases |s|
  {
    if s != [] {
      if HasPrefix(s, pat) {
        PrefixSlice(s, pat);
        ReplaceAllFree(s[|pat|..], pat, x, c);
      } else {
        ReplaceAllFree(s[1..], pat, x, c);
      }
    }
  }

  /** Text free of the first character of `pat` at the end, and unable to
      complete an occurrence begun before it, is copied unchanged. */
  lemma {:induction false} ReplaceAllSuffix(a: string, b: string, pat: string, x: string)
    requires pat != [] && pat[0] !in b && (b == [] || b[0] !in pat)
    ensures ReplaceAll(a + b, pat, x) == ReplaceAll(a, pat, x) + b
    decreases |a|
  {
    if a == [] {
      assert a + b == b;
      ReplaceAllKeepsPrefix(b, [], pat, x);
      assert b + [] == b;
    } else {
      HasPrefixExtend(a, b, pat);
      if HasPrefix(a, pat) {
        PrefixSlice(a, pat);
        DropAppend(a, b, |pat|);
        ReplaceAllSuffix(a[|pat|..], b, pat, x);
      } else {
        assert (a + b)[1..] == a[1..] + b;
        ReplaceAllSuffix(a[1..], b, pat, x);
      }
    }
  }
}
