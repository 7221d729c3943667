/**
 * The `[ext]` pre-strip that writeFile applies to a target template when the
 * source file has no extension: `template.replace(/\.?\[ext\]/g, '')`.
 *
 * A global JavaScript replace scans left to right. At each position it first
 * tries `.[ext]` (the optional dot is greedy), then `[ext]`; on a match the
 * scan resumes after it, otherwise one character is kept and the scan moves on.
 */
module ExtToken {

  /** The four characters `ext]` stand in `s` from index `i` on. */
  predicate ExtRestAt(s: string, i: nat) {
    i + 4 <= |s| && s[i] == 'e' && s[i + 1] == 'x' && s[i + 2] == 't' && s[i + 3] == ']'
  }

  /** The token `[ext]` stands in `s` from index `i` on. */
  predicate ExtAt(s: string, i: nat) {
    i < |s| && s[i] == '[' && ExtRestAt(s, i + 1)
  }

  /** True when `[ext]` occurs somewhere in `s`. */
  predicate ContainsExt(s: string)
    decreases |s|
  {
    s != [] && (ExtAt(s, 0) || ContainsExt(s[1..]))
  }

  /** True when `t` is a prefix of `s`. */
  predicate StartsWith(s: string, t: string) {
    |t| <= |s| && forall i :: 0 <= i < |t| ==> s[i] == t[i]
  }

  /** `a` can be obtained from `b` by deleting characters (order kept). */
  predicate IsSubsequence(a: string, b: string)
    decreases |b|
  {
    a == [] || (b != [] && ((a[0] == b[0] && IsSubsequence(a[1..], b[1..])) || IsSubsequence(a, b[1..])))
  }

  /** No `[` occurs before the first `]` of `s`. */
  predicate ClosesBeforeOpening(s: string)
    decreases |s|
  {
    s == [] || s[0] == ']' || (s[0] != '[' && ClosesBeforeOpening(s[1..]))
  }

  /**
   * Brackets in `s` do not nest: after each `[`, no further `[` appears
   * before a `]`. Every loader-utils placeholder (`[name]`, `[hash:8]`, ...)
   * is of this shape.
   */
  predicate BracketsUnnested(s: string)
    decreases |s|
  {
    s == [] || ((s[0] == '[' ==> ClosesBeforeOpening(s[1..])) && BracketsUnnested(s[1..]))
  }

  /**
   * Length of the match of `/\.?\[ext\]/` at the start of `s`: 6 for
   * `.[ext]`, 5 for `[ext]`, 0 when the pattern does not match there.
   */
  function MatchLength(s: string): (n: nat)
    ensures n == 0 || n == 5 || n == 6
    ensures n <= |s|
  {
    if 0 < |s| && s[0] == '.' && ExtAt(s, 1) then 6 else if ExtAt(s, 0) then 5 else 0
  }

  /**
   * `s.replace(/\.?\[ext\]/g, '')`: a match at the front is dropped, else
   * the first character is kept; the scan resumes after what was consumed.
   */
  function StripExt(s: string): (r: string)
    ensures |r| <= |s|
    decreases |s|
  {
    if s == [] then []
    else
      var n := MatchLength(s);
      (if n == 0 then [s[0]] else []) + StripExt(s[if n == 0 then 1 else n..])
  }

  /** The two ways one step of the scan can go. */
  lemma {:induction false} StripExtStep(s: string)
    requires s != []
    ensures MatchLength(s) > 0 ==> StripExt(s) == StripExt(s[MatchLength(s)..])
    ensures MatchLength(s) == 0 ==> StripExt(s) == [s[0]] + StripExt(s[1..])
  {
    var n := MatchLength(s);
    assert [] + StripExt(s[n..]) == StripExt(s[n..]);
  }

  /** A subsequence of a suffix of `b` is a subsequence of `b`. */
  lemma {:induction false} SubsequenceOfSuffix(a: string, b: string, k: nat)
    requires k <= |b|
    requires IsSubsequence(a, b[k..])
    ensures IsSubsequence(a, b)
    decreases k
  {
    if k > 0 {
      assert b[1..][k - 1..] == b[k..];
      SubsequenceOfSuffix(a, b[1..], k - 1);
    }
  }

  /** The strip only deletes characters: what is left keeps its order. */
  lemma {:induction false} StripExtKeepsOrder(s: string)
    ensures IsSubsequence(StripExt(s), s)
    decreases |s|
  {
    if s != [] {
      StripExtStep(s);
      var n := MatchLength(s);
      if n > 0 {
        StripExtKeepsOrder(s[n..]);
        SubsequenceOfSuffix(StripExt(s), s, n);
      } else {
        StripExtKeepsOrder(s[1..]);
        var r := StripExt(s);
        assert r[0] == s[0] && r[1..] == StripExt(s[1..]);
      }
    }
  }

  /**
   * The global-replace rule: a prefix in which no match starts is kept as
   * it stands, and the scan goes on after it. So every character before the
   * first match survives, a `.` not followed by `[ext]` included.
   */
  lemma {:induction false} StripExtUnmatchedPrefix(s: string, i: nat)
    requires i <= |s|
    requires forall j :: 0 <= j < i ==> MatchLength(s[j..]) == 0
    ensures StripExt(s) == s[..i] + StripExt(s[i..])
    decreases i
  {
    if i > 0 {
      NoMatchAtFront(s, i);
      StripExtStep(s);
      var t := s[1..];
      NoMatchShift(s, i);
      StripExtUnmatchedPrefix(t, i - 1);
      ConsPrefix(s, i);
      var rest := StripExt(s[i..]);
      assert StripExt(s) == [s[0]] + (t[..i - 1] + rest);
      assert [s[0]] + (t[..i - 1] + rest) == ([s[0]] + t[..i - 1]) + rest;
    }
  }

  /** The first position of a prefix in which no match starts. */
  lemma {:induction false} NoMatchAtFront(s: string, i: nat)
    requires 0 < i <= |s|
    requires forall j :: 0 <= j < i ==> MatchLength(s[j..]) == 0
    ensures MatchLength(s) == 0
  {
    assert s[0..] == s;
  }

  /** A prefix without a match start, seen from the second character. */
  lemma {:induction false} NoMatchShift(s: string, i: nat)
    requires 0 < i <= |s|
    requires forall j :: 0 <= j < i ==> MatchLength(s[j..]) == 0
    ensures forall j :: 0 <= j < i - 1 ==> MatchLength(s[1..][j..]) == 0
  {
    forall j | 0 <= j < i - 1
      ensures MatchLength(s[1..][j..]) == 0
    {
      assert s[1..][j..] == s[j + 1..];
    }
  }

  /** Splitting off the first character of a prefix. */
  lemma {:induction false} ConsPrefix(s: string, i: nat)
    requires 0 < i <= |s|
    ensures s[1..][i - 1..] == s[i..]
    ensures s[..i] == [s[0]] + s[1..][..i - 1]
  {
  }

  /** `a.b[ext]` keeps its dot: the dot is not followed by `[ext]`. */
  lemma {:induction false} StripExtKeepsLoneDot(s: string)
    requires s == "a.b[ext]"
    ensures StripExt(s) == "a.b"
  {
    assert MatchLength(s[0..]) == 0 && MatchLength(s[1..]) == 0 && MatchLength(s[2..]) == 0;
    StripExtUnmatchedPrefix(s, 3);
    assert s[3..] == ['[', 'e', 'x', 't', ']'] + [];
    StripExtDropsToken([]);
    assert s[..3] == "a.b";
  }

  /** With a token present, the strip shortens the template. */
  lemma {:induction false} StripExtShrinks(s: string)
    requires ContainsExt(s)
    ensures |StripExt(s)| < |s|
    decreases |s|
  {
    StripExtStep(s);
    if MatchLength(s) == 0 {
      StripExtShrinks(s[1..]);
    }
  }

  /** Without a token, the strip returns the template unchanged. */
  lemma {:induction false} StripExtKeepsTokenFree(s: string)
    requires !ContainsExt(s)
    ensures StripExt(s) == s
    decreases |s|
  {
    if s != [] {
      assert !ExtAt(s[1..], 0);
      StripExtStep(s);
      StripExtKeepsTokenFree(s[1..]);
    }
  }

  /** The strip changes a template exactly when it contains `[ext]`. */
  lemma {:induction false} StripExtIsIdentityIff(s: string)
    ensures StripExt(s) == s <==> !ContainsExt(s)
  {
    if ContainsExt(s) {
      StripExtShrinks(s);
    } else {
      StripExtKeepsTokenFree(s);
    }
  }

  /** Every suffix of a template with unnested brackets has unnested brackets. */
  lemma {:induction false} UnnestedSuffix(s: string, k: nat)
    requires k <= |s|
    requires BracketsUnnested(s)
    ensures BracketsUnnested(s[k..])
    decreases k
  {
    if k > 0 {
      assert s[1..][k - 1..] == s[k..];
      UnnestedSuffix(s[1..], k - 1);
    }
  }

  /**
   * If no `[` comes before the first `]` of `r`, the strip starts by keeping
   * characters, so a bracket-free text closed by `]` (such as `ext]`) that
   * starts the output already starts the input.
   */
  lemma {:induction false} KeptPrefix(r: string, w: string)
    requires 0 < |w|
    requires forall i :: 0 <= i < |w| ==> w[i] != '['
    requires forall i :: 0 <= i < |w| - 1 ==> w[i] != ']'
    requires ClosesBeforeOpening(r)
    ensures StartsWith(StripExt(r), w) ==> StartsWith(r, w)
    decreases |w|
  {
    if StartsWith(StripExt(r), w) {
      assert r != [];
      assert MatchLength(r) == 0 by {
        if |r| >= 2 && r[0] == '.' {
          assert r[1..][0] == r[1];
        }
      }
      StripExtStep(r);
      var out := StripExt(r);
      assert r[0] == w[0];
      if |w| > 1 {
        assert ClosesBeforeOpening(r[1..]);
        assert StripExt(r[1..]) == out[1..];
        KeptPrefix(r[1..], w[1..]);
      }
    }
  }

  /** `ext]` at the front, stated character by character or as a prefix. */
  lemma {:induction false} ExtRestIsPrefix(s: string, w: string)
    requires w == ['e', 'x', 't', ']']
    ensures ExtRestAt(s, 0) <==> StartsWith(s, w)
  {
    if StartsWith(s, w) {
      assert s[0] == w[0] && s[1] == w[1] && s[2] == w[2] && s[3] == w[3];
    }
  }

  /**
   * For a template whose brackets do not nest, no `[ext]` survives the strip:
   * the template handed to interpolation has no extension placeholder.
   */
  lemma {:induction false} StripExtRemovesAllTokens(s: string)
    requires BracketsUnnested(s)
    ensures !ContainsExt(StripExt(s))
    decreases |s|
  {
    if s != [] {
      StripExtStep(s);
      var n := MatchLength(s);
      if n > 0 {
        UnnestedSuffix(s, n);
        StripExtRemovesAllTokens(s[n..]);
      } else {
        var rest := StripExt(s[1..]);
        StripExtRemovesAllTokens(s[1..]);
        var out := StripExt(s);
        assert out[0] == s[0] && out[1..] == rest;
        if s[0] == '[' {
          var w := ['e', 'x', 't', ']'];
          KeptPrefix(s[1..], w);
          ExtRestIsPrefix(rest, w);
          ExtRestIsPrefix(s[1..], w);
        }
      }
    }
  }

  /** For a template whose brackets do not nest, stripping twice equals stripping once. */
  lemma {:induction false} StripExtIdempotent(s: string)
    requires BracketsUnnested(s)
    ensures StripExt(StripExt(s)) == StripExt(s)
  {
    StripExtRemovesAllTokens(s);
    StripExtKeepsTokenFree(StripExt(s));
  }

  /** Characters other than `.` and `[` cannot start a token and are kept. */
  lemma {:induction false} StripExtKeepsPlain(p: string, t: string)
    requires forall i :: 0 <= i < |p| ==> p[i] != '.' && p[i] != '['
    ensures StripExt(p + t) == p + StripExt(t)
    decreases |p|
  {
    if p != [] {
      var s := p + t;
      assert s[0] == p[0] && s[1..] == p[1..] + t;
      assert MatchLength(s) == 0;
      StripExtStep(s);
      StripExtKeepsPlain(p[1..], t);
      assert p == [p[0]] + p[1..];
    } else {
      assert p + t == t;
    }
  }

  /** A leading `[` not followed by `ext]` is kept. */
  lemma {:induction false} StripExtKeepsOpen(t: string)
    requires !ExtRestAt(t, 0)
    ensures StripExt(['['] + t) == ['['] + StripExt(t)
  {
    var s := ['['] + t;
    assert s[1..] == t;
    assert !ExtAt(s, 0);
    StripExtStep(s);
  }

  /** A leading token is dropped and the scan resumes after it. */
  lemma {:induction false} StripExtDropsToken(t: string)
    ensures StripExt(['[', 'e', 'x', 't', ']'] + t) == StripExt(t)
  {
    var a := ['[', 'e', 'x', 't', ']'] + t;
    assert a[0] == '[' && a[1] == 'e' && a[2] == 'x' && a[3] == 't' && a[4] == ']';
    assert MatchLength(a) == 5;
    assert a[5..] == t;
    StripExtStep(a);
  }

  /** A leading `.[ext]` is dropped whole: the optional dot goes with the token. */
  lemma {:induction false} StripExtDropsDotToken(t: string)
    ensures StripExt(['.', '[', 'e', 'x', 't', ']'] + t) == StripExt(t)
  {
    var b := ['.', '[', 'e', 'x', 't', ']'] + t;
    assert b[0] == '.' && b[1] == '[' && b[2] == 'e' && b[3] == 'x' && b[4] == 't' && b[5] == ']';
    assert MatchLength(b) == 6;
    assert b[6..] == t;
    StripExtStep(b);
  }

  /**
   * A placeholder `[n]` followed by `.[ext]` keeps the placeholder and loses
   * the extension: `[name].[ext]` becomes `[name]`. The one name excluded is
   * `ext` itself, whose placeholder is the token.
   */
  lemma {:induction false} StripExtPlaceholderThenDotExt(n: string, t: string)
    requires forall i :: 0 <= i < |n| ==> n[i] != '.' && n[i] != '[' && n[i] != ']'
    requires n != ['e', 'x', 't']
    ensures StripExt(['['] + (n + ([']'] + (['.', '[', 'e', 'x', 't', ']'] + t)))) == ['['] + (n + ([']'] + StripExt(t)))
  {
    var tok := ['.', '[', 'e', 'x', 't', ']'] + t;
    var x := n + ([']'] + tok);
    ClosedNameNotExt(n, tok);
    StripExtKeepsOpen(x);
    StripExtKeepsPlain(n, [']'] + tok);
    StripExtKeepsPlain([']'], tok);
    StripExtDropsDotToken(t);
  }

  /** The same with the bare token: `[name][ext]` becomes `[name]`. */
  lemma {:induction false} StripExtPlaceholderThenExt(n: string, t: string)
    requires forall i :: 0 <= i < |n| ==> n[i] != '.' && n[i] != '[' && n[i] != ']'
    requires n != ['e', 'x', 't']
    ensures StripExt(['['] + (n + ([']'] + (['[', 'e', 'x', 't', ']'] + t)))) == ['['] + (n + ([']'] + StripExt(t)))
  {
    var tok := ['[', 'e', 'x', 't', ']'] + t;
    var x := n + ([']'] + tok);
    ClosedNameNotExt(n, tok);
    StripExtKeepsOpen(x);
    StripExtKeepsPlain(n, [']'] + tok);
    StripExtKeepsPlain([']'], tok);
    StripExtDropsToken(t);
  }

  /** `n]...` does not start with `ext]` when `n` is bracket-free and not `ext`. */
  lemma {:induction false} ClosedNameNotExt(n: string, u: string)
    requires forall i :: 0 <= i < |n| ==> n[i] != ']'
    requires n != ['e', 'x', 't']
    ensures !ExtRestAt(n + ([']'] + u), 0)
  {
  }

  /** `[name].[ext]` becomes `[name]`. */
  lemma {:induction false} StripExtNameDotExt()
    ensures StripExt("[name].[ext]") == "[name]"
  {
    var n := "name";
    StripExtPlaceholderThenDotExt(n, []);
    assert "[name].[ext]" == ['['] + (n + ([']'] + (['.', '[', 'e', 'x', 't', ']'] + [])));
    assert "[name]" == ['['] + (n + ([']'] + []));
  }

  /** `[name][ext]` becomes `[name]`. */
  lemma {:induction false} StripExtNameExt()
    ensures StripExt("[name][ext]") == "[name]"
  {
    var n := "name";
    StripExtPlaceholderThenExt(n, []);
    assert "[name][ext]" == ['['] + (n + ([']'] + (['[', 'e', 'x', 't', ']'] + [])));
    assert "[name]" == ['['] + (n + ([']'] + []));
  }

  /** A character that cannot start a match, then a token: the token goes. */
  lemma {:induction false} PlainThenToken(c: char, t: string)
    requires c != '.' && c != '['
    ensures StripExt([c] + (['[', 'e', 'x', 't', ']'] + t)) == [c] + StripExt(t)
  {
    StripExtKeepsPlain([c], ['[', 'e', 'x', 't', ']'] + t);
    StripExtDropsToken(t);
  }

  /** A text without `.` or `[` is kept whole. */
  lemma {:induction false} PlainKept(t: string)
    requires forall i :: 0 <= i < |t| ==> t[i] != '.' && t[i] != '['
    ensures StripExt(t) == t
  {
    StripExtKeepsPlain(t, []);
    assert t + [] == t;
  }

  /** Inside the nested template, the inner token goes and `ext]` is left. */
  lemma {:induction false} NestedTokenInner(x: string, tail: string)
    requires tail == ['x', 't', ']']
    requires x == ['e'] + (['[', 'e', 'x', 't', ']'] + tail)
    ensures StripExt(x) == ['e'] + tail
  {
    PlainKept(tail);
    PlainThenToken('e', tail);
  }

  /** The whole nested template strips to a fresh `[ext]`. */
  lemma {:induction false} NestedTokenStrip(s: string)
    requires s == "[e[ext]xt]"
    ensures StripExt(s) == "[ext]"
  {
    var tail := ['x', 't', ']'];
    var x := ['e'] + (['[', 'e', 'x', 't', ']'] + tail);
    NestedTokenInner(x, tail);
    assert x[0] == 'e';
    StripExtKeepsOpen(x);
    assert s == ['['] + x;
  }

  /** The bare token is a token and strips to nothing. */
  lemma {:induction false} TokenAlone(r: string)
    requires r == "[ext]"
    ensures ContainsExt(r)
    ensures StripExt(r) == []
  {
    assert ExtAt(r, 0);
    StripExtDropsToken([]);
    assert r == ['[', 'e', 'x', 't', ']'] + [];
  }

  /**
   * A single left-to-right pass can leave a token behind when brackets nest:
   * removing the inner `[ext]` of `[e[ext]xt]` joins the outer characters
   * into a new `[ext]`, so the strip is not idempotent in general.
   */
  lemma {:induction false} StripExtCanLeaveToken(s: string)
    requires s == "[e[ext]xt]"
    ensures StripExt(s) == "[ext]"
    ensures ContainsExt(StripExt(s))
    ensures StripExt(StripExt(s)) != StripExt(s)
  {
    NestedTokenStrip(s);
    TokenAlone(StripExt(s));
  }
}
