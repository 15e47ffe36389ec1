/**
 * The string operations the handlers and the attribute reader rely on:
 * `indexOf` for one character, `String.prototype.replace` with a global
 * regular expression that matches a fixed text, and `trim`.
 */
module Text {

  /** `s.indexOf(c)`: the first index of `c` in `s`, or -1 when `s` lacks it. */
  function IndexOf(s: string, c: char): (r: int)
    ensures -1 <= r < |s|
    ensures r == -1 <==> c !in s
    ensures r >= 0 ==> s[r] == c && c !in s[..r]
  {
    if s == [] then -1
    else if s[0] == c then 0
    else
      var r := IndexOf(s[1..], c);
      assert s == [s[0]] + s[1..];
      if r == -1 then -1
      else
        assert s[..r + 1] == [s[0]] + s[1..][..r];
        r + 1
  }

  // ---------------------------------------------------------------------------
  // Occurrences of a text.

  /** `s.includes(pat)`. */
  predicate Occurs(s: string, pat: string)
    decreases |s|
  {
    |pat| <= |s| && (s[..|pat|] == pat || (s != [] && Occurs(s[1..], pat)))
  }

  predicate StartsWith(s: string, w: string)
  {
    |w| <= |s| && s[..|w|] == w
  }

  /** An occurrence in `a + b` whose first character `a` lacks lies in `b`. */
  lemma {:induction false} OccursAfter(a: string, b: string, q: string)
    requires q != [] && q[0] !in a
    requires Occurs(a + b, q)
    ensures Occurs(b, q)
    decreases |a|
  {
    if a != [] {
      assert (a + b)[0] == a[0];
      assert (a + b)[1..] == a[1..] + b;
      OccursAfter(a[1..], b, q);
    } else {
      assert a + b == b;
    }
  }

  /** An occurrence in a suffix is an occurrence in the whole. */
  lemma {:induction false} OccursInSuffix(s: string, k: nat, q: string)
    requires k <= |s| && Occurs(s[k..], q)
    ensures Occurs(s, q)
    decreases k
  {
    if k > 0 {
      assert s[1..][k - 1..] == s[k..];
      OccursInSuffix(s[1..], k - 1, q);
    }
  }

  // ---------------------------------------------------------------------------
  // `s.replace(/pat/g, replacement)` for a pattern that matches the fixed text `pat`.

  /** The replacement text for one match (GetSubstitution in ECMA-262, for a pattern without
      capture groups): `$$` stands for `$`, `$&` for the matched text, `` $` `` for the text before
      the match and `$'` for the text after it; every other character is copied. */
  function Expand(template: string, matched: string, before: string, after: string): (r: string)
    ensures '$' !in template ==> r == template
  {
    if template == [] then []
    else if template[0] == '$' && |template| >= 2 && template[1] in "$&`'" then
      var piece := match template[1]
        case '$' => "$"
        case '&' => matched
        case '`' => before
        case _ => after;
      piece + Expand(template[2..], matched, before, after)
    else
      [template[0]] + Expand(template[1..], matched, before, after)
  }

  /** The result of replacing, from index `i` of `s` on, every non-overlapping occurrence of
      `pat`, found left to right, by the expansion of `template`. */
  function ReplaceFrom(s: string, pat: string, template: string, i: nat): string
    requires pat != [] && i <= |s|
    decreases |s| - i
  {
    if |s| - i < |pat| then s[i..]
    else if s[i..i + |pat|] == pat then
      Expand(template, pat, s[..i], s[i + |pat|..]) + ReplaceFrom(s, pat, template, i + |pat|)
    else
      [s[i]] + ReplaceFrom(s, pat, template, i + 1)
  }

  /** `s.replace(new RegExp(<pat escaped>, "g"), template)`. */
  function ReplaceAll(s: string, pat: string, template: string): string
    requires pat != []
  {
    ReplaceFrom(s, pat, template, 0)
  }

  /** Replacing every occurrence of `pat` by `r` taken literally: the reference definition that
      `ReplaceAll` agrees with when the replacement holds no `$`. */
  function LiteralReplace(s: string, pat: string, r: string): string
    requires pat != []
    decreases |s|
  {
    if |s| < |pat| then s
    else if s[..|pat|] == pat then r + LiteralReplace(s[|pat|..], pat, r)
    else [s[0]] + LiteralReplace(s[1..], pat, r)
  }

  /** A replacement without `$` is inserted as it is. */
  lemma {:induction false} ReplaceFromLiteral(s: string, pat: string, r: string, i: nat)
    requires pat != [] && i <= |s| && '$' !in r
    ensures ReplaceFrom(s, pat, r, i) == LiteralReplace(s[i..], pat, r)
    decreases |s| - i
  {
    var t := s[i..];
    if |s| - i >= |pat| {
      assert t[..|pat|] == s[i..i + |pat|];
      if s[i..i + |pat|] == pat {
        assert t[|pat|..] == s[i + |pat|..];
        ReplaceFromLiteral(s, pat, r, i + |pat|);
      } else {
        assert t[0] == s[i] && t[1..] == s[i + 1..];
        ReplaceFromLiteral(s, pat, r, i + 1);
      }
    }
  }

  lemma ReplaceAllLiteral(s: string, pat: string, r: string)
    requires pat != [] && '$' !in r
    ensures ReplaceAll(s, pat, r) == LiteralReplace(s, pat, r)
  {
    ReplaceFromLiteral(s, pat, r, 0);
    assert s[0..] == s;
  }

  /** Where `pat` starts the input, the replacement text starts the output. */
  lemma MatchedStart(s: string, pat: string, r: string)
    requires pat != [] && r != [] && StartsWith(s, pat)
    ensures LiteralReplace(s, pat, r)[0] == r[0]
  {
  }

  /** A prefix `w` of the output that lacks the replacement's first character was already a
      prefix of the input: no replacement text contributes to it. */
  lemma {:induction false} PrefixBeforeReplacement(s: string, pat: string, r: string, w: string)
    requires pat != [] && r != [] && r[0] !in w
    requires StartsWith(LiteralReplace(s, pat, r), w)
    ensures StartsWith(s, w)
    decreases |s|
  {
    if w != [] && |s| >= |pat| {
      if s[..|pat|] == pat {
        MatchedStart(s, pat, r);
      } else {
        var rest := LiteralReplace(s[1..], pat, r);
        assert LiteralReplace(s, pat, r) == [s[0]] + rest;
        assert StartsWith(rest, w[1..]) by {
          assert rest[..|w| - 1] == LiteralReplace(s, pat, r)[1..|w|];
        }
        PrefixBeforeReplacement(s[1..], pat, r, w[1..]);
        assert s[..|w|] == [s[0]] + s[1..][..|w| - 1];
      }
    }
  }

  /** The replacement removes every occurrence of `pat` when the replacement text is non-empty,
      lacks the first character of `pat` and starts with a character that `pat` lacks. */
  lemma {:induction false} LiteralReplaceRemoves(s: string, pat: string, r: string)
    requires pat != [] && r != [] && pat[0] !in r && r[0] !in pat
    ensures !Occurs(LiteralReplace(s, pat, r), pat)
    decreases |s|
  {
    var out := LiteralReplace(s, pat, r);
    if |s| >= |pat| {
      if s[..|pat|] == pat {
        var rest := LiteralReplace(s[|pat|..], pat, r);
        LiteralReplaceRemoves(s[|pat|..], pat, r);
        if Occurs(out, pat) {
          OccursAfter(r, rest, pat);
        }
      } else {
        var rest := LiteralReplace(s[1..], pat, r);
        LiteralReplaceRemoves(s[1..], pat, r);
        assert out == [s[0]] + rest;
        if StartsWith(out, pat) {
          assert StartsWith(rest, pat[1..]) by {
            assert rest[..|pat| - 1] == out[1..|pat|];
          }
          PrefixBeforeReplacement(s[1..], pat, r, pat[1..]);
        }
        assert out[1..] == rest;
      }
    }
  }

  /** The replacement creates no occurrence of a text `q` that the input lacks, when the
      replacement text is non-empty, lacks the first character of `q` and starts with a character
      that `q` lacks. */
  lemma {:induction false} LiteralReplaceKeepsAbsent(s: string, pat: string, r: string, q: string)
    requires pat != [] && q != [] && r != [] && q[0] !in r && r[0] !in q
    requires !Occurs(s, q)
    ensures !Occurs(LiteralReplace(s, pat, r), q)
    decreases |s|
  {
    var out := LiteralReplace(s, pat, r);
    if |s| >= |pat| {
      if s[..|pat|] == pat {
        var rest := LiteralReplace(s[|pat|..], pat, r);
        if Occurs(s[|pat|..], q) {
          OccursInSuffix(s, |pat|, q);
        }
        LiteralReplaceKeepsAbsent(s[|pat|..], pat, r, q);
        if Occurs(out, q) {
          OccursAfter(r, rest, q);
        }
      } else {
        var rest := LiteralReplace(s[1..], pat, r);
        if Occurs(s[1..], q) {
          OccursInSuffix(s, 1, q);
        }
        LiteralReplaceKeepsAbsent(s[1..], pat, r, q);
        assert out == [s[0]] + rest;
        if StartsWith(out, q) {
          assert StartsWith(rest, q[1..]) by {
            assert rest[..|q| - 1] == out[1..|q|];
          }
          PrefixBeforeReplacement(s[1..], pat, r, q[1..]);
        }
        assert out[1..] == rest;
      }
    }
  }

  // ---------------------------------------------------------------------------
  // White space.

  /** The characters `\s` matches and `trim` removes: WhiteSpace and LineTerminator of
      ECMA-262 (tab, line tabulation, form feed, space, no-break space, byte order mark, the other
      space separators of Unicode, line feed, carriage return, line and paragraph separators). */
  predicate IsJsSpace(c: char)
  {
    c == '\t' || c == '\U{000B}' || c == '\U{000C}' || c == ' ' || c == '\U{00A0}'
    || c == '\U{FEFF}' || c == '\U{1680}' || ('\U{2000}' <= c <= '\U{200A}') || c == '\U{202F}'
    || c == '\U{205F}' || c == '\U{3000}'
    || c == '\n' || c == '\r' || c == '\U{2028}' || c == '\U{2029}'
  }

  function TrimStart(s: string): (r: string)
    ensures |r| <= |s| && r == s[|s| - |r|..]
    ensures forall i :: 0 <= i < |s| - |r| ==> IsJsSpace(s[i])
    ensures r == [] || !IsJsSpace(r[0])
  {
    if s != [] && IsJsSpace(s[0]) then
      var r := TrimStart(s[1..]);
      assert forall i :: 1 <= i < |s| - |r| ==> s[i] == s[1..][i - 1];
      r
    else s
  }

  function TrimEnd(s: string): (r: string)
    ensures |r| <= |s| && r == s[..|r|]
    ensures forall i :: |r| <= i < |s| ==> IsJsSpace(s[i])
    ensures r == [] || !IsJsSpace(r[|r| - 1])
  {
    if s != [] && IsJsSpace(s[|s| - 1]) then
      var r := TrimEnd(s[..|s| - 1]);
      assert forall i :: |r| <= i < |s| - 1 ==> s[i] == s[..|s| - 1][i];
      r
    else s
  }

  /** `s.trim()`: `s` without its leading and trailing white space. */
  function Trim(s: string): (r: string)
    ensures var i := |s| - |TrimStart(s)|;
            && i + |r| <= |s| && r == s[i..i + |r|]
            && (forall j :: 0 <= j < i ==> IsJsSpace(s[j]))
            && (forall j :: i + |r| <= j < |s| ==> IsJsSpace(s[j]))
    ensures r == [] || (!IsJsSpace(r[0]) && !IsJsSpace(r[|r| - 1]))
  {
    var a := TrimStart(s);
    var r := TrimEnd(a);
    TrimParts(s, a, r);
    r
  }

  /** How the two halves of `trim` fit together. */
  lemma {:induction false} TrimParts(s: string, a: string, r: string)
    requires a == TrimStart(s) && r == TrimEnd(a)
    ensures var i := |s| - |a|;
            && i + |r| <= |s| && r == s[i..i + |r|]
            && (forall j :: 0 <= j < i ==> IsJsSpace(s[j]))
            && (forall j :: i + |r| <= j < |s| ==> IsJsSpace(s[j]))
    ensures r == [] || (!IsJsSpace(r[0]) && !IsJsSpace(r[|r| - 1]))
  {
    var i := |s| - |a|;
    assert a == s[i..];
    assert r == a[..|r|];
    assert r == s[i..i + |r|];
    forall j | i + |r| <= j < |s| ensures IsJsSpace(s[j]) {
      assert s[j] == a[j - i];
    }
    if r != [] {
      assert r[0] == a[0];
    }
  }
}
