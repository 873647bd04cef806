/** The JavaScript string built-ins the name pipeline relies on:
    `String.prototype.trim`, `String.prototype.toLowerCase`, and the
    default comparison that `Array.prototype.sort` applies to strings.
    A JavaScript string is modelled as a sequence of characters. */
module JsString {

  /** The ECMAScript WhiteSpace and LineTerminator code points: exactly the
      characters `trim` removes from either end of a string. */
  predicate IsWhitespace(c: char) {
    || c == '\t' || c == '\n' || c == '\U{000B}' || c == '\U{000C}' || c == '\r'
    || c == ' ' || c == '\U{00A0}' || c == '\U{1680}'
    || ('\U{2000}' <= c <= '\U{200A}')
    || c == '\U{2028}' || c == '\U{2029}' || c == '\U{202F}' || c == '\U{205F}'
    || c == '\U{3000}' || c == '\U{FEFF}'
  }

  predicate AllWhitespace(s: string) {
    forall i :: 0 <= i < |s| ==> IsWhitespace(s[i])
  }

  /** A string with neither leading nor trailing whitespace. */
  predicate IsTrimmed(s: string) {
    |s| == 0 || (!IsWhitespace(s[0]) && !IsWhitespace(s[|s| - 1]))
  }

  /** Drops the leading whitespace: what is left is a suffix that does not
      start with whitespace, and everything dropped was whitespace. */
  function TrimStart(s: string): (r: string)
    ensures |r| <= |s| && r == s[|s| - |r|..]
    ensures AllWhitespace(s[..|s| - |r|])
    ensures |r| == 0 || !IsWhitespace(r[0])
  {
    if |s| > 0 && IsWhitespace(s[0]) then TrimStart(s[1..]) else s
  }

  /** Drops the trailing whitespace: what is left is a prefix that does not
      end with whitespace, and everything dropped was whitespace. */
  function TrimEnd(s: string): (r: string)
    ensures |r| <= |s| && r == s[..|r|]
    ensures AllWhitespace(s[|r|..])
    ensures |r| == 0 || !IsWhitespace(r[|r| - 1])
  {
    if |s| > 0 && IsWhitespace(s[|s| - 1]) then TrimEnd(s[..|s| - 1]) else s
  }

  /** `String.prototype.trim`. */
  function Trim(s: string): (r: string)
    ensures IsTrimmed(r)
    ensures |r| <= |s|
  {
    var t := TrimStart(s);
    var r := TrimEnd(t);
    assert |r| > 0 ==> r[0] == t[0];
    r
  }

  lemma {:induction false} TrimStartOfPadded(p: string, m: string)
    requires AllWhitespace(p)
    requires |m| == 0 || !IsWhitespace(m[0])
    ensures TrimStart(p + m) == m
    decreases |p|
  {
    if |p| > 0 {
      assert (p + m)[1..] == p[1..] + m;
      TrimStartOfPadded(p[1..], m);
    } else {
      assert p + m == m;
    }
  }

  lemma {:induction false} TrimEndOfPadded(m: string, q: string)
    requires AllWhitespace(q)
    requires |m| == 0 || !IsWhitespace(m[|m| - 1])
    ensures TrimEnd(m + q) == m
    decreases |q|
  {
    if |q| > 0 {
      assert (m + q)[..|m + q| - 1] == m + q[..|q| - 1];
      TrimEndOfPadded(m, q[..|q| - 1]);
    } else {
      assert m + q == m;
    }
  }

  /** Trim removes exactly the surrounding whitespace: whenever a string is
      some whitespace, then a trimmed middle, then more whitespace, trimming
      it yields that middle. Together with `IsTrimmed(Trim(s))` and
      `TrimSplits` this pins `Trim` down completely. */
  lemma TrimOfPadded(p: string, m: string, q: string)
    requires AllWhitespace(p) && AllWhitespace(q) && IsTrimmed(m)
    ensures Trim(p + m + q) == m
  {
    if |m| > 0 {
      assert p + m + q == p + (m + q);
      assert (m + q)[0] == m[0];
      TrimStartOfPadded(p, m + q);
      TrimEndOfPadded(m, q);
    } else {
      assert p + m + q == (p + q) + m;
      assert AllWhitespace(p + q);
      TrimStartOfPadded(p + q, m);
    }
  }

  /** Every string is its trimmed form surrounded by whitespace; the lemma
      returns the two whitespace runs. */
  lemma TrimSplits(s: string) returns (p: string, q: string)
    ensures AllWhitespace(p) && AllWhitespace(q)
    ensures s == p + Trim(s) + q
  {
    var t := TrimStart(s);
    var r := TrimEnd(t);
    p := s[..|s| - |t|];
    q := t[|r|..];
    ThreeParts(s, |s| - |t|, |r|);
  }

  /** Cutting a sequence at `i`, then its suffix at `j`, loses nothing. */
  lemma ThreeParts(s: string, i: nat, j: nat)
    requires i <= |s| && j <= |s| - i
    ensures s == s[..i] + s[i..][..j] + s[i..][j..]
  {
    assert s[i..] == s[i..][..j] + s[i..][j..];
  }

  /** Trimming is idempotent. */
  lemma {:induction false} TrimIdempotent(s: string)
    ensures Trim(Trim(s)) == Trim(s)
  {
    TrimOfPadded([], Trim(s), []);
    assert [] + Trim(s) + [] == Trim(s);
  }

  /** ASCII case mapping of one character. */
  function LowerChar(c: char): char {
    if 'A' <= c <= 'Z' then (c as int - 'A' as int + 'a' as int) as char else c
  }

  /** No character in the range A-Z. */
  predicate HasNoUpper(s: string) {
    forall i :: 0 <= i < |s| ==> !('A' <= s[i] <= 'Z')
  }

  /** `String.prototype.toLowerCase`, restricted to the ASCII letters: the
      result has the same length, no upper-case ASCII letter, each letter
      A-Z becomes its own lower-case letter, and every other character is
      kept. */
  function ToLower(s: string): (r: string)
    ensures |r| == |s|
    ensures HasNoUpper(r)
    ensures forall i :: 0 <= i < |s| && 'A' <= s[i] <= 'Z' ==> r[i] as int == s[i] as int + 32
    ensures forall i :: 0 <= i < |s| && !('A' <= s[i] <= 'Z') ==> r[i] == s[i]
  {
    seq(|s|, i requires 0 <= i < |s| => LowerChar(s[i]))
  }

  lemma ToLowerAppend(a: string, b: string)
    ensures ToLower(a + b) == ToLower(a) + ToLower(b)
  {
    assert forall i :: 0 <= i < |a + b| ==> ToLower(a + b)[i] == (ToLower(a) + ToLower(b))[i];
  }

  lemma ToLowerWhitespace(s: string)
    requires AllWhitespace(s)
    ensures ToLower(s) == s
  {
  }

  /** Lower-casing commutes with trimming, because no whitespace character
      has a case mapping; so `toLowerCase().trim()` and
      `trim().toLowerCase()` agree. */
  lemma {:induction false} LowerTrimCommute(s: string)
    ensures Trim(ToLower(s)) == ToLower(Trim(s))
  {
    var p, q := TrimSplits(s);
    var m := Trim(s);
    var lm := ToLower(m);
    calc {
      ToLower(s);
      ToLower(p + m + q);
      { ToLowerAppend(p + m, q); }
      ToLower(p + m) + ToLower(q);
      { ToLowerAppend(p, m); }
      ToLower(p) + lm + ToLower(q);
      { ToLowerWhitespace(p); ToLowerWhitespace(q); }
      p + lm + q;
    }
    LowerKeepsTrimmed(m);
    TrimOfPadded(p, lm, q);
  }

  lemma LowerKeepsTrimmed(m: string)
    requires IsTrimmed(m)
    ensures IsTrimmed(ToLower(m))
  {
    if |m| > 0 {
      assert ToLower(m)[0] == LowerChar(m[0]);
      assert ToLower(m)[|m| - 1] == LowerChar(m[|m| - 1]);
    }
  }

  /** The order `Array.prototype.sort` uses when no comparator is given:
      lexicographic comparison of character codes, a proper prefix coming
      first. */
  predicate Less(a: string, b: string) {
    if |a| == 0 then |b| > 0
    else if |b| == 0 then false
    else if a[0] != b[0] then a[0] < b[0]
    else Less(a[1..], b[1..])
  }

  predicate LessEq(a: string, b: string) {
    a == b || Less(a, b)
  }

  /** The textbook definition of lexicographic order: `a` is a proper prefix
      of `b`, or they first differ at a position where `a` is smaller. */
  ghost predicate LexBefore(a: string, b: string) {
    || (|a| < |b| && a == b[..|a|])
    || exists k :: 0 <= k < |a| && k < |b| && a[..k] == b[..k] && a[k] < b[k]
  }

  lemma {:induction false} PrefixIsLess(a: string, b: string)
    requires |a| < |b| && a == b[..|a|]
    ensures Less(a, b)
    decreases |a|
  {
    if |a| > 0 {
      assert a[0] == b[0];
      assert a[1..] == b[1..][..|a| - 1];
      PrefixIsLess(a[1..], b[1..]);
    }
  }

  lemma {:induction false} FirstDifferenceIsLess(a: string, b: string, k: nat)
    requires k < |a| && k < |b| && a[..k] == b[..k] && a[k] < b[k]
    ensures Less(a, b)
    decreases k
  {
    if k > 0 {
      assert a[0] == a[..k][0] == b[..k][0] == b[0];
      assert a[1..][..k - 1] == a[..k][1..];
      assert b[1..][..k - 1] == b[..k][1..];
      FirstDifferenceIsLess(a[1..], b[1..], k - 1);
    }
  }

  lemma {:induction false} LessGivesLexBefore(a: string, b: string)
    requires Less(a, b)
    ensures LexBefore(a, b)
    decreases |a|
  {
    if |a| == 0 {
      assert a == b[..0];
    } else if a[0] != b[0] {
      assert a[..0] == b[..0];
    } else {
      LessGivesLexBefore(a[1..], b[1..]);
      if |a| - 1 < |b| - 1 && a[1..] == b[1..][..|a| - 1] {
        assert a == [a[0]] + a[1..];
        assert b[..|a|] == [b[0]] + b[1..][..|a| - 1];
      } else {
        var k :| 0 <= k < |a| - 1 && k < |b| - 1 && a[1..][..k] == b[1..][..k] && a[1..][k] < b[1..][k];
        assert a[..k + 1] == [a[0]] + a[1..][..k];
        assert b[..k + 1] == [b[0]] + b[1..][..k];
      }
    }
  }

  /** The recursive order agrees with the textbook definition, both ways. */
  lemma LessIsLexBefore(a: string, b: string)
    ensures Less(a, b) <==> LexBefore(a, b)
  {
    if Less(a, b) {
      LessGivesLexBefore(a, b);
    }
    if LexBefore(a, b) {
      if |a| < |b| && a == b[..|a|] {
        PrefixIsLess(a, b);
      } else {
        var k :| 0 <= k < |a| && k < |b| && a[..k] == b[..k] && a[k] < b[k];
        FirstDifferenceIsLess(a, b, k);
      }
    }
  }

  lemma {:induction false} LessIrreflexive(a: string)
    ensures !Less(a, a)
    decreases |a|
  {
    if |a| > 0 {
      LessIrreflexive(a[1..]);
    }
  }

  lemma {:induction false} LessAsymmetric(a: string, b: string)
    ensures !(Less(a, b) && Less(b, a))
    decreases |a|
  {
    if |a| > 0 && |b| > 0 && a[0] == b[0] {
      LessAsymmetric(a[1..], b[1..]);
    }
  }

  lemma {:induction false} LessTransitive(a: string, b: string, c: string)
    requires Less(a, b) && Less(b, c)
    ensures Less(a, c)
    decreases |a|
  {
    if |a| > 0 && a[0] == b[0] && b[0] == c[0] {
      LessTransitive(a[1..], b[1..], c[1..]);
    }
  }

  lemma {:induction false} LessTotal(a: string, b: string)
    ensures a == b || Less(a, b) || Less(b, a)
    decreases |a|
  {
    if |a| > 0 && |b| > 0 && a[0] == b[0] {
      LessTotal(a[1..], b[1..]);
      if a[1..] == b[1..] {
        assert a == [a[0]] + a[1..] && b == [b[0]] + b[1..];
      }
    }
  }

  lemma LessEqTransitive(a: string, b: string, c: string)
    requires LessEq(a, b) && LessEq(b, c)
    ensures LessEq(a, c)
  {
    if a != b && b != c {
      LessTransitive(a, b, c);
    }
  }

  lemma LessEqAntisymmetric(a: string, b: string)
    requires LessEq(a, b) && LessEq(b, a)
    ensures a == b
  {
    LessAsymmetric(a, b);
  }
}
