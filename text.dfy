/** White-space trimming as Go's strings.TrimSpace performs it, over decoded
    characters. */
module Text {

  /** Go's unicode.IsSpace: the ASCII and Latin-1 spaces plus the other
      characters of Unicode's White_Space property. */
  predicate IsSpace(c: char) {
    c == '\t' || c == '\n' || c == '\U{B}' || c == '\U{C}' || c == '\r' || c == ' '
    || c == '\U{85}' || c == '\U{A0}' || c == '\U{1680}'
    || ('\U{2000}' <= c <= '\U{200A}')
    || c == '\U{2028}' || c == '\U{2029}' || c == '\U{202F}' || c == '\U{205F}'
    || c == '\U{3000}'
  }

  predicate AllSpace(s: string) {
    forall i :: 0 <= i < |s| ==> IsSpace(s[i])
  }

  /** True when `s` neither starts nor ends with white space. */
  predicate Unpadded(s: string) {
    s == [] || (!IsSpace(s[0]) && !IsSpace(s[|s| - 1]))
  }

  /** Drops the leading white space: the result is the suffix of `s` that
      starts at its first non-space character. */
  function TrimLeft(s: string): (r: string)
    ensures |r| <= |s| && r == s[|s| - |r|..]
    ensures AllSpace(s[..|s| - |r|])
    ensures r == [] || !IsSpace(r[0])
  {
    if |s| > 0 && IsSpace(s[0]) then
      var r := TrimLeft(s[1..]);
      SpaceThenSuffix(s, r);
      r
    else
      s
  }

  /** Drops the trailing white space: the result is the prefix of `s` that
      ends at its last non-space character. */
  function TrimRight(s: string): (r: string)
    ensures |r| <= |s| && r == s[..|r|]
    ensures AllSpace(s[|r|..])
    ensures r == [] || !IsSpace(r[|r| - 1])
  {
    if |s| > 0 && IsSpace(s[|s| - 1]) then
      var r := TrimRight(s[..|s| - 1]);
      PrefixThenSpace(s, r);
      r
    else
      s
  }

  /** A suffix of s[1..] reached over spaces is a suffix of s reached over
      spaces when s[0] is a space too. */
  lemma SpaceThenSuffix(s: string, r: string)
    requires |s| > 0 && IsSpace(s[0])
    requires |r| <= |s| - 1 && r == s[1..][|s| - 1 - |r|..] && AllSpace(s[1..][..|s| - 1 - |r|])
    ensures r == s[|s| - |r|..] && AllSpace(s[..|s| - |r|])
  {
    var t := s[1..];
    assert t[|t| - |r|..] == s[|s| - |r|..];
    assert s[..|s| - |r|] == [s[0]] + t[..|t| - |r|];
  }

  /** The mirror image of SpaceThenSuffix for prefixes. */
  lemma PrefixThenSpace(s: string, r: string)
    requires |s| > 0 && IsSpace(s[|s| - 1])
    requires |r| <= |s| - 1 && r == s[..|s| - 1][..|r|] && AllSpace(s[..|s| - 1][|r|..])
    ensures r == s[..|r|] && AllSpace(s[|r|..])
  {
    var t := s[..|s| - 1];
    assert t[..|r|] == s[..|r|];
    assert s[|r|..] == t[|r|..] + [s[|s| - 1]];
  }

  /** `r` sits at position `i` of `s` with only white space before and after it. */
  predicate Surrounds(s: string, r: string, i: int) {
    0 <= i && i + |r| <= |s| && r == s[i..i + |r|] && AllSpace(s[..i]) && AllSpace(s[i + |r|..])
  }

  /** strings.TrimSpace: leading and trailing white space removed. */
  function TrimSpace(s: string): (r: string)
    ensures |r| <= |s|
    ensures Unpadded(r)
    ensures Surrounds(s, r, |s| - |TrimLeft(s)|)
  {
    var t := TrimLeft(s);
    var r := TrimRight(t);
    InnerSlice(s, t, r);
    r
  }

  /** A prefix `r` of a suffix `t` of `s` is a slice of `s`; when only white
      space surrounds `t` in `s` and `r` in `t`, only white space surrounds
      `r` in `s`. */
  lemma InnerSlice(s: string, t: string, r: string)
    requires |t| <= |s| && t == s[|s| - |t|..] && AllSpace(s[..|s| - |t|])
    requires |r| <= |t| && r == t[..|r|] && AllSpace(t[|r|..])
    ensures Surrounds(s, r, |s| - |t|)
  {
    assert t[|r|..] == s[|s| - |t| + |r|..];
  }

  /** Leading white space followed by text that does not start with white
      space: TrimLeft keeps exactly that text. */
  lemma {:induction false} TrimLeftOfPadded(p: string, v: string)
    requires AllSpace(p) && (v == [] || !IsSpace(v[0]))
    ensures TrimLeft(p + v) == v
    decreases |p|
  {
    if p != [] {
      assert (p + v)[1..] == p[1..] + v;
      TrimLeftOfPadded(p[1..], v);
    } else {
      assert p + v == v;
    }
  }

  /** Text that does not end with white space followed by trailing white
      space: TrimRight keeps exactly that text. */
  lemma {:induction false} TrimRightOfPadded(v: string, q: string)
    requires AllSpace(q) && (v == [] || !IsSpace(v[|v| - 1]))
    ensures TrimRight(v + q) == v
    decreases |q|
  {
    if q != [] {
      assert (v + q)[..|v + q| - 1] == v + q[..|q| - 1];
      TrimRightOfPadded(v, q[..|q| - 1]);
    } else {
      assert v + q == v;
    }
  }

  /** Padding `w` on either side with white space and trimming gives `w`
      back, provided `w` itself is unpadded. */
  lemma TrimSpaceOfPadded(p: string, w: string, q: string)
    requires AllSpace(p) && AllSpace(q) && Unpadded(w)
    ensures TrimSpace(p + w + q) == w
  {
    assert p + w + q == p + (w + q);
    if w == [] {
      TrimLeftOfPadded(p + q, []);
      assert p + q + [] == p + w + q;
    } else {
      TrimLeftOfPadded(p, w + q);
      TrimRightOfPadded(w, q);
    }
  }

  /** Trimming twice is trimming once. */
  lemma TrimSpaceIdempotent(s: string)
    ensures TrimSpace(TrimSpace(s)) == TrimSpace(s)
  {
    TrimSpaceOfPadded([], TrimSpace(s), []);
    assert [] + TrimSpace(s) + [] == TrimSpace(s);
  }
}
