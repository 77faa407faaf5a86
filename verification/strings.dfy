/** strings.TrimSpace over a fixed set of white-space characters. */
module Strings {

  /** The characters unicode.IsSpace accepts: the Latin-1 set
      '\t', '\n', '\v', '\f', '\r', ' ', U+0085 and U+00A0, and the other
      members of the Unicode White_Space property. */
  predicate IsSpace(c: char)
  {
    || c == '\t' || c == '\n' || c == '\U{0B}' || c == '\U{0C}' || c == '\r' || c == ' '
    || c == '\U{85}' || c == '\U{A0}' || c == '\U{1680}'
    || ('\U{2000}' <= c <= '\U{200A}')
    || c == '\U{2028}' || c == '\U{2029}' || c == '\U{202F}' || c == '\U{205F}' || c == '\U{3000}'
  }

  predicate AllSpace(s: string)
  {
    forall i :: 0 <= i < |s| ==> IsSpace(s[i])
  }

  /** No white space at either end. */
  predicate Trimmed(s: string)
  {
    s == [] || (!IsSpace(s[0]) && !IsSpace(s[|s| - 1]))
  }

  /** strings.TrimSpace: drops white space from the front, then from the
      back, one character at a time. The result begins and ends with a
      non-space, and is empty exactly when the input is all white space. */
  function TrimSpace(s: string): (r: string)
    ensures Trimmed(r)
    ensures r == [] <==> AllSpace(s)
    decreases |s|
  {
    if s != [] && IsSpace(s[0]) then
      assert AllSpace(s[1..]) ==> AllSpace(s) by {
        if AllSpace(s[1..]) {
          assert forall i :: 1 <= i < |s| ==> s[i] == s[1..][i - 1];
        }
      }
      TrimSpace(s[1..])
    else if s != [] && IsSpace(s[|s| - 1]) then
      assert AllSpace(s[..|s| - 1]) ==> AllSpace(s) by {
        if AllSpace(s[..|s| - 1]) {
          assert forall i :: 0 <= i < |s| - 1 ==> s[i] == s[..|s| - 1][i];
        }
      }
      TrimSpace(s[..|s| - 1])
    else s
  }

  lemma AllSpaceSlice(a: string, i: nat, j: nat)
    requires AllSpace(a) && i <= j <= |a|
    ensures AllSpace(a[i..j])
  {
    assert forall k :: 0 <= k < j - i ==> a[i..j][k] == a[i + k];
  }

  lemma AllSpaceConcat(a: string, b: string)
    requires AllSpace(a) && AllSpace(b)
    ensures AllSpace(a + b)
  {
    assert forall k :: |a| <= k < |a + b| ==> (a + b)[k] == b[k - |a|];
  }

  lemma TrimSpaceDropsFront(s: string)
    requires s != [] && IsSpace(s[0])
    ensures TrimSpace(s) == TrimSpace(s[1..])
  {
  }

  lemma TrimSpaceDropsBack(s: string)
    requires s != [] && !IsSpace(s[0]) && IsSpace(s[|s| - 1])
    ensures TrimSpace(s) == TrimSpace(s[..|s| - 1])
  {
  }

  /** Slices of `s` seen through its tail `s[1..]`. */
  lemma FrontSlices(s: string, i: nat, j: nat)
    requires s != [] && IsSpace(s[0]) && i <= j <= |s| - 1
    requires AllSpace(s[1..][..i])
    ensures s[1..][i..j] == s[i + 1..j + 1] && s[1..][j..] == s[j + 1..]
    ensures AllSpace(s[..i + 1])
  {
    AllSpaceConcat([s[0]], s[1..][..i]);
    assert [s[0]] + s[1..][..i] == s[..i + 1];
  }

  /** Slices of `s` seen through its front `s[..|s| - 1]`. */
  lemma BackSlices(s: string, i: nat, j: nat)
    requires s != [] && IsSpace(s[|s| - 1]) && i <= j <= |s| - 1
    requires AllSpace(s[..|s| - 1][j..])
    ensures s[..|s| - 1][i..j] == s[i..j] && s[..|s| - 1][..i] == s[..i]
    ensures AllSpace(s[j..])
  {
    var t := s[..|s| - 1];
    AllSpaceConcat(t[j..], [s[|s| - 1]]);
    assert t[j..] + [s[|s| - 1]] == s[j..];
  }

  /** The bounds of the slice that trimming keeps. */
  lemma {:induction false} TrimSpaceBounds(s: string) returns (i: nat, j: nat)
    ensures i <= j <= |s| && TrimSpace(s) == s[i..j]
    ensures AllSpace(s[..i]) && AllSpace(s[j..])
    decreases |s|
  {
    if s != [] && IsSpace(s[0]) {
      var i', j' := TrimSpaceBounds(s[1..]);
      TrimSpaceDropsFront(s);
      FrontSlices(s, i', j');
      i, j := i' + 1, j' + 1;
    } else if s != [] && IsSpace(s[|s| - 1]) {
      i, j := TrimSpaceBounds(s[..|s| - 1]);
      TrimSpaceDropsBack(s);
      BackSlices(s, i, j);
    } else {
      i, j := 0, |s|;
      assert s[i..j] == s;
    }
  }

  /** Trimming removes nothing but surrounding white space: the result is
      a slice of the input with only white space before and after it. */
  lemma TrimSpaceIsInfix(s: string)
    ensures exists i, j :: 0 <= i <= j <= |s| && TrimSpace(s) == s[i..j] && AllSpace(s[..i]) && AllSpace(s[j..])
  {
    var i, j := TrimSpaceBounds(s);
  }

  /** The converse characterisation: padding a trimmed, non-empty string
      with white space on both sides and trimming gives the string back. */
  lemma {:induction false} TrimSpacePadded(p: string, m: string, q: string)
    requires AllSpace(p) && AllSpace(q)
    requires m != [] && Trimmed(m)
    ensures TrimSpace(p + m + q) == m
    decreases |p| + |q|
  {
    var s := p + m + q;
    if p != [] {
      var rest := p[1..] + m + q;
      assert s == [p[0]] + rest by {
        assert p == [p[0]] + p[1..];
      }
      assert s[1..] == rest;
      AllSpaceSlice(p, 1, |p|);
      TrimSpacePadded(p[1..], m, q);
    } else if q != [] {
      var rest := m + q[..|q| - 1];
      assert s == rest + [q[|q| - 1]] by {
        assert p + m == m;
        assert q == q[..|q| - 1] + [q[|q| - 1]];
      }
      assert s[..|s| - 1] == rest;
      assert s[0] == m[0];
      assert [] + m + q[..|q| - 1] == rest;
      AllSpaceSlice(q, 0, |q| - 1);
      TrimSpacePadded([], m, q[..|q| - 1]);
    } else {
      assert s == m;
    }
  }

  /** A trimmed value is left alone by trimming. */
  lemma TrimmedIsFixed(m: string)
    requires Trimmed(m)
    ensures TrimSpace(m) == m
  {
  }

  /** Trimming twice is trimming once, so a value trimmed by one handler and
      trimmed again by the next compares equal. */
  lemma TrimSpaceIdempotent(s: string)
    ensures TrimSpace(TrimSpace(s)) == TrimSpace(s)
  {
    TrimmedIsFixed(TrimSpace(s));
  }
}
