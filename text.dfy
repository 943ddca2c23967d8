/**
 * Python's `str.strip()` with no argument, and the "blank" test the services
 * and validators build on it (`not s.strip()`).
 */
module Text {

  /** Python's `str.isspace()` for a single character. */
  predicate IsSpace(c: char) {
    || c == ' ' || c == '\t' || c == '\n' || c == '\r'
    || c == '\U{000B}' || c == '\U{000C}'
    || ('\U{001C}' <= c <= '\U{001F}')
    || c == '\U{0085}' || c == '\U{00A0}' || c == '\U{1680}'
    || ('\U{2000}' <= c <= '\U{200A}')
    || c == '\U{2028}' || c == '\U{2029}' || c == '\U{202F}'
    || c == '\U{205F}' || c == '\U{3000}'
  }

  predicate AllSpace(s: string) {
    forall k :: 0 <= k < |s| ==> IsSpace(s[k])
  }

  /** Where a run of whitespace starting at `i` ends: `lstrip` scans forward from 0. */
  function SpaceRunEnd(s: string, i: nat): (n: nat)
    requires i <= |s|
    ensures i <= n <= |s|
    ensures forall k :: i <= k < n ==> IsSpace(s[k])
    ensures n == |s| || !IsSpace(s[n])
    decreases |s| - i
  {
    if i < |s| && IsSpace(s[i]) then SpaceRunEnd(s, i + 1) else i
  }

  /** Where a run of whitespace ending at `j` starts: `rstrip` scans backward from the end. */
  function SpaceRunStart(s: string, j: nat): (n: nat)
    requires j <= |s|
    ensures n <= j
    ensures forall k :: n <= k < j ==> IsSpace(s[k])
    ensures n == 0 || !IsSpace(s[n - 1])
  {
    if j > 0 && IsSpace(s[j - 1]) then SpaceRunStart(s, j - 1) else j
  }

  /** The end of a whitespace run is the one position with its two properties. */
  lemma SpaceRunEndUnique(s: string, i: nat, n: nat)
    requires i <= n <= |s|
    requires forall k :: i <= k < n ==> IsSpace(s[k])
    requires n == |s| || !IsSpace(s[n])
    ensures SpaceRunEnd(s, i) == n
  {
  }

  /** The start of a whitespace run is the one position with its two properties. */
  lemma SpaceRunStartUnique(s: string, j: nat, n: nat)
    requires n <= j <= |s|
    requires forall k :: n <= k < j ==> IsSpace(s[k])
    requires n == 0 || !IsSpace(s[n - 1])
    ensures SpaceRunStart(s, j) == n
  {
  }

  /** `s.lstrip()`: the longest suffix of `s` that does not start with whitespace. */
  function TrimLeft(s: string): (r: string)
    ensures |r| <= |s| && r == s[|s| - |r|..]
    ensures AllSpace(s[..|s| - |r|])
    ensures r == [] || !IsSpace(r[0])
    ensures r == [] <==> AllSpace(s)
  {
    var n := SpaceRunEnd(s, 0);
    assert forall k :: 0 <= k < n ==> s[..n][k] == s[k];
    assert n < |s| ==> !AllSpace(s);
    s[n..]
  }

  /** `s.rstrip()`: the longest prefix of `s` that does not end with whitespace. */
  function TrimRight(s: string): (r: string)
    ensures |r| <= |s| && r == s[..|r|]
    ensures AllSpace(s[|r|..])
    ensures r == [] || !IsSpace(r[|r| - 1])
    ensures r == [] <==> AllSpace(s)
  {
    var n := SpaceRunStart(s, |s|);
    assert forall k :: 0 <= k < |s| - n ==> s[n..][k] == s[n + k];
    assert n > 0 ==> !AllSpace(s);
    s[..n]
  }

  /** `s.strip()`. */
  function Strip(s: string): (r: string)
    ensures r == [] || (!IsSpace(r[0]) && !IsSpace(r[|r| - 1]))
  {
    TrimRight(TrimLeft(s))
  }

  /** `not s.strip()`: the string is empty or whitespace only. */
  predicate IsBlank(s: string) {
    Strip(s) == []
  }

  /**
   * Stripping removes whitespace only, from both ends, and keeps the middle:
   * the result is the slice of `s` that starts where `lstrip` stops.
   */
  lemma StripIsSlice(s: string)
    ensures var i := |s| - |TrimLeft(s)|;
            i + |Strip(s)| <= |s| && Strip(s) == s[i..i + |Strip(s)|]
            && AllSpace(s[..i]) && AllSpace(s[i + |Strip(s)|..])
  {
    var l := TrimLeft(s);
    var i := |s| - |l|;
    var r := TrimRight(l);
    assert s[i..i + |r|] == l[..|r|];
    assert s[i + |r|..] == l[|r|..];
  }

  /** A string is blank exactly when every character of it is whitespace. */
  lemma BlankIffAllSpace(s: string)
    ensures IsBlank(s) <==> AllSpace(s)
  {
  }

  /** Stripping twice is stripping once. */
  lemma StripIdempotent(s: string)
    ensures Strip(Strip(s)) == Strip(s)
  {
    var r := Strip(s);
    if r != [] {
      SpaceRunEndUnique(r, 0, 0);
      assert TrimLeft(r) == r;
      SpaceRunStartUnique(r, |r|, |r|);
    }
  }

  /** Leading whitespace in front of a string is dropped by `lstrip` along with that string's own. */
  lemma TrimLeftPadding(w: string, s: string)
    requires AllSpace(w)
    ensures TrimLeft(w + s) == TrimLeft(s)
  {
    var ws := w + s;
    var n := SpaceRunEnd(s, 0);
    forall k | 0 <= k < |w| + n ensures IsSpace(ws[k]) {
      if k >= |w| {
        assert ws[k] == s[k - |w|];
      }
    }
    assert |w| + n < |ws| ==> ws[|w| + n] == s[n];
    SpaceRunEndUnique(ws, 0, |w| + n);
    assert ws[|w| + n..] == s[n..];
  }

  /** Trailing whitespace after a string is dropped by `rstrip` along with that string's own. */
  lemma TrimRightPadding(s: string, w: string)
    requires AllSpace(w)
    ensures TrimRight(s + w) == TrimRight(s)
  {
    var sw := s + w;
    var n := SpaceRunStart(s, |s|);
    forall k | n <= k < |sw| ensures IsSpace(sw[k]) {
      if k >= |s| {
        assert sw[k] == w[k - |s|];
      }
    }
    assert n > 0 ==> sw[n - 1] == s[n - 1];
    SpaceRunStartUnique(sw, |sw|, n);
    assert sw[..n] == s[..n];
  }

  /** Text after a string that is not all whitespace survives `lstrip` unchanged. */
  lemma TrimLeftKeepsTail(s: string, w: string)
    requires !AllSpace(s)
    ensures TrimLeft(s + w) == TrimLeft(s) + w
  {
    var sw := s + w;
    var n := SpaceRunEnd(s, 0);
    assert n < |s|;
    forall k | 0 <= k < n ensures IsSpace(sw[k]) {
      assert sw[k] == s[k];
    }
    assert sw[n] == s[n];
    SpaceRunEndUnique(sw, 0, n);
    assert sw[n..] == s[n..] + w;
  }

  /**
   * Surrounding whitespace does not matter: two strings that differ only in
   * whitespace around them strip to the same string.
   */
  lemma StripIgnoresPadding(w1: string, s: string, w2: string)
    requires AllSpace(w1) && AllSpace(w2)
    ensures Strip(w1 + s + w2) == Strip(s)
  {
    assert w1 + s + w2 == w1 + (s + w2);
    TrimLeftPadding(w1, s + w2);
    if AllSpace(s) {
      assert AllSpace(s + w2) by {
        forall k | 0 <= k < |s + w2| ensures IsSpace((s + w2)[k]) {
          if k >= |s| { assert (s + w2)[k] == w2[k - |s|]; }
        }
      }
    } else {
      TrimLeftKeepsTail(s, w2);
      TrimRightPadding(TrimLeft(s), w2);
    }
  }
}
