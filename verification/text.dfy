/** The few Python `str` operations the tool relies on: `strip`, `lower`
    and substring search. */
module Text {

  /** Python's `str.isspace` on one character. */
  predicate IsSpace(c: char) {
    || c == ' ' || c == '\t' || c == '\n' || c == '\r'
    || c == '\U{0B}' || c == '\U{0C}'
    || '\U{1C}' <= c <= '\U{1F}'
    || c == '\U{85}' || c == '\U{A0}' || c == '\U{1680}'
    || '\U{2000}' <= c <= '\U{200A}'
    || c == '\U{2028}' || c == '\U{2029}' || c == '\U{202F}'
    || c == '\U{205F}' || c == '\U{3000}'
  }

  predicate AllSpace(s: string) {
    forall i :: 0 <= i < |s| ==> IsSpace(s[i])
  }

  /** Python's `str.lstrip()`: the longest suffix that does not start with
      whitespace. */
  function TrimStart(s: string): (r: string)
    ensures |r| <= |s| && r == s[|s| - |r|..]
    ensures AllSpace(s[..|s| - |r|])
    ensures r == [] || !IsSpace(r[0])
  {
    if s == [] || !IsSpace(s[0]) then s
    else
      var r := TrimStart(s[1..]);
      assert s[1..][..|s| - 1 - |r|] == s[1..|s| - |r|];
      r
  }

  /** Python's `str.rstrip()`: the longest prefix that does not end with
      whitespace. */
  function TrimEnd(s: string): (r: string)
    ensures |r| <= |s| && r == s[..|r|]
    ensures AllSpace(s[|r|..])
    ensures r == [] || !IsSpace(r[|r| - 1])
  {
    if s == [] || !IsSpace(s[|s| - 1]) then s
    else
      var r := TrimEnd(s[..|s| - 1]);
      assert s[..|s| - 1][|r|..] == s[|r|..|s| - 1];
      r
  }

  /** Python's `str.strip()`. */
  function Strip(s: string): (r: string)
    ensures |r| <= |s|
    ensures r == [] || (!IsSpace(r[0]) && !IsSpace(r[|r| - 1]))
  {
    TrimEnd(TrimStart(s))
  }

  /** `s` is `core` with only whitespace around it. */
  ghost predicate Padded(s: string, core: string) {
    exists i, j :: PaddedAt(s, core, i, j)
  }

  /** `s[i..j]` is `core` and everything outside it is whitespace. */
  predicate PaddedAt(s: string, core: string, i: int, j: int) {
    0 <= i <= j <= |s| && s[i..j] == core && AllSpace(s[..i]) && AllSpace(s[j..])
  }

  lemma {:induction false} TrimStartOfPadded(w: string, t: string)
    requires AllSpace(w)
    requires t == [] || !IsSpace(t[0])
    ensures TrimStart(w + t) == t
    decreases |w|
  {
    if w == [] {
      assert w + t == t;
    } else {
      assert IsSpace(w[0]);
      assert (w + t)[1..] == w[1..] + t;
      TrimStartOfPadded(w[1..], t);
    }
  }

  lemma {:induction false} TrimEndOfPadded(t: string, w: string)
    requires AllSpace(w)
    requires t == [] || !IsSpace(t[|t| - 1])
    ensures TrimEnd(t + w) == t
    decreases |w|
  {
    if w == [] {
      assert t + w == t;
    } else {
      assert IsSpace(w[|w| - 1]);
      assert (t + w)[..|t + w| - 1] == t + w[..|w| - 1];
      TrimEndOfPadded(t, w[..|w| - 1]);
    }
  }

  lemma StripOfPadded(s: string, core: string)
    requires core != [] && !IsSpace(core[0]) && !IsSpace(core[|core| - 1])
    requires Padded(s, core)
    ensures Strip(s) == core
  {
    var i, j :| PaddedAt(s, core, i, j);
    var lead, trail := s[..i], s[j..];
    var t := core + trail;
    assert s == lead + t by {
      assert s == s[..i] + s[i..j] + s[j..];
    }
    TrimStartOfPadded(lead, t);
    TrimEndOfPadded(core, trail);
  }

  lemma PaddedOfStrip(s: string)
    ensures Padded(s, Strip(s))
  {
    var a := TrimStart(s);
    var r := TrimEnd(a);
    var i := |s| - |a|;
    assert s[i..i + |r|] == a[..|r|];
    assert s[i + |r|..] == a[|r|..];
    assert PaddedAt(s, r, i, i + |r|);
  }

  /** `strip()` removes exactly the surrounding whitespace: the stripped
      text of `s` is a non-blank `core` precisely when `s` is `core` padded
      with whitespace. */
  lemma StripIsPadded(s: string, core: string)
    requires core != [] && !IsSpace(core[0]) && !IsSpace(core[|core| - 1])
    ensures Strip(s) == core <==> Padded(s, core)
  {
    if Strip(s) == core {
      PaddedOfStrip(s);
    }
    if Padded(s, core) {
      StripOfPadded(s, core);
    }
  }

  /** `strip()` yields the empty string exactly for all-whitespace input. */
  lemma StripEmptyIffBlank(s: string)
    ensures Strip(s) == [] <==> AllSpace(s)
  {
    var a := TrimStart(s);
    if AllSpace(s) {
      assert s == s + [];
      TrimStartOfPadded(s, []);
    }
    if Strip(s) == [] {
      assert a[0..] == a;
      assert a == [];
      assert s[..|s|] == s;
    }
  }

  /** Python's `str.lower()` on ASCII letters; other characters unchanged. */
  function LowerChar(c: char): (r: char)
    ensures 'A' <= c <= 'Z' ==> 'a' <= r <= 'z' && r as int - c as int == 32
    ensures !('A' <= c <= 'Z') ==> r == c
  {
    if 'A' <= c <= 'Z' then (c as int + 32) as char else c
  }

  function Lower(s: string): (r: string)
    ensures |r| == |s|
    ensures forall i :: 0 <= i < |s| ==> r[i] == LowerChar(s[i])
  {
    if s == [] then [] else [LowerChar(s[0])] + Lower(s[1..])
  }

  /** Lower-casing twice is lower-casing once. */
  lemma LowerIdempotent(s: string)
    ensures Lower(Lower(s)) == Lower(s)
  {
    forall i | 0 <= i < |s|
      ensures LowerChar(LowerChar(s[i])) == LowerChar(s[i])
    {
    }
  }

  /** `w in s` for strings. */
  ghost predicate Contains(s: string, w: string) {
    exists i :: OccursAt(s, w, i)
  }

  predicate OccursAt(s: string, w: string, i: int) {
    0 <= i <= |s| - |w| && s[i..i + |w|] == w
  }

  lemma ContainsInConcat(a: string, b: string, c: string)
    ensures Contains(a + b + c, b)
  {
    var s := a + b + c;
    assert s[|a|..|a| + |b|] == b;
    assert OccursAt(s, b, |a|);
  }

  lemma ContainsGrows(a: string, s: string, c: string, w: string)
    requires Contains(s, w)
    ensures Contains(a + s + c, w)
  {
    var i :| OccursAt(s, w, i);
    var t := a + s + c;
    assert t[|a| + i..|a| + i + |w|] == s[i..i + |w|];
    assert OccursAt(t, w, |a| + i);
  }

  /** Where each part of `a + b + c` sits. */
  lemma ThreeParts(a: string, b: string, c: string)
    ensures var s := a + b + c;
      && |s| == |a| + |b| + |c|
      && s[..|a|] == a && s[|a|..|a| + |b|] == b && s[|a| + |b|..] == c
      && OccursAt(s, b, |a|)
  {
  }

  /** An occurrence inside an occurrence is an occurrence. */
  lemma OccursTrans(s: string, m: string, i: int, w: string, j: int)
    requires OccursAt(s, m, i) && OccursAt(m, w, j)
    ensures OccursAt(s, w, i + j)
  {
    forall k | 0 <= k < |w|
      ensures s[i + j + k] == w[k]
    {
      assert s[i..i + |m|][j + k] == m[j + k];
      assert m[j..j + |w|][k] == w[k];
    }
  }

  predicate EndsWith(s: string, suffix: string) {
    |suffix| <= |s| && s[|s| - |suffix|..] == suffix
  }

  lemma EndsWithConcat(a: string, b: string)
    ensures EndsWith(a + b, b)
  {
    assert (a + b)[|a|..] == b;
  }

  lemma EndsWithTrans(s: string, t: string, u: string)
    requires EndsWith(s, t) && EndsWith(t, u)
    ensures EndsWith(s, u)
  {
    assert s[|s| - |u|..] == t[|t| - |u|..];
  }
}
