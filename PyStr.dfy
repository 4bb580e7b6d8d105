/** The parts of Python's `str` that the client relies on: the substring test
    `w in s` (through the first-occurrence search `s.find(w)`), `s.split(sep)`
    (with `sep.join` as its inverse) and `s.strip()` with no argument. Text is
    already decoded: a `string`. */
module PyStr {
  import opened Wrappers

  /** Every character for which Python's `str.isspace()` holds; `str.strip()`
      with no argument removes exactly these from both ends. */
  const Whitespace: set<char> :=
    {'\t', '\n', '\U{0B}', '\U{0C}', '\r', '\U{1C}', '\U{1D}', '\U{1E}', '\U{1F}', ' ',
     '\U{85}', '\U{A0}', '\U{1680}',
     '\U{2000}', '\U{2001}', '\U{2002}', '\U{2003}', '\U{2004}', '\U{2005}',
     '\U{2006}', '\U{2007}', '\U{2008}', '\U{2009}', '\U{200A}',
     '\U{2028}', '\U{2029}', '\U{202F}', '\U{205F}', '\U{3000}'}

  predicate IsSpace(c: char) {
    c in Whitespace
  }

  predicate AllSpace(s: string) {
    forall i :: 0 <= i < |s| ==> IsSpace(s[i])
  }

  /** Neither end of `s` is whitespace (the empty string qualifies). */
  predicate Trimmed(s: string) {
    s == [] || (!IsSpace(s[0]) && !IsSpace(s[|s| - 1]))
  }

  // ---------- Substring search ----------

  /** `w` occurs in `s` starting at index `j`. */
  predicate OccursAt(s: string, w: string, j: nat) {
    j <= |s| && w <= s[j..]
  }

  /** The least index `k >= i` at which `w` occurs in `s`, if any. */
  function FindFrom(s: string, w: string, i: nat): (r: Option<nat>)
    requires i <= |s|
    ensures r.Some? ==> i <= r.value && OccursAt(s, w, r.value)
    ensures r.Some? ==> forall j: nat :: i <= j < r.value ==> !OccursAt(s, w, j)
    ensures r.None? ==> forall j: nat :: i <= j ==> !OccursAt(s, w, j)
    decreases |s| - i
  {
    if OccursAt(s, w, i) then Some(i)
    else if i == |s| then None
    else FindFrom(s, w, i + 1)
  }

  /** `s.find(w)`: the least index at which `w` occurs in `s`, None for -1. */
  function Find(s: string, w: string): (r: Option<nat>)
    ensures r.Some? ==> OccursAt(s, w, r.value)
    ensures r.Some? ==> forall j: nat :: j < r.value ==> !OccursAt(s, w, j)
    ensures r.None? ==> forall j: nat :: !OccursAt(s, w, j)
  {
    FindFrom(s, w, 0)
  }

  /** Python's `w in s` on two strings. */
  predicate Contains(s: string, w: string) {
    Find(s, w).Some?
  }

  /** Python's `w in s`: some index of `s` starts an occurrence of `w`. */
  lemma ContainsIffOccurs(s: string, w: string)
    ensures Contains(s, w) <==> exists j: nat :: OccursAt(s, w, j)
  {
    if Contains(s, w) {
      assert OccursAt(s, w, Find(s, w).value);
    }
  }

  /** An occurrence at any index makes `w in s` true. */
  lemma ContainsAt(s: string, w: string, j: nat)
    requires OccursAt(s, w, j)
    ensures Contains(s, w)
  {
  }

  /** An occurrence stays where it is when text is appended. */
  lemma OccursBefore(a: string, b: string, w: string, j: nat)
    requires OccursAt(a, w, j)
    ensures OccursAt(a + b, w, j)
  {
    assert (a + b)[j..|w| + j] == a[j..|w| + j];
  }

  /** An occurrence moves right by `|a|` when `a` is prepended. */
  lemma OccursAfter(a: string, b: string, w: string, k: nat)
    requires OccursAt(b, w, k)
    ensures OccursAt(a + b, w, |a| + k)
  {
    assert (a + b)[|a| + k..] == b[k..];
  }

  /** An occurrence in `a + b` that ends inside `a` is one in `a`. */
  lemma OccursInFront(a: string, b: string, w: string, j: nat)
    requires OccursAt(a + b, w, j) && j + |w| <= |a|
    ensures OccursAt(a, w, j)
  {
    assert a[j..j + |w|] == (a + b)[j..j + |w|];
  }

  /** An occurrence in `a + b` that starts inside `b` is one in `b`. */
  lemma OccursInBack(a: string, b: string, w: string, j: nat)
    requires OccursAt(a + b, w, j) && |a| <= j
    ensures OccursAt(b, w, j - |a|)
  {
    assert b[j - |a|..] == (a + b)[j..];
  }

  /** Each character an occurrence covers is the matching character of `w`. */
  lemma OccursCovers(s: string, w: string, j: nat, m: nat)
    requires OccursAt(s, w, j) && j <= m < j + |w|
    ensures s[m] == w[m - j]
  {
    assert s[j..][m - j] == w[m - j];
  }

  /** When `p` lacks the first character of `w`, the first occurrence of `w`
      in `p + w + q` is the one right after `p`. */
  lemma FindAfterHeadFree(p: string, w: string, q: string)
    requires w != [] && w[0] !in p
    ensures Find(p + w + q, w) == Some(|p|)
  {
    var s := p + w + q;
    assert s[|p|..] == w + q;
    assert OccursAt(s, w, |p|);
    assert forall k :: 0 <= k < |p| ==> s[k] == p[k];
    HeadAtFind(s, w);
  }

  /** A string contains each of its infixes. */
  lemma ContainsInfix(a: string, w: string, b: string)
    ensures Contains(a + w + b, w)
  {
    assert (a + w + b)[|a|..] == w + b;
    ContainsAt(a + w + b, w, |a|);
  }

  /** A string with an occurrence of `u + v` contains `u`. */
  lemma ContainsPrefixOf(s: string, u: string, v: string)
    requires Contains(s, u + v)
    ensures Contains(s, u)
  {
    var j := Find(s, u + v).value;
    assert OccursAt(s, u, j);
  }

  /** Nothing before the first occurrence contains the searched text. */
  lemma NoneBeforeFirst(s: string, w: string)
    requires w != [] && Find(s, w).Some?
    ensures !Contains(s[..Find(s, w).value], w)
  {
    var i := Find(s, w).value;
    var h := s[..i];
    if Contains(h, w) {
      var j := Find(h, w).value;
      assert h[j..] == s[j..i];
      assert OccursAt(s, w, j);
      assert false;
    }
  }

  /** When every place `w` could start lies inside `p`, and `p` does not hold
      the first character of `w`, then `p + q` does not contain `w`. */
  lemma AbsentByHead(p: string, q: string, w: string)
    requires w != [] && |p + q| < |p| + |w| && w[0] !in p
    ensures !Contains(p + q, w)
  {
    if Contains(p + q, w) {
      HeadAtFind(p + q, w);
      assert false;
    }
  }

  lemma HeadAtFind(s: string, w: string)
    requires w != [] && Contains(s, w)
    ensures var j := Find(s, w).value; j + |w| <= |s| && s[j] == w[0]
  {
    var j := Find(s, w).value;
    assert s[j..][0] == w[0];
  }

  // ---------- split / join ----------

  /** `sep.join(parts)`. */
  function Join(parts: seq<string>, sep: string): string
    decreases |parts|
  {
    if |parts| == 0 then []
    else if |parts| == 1 then parts[0]
    else parts[0] + sep + Join(parts[1..], sep)
  }

  /** `s.split(sep)` for a non-empty separator: the pieces between the
      non-overlapping occurrences of `sep`, found left to right. There are at
      least two pieces exactly when `sep in s`. */
  function Split(s: string, sep: string): (parts: seq<string>)
    requires sep != []
    ensures |parts| >= 1
    ensures |parts| >= 2 <==> Contains(s, sep)
    decreases |s|
  {
    match Find(s, sep)
    case None => [s]
    case Some(i) => [s[..i]] + Split(s[i + |sep|..], sep)
  }

  /** Joining the pieces with the separator gives back the split string. */
  lemma {:induction false} SplitJoin(s: string, sep: string)
    requires sep != []
    ensures Join(Split(s, sep), sep) == s
    decreases |s|
  {
    match Find(s, sep)
    case None =>
    case Some(i) =>
      var rest := Split(s[i + |sep|..], sep);
      SplitJoin(s[i + |sep|..], sep);
      assert ([s[..i]] + rest)[1..] == rest;
      assert s == s[..i] + sep + s[i + |sep|..];
  }

  /** When `sep` occurs, the split is the text before its first occurrence
      followed by the split of the text after it. */
  lemma SplitCons(s: string, sep: string)
    requires sep != [] && Contains(s, sep)
    ensures var i := Find(s, sep).value;
            i + |sep| <= |s| && Split(s, sep) == [s[..i]] + Split(s[i + |sep|..], sep)
  {
  }

  /** No piece of a split contains the separator. */
  lemma {:induction false} SplitPieceFree(s: string, sep: string, k: nat)
    requires sep != [] && k < |Split(s, sep)|
    ensures !Contains(Split(s, sep)[k], sep)
    decreases |s|
  {
    if k == 0 {
      SplitHeadFree(s, sep);
    } else {
      var rest := SplitShift(s, sep, k);
      assert Split(s, sep)[k] == Split(rest, sep)[k - 1];
      SplitPieceFree(rest, sep, k - 1);
      assert !Contains(Split(rest, sep)[k - 1], sep);
    }
  }

  /** Every piece after the first is a piece of the split of the text after
      the first occurrence of the separator. */
  lemma SplitShift(s: string, sep: string, k: nat) returns (rest: string)
    requires sep != [] && 1 <= k < |Split(s, sep)|
    ensures |rest| < |s| && k - 1 < |Split(rest, sep)|
    ensures Split(s, sep)[k] == Split(rest, sep)[k - 1]
  {
    var i := Find(s, sep).value;
    rest := s[i + |sep|..];
    SplitCons(s, sep);
  }

  /** The first piece of a split holds no occurrence of the separator. */
  lemma SplitHeadFree(s: string, sep: string)
    requires sep != []
    ensures !Contains(Split(s, sep)[0], sep)
  {
    match Find(s, sep)
    case None =>
    case Some(i) =>
      assert Split(s, sep)[0] == s[..i];
      NoneBeforeFirst(s, sep);
  }

  /** The first piece of a split runs from the start of `s` to the end of
      `s` or up to the first occurrence of `sep`. */
  lemma SplitFirst(s: string, sep: string)
    requires sep != []
    ensures var p0 := Split(s, sep)[0];
            p0 <= s && (p0 == s || Find(s, sep) == Some(|p0|))
  {
    match Find(s, sep)
    case None =>
    case Some(i) =>
      assert Split(s, sep)[0] == s[..i];
  }

  /** The second piece of a split is the text that starts right after the
      first occurrence of `sep` and runs, free of `sep`, to the end of `s` or
      up to the next occurrence. */
  lemma SplitSecond(s: string, sep: string)
    requires sep != [] && Contains(s, sep)
    ensures var p := Split(s, sep);
            var i := Find(s, sep).value;
            var rest := s[i + |sep|..];
            p[0] == s[..i] && p[1] <= rest && !Contains(p[1], sep)
            && (p[1] == rest || Find(rest, sep) == Some(|p[1]|))
  {
    var i := Find(s, sep).value;
    var rest := s[i + |sep|..];
    SplitCons(s, sep);
    SplitFirst(rest, sep);
    SplitHeadFree(rest, sep);
    assert Split(s, sep)[0] == s[..i] && Split(s, sep)[1] == Split(rest, sep)[0];
  }

  // ---------- strip ----------

  /** Every character of `s[i..k]` is whitespace. */
  predicate SpaceIn(s: string, i: nat, k: nat)
    requires i <= k <= |s|
  {
    forall j :: i <= j < k ==> IsSpace(s[j])
  }

  /** The scan `strip` makes from the left: the first index at or after `i`
      that holds no whitespace, or `|s|`. */
  function Lead(s: string, i: nat): (k: nat)
    requires i <= |s|
    ensures i <= k <= |s| && SpaceIn(s, i, k)
    ensures k < |s| ==> !IsSpace(s[k])
    decreases |s| - i
  {
    if i < |s| && IsSpace(s[i]) then Lead(s, i + 1) else i
  }

  /** The scan `strip` makes from the right: the least `k <= j` such that
      `s[k..j]` is all whitespace. */
  function Trail(s: string, j: nat): (k: nat)
    requires j <= |s|
    ensures k <= j && SpaceIn(s, k, j)
    ensures k > 0 ==> !IsSpace(s[k - 1])
    decreases j
  {
    if j > 0 && IsSpace(s[j - 1]) then Trail(s, j - 1) else j
  }

  /** `s.strip()`: what is left once the whitespace at both ends is gone;
      empty exactly when `s` is all whitespace. */
  function Strip(s: string): (r: string)
    ensures Trimmed(r)
    ensures r == [] <==> AllSpace(s)
  {
    var i := Lead(s, 0);
    var k := Trail(s, |s|);
    if k <= i then [] else s[i..k]
  }

  /** The stripped text sits right after the leading whitespace, and only
      whitespace follows it. */
  lemma StripDecomposes(s: string)
    ensures var i := Lead(s, 0); var r := Strip(s);
            i + |r| <= |s| && s == s[..i] + r + s[i + |r|..]
            && AllSpace(s[..i]) && AllSpace(s[i + |r|..])
  {
    var i := Lead(s, 0);
    var k := Trail(s, |s|);
    var r := Strip(s);
    if i < k {
      assert s[i + |r|..] == s[k..];
    }
    assert s == s[..i] + r + s[i + |r|..];
  }

  /** `strip` removes only whitespace, and only at the two ends: the input is
      some whitespace, then the stripped text, then some whitespace. */
  lemma StripFramed(s: string)
    ensures exists a, b :: AllSpace(a) && AllSpace(b) && s == a + Strip(s) + b
    ensures Contains(s, Strip(s))
  {
    StripDecomposes(s);
    var i := Lead(s, 0);
    var r := Strip(s);
    var a, b := s[..i], s[i + |r|..];
    ContainsInfix(a, r, b);
    assert AllSpace(a) && AllSpace(b) && s == a + r + b;
  }

  lemma {:induction false} LeadIs(s: string, i: nat, k: nat)
    requires i <= k <= |s| && SpaceIn(s, i, k)
    requires k < |s| ==> !IsSpace(s[k])
    ensures Lead(s, i) == k
    decreases k - i
  {
    if i < k {
      LeadIs(s, i + 1, k);
    }
  }

  lemma {:induction false} TrailIs(s: string, k: nat, j: nat)
    requires k <= j <= |s| && SpaceIn(s, k, j)
    requires k > 0 ==> !IsSpace(s[k - 1])
    ensures Trail(s, j) == k
    decreases j - k
  {
    if k < j {
      TrailIs(s, k, j - 1);
    }
  }

  /** `strip` is characterised by its output alone: whatever sits between a
      whitespace prefix and a whitespace suffix, with no whitespace at its own
      ends, is what `strip` returns. */
  lemma StripUnique(a: string, m: string, b: string)
    requires AllSpace(a) && AllSpace(b) && Trimmed(m)
    ensures Strip(a + m + b) == m
  {
    var t := a + m + b;
    if m == [] {
      assert AllSpace(t) by {
        forall j | 0 <= j < |t| ensures IsSpace(t[j]) {
          if j < |a| { assert t[j] == a[j]; } else { assert t[j] == b[j - |a|]; }
        }
      }
    } else {
      var e := |a| + |m|;
      assert SpaceIn(t, 0, |a|) by {
        forall j | 0 <= j < |a| ensures IsSpace(t[j]) { assert t[j] == a[j]; }
      }
      assert SpaceIn(t, e, |t|) by {
        forall j | e <= j < |t| ensures IsSpace(t[j]) { assert t[j] == b[j - e]; }
      }
      assert t[|a|] == m[0] && t[e - 1] == m[|m| - 1];
      LeadIs(t, 0, |a|);
      TrailIs(t, e, |t|);
      assert t[|a|..e] == m;
    }
  }

  /** Stripping twice is stripping once. */
  lemma StripIdempotent(s: string)
    ensures Strip(Strip(s)) == Strip(s)
  {
    var m := Strip(s);
    assert [] + m + [] == m;
    StripUnique([], m, []);
  }
}
