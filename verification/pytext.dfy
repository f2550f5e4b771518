/**
 * The Python `str` operations that the scanner, the sniffer and the helpers
 * rely on: `isspace`, `strip`, ASCII `lower`/`upper`, `in`, `find`, `split`
 * and `join`.
 */
module PyText {
  import opened Wrappers

  /** Python's `str.isspace()` for one character (the Unicode whitespace set). */
  predicate IsSpace(c: char) {
    || c == ' '
    || ('\t' <= c <= '\r')
    || ('\U{1C}' <= c <= '\U{1F}')
    || c == '\U{85}' || c == '\U{A0}' || c == '\U{1680}'
    || ('\U{2000}' <= c <= '\U{200A}')
    || c == '\U{2028}' || c == '\U{2029}' || c == '\U{202F}' || c == '\U{205F}' || c == '\U{3000}'
  }

  /** `any(c.isspace() for c in s)` */
  predicate HasSpace(s: string) {
    exists i :: 0 <= i < |s| && IsSpace(s[i])
  }

  /** Every character is whitespace (true of the empty string). */
  predicate AllSpace(s: string) {
    forall i :: 0 <= i < |s| ==> IsSpace(s[i])
  }

  function LStrip(s: string): (r: string)
    ensures |r| <= |s|
    ensures |r| > 0 ==> !IsSpace(r[0])
  {
    if |s| > 0 && IsSpace(s[0]) then LStrip(s[1..]) else s
  }

  function RStrip(s: string): (r: string)
    ensures |r| <= |s|
    ensures |r| > 0 ==> !IsSpace(r[|r| - 1])
  {
    if |s| > 0 && IsSpace(s[|s| - 1]) then RStrip(s[..|s| - 1]) else s
  }

  /** Python's `s.strip()`: leading and trailing whitespace removed. */
  function Strip(s: string): (r: string)
    ensures |r| <= |s|
    ensures |r| > 0 ==> !IsSpace(r[0])
  {
    LStrip(RStrip(s))
  }

  /** `lstrip` keeps a suffix of its argument, and what it drops is whitespace. */
  lemma {:induction false} LStripSuffix(s: string)
    ensures LStrip(s) == s[|s| - |LStrip(s)|..]
    ensures AllSpace(s[..|s| - |LStrip(s)|])
  {
    if |s| > 0 && IsSpace(s[0]) {
      var t := s[1..];
      LStripSuffix(t);
      var n := |t| - |LStrip(t)|;
      assert s[..n + 1] == [s[0]] + t[..n];
    }
  }

  /** `rstrip` keeps a prefix of its argument, and what it drops is whitespace. */
  lemma {:induction false} RStripPrefix(s: string)
    ensures RStrip(s) == s[..|RStrip(s)|]
    ensures AllSpace(s[|RStrip(s)|..])
  {
    if |s| > 0 && IsSpace(s[|s| - 1]) {
      var t := s[..|s| - 1];
      RStripPrefix(t);
      var n := |RStrip(t)|;
      assert s[n..] == t[n..] + [s[|s| - 1]];
    }
  }

  /**
   * `strip` cuts `s` down to a slice of itself: everything before the slice
   * and everything after it is whitespace, and the slice has whitespace at
   * neither end.
   */
  lemma StripSpec(s: string)
    ensures exists i, j :: 0 <= i <= j <= |s| && Strip(s) == s[i..j] && AllSpace(s[..i]) && AllSpace(s[j..])
    ensures var r := Strip(s);
      |r| > 0 ==> !IsSpace(r[0]) && !IsSpace(r[|r| - 1])
  {
    var m := RStrip(s);
    RStripPrefix(s);
    LStripSuffix(m);
    var r := LStrip(m);
    var i := |m| - |r|;
    assert r == m[i..];
    if |r| > 0 {
      assert r[|r| - 1] == m[|m| - 1];
    }
    assert r == s[i..|m|] && s[..i] == m[..i];
  }

  lemma {:induction false} LStripSpaces(p: string, t: string)
    requires AllSpace(p) && (|t| > 0 ==> !IsSpace(t[0]))
    ensures LStrip(p + t) == t
  {
    if |p| > 0 {
      assert (p + t)[1..] == p[1..] + t;
      LStripSpaces(p[1..], t);
    } else {
      assert p + t == t;
    }
  }

  lemma {:induction false} RStripSpaces(t: string, q: string)
    requires AllSpace(q) && (|t| > 0 ==> !IsSpace(t[|t| - 1]))
    ensures RStrip(t + q) == t
  {
    if |q| > 0 {
      assert (t + q)[..|t + q| - 1] == t + q[..|q| - 1];
      RStripSpaces(t, q[..|q| - 1]);
    } else {
      assert t + q == t;
    }
  }

  /** Stripping a word that holds no whitespace from between two runs of whitespace gives the word back. */
  lemma StripPadded(p: string, t: string, q: string)
    requires AllSpace(p) && AllSpace(q) && !HasSpace(t)
    ensures Strip(p + t + q) == t
  {
    assert |t| > 0 ==> !IsSpace(t[0]) && !IsSpace(t[|t| - 1]);
    assert p + t + q == (p + t) + q;
    if |t| == 0 {
      assert p + t + q == p + q;
      RStripSpacesOnly(p + q);
    } else {
      RStripSpaces(p + t, q);
      LStripSpaces(p, t);
    }
  }

  lemma {:induction false} RStripSpacesOnly(s: string)
    requires AllSpace(s)
    ensures RStrip(s) == ""
  {
    if |s| > 0 {
      RStripSpacesOnly(s[..|s| - 1]);
    }
  }

  lemma {:induction false} RStripKeeps(s: string, i: nat)
    requires i < |s| && !IsSpace(s[i])
    ensures |RStrip(s)| > i
  {
    if IsSpace(s[|s| - 1]) {
      RStripKeeps(s[..|s| - 1], i);
    }
  }

  lemma {:induction false} LStripKeeps(s: string, i: nat)
    requires i < |s| && !IsSpace(s[i])
    ensures LStrip(s) != ""
  {
    if IsSpace(s[0]) {
      LStripKeeps(s[1..], i - 1);
    }
  }

  /** A text with a non-whitespace character does not strip to nothing. */
  lemma StripNonEmpty(s: string, i: nat)
    requires i < |s| && !IsSpace(s[i])
    ensures Strip(s) != ""
  {
    RStripKeeps(s, i);
    RStripPrefix(s);
    var r := RStrip(s);
    assert r[i] == s[i];
    LStripKeeps(r, i);
  }

  function LowerChar(c: char): char {
    if 'A' <= c <= 'Z' then (c as int + 32) as char else c
  }

  function UpperChar(c: char): char {
    if 'a' <= c <= 'z' then (c as int - 32) as char else c
  }

  /** Python's `s.lower()`, for the ASCII letters. The element-wise ensures only lets callers unfold the comprehension; LowerIsLower states its properties. */
  function Lower(s: string): (r: string)
    ensures |r| == |s|
    ensures forall i :: 0 <= i < |s| ==> r[i] == LowerChar(s[i])
  {
    seq(|s|, i requires 0 <= i < |s| => LowerChar(s[i]))
  }

  /** Python's `s.upper()`, for the ASCII letters. The element-wise ensures only lets callers unfold the comprehension. */
  function Upper(s: string): (r: string)
    ensures |r| == |s|
    ensures forall i :: 0 <= i < |s| ==> r[i] == UpperChar(s[i])
  {
    seq(|s|, i requires 0 <= i < |s| => UpperChar(s[i]))
  }

  /** Holds no upper-case ASCII letter, so lowering leaves it as it is. */
  predicate IsLower(s: string) {
    forall i :: 0 <= i < |s| ==> !('A' <= s[i] <= 'Z')
  }

  lemma LowerIsLower(s: string)
    ensures IsLower(Lower(s)) && Lower(Lower(s)) == Lower(s)
    ensures HasSpace(Lower(s)) <==> HasSpace(s)
  {
    var l := Lower(s);
    if HasSpace(l) {
      var i :| 0 <= i < |l| && IsSpace(l[i]);
      assert IsSpace(s[i]);
    }
    if HasSpace(s) {
      var i :| 0 <= i < |s| && IsSpace(s[i]);
      assert IsSpace(l[i]);
    }
  }

  lemma LowerOfLower(s: string)
    requires IsLower(s)
    ensures Lower(s) == s
  {
  }

  /**
   * Position of the first occurrence of `sub` in `s`, as Python's `s.find(sub)`
   * (None where Python returns -1). The empty string occurs at position 0.
   */
  function Find(s: string, sub: string): (r: Option<nat>)
    decreases |s|
    ensures r.Some? ==> r.value + |sub| <= |s| && s[r.value..r.value + |sub|] == sub
    ensures r.Some? ==> forall j :: 0 <= j < r.value ==> !(sub <= s[j..])
    ensures r.None? ==> forall j :: 0 <= j <= |s| ==> !(sub <= s[j..])
  {
    if sub <= s then Some(0)
    else if |s| == 0 then None
    else
      match Find(s[1..], sub)
      case None =>
        assert forall j :: 1 <= j <= |s| ==> s[j..] == s[1..][j - 1..];
        None
      case Some(i) =>
        assert forall j :: 1 <= j <= |s| ==> s[j..] == s[1..][j - 1..];
        Some(i + 1)
  }

  /** Python's `sub in s`. */
  predicate Contains(s: string, sub: string) {
    Find(s, sub).Some?
  }

  /** Python's `s.split(sep)` for a non-empty separator: the pieces between the non-overlapping occurrences, left to right. */
  function Split(s: string, sep: string): (r: seq<string>)
    requires |sep| > 0
    decreases |s|
    ensures |r| > 0
  {
    match Find(s, sep)
    case None => [s]
    case Some(i) => [s[..i]] + Split(s[i + |sep|..], sep)
  }

  /** Python's `sep.join(xs)`. */
  function Join(xs: seq<string>, sep: string): string {
    if |xs| == 0 then ""
    else if |xs| == 1 then xs[0]
    else xs[0] + sep + Join(xs[1..], sep)
  }

  /** When `sep` occurs nowhere before the end of `a`, `a + sep + b` splits first right after `a`. */
  lemma {:induction false} FindAfter(a: string, sep: string, b: string)
    requires |sep| > 0
    requires forall j :: 0 <= j < |a| ==> !(sep <= (a + sep + b)[j..])
    ensures Find(a + sep + b, sep) == Some(|a|)
  {
    var s := a + sep + b;
    if |a| == 0 {
      assert s == sep + b;
      assert sep <= s;
    } else {
      assert s[0..] == s;
      assert s[1..] == a[1..] + sep + b;
      forall j | 0 <= j < |a[1..]|
        ensures !(sep <= (a[1..] + sep + b)[j..])
      {
        assert s[1..][j..] == s[j + 1..];
      }
      FindAfter(a[1..], sep, b);
    }
  }

  lemma SplitAfter(a: string, sep: string, b: string)
    requires |sep| > 0
    requires forall j :: 0 <= j < |a| ==> !(sep <= (a + sep + b)[j..])
    ensures Split(a + sep + b, sep) == [a] + Split(b, sep)
  {
    FindAfter(a, sep, b);
    var s := a + sep + b;
    assert s[..|a|] == a;
    assert s[|a| + |sep|..] == b;
  }
}
