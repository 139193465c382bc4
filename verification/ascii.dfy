/** Text operations the option matcher relies on: JavaScript's `trim`,
    `toLowerCase` and `includes`, restricted to the ASCII range. */
module Ascii {

  /** The ASCII characters `String.prototype.trim` strips: space, and tab,
      line feed, vertical tab, form feed and carriage return (codes 9 to 13). */
  predicate IsWhitespace(c: char) {
    c == ' ' || '\t' <= c <= '\r'
  }

  predicate AllWhitespace(s: string) {
    forall i :: 0 <= i < |s| ==> IsWhitespace(s[i])
  }

  /** Neither end of `s` is whitespace: trimming would leave it alone. */
  predicate IsTrimmed(s: string) {
    |s| == 0 || (!IsWhitespace(s[0]) && !IsWhitespace(s[|s| - 1]))
  }

  predicate IsUpper(c: char) {
    'A' <= c <= 'Z'
  }

  /** `toLowerCase` on one character: ASCII capitals move down by 32, every
      other character stays. */
  function LowerChar(c: char): (r: char)
    ensures !IsUpper(r)
    ensures IsUpper(c) ==> r as int - c as int == 'a' as int - 'A' as int
    ensures !IsUpper(c) ==> r == c
  {
    if IsUpper(c) then (c as int + 32) as char else c
  }

  function Lower(s: string): (r: string)
    ensures |r| == |s|
    ensures forall i :: 0 <= i < |s| ==> r[i] == LowerChar(s[i])
  {
    seq(|s|, i requires 0 <= i < |s| => LowerChar(s[i]))
  }

  /** Two characters that are equal, or are the capital and small form of the
      same ASCII letter. */
  predicate SameCharUpToCase(x: char, y: char) {
    || x == y
    || (IsUpper(x) && y as int == x as int + 32)
    || (IsUpper(y) && x as int == y as int + 32)
  }

  /** Two strings that differ at most in the case of their letters. */
  predicate SameUpToCase(a: string, b: string) {
    |a| == |b| && forall i :: 0 <= i < |a| ==> SameCharUpToCase(a[i], b[i])
  }

  /** Two characters lower-case to the same character exactly when they
      differ at most in letter case. */
  lemma LowerCharCollapsesCase(x: char, y: char)
    ensures SameCharUpToCase(x, y) <==> LowerChar(x) == LowerChar(y)
  {
    if IsUpper(x) && y as int == x as int + 32 {
      assert !IsUpper(y);
    }
    if IsUpper(y) && x as int == y as int + 32 {
      assert !IsUpper(x);
    }
  }

  /** Two strings lower-case to the same string exactly when they differ at
      most in letter case, and lower-casing is idempotent. */
  lemma LowerCollapsesCase(a: string, b: string)
    ensures SameUpToCase(a, b) <==> Lower(a) == Lower(b)
    ensures Lower(Lower(a)) == Lower(a)
  {
    if |a| == |b| {
      forall i | 0 <= i < |a|
        ensures SameCharUpToCase(a[i], b[i]) <==> Lower(a)[i] == Lower(b)[i]
      {
        LowerCharCollapsesCase(a[i], b[i]);
      }
      if Lower(a) == Lower(b) {
        assert forall i :: 0 <= i < |a| ==> Lower(a)[i] == Lower(b)[i];
      }
    }
  }

  /** Drops leading whitespace. */
  function TrimStart(s: string): string {
    if |s| > 0 && IsWhitespace(s[0]) then TrimStart(s[1..]) else s
  }

  /** Drops trailing whitespace. */
  function TrimEnd(s: string): string {
    if |s| > 0 && IsWhitespace(s[|s| - 1]) then TrimEnd(s[..|s| - 1]) else s
  }

  /** `String.prototype.trim`. */
  function Trim(s: string): string {
    TrimEnd(TrimStart(s))
  }

  /** `TrimStart` removes exactly the leading run of whitespace. */
  lemma {:induction false} TrimStartSpec(s: string)
    ensures |TrimStart(s)| <= |s| && TrimStart(s) == s[|s| - |TrimStart(s)|..]
    ensures AllWhitespace(s[..|s| - |TrimStart(s)|])
    ensures |TrimStart(s)| == 0 || !IsWhitespace(TrimStart(s)[0])
    decreases |s|
  {
    if |s| > 0 && IsWhitespace(s[0]) {
      TrimStartSpec(s[1..]);
    }
  }

  /** `TrimEnd` removes exactly the trailing run of whitespace. */
  lemma {:induction false} TrimEndSpec(s: string)
    ensures |TrimEnd(s)| <= |s| && TrimEnd(s) == s[..|TrimEnd(s)|]
    ensures AllWhitespace(s[|TrimEnd(s)|..])
    ensures |TrimEnd(s)| == 0 || !IsWhitespace(TrimEnd(s)[|TrimEnd(s)| - 1])
    decreases |s|
  {
    if |s| > 0 && IsWhitespace(s[|s| - 1]) {
      var t := s[..|s| - 1];
      TrimEndSpec(t);
      var k := |TrimEnd(t)|;
      assert TrimEnd(s) == TrimEnd(t);
      assert s[k..] == t[k..] + [s[|s| - 1]];
    }
  }

  /** The trimmed string is a slice of `s` with no whitespace at either end,
      and only whitespace was cut away around it. */
  lemma TrimSpec(s: string)
    ensures IsTrimmed(Trim(s))
    ensures exists i :: 0 <= i <= |s| - |Trim(s)| && Trim(s) == s[i..i + |Trim(s)|]
                        && AllWhitespace(s[..i]) && AllWhitespace(s[i + |Trim(s)|..])
  {
    var t := TrimStart(s);
    var r := TrimEnd(t);
    TrimStartSpec(s);
    TrimEndSpec(t);
    var i := |s| - |t|;
    assert r == s[i..i + |r|];
    assert s[i + |r|..] == t[|r|..];
  }

  lemma {:induction false} TrimStartSkipsWhitespace(w: string, x: string)
    requires AllWhitespace(w)
    ensures TrimStart(w + x) == TrimStart(x)
    decreases |w|
  {
    if |w| > 0 {
      var s := w + x;
      assert s[0] == w[0];
      assert TrimStart(s) == TrimStart(s[1..]);
      assert s[1..] == w[1..] + x;
      assert AllWhitespace(w[1..]);
      TrimStartSkipsWhitespace(w[1..], x);
    } else {
      assert w + x == x;
    }
  }

  lemma {:induction false} TrimEndSkipsWhitespace(x: string, w: string)
    requires AllWhitespace(w)
    ensures TrimEnd(x + w) == TrimEnd(x)
    decreases |w|
  {
    if |w| > 0 {
      assert (x + w)[..|x + w| - 1] == x + w[..|w| - 1];
      TrimEndSkipsWhitespace(x, w[..|w| - 1]);
    } else {
      assert x + w == x;
    }
  }

  /** Leading whitespace removal commutes with appending whitespace, except
      that an all-whitespace string disappears entirely. */
  lemma {:induction false} TrimStartThenPad(t: string, w: string)
    requires AllWhitespace(w)
    ensures TrimStart(t + w) == TrimStart(t) + w || (TrimStart(t) == [] && TrimStart(t + w) == [])
    decreases |t|
  {
    if |t| == 0 {
      assert t + w == w + [];
      TrimStartSkipsWhitespace(w, []);
    } else if IsWhitespace(t[0]) {
      assert (t + w)[0] == t[0];
      assert (t + w)[1..] == t[1..] + w;
      TrimStartThenPad(t[1..], w);
    } else {
      assert (t + w)[0] == t[0];
    }
  }

  /** Whitespace wrapped around a string does not change its trimmed form. */
  lemma TrimIgnoresPadding(w1: string, t: string, w2: string)
    requires AllWhitespace(w1) && AllWhitespace(w2)
    ensures Trim(w1 + t + w2) == Trim(t)
  {
    assert w1 + t + w2 == w1 + (t + w2);
    TrimStartSkipsWhitespace(w1, t + w2);
    TrimStartThenPad(t, w2);
    if TrimStart(t + w2) == TrimStart(t) + w2 {
      TrimEndSkipsWhitespace(TrimStart(t), w2);
    }
  }

  /** `needle` occurs in `hay` starting at offset `i`. */
  predicate OccursAt(hay: string, needle: string, i: int) {
    0 <= i && i + |needle| <= |hay| && hay[i..i + |needle|] == needle
  }

  /** `includes`: `needle` is a prefix of `hay` or of one of its suffixes. */
  function Contains(hay: string, needle: string): bool
    decreases |hay|
  {
    if needle <= hay then true
    else if |hay| <= |needle| then false
    else Contains(hay[1..], needle)
  }

  /** `Contains` answers true exactly when `needle` occurs in `hay` at some
      offset. */
  lemma {:induction false} ContainsSpec(hay: string, needle: string)
    ensures Contains(hay, needle) <==> exists i :: OccursAt(hay, needle, i)
    decreases |hay|
  {
    if needle <= hay {
      assert OccursAt(hay, needle, 0);
    } else if |hay| > |needle| {
      ContainsSpec(hay[1..], needle);
      assert forall i :: OccursAt(hay[1..], needle, i) ==> OccursAt(hay, needle, i + 1);
      assert forall i :: OccursAt(hay, needle, i) && i != 0 ==> OccursAt(hay[1..], needle, i - 1);
      assert !OccursAt(hay, needle, 0);
    }
  }
}
