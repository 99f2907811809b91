/**
 The few string operations of Python and SQL the page catalogue relies on:
 `str.strip()`, `str.split(",")`, and a case-insensitive substring test.
 Only the ASCII range is modelled.
 */
module Text {

  /** The ASCII characters for which Python's `str.isspace()` holds. */
  predicate IsSpace(c: char) {
    c == ' ' || c == '\t' || c == '\n' || c == '\r' || c == '\U{B}' || c == '\U{C}'
    || ('\U{1C}' <= c <= '\U{1F}')
  }

  predicate AllSpace(s: string) {
    forall i :: 0 <= i < |s| ==> IsSpace(s[i])
  }

  /** The end of the run of whitespace that starts at `k`. */
  function SpanEnd(s: string, k: nat): (r: nat)
    requires k <= |s|
    ensures k <= r <= |s|
    ensures forall j :: k <= j < r ==> IsSpace(s[j])
    ensures r == |s| || !IsSpace(s[r])
    decreases |s| - k
  {
    if k < |s| && IsSpace(s[k]) then SpanEnd(s, k + 1) else k
  }

  /** The start of the run of whitespace that ends at `k`. */
  function SpanStart(s: string, k: nat): (r: nat)
    requires k <= |s|
    ensures r <= k
    ensures forall j :: r <= j < k ==> IsSpace(s[j])
    ensures r == 0 || !IsSpace(s[r - 1])
  {
    if k > 0 && IsSpace(s[k - 1]) then SpanStart(s, k - 1) else k
  }

  /** Python's `str.strip()` with no argument: the text between the leading and the trailing whitespace. */
  function Strip(s: string): (r: string)
    ensures r == [] || (!IsSpace(r[0]) && !IsSpace(r[|r| - 1]))
    ensures r == [] <==> AllSpace(s)
  {
    var a := SpanEnd(s, 0);
    if a == |s| then []
    else
      var b := SpanStart(s, |s|);
      assert a < b;
      assert s[a..b][0] == s[a];
      assert s[a..b][b - a - 1] == s[b - 1];
      s[a..b]
  }

  /** A string that neither starts nor ends with whitespace is its own stripped form. */
  lemma StripUnpadded(s: string)
    requires |s| > 0 && !IsSpace(s[0]) && !IsSpace(s[|s| - 1])
    ensures Strip(s) == s
  {
    assert SpanEnd(s, 0) == 0;
    assert SpanStart(s, |s|) == |s|;
  }

  lemma AllSpaceConcat(a: string, b: string)
    requires AllSpace(a) && AllSpace(b)
    ensures AllSpace(a + b)
  {
    assert forall i :: 0 <= i < |a + b| ==> (a + b)[i] == (if i < |a| then a[i] else b[i - |a|]);
  }

  /** A whitespace-free core between two runs of whitespace strips to that core. */
  lemma StripPadded(padL: string, core: string, padR: string)
    requires AllSpace(padL) && AllSpace(padR)
    requires core == [] || (!IsSpace(core[0]) && !IsSpace(core[|core| - 1]))
    ensures Strip(padL + core + padR) == core
  {
    var s := padL + core + padR;
    assert forall j :: 0 <= j < |padL| ==> s[j] == padL[j];
    assert forall j :: |padL| <= j < |padL| + |core| ==> s[j] == core[j - |padL|];
    assert forall j :: |padL| + |core| <= j < |s| ==> s[j] == padR[j - |padL| - |core|];
    if core == [] {
      AllSpaceConcat(padL, padR);
      assert s == padL + padR;
    } else {
      var a := SpanEnd(s, 0);
      var b := SpanStart(s, |s|);
      assert !IsSpace(s[|padL|]);
      assert !IsSpace(s[|padL| + |core| - 1]);
      assert a == |padL|;
      assert b == |padL| + |core|;
      assert s[a..b] == core;
    }
  }

  /** Every string is its stripped core between two runs of whitespace. */
  lemma StripSplits(t: string) returns (lead: string, trail: string)
    ensures AllSpace(lead) && AllSpace(trail)
    ensures t == lead + Strip(t) + trail
  {
    var a := SpanEnd(t, 0);
    if a == |t| {
      lead, trail := t, [];
      assert AllSpace(lead);
    } else {
      var b := SpanStart(t, |t|);
      lead, trail := t[..a], t[b..];
      assert Strip(t) == t[a..b];
      assert AllSpace(lead);
      assert AllSpace(trail);
      assert t == t[..a] + t[a..b] + t[b..];
    }
  }

  /** Whitespace around a value does not change what `strip` returns. */
  lemma StripIgnoresPadding(pre: string, t: string, post: string)
    requires AllSpace(pre) && AllSpace(post)
    ensures Strip(pre + t + post) == Strip(t)
  {
    var lead, trail := StripSplits(t);
    var s := Strip(t);
    var padL := pre + lead;
    var padR := trail + post;
    AllSpaceConcat(pre, lead);
    AllSpaceConcat(trail, post);
    calc {
      pre + t + post;
      pre + (lead + s + trail) + post;
      { SeqRegroup(pre, lead, s, trail, post); }
      padL + s + padR;
    }
    StripPadded(padL, s, padR);
  }

  lemma SeqRegroup(a: string, b: string, c: string, d: string, e: string)
    ensures a + (b + c + d) + e == (a + b) + c + (d + e)
  {
  }

  /** The pieces of a string around one separator character, the inverse of `Split`. */
  function Join(parts: seq<string>, sep: char): string
    requires |parts| > 0
  {
    if |parts| == 1 then parts[0] else parts[0] + [sep] + Join(parts[1..], sep)
  }

  function IndexOf(s: string, c: char): (i: nat)
    requires c in s
    ensures i < |s| && s[i] == c && c !in s[..i]
  {
    if s[0] == c then 0 else 1 + IndexOf(s[1..], c)
  }

  /** Python's `s.split(sep)`: always at least one piece, none containing the separator. */
  function Split(s: string, sep: char): (parts: seq<string>)
    ensures |parts| > 0
    ensures forall i :: 0 <= i < |parts| ==> sep !in parts[i]
    ensures Join(parts, sep) == s
    decreases |s|
  {
    if sep !in s then [s]
    else
      var i := IndexOf(s, sep);
      assert s == s[..i] + [sep] + s[i + 1..];
      [s[..i]] + Split(s[i + 1..], sep)
  }

  function LowerChar(c: char): char {
    if 'A' <= c <= 'Z' then (c as int - 'A' as int + 'a' as int) as char else c
  }

  /** ASCII lower-casing, the case folding of a SQL `UPPER(...) LIKE UPPER(...)` comparison. */
  function Lower(s: string): (r: string)
    ensures |r| == |s|
    ensures forall i :: 0 <= i < |s| ==> r[i] == LowerChar(s[i])
  {
    seq(|s|, i requires 0 <= i < |s| => LowerChar(s[i]))
  }

  predicate OccursAt(hay: string, needle: string, i: int) {
    0 <= i && i + |needle| <= |hay| && hay[i..i + |needle|] == needle
  }

  /** Django's `icontains` lookup: `needle` occurs in `hay`, ignoring case. */
  predicate ContainsIgnoringCase(hay: string, needle: string) {
    exists i :: 0 <= i <= |hay| && OccursAt(Lower(hay), Lower(needle), i)
  }
}
