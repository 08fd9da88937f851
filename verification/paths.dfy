/** The pieces of Go's `path/filepath` and `strings` the core relies on,
    with Unix semantics: '/' is the only separator and there are no
    volume names. */
module Paths {

  /** Where the final element of `p` starts: just after its last '/', or 0. */
  function FinalStart(p: string): (k: nat)
    ensures k <= |p|
    ensures k > 0 ==> p[k - 1] == '/'
    ensures forall i :: k <= i < |p| ==> p[i] != '/'
  {
    if |p| == 0 then 0
    else if p[|p| - 1] == '/' then |p|
    else FinalStart(p[..|p| - 1])
  }

  /** The position of the last '.' in the final element of `p`, or -1. */
  function LastDot(p: string): (k: int)
    ensures -1 <= k < |p|
    ensures k >= 0 ==> p[k] == '.' && FinalStart(p) <= k
    ensures forall i :: FinalStart(p) <= i < |p| && k < i ==> p[i] != '.'
  {
    if |p| == 0 || p[|p| - 1] == '/' then -1
    else if p[|p| - 1] == '.' then |p| - 1
    else LastDot(p[..|p| - 1])
  }

  /** `filepath.Ext`: the suffix of `p` that starts at the last '.' of its
      final element, or "" when that element has no '.'. */
  function Ext(p: string): (e: string)
    ensures |e| <= |p| - FinalStart(p)
    ensures e == p[|p| - |e|..]
    ensures e != "" ==> e[0] == '.' && '.' !in e[1..]
    ensures e == "" <==> '.' !in p[FinalStart(p)..]
  {
    var k := LastDot(p);
    if k < 0 then
      assert forall j :: 0 <= j < |p| - FinalStart(p) ==> p[FinalStart(p)..][j] == p[FinalStart(p) + j];
      ""
    else
      var e := p[k..];
      assert p[FinalStart(p)..][k - FinalStart(p)] == '.';
      assert forall j :: 0 <= j < |e| - 1 ==> e[1..][j] == p[k + 1 + j];
      e
  }

  /** `strings.TrimSuffix`. */
  function TrimSuffix(s: string, suffix: string): (r: string)
    ensures IsSuffix(suffix, s) ==> r + suffix == s
    ensures !IsSuffix(suffix, s) ==> r == s
  {
    if IsSuffix(suffix, s) then s[..|s| - |suffix|] else s
  }

  predicate IsSuffix(suffix: string, s: string) {
    |suffix| <= |s| && s[|s| - |suffix|..] == suffix
  }

  /** The path without its extension, the NAME of NAME.EXT. */
  function Stem(p: string): (r: string)
    ensures r + Ext(p) == p
  {
    TrimSuffix(p, Ext(p))
  }

  /** Appending a suffix that has no '/' and exactly one '.', at its start,
      makes that suffix the extension. */
  lemma ExtOfAppended(stem: string, ext: string)
    requires |ext| > 0 && ext[0] == '.' && '.' !in ext[1..] && '/' !in ext
    ensures Ext(stem + ext) == ext
  {
    var p := stem + ext;
    var e := Ext(p);
    assert forall i :: |stem| <= i < |p| ==> p[i] == ext[i - |stem|];
    assert FinalStart(p) <= |stem|;
    assert p[FinalStart(p)..][|stem| - FinalStart(p)] == '.';
    assert e != "";
    assert forall j :: 1 <= j < |ext| ==> ext[j] == ext[1..][j - 1];
    assert forall j :: 1 <= j < |e| ==> e[j] == e[1..][j - 1];
    assert e[0] == p[|p| - |e|];
    assert |e| == |ext|;
  }

  function StripTrailingSlashes(p: string): (q: string)
    ensures |q| <= |p| && q == p[..|q|]
    ensures q == "" || q[|q| - 1] != '/'
    ensures forall i :: |q| <= i < |p| ==> p[i] == '/'
  {
    if |p| > 0 && p[|p| - 1] == '/' then StripTrailingSlashes(p[..|p| - 1]) else p
  }

  /** `filepath.Base`: the last element of `p` once trailing separators
      are removed; "." for the empty path and "/" for a path of separators. */
  function Base(p: string): (b: string)
    ensures b != ""
    ensures b == "/" || '/' !in b
    ensures p == "" ==> b == "."
    ensures '/' !in p && p != "" ==> b == p
  {
    if p == "" then "."
    else
      var q := StripTrailingSlashes(p);
      if q == "" then "/" else q[FinalStart(q)..]
  }

  function LowerAscii(c: char): char {
    if 'A' <= c <= 'Z' then (c as int + 32) as char else c
  }

  /** `strings.EqualFold` restricted to simple ASCII case folding. It agrees
      with Go's Unicode folding whenever one side is ".dng": none of '.', 'd',
      'n', 'g' has a non-ASCII member in its folding orbit. */
  predicate EqualFoldAscii(a: string, b: string) {
    |a| == |b| && forall i :: 0 <= i < |a| ==> LowerAscii(a[i]) == LowerAscii(b[i])
  }

  /** `unicode.ToUpper` on one rune, exact on ASCII and on the two runes
      whose upper case is ASCII (dotless i and long s); any other non-ASCII
      rune is left alone, standing for an upper case that is not ASCII. */
  function UpperRune(c: char): (u: char)
    ensures (c as int < 128) == (u as int < 128) || c == '\U{0131}' || c == '\U{017F}'
  {
    if 'a' <= c <= 'z' then (c as int - 32) as char
    else if c == '\U{0131}' then 'I'
    else if c == '\U{017F}' then 'S'
    else c
  }

  /** `strings.ToUpper`, rune by rune. */
  function ToUpper(s: string): (u: string)
    ensures |u| == |s|
    ensures forall i :: 0 <= i < |s| ==> u[i] == UpperRune(s[i])
  {
    if |s| == 0 then "" else [UpperRune(s[0])] + ToUpper(s[1..])
  }
}
