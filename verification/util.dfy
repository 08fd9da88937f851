/** The small string and list helpers of util.go. Strings are sequences of
    runes, as Go's `for range` over a string sees them. */
module Util {

  /** `btoi`: true is 1 and false is 0. */
  function Btoi(b: bool): (n: int)
    ensures 0 <= n <= 1
    ensures n == 1 <==> b
  {
    if b then 1 else 0
  }

  /** `index`: the position of the first occurrence of `x` in `a`, or -1. */
  method Index(a: seq<string>, x: string) returns (k: int)
    ensures -1 <= k < |a|
    ensures 0 <= k ==> a[k] == x && x !in a[..k]
    ensures k == -1 <==> x !in a
  {
    k := 0;
    while k < |a|
      invariant 0 <= k <= |a|
      invariant x !in a[..k]
    {
      if a[k] == x {
        return;
      }
      assert a[..k + 1] == a[..k] + [a[k]];
      k := k + 1;
    }
    assert a[..k] == a;
    k := -1;
  }

  // ---------------------------------------------------------------- toASCII

  predicate IsControl(c: char) {
    c as int <= 0x1f || 0x7f <= c as int <= 0x9f
  }

  predicate IsPrintableAscii(c: char) {
    0x20 <= c as int <= 0x7e
  }

  /** What `toASCII` writes for one rune. */
  function AsciiOf(c: char): string {
    if IsControl(c) then ""
    else if c as int >= 0xa0 then "?"
    else [c]
  }

  /** `toASCII`: control runes dropped, runes from U+00A0 up replaced by '?'. */
  function ToAscii(s: string): (r: string)
    ensures forall i :: 0 <= i < |r| ==> IsPrintableAscii(r[i])
    ensures |r| <= |s|
  {
    if |s| == 0 then "" else AsciiOf(s[0]) + ToAscii(s[1..])
  }

  /** toASCII works rune by rune: it distributes over concatenation. */
  lemma {:induction false} ToAsciiAppend(a: string, b: string)
    ensures ToAscii(a + b) == ToAscii(a) + ToAscii(b)
    decreases |a|
  {
    if |a| > 0 {
      assert (a + b)[1..] == a[1..] + b;
      ToAsciiAppend(a[1..], b);
    } else {
      assert a + b == b;
    }
  }

  /** toASCII leaves a string unchanged exactly when it is all printable ASCII. */
  lemma {:induction false} ToAsciiFixedIff(s: string)
    ensures ToAscii(s) == s <==> forall i :: 0 <= i < |s| ==> IsPrintableAscii(s[i])
    decreases |s|
  {
    if |s| > 0 {
      ToAsciiFixedIff(s[1..]);
      if forall i :: 0 <= i < |s| ==> IsPrintableAscii(s[i]) {
        assert IsPrintableAscii(s[0]);
        assert forall i :: 0 <= i < |s[1..]| ==> IsPrintableAscii(s[1..][i]) by {
          forall i | 0 <= i < |s[1..]| ensures IsPrintableAscii(s[1..][i]) {
            assert s[1..][i] == s[i + 1];
          }
        }
        assert [s[0]] + s[1..] == s;
      }
    }
  }

  /** Cleaning twice is cleaning once. */
  lemma ToAsciiIdempotent(s: string)
    ensures ToAscii(ToAscii(s)) == ToAscii(s)
  {
    ToAsciiFixedIff(ToAscii(s));
  }

  // --------------------------------------------------------------- filename

  /** The runes Windows refuses in a file name. */
  predicate IsReserved(c: char) {
    c == '\\' || c == '/' || c == ':' || c == '*' || c == '?' || c == '<' || c == '>' || c == '|'
  }

  /** What `filename` writes for one rune; `isPrint` is `strconv.IsPrint`. */
  function FilenameOf(isPrint: char -> bool, c: char): string {
    if IsReserved(c) then ""
    else if c == '"' then "'"
    else if c == '.' then "."
    else if isPrint(c) then [c]
    else ""
  }

  /** What `filename` accumulates in its builder. */
  function FilenameChars(isPrint: char -> bool, name: string): (b: string)
    ensures |b| <= |name|
    ensures forall i :: 0 <= i < |b| ==> !IsReserved(b[i]) && b[i] != '"'
  {
    if |name| == 0 then "" else FilenameOf(isPrint, name[0]) + FilenameChars(isPrint, name[1..])
  }

  /** The builder is filled rune by rune: a name in two parts gives the
      two parts' output, one after the other. */
  lemma {:induction false} FilenameCharsAppend(isPrint: char -> bool, a: string, b: string)
    ensures FilenameChars(isPrint, a + b) == FilenameChars(isPrint, a) + FilenameChars(isPrint, b)
    decreases |a|
  {
    if |a| == 0 {
      assert a + b == b;
    } else {
      assert (a + b)[0] == a[0];
      assert (a + b)[1..] == a[1..] + b;
      FilenameCharsAppend(isPrint, a[1..], b);
    }
  }

  /** One rune in the middle of a name is filtered on its own. */
  lemma FilenameCharsAround(isPrint: char -> bool, a: string, c: char, b: string)
    ensures FilenameChars(isPrint, a + [c] + b)
         == FilenameChars(isPrint, a) + FilenameOf(isPrint, c) + FilenameChars(isPrint, b)
  {
    var fa, fc, fb := FilenameChars(isPrint, a), FilenameOf(isPrint, c), FilenameChars(isPrint, b);
    assert a + [c] + b == a + ([c] + b);
    FilenameCharsAppend(isPrint, a, [c] + b);
    assert FilenameChars(isPrint, [c] + b) == fc + fb by {
      assert ([c] + b)[0] == c && ([c] + b)[1..] == b;
    }
    assert fa + (fc + fb) == fa + fc + fb;
  }

  /** A double quote becomes an apostrophe and a dot stays, wherever they
      are, and nothing around them changes. */
  lemma FilenameQuoteAndDot(isPrint: char -> bool, a: string, b: string)
    ensures FilenameChars(isPrint, a + ['"'] + b) == FilenameChars(isPrint, a) + ['\''] + FilenameChars(isPrint, b)
    ensures FilenameChars(isPrint, a + ['.'] + b) == FilenameChars(isPrint, a) + ['.'] + FilenameChars(isPrint, b)
  {
    FilenameCharsAround(isPrint, a, '"', b);
    FilenameCharsAround(isPrint, a, '.', b);
  }

  /** The number of '.' in `s`: the `dots` counter. */
  function Dots(s: string): nat {
    if |s| == 0 then 0 else (if s[0] == '.' then 1 else 0) + Dots(s[1..])
  }

  lemma {:induction false} DotsBound(s: string)
    ensures Dots(s) <= |s|
    ensures Dots(s) == |s| <==> forall i :: 0 <= i < |s| ==> s[i] == '.'
    decreases |s|
  {
    if |s| > 0 {
      DotsBound(s[1..]);
      if forall i :: 0 <= i < |s| ==> s[i] == '.' {
        assert forall i :: 0 <= i < |s[1..]| ==> s[1..][i] == s[i + 1];
      }
      if forall i :: 0 <= i < |s[1..]| ==> s[1..][i] == '.' {
        assert forall i :: 1 <= i < |s| ==> s[i] == s[1..][i - 1];
      }
    }
  }

  /** `filename`: a Windows-safe file name, or "" when nothing but dots
      would be left. The rune count stands in for the builder's byte
      length: both exceed the dot count exactly when a non-dot rune was
      written. */
  function Filename(isPrint: char -> bool, name: string): (r: string)
    ensures forall i :: 0 <= i < |r| ==> !IsReserved(r[i]) && r[i] != '"'
    ensures r == "" || r == FilenameChars(isPrint, name)
    ensures r == "" <==> forall i :: 0 <= i < |FilenameChars(isPrint, name)| ==> FilenameChars(isPrint, name)[i] == '.'
  {
    var b := FilenameChars(isPrint, name);
    DotsBound(b);
    if |b| > Dots(b) then b else ""
  }

  /** A name that passes through `filename` unchanged: every rune printable
      or a dot, none reserved, no double quote. */
  lemma {:induction false} FilenameCharsFixed(isPrint: char -> bool, s: string)
    requires forall i :: 0 <= i < |s| ==> !IsReserved(s[i]) && s[i] != '"' && (s[i] == '.' || isPrint(s[i]))
    ensures FilenameChars(isPrint, s) == s
    decreases |s|
  {
    if |s| > 0 {
      assert forall i :: 0 <= i < |s[1..]| ==> s[1..][i] == s[i + 1];
      FilenameCharsFixed(isPrint, s[1..]);
      assert [s[0]] + s[1..] == s;
    }
  }

  /** Everything `filename` writes is a dot, a quote it produced, or a rune
      it already judged printable. */
  lemma {:induction false} FilenameCharsPrintable(isPrint: char -> bool, name: string)
    requires isPrint('\'')
    ensures forall i :: 0 <= i < |FilenameChars(isPrint, name)| ==>
      FilenameChars(isPrint, name)[i] == '.' || isPrint(FilenameChars(isPrint, name)[i])
    decreases |name|
  {
    if |name| > 0 {
      FilenameCharsPrintable(isPrint, name[1..]);
      var h := FilenameOf(isPrint, name[0]);
      var t := FilenameChars(isPrint, name[1..]);
      assert FilenameChars(isPrint, name) == h + t;
      assert forall i :: 0 <= i < |h| ==> h[i] == '.' || isPrint(h[i]);
    }
  }

  /** `filename` is idempotent, given that the apostrophe it substitutes for
      a double quote is printable (as it is for `strconv.IsPrint`). */
  lemma FilenameIdempotent(isPrint: char -> bool, name: string)
    requires isPrint('\'')
    ensures Filename(isPrint, Filename(isPrint, name)) == Filename(isPrint, name)
  {
    var r := Filename(isPrint, name);
    FilenameCharsPrintable(isPrint, name);
    FilenameCharsFixed(isPrint, r);
  }

  /** A name made of dots only (".", "..", "...") is refused. */
  lemma {:induction false} FilenameOfDots(isPrint: char -> bool, name: string)
    requires forall i :: 0 <= i < |name| ==> name[i] == '.'
    ensures Filename(isPrint, name) == ""
  {
    FilenameCharsFixed(isPrint, name);
  }
}
