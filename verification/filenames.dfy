/** The renaming step of `makeFile`: when NAME already exists, the name is
    matched against `\A(.*?)(?: \((\d{1,4})\))?(\.\w*)?\z` and rebuilt as
    `stem (n+1)ext`, with n = 0 when there was no counter. The unbounded
    retry loop over the real filesystem is not modelled; this is one step. */
module FileNames {
  import opened Outcomes

  predicate IsDigit(c: char) {
    '0' <= c <= '9'
  }

  /** `\w` in RE2: ASCII letters, digits and underscore. */
  predicate IsWordChar(c: char) {
    IsDigit(c) || 'a' <= c <= 'z' || 'A' <= c <= 'Z' || c == '_'
  }

  predicate AllDigits(d: string) {
    forall i :: 0 <= i < |d| ==> IsDigit(d[i])
  }

  // ------------------------------------------------------ decimal numerals

  /** `strconv.Atoi` on a non-empty run of ASCII digits. */
  function Value(d: string): nat
    requires AllDigits(d)
  {
    if |d| == 0 then 0 else Value(d[..|d| - 1]) * 10 + (d[|d| - 1] as int - '0' as int)
  }

  /** `strconv.Itoa` on a natural number. */
  function Decimal(n: nat): (d: string)
    ensures |d| >= 1 && AllDigits(d)
  {
    if n < 10 then [('0' as int + n) as char] else Decimal(n / 10) + [('0' as int + n % 10) as char]
  }

  /** Atoi undoes Itoa. */
  lemma {:induction false} ValueOfDecimal(n: nat)
    ensures Value(Decimal(n)) == n
  {
    var d := Decimal(n);
    if n >= 10 {
      ValueOfDecimal(n / 10);
      assert d[..|d| - 1] == Decimal(n / 10);
    }
  }

  // ------------------------------------------------ the regular expression

  /** `(\.\w*)?` matching the whole of `t`. */
  predicate IsExtPart(t: string) {
    t == "" || (t[0] == '.' && forall i :: 1 <= i < |t| ==> IsWordChar(t[i]))
  }

  /** The longest run of digits at the start of `s`. */
  function DigitRun(s: string): (d: string)
    ensures |d| <= |s| && d == s[..|d|]
    ensures AllDigits(d)
    ensures |d| == |s| || !IsDigit(s[|d|])
  {
    if |s| == 0 || !IsDigit(s[0]) then "" else [s[0]] + DigitRun(s[1..])
  }

  /** One match of the expression: group 1, group 2 ("" when the counter
      group did not take part) and group 3. */
  datatype NameMatch = NameMatch(stem: string, counter: string, ext: string)

  /** ` \((\d{1,4})\)(\.\w*)?` matching the whole of `rest`: the digits and
      the extension part. The digit run is greedy and must be followed by
      ')', so at most one split can succeed. */
  function CounterPart(rest: string): (r: Option<(string, string)>)
    ensures r.Some? ==> AllDigits(r.value.0) && |r.value.0| <= 4
  {
    if |rest| >= 2 && rest[0] == ' ' && rest[1] == '(' then
      var d := DigitRun(rest[2..]);
      if 1 <= |d| <= 4 && 2 + |d| < |rest| && rest[2 + |d|] == ')' && IsExtPart(rest[3 + |d|..])
      then Some((d, rest[3 + |d|..]))
      else None
    else None
  }

  /** The match with group 1 = `name[..k]`, preferring the counter group to
      its absence, as the greedy `?` does. */
  function TryAt(name: string, k: nat): (r: Option<NameMatch>)
    requires k <= |name|
    ensures r.Some? ==> AllDigits(r.value.counter)
  {
    var rest := name[k..];
    match CounterPart(rest)
    case Some((d, t)) => Some(NameMatch(name[..k], d, t))
    case None => if IsExtPart(rest) then Some(NameMatch(name[..k], "", rest)) else None
  }

  /** The lazy `(.*?)` tries the shortest group 1 first; `.` does not match
      a newline, so the search stops at the first one. */
  function Search(name: string, k: nat): (r: Option<NameMatch>)
    requires k <= |name|
    ensures r.Some? ==> AllDigits(r.value.counter)
    decreases |name| - k
  {
    match TryAt(name, k)
    case Some(m) => Some(m)
    case None => if k == |name| || name[k] == '\n' then None else Search(name, k + 1)
  }

  /** `newFilenameRE.FindStringSubmatch(name)`. */
  function MatchName(name: string): (r: Option<NameMatch>)
    ensures r.Some? ==> AllDigits(r.value.counter)
  {
    Search(name, 0)
  }

  /** The name `makeFile` tries next, or None when the expression does not
      match (and `makeFile` returns the "file exists" error). */
  function NextName(name: string): Option<string> {
    match MatchName(name)
    case None => None
    case Some(m) => Some(Renamed(m))
  }

  /** `stem (n+1)ext` for a match, n = 0 when there was no counter. */
  function Renamed(m: NameMatch): string
    requires AllDigits(m.counter)
  {
    var i := if m.counter == "" then 0 else Value(m.counter);
    m.stem + " (" + Decimal(i + 1) + ")" + m.ext
  }

  // ----------------------------------------------------------- properties

  function Counter(d: string): string {
    if d == "" then "" else " (" + d + ")"
  }

  /** `m` is a reading of `name` by the expression's three groups. */
  predicate Reassembles(name: string, m: NameMatch) {
    && name == m.stem + Counter(m.counter) + m.ext
    && '\n' !in m.stem
    && IsExtPart(m.ext)
    && AllDigits(m.counter) && |m.counter| <= 4
  }

  lemma ExtPartNoNewline(t: string)
    requires IsExtPart(t)
    ensures '\n' !in t
  {
    if |t| > 0 {
      assert forall i :: 0 <= i < |t| ==> t[i] == '.' || IsWordChar(t[i]);
    }
  }

  lemma CounterPartShape(rest: string)
    requires CounterPart(rest).Some?
    ensures var (d, t) := CounterPart(rest).value;
      rest == " (" + d + ")" + t && IsExtPart(t) && '\n' !in rest
  {
    var (d, t) := CounterPart(rest).value;
    assert rest[2..2 + |d|] == d;
    assert rest[3 + |d|..] == t;
    assert rest == rest[..2] + rest[2..2 + |d|] + rest[2 + |d|..3 + |d|] + rest[3 + |d|..];
    ExtPartNoNewline(t);
    forall i | 0 <= i < |rest|
      ensures rest[i] != '\n'
    {
      if 2 <= i < 2 + |d| {
        assert rest[i] == d[i - 2];
      } else if 3 + |d| <= i {
        assert rest[i] == t[i - 3 - |d|];
      }
    }
  }

  /** What a successful match at `k` looks like. */
  lemma TryAtShape(name: string, k: nat)
    requires k <= |name| && TryAt(name, k).Some?
    ensures var m := TryAt(name, k).value;
      && m.stem == name[..k]
      && name == m.stem + Counter(m.counter) + m.ext
      && IsExtPart(m.ext)
      && AllDigits(m.counter) && |m.counter| <= 4
      && '\n' !in name[k..]
  {
    var rest := name[k..];
    assert name == name[..k] + rest;
    if CounterPart(rest).Some? {
      CounterPartShape(rest);
    } else {
      ExtPartNoNewline(rest);
    }
  }

  /** Every match splits the name back into its three groups, and group 1
      holds no newline. */
  lemma {:induction false} SearchSound(name: string, k: nat)
    requires k <= |name| && '\n' !in name[..k]
    requires Search(name, k).Some?
    ensures Reassembles(name, Search(name, k).value)
    decreases |name| - k
  {
    if TryAt(name, k).Some? {
      TryAtShape(name, k);
    } else {
      assert name[..k + 1] == name[..k] + [name[k]];
      SearchSound(name, k + 1);
    }
  }

  /** The expression fails on a name with a newline and matches any other. */
  lemma {:induction false} SearchSomeIff(name: string, k: nat)
    requires k <= |name| && '\n' !in name[..k]
    ensures Search(name, k).Some? <==> '\n' !in name[k..]
    decreases |name| - k
  {
    if TryAt(name, k).Some? {
      TryAtShape(name, k);
    } else if k == |name| {
      assert IsExtPart(name[k..]);
    } else if name[k] == '\n' {
      assert name[k..][0] == '\n';
    } else {
      assert name[..k + 1] == name[..k] + [name[k]];
      SearchSomeIff(name, k + 1);
      assert name[k..] == [name[k]] + name[k + 1..];
    }
  }

  lemma MatchNameSomeIff(name: string)
    ensures MatchName(name).Some? <==> '\n' !in name
  {
    SearchSomeIff(name, 0);
  }

  /** `makeFile` gives up (no next name) exactly on names with a newline. */
  lemma NextNameDefinedIff(name: string)
    ensures NextName(name).Some? <==> '\n' !in name
  {
    MatchNameSomeIff(name);
  }

  /** The next name always differs from the one that collided. */
  lemma NextNameDiffers(name: string)
    requires NextName(name).Some?
    ensures NextName(name).value != name
  {
    var m := MatchName(name).value;
    SearchSound(name, 0);
    RenamedDiffers(m);
  }

  /** Renaming changes the counter, so it changes the name. */
  lemma RenamedDiffers(m: NameMatch)
    requires AllDigits(m.counter)
    ensures Renamed(m) != m.stem + Counter(m.counter) + m.ext
  {
    var i := if m.counter == "" then 0 else Value(m.counter);
    var d := Decimal(i + 1);
    var c := " (" + d + ")";
    assert Renamed(m) == m.stem + c + m.ext;
    if m.counter == "" {
      assert |Counter(m.counter)| < |c|;
    } else {
      ValueOfDecimal(i + 1);
      assert m.counter != d;
      CancelNe(" (", m.counter, d, ")");
    }
    CancelNe(m.stem, Counter(m.counter), c, m.ext);
  }

  /** Different middles make different strings. */
  lemma CancelNe(x: string, a: string, b: string, y: string)
    requires a != b
    ensures x + a + y != x + b + y
  {
    if |a| == |b| {
      assert exists j :: 0 <= j < |a| && a[j] != b[j];
      var j :| 0 <= j < |a| && a[j] != b[j];
      assert (x + a + y)[|x| + j] == a[j];
      assert (x + b + y)[|x| + j] == b[j];
    }
  }

  /** Skipping positions where no match starts. */
  lemma {:induction false} SearchSkip(name: string, k: nat, target: nat)
    requires k <= target <= |name|
    requires forall j :: k <= j < target ==> TryAt(name, j).None? && name[j] != '\n'
    ensures Search(name, k) == Search(name, target)
    decreases target - k
  {
    if k < target {
      SearchSkip(name, k + 1, target);
    }
  }

  lemma DigitRunOf(d: string, tail: string)
    requires AllDigits(d) && (tail == "" || !IsDigit(tail[0]))
    ensures DigitRun(d + tail) == d
  {
    var r := DigitRun(d + tail);
    assert forall i :: 0 <= i < |d| ==> (d + tail)[i] == d[i];
    assert |d| < |d + tail| ==> (d + tail)[|d|] == tail[0];
    assert |r| == |d|;
  }

  /** A name that already carries a counter, `stem (n)ext`, becomes
      `stem (n+1)ext`. */
  lemma NextNameIncrements(stem: string, d: string, ext: string)
    requires '\n' !in stem
    requires 1 <= |d| <= 4 && AllDigits(d)
    requires IsExtPart(ext)
    ensures NextName(stem + " (" + d + ")" + ext) == Some(stem + " (" + Decimal(Value(d) + 1) + ")" + ext)
  {
    CounterNameMatch(stem, d, ext);
    assert Renamed(NameMatch(stem, d, ext)) == stem + " (" + Decimal(Value(d) + 1) + ")" + ext;
  }

  /** Such a name is read as its stem, its counter and its extension. */
  lemma CounterNameMatch(stem: string, d: string, ext: string)
    requires '\n' !in stem
    requires 1 <= |d| <= 4 && AllDigits(d)
    requires IsExtPart(ext)
    ensures MatchName(stem + " (" + d + ")" + ext) == Some(NameMatch(stem, d, ext))
  {
    var name := stem + " (" + d + ")" + ext;
    forall j | 0 <= j < |stem|
      ensures TryAt(name, j).None? && name[j] != '\n'
    {
      assert name[j] == stem[j];
      NoMatchBeforeCounter(stem, d, ext, j);
    }
    SearchSkip(name, 0, |stem|);
    MatchAtCounter(stem, d, ext);
  }

  lemma MatchAtCounter(stem: string, d: string, ext: string)
    requires 1 <= |d| <= 4 && AllDigits(d)
    requires IsExtPart(ext)
    ensures TryAt(stem + " (" + d + ")" + ext, |stem|) == Some(NameMatch(stem, d, ext))
  {
    var name := stem + " (" + d + ")" + ext;
    assert name[|stem|..] == " (" + d + ")" + ext;
    assert name[..|stem|] == stem;
    CounterPartOf(d, ext);
  }

  /** The counter group reads back the digits and the extension. */
  lemma CounterPartOf(d: string, ext: string)
    requires 1 <= |d| <= 4 && AllDigits(d)
    requires IsExtPart(ext)
    ensures CounterPart(" (" + d + ")" + ext) == Some((d, ext))
  {
    var rest := " (" + d + ")" + ext;
    assert rest[2..] == d + (")" + ext);
    DigitRunOf(d, ")" + ext);
    assert rest[2 + |d|] == ')';
    assert rest[3 + |d|..] == ext;
  }

  lemma NoMatchBeforeCounter(stem: string, d: string, ext: string, j: nat)
    requires 1 <= |d| <= 4 && AllDigits(d)
    requires IsExtPart(ext)
    requires j < |stem|
    ensures TryAt(stem + " (" + d + ")" + ext, j).None?
  {
    var name := stem + " (" + d + ")" + ext;
    var rest := name[j..];
    var off := |stem| - j;
    assert rest[off] == ' ';
    NotExtPartAt(rest, off);
    if |rest| >= 2 && rest[0] == ' ' && rest[1] == '(' {
      var e := DigitRun(rest[2..]);
      if 1 <= |e| <= 4 && 2 + |e| < |rest| && rest[2 + |e|] == ')' {
        assert off >= 3 + |e| by {
          assert forall k :: 2 <= k < 2 + |e| ==> rest[k] == e[k - 2];
          assert !IsDigit(rest[off]);
        }
        NotExtPartAt(rest[3 + |e|..], off - 3 - |e|);
      }
    }
  }

  /** A space anywhere keeps a text from being an extension part. */
  lemma NotExtPartAt(t: string, i: nat)
    requires i < |t| && t[i] == ' '
    ensures !IsExtPart(t)
  {
  }

  /** A name without a counter gets the counter 1 in front of its
      extension: "IMG 1.CR2" becomes "IMG 1 (1).CR2" and "my.photo.jpg"
      becomes "my.photo (1).jpg". A stem may hold dots when an extension
      follows, since the extension then starts at the last one. */
  lemma NextNameFresh(stem: string, ext: string)
    requires '\n' !in stem && ')' !in stem
    requires '.' !in stem || ext != ""
    requires IsExtPart(ext)
    ensures NextName(stem + ext) == Some(stem + " (" + Decimal(1) + ")" + ext)
  {
    var name := stem + ext;
    assert ')' !in ext;
    forall j | 0 <= j < |stem|
      ensures TryAt(name, j).None? && name[j] != '\n'
    {
      var rest := name[j..];
      assert name[j] == stem[j];
      assert ')' !in rest by {
        forall i | 0 <= i < |rest| ensures rest[i] != ')' {
          assert rest[i] == name[j + i];
        }
      }
      assert rest[0] == stem[j];
      if rest[0] == '.' {
        assert ext != "" by {
          assert stem[j] == '.';
        }
        var i := |stem| - j;
        assert rest[i] == ext[0] == '.';
        NotExtPartDot(rest, i);
      }
    }
    SearchSkip(name, 0, |stem|);
    assert name[|stem|..] == ext;
    assert name[..|stem|] == stem;
  }

  /** A dot after the first character keeps a text from being an extension
      part. */
  lemma NotExtPartDot(t: string, i: nat)
    requires 1 <= i < |t| && t[i] == '.'
    ensures !IsExtPart(t)
  {
  }
}
