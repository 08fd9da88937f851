/** `filepath.Clean` and two-element `filepath.Join` on Unix paths.

    Clean is specified as Go documents it: drop empty and "." elements,
    let each ".." cancel the previous real element, drop ".." at the root
    of a rooted path, keep leading ".." of a relative path, and render the
    empty relative result as ".". The stack formulation below computes the
    same string as Go's single-pass byte loop. */
module PathClean {

  /** Splits on '/', keeping empty pieces: "a//b" gives ["a", "", "b"], "" gives [""]. */
  function Split(p: string): (r: seq<string>)
    ensures |r| >= 1
  {
    if |p| == 0 then [""]
    else
      var rest := Split(p[1..]);
      if p[0] == '/' then [""] + rest else [[p[0]] + rest[0]] + rest[1..]
  }

  /** No piece holds a '/'. */
  lemma {:induction false} SplitPieces(p: string)
    ensures forall i :: 0 <= i < |Split(p)| ==> '/' !in Split(p)[i]
    decreases |p|
  {
    if |p| > 0 {
      SplitPieces(p[1..]);
      var rest := Split(p[1..]);
      if p[0] != '/' {
        assert forall j :: 0 <= j < |[p[0]] + rest[0]| ==> ([p[0]] + rest[0])[j] != '/' by {
          assert forall j :: 1 <= j <= |rest[0]| ==> ([p[0]] + rest[0])[j] == rest[0][j - 1];
        }
      }
    }
  }

  /** The pieces joined with '/' (the inverse of Split). */
  function JoinSlash(s: seq<string>): string {
    if |s| == 0 then "" else if |s| == 1 then s[0] else s[0] + "/" + JoinSlash(s[1..])
  }

  /** A path element that survives cleaning unchanged. */
  predicate IsName(e: string) {
    e != "" && e != "." && '/' !in e
  }

  /** The elements that matter: the split pieces without "" and ".". */
  function Elems(p: string): (r: seq<string>)
    ensures forall i :: 0 <= i < |r| ==> IsName(r[i])
  {
    SplitPieces(p);
    Keep(Split(p))
  }

  function Keep(s: seq<string>): (r: seq<string>)
    requires forall i :: 0 <= i < |s| ==> '/' !in s[i]
    ensures forall i :: 0 <= i < |r| ==> IsName(r[i])
  {
    if |s| == 0 then []
    else if s[0] == "" || s[0] == "." then Keep(s[1..])
    else [s[0]] + Keep(s[1..])
  }

  predicate IsRooted(p: string) {
    |p| > 0 && p[0] == '/'
  }

  /** Processes one element against the stack of kept elements. */
  function Step(rooted: bool, stack: seq<string>, e: string): seq<string> {
    if e == ".." then
      if |stack| > 0 && stack[|stack| - 1] != ".." then stack[..|stack| - 1]
      else if rooted then stack
      else stack + [".."]
    else stack + [e]
  }

  /** Processes the elements from left to right. */
  function Norm(rooted: bool, es: seq<string>): seq<string>
    decreases |es|
  {
    if |es| == 0 then [] else Step(rooted, Norm(rooted, es[..|es| - 1]), es[|es| - 1])
  }

  function Render(rooted: bool, stack: seq<string>): string {
    if rooted then "/" + JoinSlash(stack)
    else if |stack| == 0 then "."
    else JoinSlash(stack)
  }

  /** `filepath.Clean`. */
  function Clean(p: string): string {
    var rooted := IsRooted(p);
    Render(rooted, Norm(rooted, Elems(p)))
  }

  /** `filepath.Join` of two elements: empty elements are ignored and the
      result is cleaned; two empty elements give "". */
  function Join(a: string, b: string): string {
    if a == "" then (if b == "" then "" else Clean(b))
    else if b == "" then Clean(a)
    else Clean(a + "/" + b)
  }

  /** A stack in the shape cleaning produces: names only, and ".." only as a
      leading run of a relative path. */
  ghost predicate Normal(rooted: bool, s: seq<string>) {
    && (forall i :: 0 <= i < |s| ==> IsName(s[i]))
    && (rooted ==> forall i :: 0 <= i < |s| ==> s[i] != "..")
    && (forall i, j :: 0 <= i < j < |s| && s[j] == ".." ==> s[i] == "..")
  }

  lemma {:induction false} SplitAppend(a: string, b: string)
    ensures Split(a + "/" + b) == Split(a) + Split(b)
    decreases |a|
  {
    if |a| == 0 {
      assert a + "/" + b == "/" + b;
      assert ("/" + b)[1..] == b;
    } else {
      var p := a + "/" + b;
      var ra, rb := Split(a[1..]), Split(b);
      assert p[0] == a[0];
      assert Split(p[1..]) == ra + rb by {
        assert p[1..] == a[1..] + "/" + b;
        SplitAppend(a[1..], b);
      }
      if a[0] == '/' {
        calc {
          Split(p);
          [""] + (ra + rb);
          ([""] + ra) + rb;
        }
      } else {
        calc {
          Split(p);
          [[a[0]] + (ra + rb)[0]] + (ra + rb)[1..];
          { assert (ra + rb)[0] == ra[0]; assert (ra + rb)[1..] == ra[1..] + rb; }
          [[a[0]] + ra[0]] + (ra[1..] + rb);
          ([[a[0]] + ra[0]] + ra[1..]) + rb;
        }
      }
    }
  }

  lemma {:induction false} SplitNoSlash(a: string)
    requires '/' !in a
    ensures Split(a) == [a]
    decreases |a|
  {
    if |a| > 0 {
      assert '/' !in a[1..] by {
        forall i | 0 <= i < |a[1..]| ensures a[1..][i] != '/' {
          assert a[1..][i] == a[i + 1];
        }
      }
      SplitNoSlash(a[1..]);
      assert [a[0]] + a[1..] == a;
    }
  }

  lemma {:induction false} SplitJoin(s: seq<string>)
    requires |s| >= 1
    requires forall i :: 0 <= i < |s| ==> '/' !in s[i]
    ensures Split(JoinSlash(s)) == s
    decreases |s|
  {
    if |s| == 1 {
      SplitNoSlash(s[0]);
    } else {
      SplitNoSlash(s[0]);
      SplitJoin(s[1..]);
      SplitAppend(s[0], JoinSlash(s[1..]));
    }
  }

  lemma {:induction false} KeepAppend(a: seq<string>, b: seq<string>)
    requires forall i :: 0 <= i < |a| ==> '/' !in a[i]
    requires forall i :: 0 <= i < |b| ==> '/' !in b[i]
    ensures Keep(a + b) == Keep(a) + Keep(b)
    decreases |a|
  {
    if |a| > 0 {
      assert (a + b)[1..] == a[1..] + b;
      KeepAppend(a[1..], b);
    } else {
      assert a + b == b;
    }
  }

  lemma {:induction false} KeepNames(s: seq<string>)
    requires forall i :: 0 <= i < |s| ==> '/' !in s[i]
    requires forall i :: 0 <= i < |s| ==> IsName(s[i])
    ensures Keep(s) == s
    decreases |s|
  {
    if |s| > 0 {
      KeepNames(s[1..]);
    }
  }

  /** The first character of a joined non-empty stack is not '/'. */
  lemma JoinStartsWithName(s: seq<string>)
    requires |s| >= 1 && IsName(s[0])
    ensures |JoinSlash(s)| > 0 && JoinSlash(s)[0] == s[0][0]
  {
  }

  /** Rendering a normal stack and reading it back gives the same stack. */
  lemma {:induction false} ElemsOfRender(rooted: bool, s: seq<string>)
    requires Normal(rooted, s)
    ensures Elems(Render(rooted, s)) == s
    ensures IsRooted(Render(rooted, s)) == rooted
  {
    var r := Render(rooted, s);
    if |s| > 0 {
      JoinStartsWithName(s);
      SplitJoin(s);
      KeepNames(s);
    }
    if rooted {
      if |s| == 0 {
        assert r == "/" + "";
        assert Split(r) == [""] + Split("") by {
          assert r[1..] == "";
        }
      } else {
        assert r[1..] == JoinSlash(s);
        assert Split(r) == [""] + s;
        assert Keep(Split(r)) == Keep(s);
      }
    } else if |s| == 0 {
      SplitNoSlash(".");
    }
  }

  /** Normalising a stack that is already normal changes nothing. */
  lemma {:induction false} NormOfNormal(rooted: bool, s: seq<string>)
    requires Normal(rooted, s)
    ensures Norm(rooted, s) == s
    decreases |s|
  {
    if |s| > 0 {
      var init := s[..|s| - 1];
      assert Normal(rooted, init);
      NormOfNormal(rooted, init);
      assert init + [s[|s| - 1]] == s;
      if s[|s| - 1] == ".." && |init| > 0 {
        assert init[|init| - 1] == "..";
      }
    }
  }

  /** One step keeps a stack normal. */
  lemma StepNormal(rooted: bool, s: seq<string>, e: string)
    requires Normal(rooted, s) && IsName(e)
    ensures Normal(rooted, Step(rooted, s, e))
  {
    var t := Step(rooted, s, e);
    if e == ".." && |s| > 0 && s[|s| - 1] != ".." {
      assert t == s[..|s| - 1];
    } else if e != ".." && |s| > 0 {
      assert t[|s|] == e;
    }
  }

  /** Cleaning always produces a normal stack. */
  lemma {:induction false} NormIsNormal(rooted: bool, es: seq<string>)
    requires forall i :: 0 <= i < |es| ==> IsName(es[i])
    ensures Normal(rooted, Norm(rooted, es))
    decreases |es|
  {
    if |es| > 0 {
      NormIsNormal(rooted, es[..|es| - 1]);
      StepNormal(rooted, Norm(rooted, es[..|es| - 1]), es[|es| - 1]);
    }
  }

  /** Rendering is injective on normal stacks. */
  lemma RenderInjective(rooted: bool, s: seq<string>, t: seq<string>)
    requires Normal(rooted, s) && Normal(rooted, t)
    requires Render(rooted, s) == Render(rooted, t)
    ensures s == t
  {
    ElemsOfRender(rooted, s);
    ElemsOfRender(rooted, t);
  }

  /** The result of Clean, as a rooted flag and a normal stack. */
  lemma CleanShape(p: string)
    ensures Normal(IsRooted(p), Norm(IsRooted(p), Elems(p)))
    ensures Clean(p) == Render(IsRooted(p), Norm(IsRooted(p), Elems(p)))
  {
    NormIsNormal(IsRooted(p), Elems(p));
  }

  /** Clean is idempotent, as Go documents. */
  lemma CleanIdempotent(p: string)
    ensures Clean(Clean(p)) == Clean(p)
  {
    var rooted := IsRooted(p);
    var s := Norm(rooted, Elems(p));
    CleanShape(p);
    ElemsOfRender(rooted, s);
    NormOfNormal(rooted, s);
  }

  /** Clean never returns the empty string: an empty path cleans to ".". */
  lemma CleanNonEmpty(p: string)
    ensures Clean(p) != ""
  {
    var rooted := IsRooted(p);
    var s := Norm(rooted, Elems(p));
    CleanShape(p);
    if !rooted && |s| > 0 {
      JoinStartsWithName(s);
    }
  }

  /** `Join(p, ".")` is `Clean(p)`. */
  lemma JoinDot(p: string)
    ensures Join(p, ".") == Clean(p)
  {
    SplitNoSlash(".");
    if p != "" {
      SplitAppend(p, ".");
      SplitPieces(p);
      KeepAppend(Split(p), ["."]);
      assert Elems(p + "/" + ".") == Elems(p);
      assert IsRooted(p + "/" + ".") == IsRooted(p);
    }
  }

  lemma ElemsDotDot(c: string)
    requires c != ""
    ensures Elems(c + "/" + "..") == Elems(c) + [".."]
    ensures IsRooted(c + "/" + "..") == IsRooted(c)
  {
    SplitAppend(c, "..");
    SplitNoSlash("..");
    SplitPieces(c);
    KeepAppend(Split(c), [".."]);
  }

  /** Appending "/.." to a cleaned path pops its last element, if any. */
  lemma ParentOfClean(rooted: bool, s: seq<string>)
    requires Normal(rooted, s)
    ensures Clean(Render(rooted, s) + "/" + "..") == Render(rooted, Step(rooted, s, ".."))
  {
    var c := Render(rooted, s);
    ElemsOfRender(rooted, s);
    ElemsDotDot(c);
    var es := Elems(c + "/" + "..");
    NormOfNormal(rooted, s);
    assert es[..|es| - 1] == s;
  }

  /** The parent of a cleaned path equals the path exactly at the root "/". */
  lemma ParentIsSelfIffRoot(p: string)
    ensures Join(Clean(p), "..") == Clean(p) <==> Clean(p) == "/"
  {
    var rooted := IsRooted(p);
    var s := Norm(rooted, Elems(p));
    CleanShape(p);
    var c := Clean(p);
    assert c != "";
    ParentOfClean(rooted, s);
    var t := Step(rooted, s, "..");
    StepNormal(rooted, s, "..");
    if |s| > 0 {
      JoinStartsWithName(s);
    }
    if Render(rooted, t) == c {
      RenderInjective(rooted, s, t);
      assert |s| == 0 && rooted;
    }
  }
}
