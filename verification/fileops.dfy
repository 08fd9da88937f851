/** `copyFile`, `moveFile` and `lnkyFile` from util.go as sequences of
    filesystem calls. Whether each call succeeds is an input (`exec`), and
    so is what `os.Stat` reports; the model records the calls in order and
    returns the error the Go code would return. */
module FileOps {
  import opened Outcomes

  datatype FsCall =
    | Rename(src: string, dst: string)
    | Link(src: string, dst: string)
    | Open(path: string)
    | Create(path: string)
    | CopyData(src: string, dst: string)
    | CloseFile(path: string)
    | Remove(path: string)

  /** The file identity `os.SameFile` compares. */
  type FileId = nat

  datatype FsEnv = FsEnv(exec: FsCall -> Outcome, stat: string -> Result<FileId>)

  datatype Trace = Trace(calls: seq<FsCall>, outcome: Outcome)

  /** `isNotSameDevice`: the link error of a rename or link across devices. */
  predicate IsNotSameDevice(o: Outcome) {
    o == Fail(CrossDevice)
  }

  /** `copyFile`: open the source, create the destination, copy, close the
      destination. The close runs even after a failed copy, but only a
      successful copy lets its error through. */
  function CopyFile(env: FsEnv, src: string, dst: string): (t: Trace)
    ensures 1 <= |t.calls| <= 4 && t.calls[0] == Open(src)
    ensures t.outcome.Pass? <==>
      t.calls == [Open(src), Create(dst), CopyData(src, dst), CloseFile(dst)]
      && env.exec(Open(src)).Pass? && env.exec(Create(dst)).Pass?
      && env.exec(CopyData(src, dst)).Pass? && env.exec(CloseFile(dst)).Pass?
  {
    match env.exec(Open(src))
    case Fail(e) => Trace([Open(src)], Fail(e))
    case Pass =>
      match env.exec(Create(dst))
      case Fail(e) => Trace([Open(src), Create(dst)], Fail(e))
      case Pass =>
        var copied := env.exec(CopyData(src, dst));
        var closed := env.exec(CloseFile(dst));
        Trace([Open(src), Create(dst), CopyData(src, dst), CloseFile(dst)],
              if copied.Fail? then copied else closed)
  }

  /** `moveFile`: rename, and only when the rename crossed devices, copy and
      then remove the source; a source already gone counts as removed. */
  function MoveFile(env: FsEnv, src: string, dst: string): Trace {
    var renamed := env.exec(Rename(src, dst));
    if IsNotSameDevice(renamed) then
      var copy := CopyFile(env, src, dst);
      if copy.outcome.Fail? then Trace([Rename(src, dst)] + copy.calls, copy.outcome)
      else
        var removed := env.exec(Remove(src));
        Trace([Rename(src, dst)] + copy.calls + [Remove(src)],
              if removed == Fail(NotExist) then Pass else removed)
    else Trace([Rename(src, dst)], renamed)
  }

  /** `lnkyFile`: nothing to do when the destination already is the source;
      otherwise hard-link, falling back to a copy across devices. */
  function LnkyFile(env: FsEnv, src: string, dst: string): Trace {
    match env.stat(src)
    case Failure(e) => Trace([], Fail(e))
    case Success(sid) =>
      var dstat := env.stat(dst);
      if dstat.Success? && dstat.value == sid then Trace([], Pass)
      else
        var linked := env.exec(Link(src, dst));
        if IsNotSameDevice(linked) then
          var copy := CopyFile(env, src, dst);
          Trace([Link(src, dst)] + copy.calls, copy.outcome)
        else Trace([Link(src, dst)], linked)
  }

  // ------------------------------------------------ the effect on files

  type Files = map<string, Bytes>

  /** What one successful call does to the file contents. */
  function Apply(fs: Files, c: FsCall): Files {
    match c
    case Rename(s, d) => if s in fs then (fs - {s})[d := fs[s]] else fs
    case Link(s, d) => if s in fs then fs[d := fs[s]] else fs
    case Create(p) => fs[p := []]
    case CopyData(s, d) => if s in fs then fs[d := fs[s]] else fs
    case Remove(p) => fs - {p}
    case Open(_) => fs
    case CloseFile(_) => fs
  }

  /** The effect of the calls of a trace that succeeded. */
  function Effect(env: FsEnv, fs: Files, calls: seq<FsCall>): Files
    decreases |calls|
  {
    if |calls| == 0 then fs
    else
      var c := calls[|calls| - 1];
      var before := Effect(env, fs, calls[..|calls| - 1]);
      if env.exec(c).Pass? then Apply(before, c) else before
  }

  lemma EffectAppend(env: FsEnv, fs: Files, a: seq<FsCall>, b: seq<FsCall>)
    ensures Effect(env, fs, a + b) == Effect(env, Effect(env, fs, a), b)
    decreases |b|
  {
    if |b| == 0 {
      assert a + b == a;
    } else {
      assert (a + b)[..|a + b| - 1] == a + b[..|b| - 1];
      EffectAppend(env, fs, a, b[..|b| - 1]);
    }
  }

  // --------------------------------------------------------- properties

  /** moveFile always starts with the rename; any rename error other than a
      cross-device one is returned unchanged, with nothing else tried. */
  lemma MoveFileRenameFirst(env: FsEnv, src: string, dst: string)
    ensures MoveFile(env, src, dst).calls[0] == Rename(src, dst)
    ensures !IsNotSameDevice(env.exec(Rename(src, dst))) ==>
      MoveFile(env, src, dst) == Trace([Rename(src, dst)], env.exec(Rename(src, dst)))
  {
  }

  /** The source is removed only after the copy succeeded, and only after a
      cross-device rename; a source already gone counts as success. */
  lemma MoveFileRemoveOnlyAfterCopy(env: FsEnv, src: string, dst: string)
    ensures Remove(src) in MoveFile(env, src, dst).calls <==>
      IsNotSameDevice(env.exec(Rename(src, dst))) && CopyFile(env, src, dst).outcome.Pass?
    ensures IsNotSameDevice(env.exec(Rename(src, dst))) && CopyFile(env, src, dst).outcome.Pass? ==>
      (MoveFile(env, src, dst).outcome.Pass? <==> env.exec(Remove(src)) in {Pass, Fail(NotExist)})
  {
    var copy := CopyFile(env, src, dst);
    assert Remove(src) !in copy.calls;
  }

  /** A cross-device move that reports success has copied the source's
      bytes to the destination and removed the source, provided the remove
      itself went through. */
  lemma MoveFileCrossDeviceEffect(env: FsEnv, fs: Files, src: string, dst: string)
    requires src in fs && src != dst
    requires IsNotSameDevice(env.exec(Rename(src, dst)))
    requires MoveFile(env, src, dst).outcome.Pass?
    requires env.exec(Remove(src)).Pass?
    ensures var after := Effect(env, fs, MoveFile(env, src, dst).calls);
      dst in after && after[dst] == fs[src] && src !in after
  {
    var copy := CopyFile(env, src, dst);
    assert copy.calls == [Open(src), Create(dst), CopyData(src, dst), CloseFile(dst)];
    var c1 := [Rename(src, dst)];
    EffectSnoc(env, fs, [], Rename(src, dst));
    assert Effect(env, fs, c1) == fs;
    EffectSnoc(env, fs, c1, Open(src));
    var c2 := c1 + [Open(src)];
    EffectSnoc(env, fs, c2, Create(dst));
    var c3 := c2 + [Create(dst)];
    assert Effect(env, fs, c3) == fs[dst := []];
    EffectSnoc(env, fs, c3, CopyData(src, dst));
    var c4 := c3 + [CopyData(src, dst)];
    assert Effect(env, fs, c4) == fs[dst := fs[src]];
    EffectSnoc(env, fs, c4, CloseFile(dst));
    var c5 := c4 + [CloseFile(dst)];
    EffectSnoc(env, fs, c5, Remove(src));
    assert c5 + [Remove(src)] == MoveFile(env, src, dst).calls;
  }

  lemma EffectSnoc(env: FsEnv, fs: Files, a: seq<FsCall>, c: FsCall)
    ensures Effect(env, fs, a + [c]) ==
      if env.exec(c).Pass? then Apply(Effect(env, fs, a), c) else Effect(env, fs, a)
  {
    assert (a + [c])[..|a|] == a;
  }

  /** A same-device move that reports success has renamed the file. */
  lemma MoveFileRenameEffect(env: FsEnv, fs: Files, src: string, dst: string)
    requires src in fs && src != dst
    requires MoveFile(env, src, dst).outcome.Pass?
    requires !IsNotSameDevice(env.exec(Rename(src, dst)))
    ensures var after := Effect(env, fs, MoveFile(env, src, dst).calls);
      dst in after && after[dst] == fs[src] && src !in after
  {
    assert [Rename(src, dst)][..0] == [];
  }

  /** lnkyFile links first, copies only across devices, and does nothing
      when the two paths already name the same file. */
  lemma LnkyFileShape(env: FsEnv, src: string, dst: string)
    ensures var t := LnkyFile(env, src, dst);
      && (env.stat(src).Failure? ==> t == Trace([], Fail(env.stat(src).error)))
      && (t.calls != [] ==> t.calls[0] == Link(src, dst))
      && (Open(src) in t.calls ==> IsNotSameDevice(env.exec(Link(src, dst))))
      && (t.calls == [] ==> env.stat(src).Failure? || t.outcome.Pass?)
  {
    var t := LnkyFile(env, src, dst);
    if env.stat(src).Success? {
      var dstat := env.stat(dst);
      if !(dstat.Success? && dstat.value == env.stat(src).value) {
        var linked := env.exec(Link(src, dst));
        if !IsNotSameDevice(linked) {
          assert t.calls == [Link(src, dst)];
        }
      }
    }
  }
}
