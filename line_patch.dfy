/** The line-patching writer both savers share (the save loop of
    MainWindow.xaml.cs and SaveIniAsync in Services/ConfigService.cs): a copy
    of the original lines, overwritten by index with re-indented text, with
    the texts of entries that have no line number appended. */
module LinePatch {
  import opened Wrappers
  import opened Text

  /** What the saver takes from one entry: the line it was read from, if
      any, and the text to write for it. */
  datatype Patch = Patch(lineNumber: Option<int>, text: string)

  /** An overwritten line: one space for each leading white-space character
      of the original line (so tabs become spaces), then the new text. */
  function Reindent(original: string, text: string): (r: string)
    ensures |r| == IndentWidth(original) + |text|
    ensures forall i :: 0 <= i < IndentWidth(original) ==> r[i] == ' '
    ensures r[IndentWidth(original)..] == text
  {
    Spaces(IndentWidth(original)) + text
  }

  /** One iteration of the save loop on the working copy `cur`.  A patch
      with line number `n` reads the original line `n`, which fails when `n`
      is not an index of the original lines, and overwrites index `n`; a
      patch with no line number appends its text. */
  function Step(orig: seq<string>, cur: seq<string>, p: Patch): Result<seq<string>, int>
    requires |orig| <= |cur|
  {
    match p.lineNumber
    case Some(n) => if 0 <= n < |orig| then Ok(cur[n := Reindent(orig[n], p.text)]) else Err(n)
    case None => Ok(cur + [p.text])
  }

  /** The working copy after the loop has taken every patch of `ps`, in
      order, or the line number at which it failed. */
  function Apply(orig: seq<string>, ps: seq<Patch>): (r: Result<seq<string>, int>)
    ensures r.Ok? ==> |orig| <= |r.value|
  {
    if ps == [] then Ok(orig)
    else match Apply(orig, ps[..|ps| - 1])
      case Err(n) => Err(n)
      case Ok(cur) => Step(orig, cur, ps[|ps| - 1])
  }

  // ----- a reference description of the writer -----

  predicate InRange(orig: seq<string>, p: Patch) {
    p.lineNumber.Some? ==> 0 <= p.lineNumber.value < |orig|
  }

  /** The texts of the patches with no line number, in order. */
  function Appended(ps: seq<Patch>): seq<string> {
    if ps == [] then []
    else Appended(ps[..|ps| - 1]) + (if ps[|ps| - 1].lineNumber.None? then [ps[|ps| - 1].text] else [])
  }

  /** The text of the last patch aimed at line `n`, if any. */
  function LastWrite(ps: seq<Patch>, n: int): Option<string> {
    if ps == [] then None
    else if ps[|ps| - 1].lineNumber == Some(n) then Some(ps[|ps| - 1].text)
    else LastWrite(ps[..|ps| - 1], n)
  }

  /** Original line `n` as the saved copy holds it. */
  function Expected(orig: seq<string>, ps: seq<Patch>, n: nat): string
    requires n < |orig|
  {
    match LastWrite(ps, n)
    case Some(t) => Reindent(orig[n], t)
    case None => orig[n]
  }

  /** The writer fails exactly when some patch names a line outside the
      original lines, and then reports the first such patch's line number. */
  lemma {:induction false} ApplyFails(orig: seq<string>, ps: seq<Patch>)
    ensures Apply(orig, ps).Ok? <==> forall i :: 0 <= i < |ps| ==> InRange(orig, ps[i])
    ensures Apply(orig, ps).Err? ==>
      exists i :: 0 <= i < |ps| && ps[i].lineNumber == Some(Apply(orig, ps).error)
        && !InRange(orig, ps[i]) && forall j :: 0 <= j < i ==> InRange(orig, ps[j])
  {
    if ps != [] {
      var front := ps[..|ps| - 1];
      ApplyFails(orig, front);
      assert forall i :: 0 <= i < |front| ==> front[i] == ps[i];
    }
  }

  /** When it succeeds, the writer keeps every original line no patch names,
      gives every named line the re-indented text of the last patch naming
      it, and appends the unnumbered texts in order after the original
      lines. */
  lemma {:induction false} ApplyWrites(orig: seq<string>, ps: seq<Patch>)
    requires Apply(orig, ps).Ok?
    ensures var r := Apply(orig, ps).value;
      && |r| == |orig| + |Appended(ps)|
      && r[|orig|..] == Appended(ps)
      && forall n :: 0 <= n < |orig| ==> r[n] == Expected(orig, ps, n)
  {
    if ps != [] {
      var front := ps[..|ps| - 1];
      ApplyWrites(orig, front);
      var cur := Apply(orig, front).value;
      var r := Apply(orig, ps).value;
      var p := ps[|ps| - 1];
      if p.lineNumber.None? {
        assert r == cur + [p.text];
        assert r[|orig|..] == cur[|orig|..] + [p.text];
      } else {
        assert r == cur[p.lineNumber.value := Reindent(orig[p.lineNumber.value], p.text)];
        assert r[|orig|..] == cur[|orig|..];
      }
    }
  }

  /** An original line that no patch names is left as it was. */
  lemma Untouched(orig: seq<string>, ps: seq<Patch>, n: nat)
    requires Apply(orig, ps).Ok? && n < |orig|
    requires forall i :: 0 <= i < |ps| ==> ps[i].lineNumber != Some(n)
    ensures Apply(orig, ps).value[n] == orig[n]
  {
    ApplyWrites(orig, ps);
    NoLastWrite(ps, n);
  }

  lemma {:induction false} NoLastWrite(ps: seq<Patch>, n: int)
    requires forall i :: 0 <= i < |ps| ==> ps[i].lineNumber != Some(n)
    ensures LastWrite(ps, n) == None
  {
    if ps != [] {
      NoLastWrite(ps[..|ps| - 1], n);
    }
  }

  /** Once the loop has failed on a patch, the patches after it change
      nothing: the writer reports that failure. */
  lemma {:induction false} FailureStops(orig: seq<string>, ps: seq<Patch>, k: nat)
    requires k <= |ps| && Apply(orig, ps[..k]).Err?
    ensures Apply(orig, ps) == Apply(orig, ps[..k])
    decreases |ps| - k
  {
    if k < |ps| {
      assert ps[..k + 1][..k] == ps[..k];
      FailureStops(orig, ps, k + 1);
    } else {
      assert ps[..k] == ps;
    }
  }

  /** One more patch: the loop's next iteration on the working copy. */
  lemma ApplyNext(orig: seq<string>, ps: seq<Patch>, k: nat, cur: seq<string>)
    requires k < |ps| && Apply(orig, ps[..k]) == Ok(cur)
    ensures |orig| <= |cur| && Apply(orig, ps[..k + 1]) == Step(orig, cur, ps[k])
  {
    assert ps[..k + 1][..k] == ps[..k];
  }

  /** With every patch numbered, nothing is appended. */
  lemma {:induction false} NothingAppended(ps: seq<Patch>)
    requires forall i :: 0 <= i < |ps| ==> ps[i].lineNumber.Some?
    ensures Appended(ps) == []
  {
    if ps != [] {
      NothingAppended(ps[..|ps| - 1]);
    }
  }

  /** A line's last write comes from a patch aimed at that line. */
  lemma {:induction false} LastWriteFrom(ps: seq<Patch>, n: int)
    requires LastWrite(ps, n).Some?
    ensures exists i :: 0 <= i < |ps| && ps[i].lineNumber == Some(n) && ps[i].text == LastWrite(ps, n).value
  {
    if ps[|ps| - 1].lineNumber != Some(n) {
      var front := ps[..|ps| - 1];
      LastWriteFrom(front, n);
      var i :| 0 <= i < |front| && front[i].lineNumber == Some(n) && front[i].text == LastWrite(front, n).value;
      assert ps[i] == front[i];
    }
  }
}
