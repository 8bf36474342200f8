/** The line classification and forward scan shared by both parsers
    (ConfigParser.cs and Services/ConfigService.cs), stated once without the
    entry and section records either variant builds.  Each line is given a
    kind; a scan over the kinds yields one `Block` per section header: the
    header's line index and the indices of the `name=value` lines attached
    to it. */
module IniScan {
  import opened Text

  /** Trimmed, the line starts with `;`. */
  predicate IsCommentLine(line: string) {
    StartsWith(Trim(line), ';')
  }

  /** The look-behind's loop condition: a comment line, or a line that is
      empty or white space only. */
  predicate IsBlankOrComment(line: string) {
    IsCommentLine(line) || AllWhite(line)
  }

  predicate IsHeaderText(t: string) {
    StartsWith(t, '[') && EndsWith(t, ']')
  }

  /** How the parser's loop treats a line: passed over when it is empty once
      trimmed or a comment; a section header when, trimmed, it starts with
      `[` and ends with `]`; an assignment when it otherwise contains `=`;
      anything else is ignored. */
  datatype LineKind = Passed | Header | Assignment | Ignored

  function KindOf(line: string): LineKind {
    var t := Trim(line);
    if t == [] || StartsWith(t, ';') then Passed
    else if IsHeaderText(t) then Header
    else if '=' in t then Assignment
    else Ignored
  }

  /** The kind of every line, in order; `KindAt` reads one off. */
  function Kinds(lines: seq<string>): (r: seq<LineKind>)
    ensures |r| == |lines|
  {
    if lines == [] then [] else Kinds(lines[..|lines| - 1]) + [KindOf(lines[|lines| - 1])]
  }

  lemma {:induction false} KindAt(lines: seq<string>, i: nat)
    requires i < |lines|
    ensures Kinds(lines)[i] == KindOf(lines[i])
  {
    if i < |lines| - 1 {
      KindAt(lines[..|lines| - 1], i);
    }
  }

  /** The look-behind's condition is the parser's "passed over". */
  lemma BlankOrCommentIsPassed(line: string)
    ensures IsBlankOrComment(line) <==> KindOf(line) == Passed
  {
    TrimWhite(line);
  }

  /** The text between the brackets of a header line. */
  function HeaderName(line: string): (r: string)
    requires KindOf(line) == Header
    ensures Trim(line) == ['['] + r + [']']
  {
    var t := Trim(line);
    assert t == [t[0]] + t[1..|t| - 1] + [t[|t| - 1]];
    t[1..|t| - 1]
  }

  /** The text of a comment line after its `;`, trimmed. */
  function CommentText(line: string): (r: string)
    requires IsCommentLine(line)
    ensures exists raw :: Trim(line) == [';'] + raw && r == Trim(raw)
  {
    var t := Trim(line);
    assert t == [';'] + t[1..];
    Trim(t[1..])
  }

  // ----- the comment look-behind -----

  /** The first index of the run of blank and comment lines that ends just
      before `k`: the look-behind walks back from `k - 1` over such lines and
      stops at the first other line or after index 0. */
  function RunStart(lines: seq<string>, k: nat): (r: nat)
    requires k <= |lines|
    ensures r <= k
    ensures forall i :: r <= i < k ==> IsBlankOrComment(lines[i])
    ensures r == 0 || !IsBlankOrComment(lines[r - 1])
  {
    if k == 0 || !IsBlankOrComment(lines[k - 1]) then k else RunStart(lines, k - 1)
  }

  /** The texts of the comment lines among `lines[lo..hi]`, in file order. */
  function CommentsIn(lines: seq<string>, lo: nat, hi: nat): (r: seq<string>)
    requires lo <= hi <= |lines|
    ensures |r| <= hi - lo
    decreases hi - lo
  {
    if lo == hi then []
    else (if IsCommentLine(lines[lo]) then [CommentText(lines[lo])] else []) + CommentsIn(lines, lo + 1, hi)
  }

  /** Nothing is collected exactly when no line of the range is a comment. */
  lemma {:induction false} CommentsInEmpty(lines: seq<string>, lo: nat, hi: nat)
    requires lo <= hi <= |lines|
    ensures CommentsIn(lines, lo, hi) == [] <==> forall i :: lo <= i < hi ==> !IsCommentLine(lines[i])
    decreases hi - lo
  {
    if lo < hi {
      CommentsInEmpty(lines, lo + 1, hi);
    }
  }

  /** What the look-behind anchored at line `k` collects. */
  function LookBehind(lines: seq<string>, k: nat): seq<string>
    requires k <= |lines|
  {
    CommentsIn(lines, RunStart(lines, k), k)
  }

  // ----- the forward scan -----

  datatype Block = Block(header: nat, entries: seq<nat>)

  /** One iteration of the parser's loop, on line `i`: passed-over and
      ignored lines change nothing, a header opens a new block, an assignment
      joins the current (last) block, and an assignment with no block open is
      dropped. */
  function ScanStep(kinds: seq<LineKind>, i: nat, blocks: seq<Block>): seq<Block>
    requires i < |kinds|
  {
    match kinds[i]
    case Header => blocks + [Block(i, [])]
    case Assignment =>
      if |blocks| > 0 then
        var last := blocks[|blocks| - 1];
        blocks[|blocks| - 1 := last.(entries := last.entries + [i])]
      else blocks
    case _ => blocks
  }

  /** The blocks after the loop has visited the first `k` lines. */
  function ScanUpTo(kinds: seq<LineKind>, k: nat): seq<Block>
    requires k <= |kinds|
  {
    if k == 0 then [] else ScanStep(kinds, k - 1, ScanUpTo(kinds, k - 1))
  }

  function Scan(lines: seq<string>): seq<Block> {
    ScanUpTo(Kinds(lines), |lines|)
  }

  /** Every block's header index is a header line and every one of its
      entry indices an assignment line. */
  predicate WellKinded(kinds: seq<LineKind>, blocks: seq<Block>) {
    forall j :: 0 <= j < |blocks| ==>
      && blocks[j].header < |kinds| && kinds[blocks[j].header] == Header
      && forall t :: 0 <= t < |blocks[j].entries| ==>
           blocks[j].entries[t] < |kinds| && kinds[blocks[j].entries[t]] == Assignment
  }

  lemma {:induction false} ScanWellKinded(kinds: seq<LineKind>, k: nat)
    requires k <= |kinds|
    ensures WellKinded(kinds, ScanUpTo(kinds, k))
  {
    if k > 0 {
      ScanWellKinded(kinds, k - 1);
      StepWellKinded(kinds, k - 1, ScanUpTo(kinds, k - 1));
    }
  }

  lemma StepWellKinded(kinds: seq<LineKind>, i: nat, bs: seq<Block>)
    requires i < |kinds| && WellKinded(kinds, bs)
    ensures WellKinded(kinds, ScanStep(kinds, i, bs))
  {
    if kinds[i] == Assignment && |bs| > 0 {
      var n := |bs| - 1;
      var r := ScanStep(kinds, i, bs);
      assert r == bs[n := bs[n].(entries := bs[n].entries + [i])];
      forall j | 0 <= j < |r|
        ensures r[j].header < |kinds| && kinds[r[j].header] == Header
        ensures forall t :: 0 <= t < |r[j].entries| ==>
          r[j].entries[t] < |kinds| && kinds[r[j].entries[t]] == Assignment
      {
        if j < n {
          assert r[j] == bs[j];
        } else {
          var es := bs[n].entries;
          assert r[j].header == bs[n].header && r[j].entries == es + [i];
          assert forall t :: 0 <= t < |es| ==> (es + [i])[t] == es[t];
        }
      }
    }
  }

  // ----- a reference description of the scan -----

  /** The indices of the header lines before `k`, in order. */
  function HeaderLines(kinds: seq<LineKind>, k: nat): seq<nat>
    requires k <= |kinds|
  {
    if k == 0 then []
    else HeaderLines(kinds, k - 1) + (if kinds[k - 1] == Header then [k - 1] else [])
  }

  /** `r` lists every line of kind `kind` in `[lo, hi)`, and only those,
      in increasing order. */
  predicate IndexFacts(kinds: seq<LineKind>, r: seq<nat>, lo: nat, hi: nat, kind: LineKind)
    requires hi <= |kinds|
  {
    && (forall t :: 0 <= t < |r| ==> lo <= r[t] < hi && kinds[r[t]] == kind)
    && (forall i :: lo <= i < hi && kinds[i] == kind ==> i in r)
    && (forall t, u :: 0 <= t < u < |r| ==> r[t] < r[u])
  }

  /** Extending the range by line `m` appends `m` exactly when it has the
      kind, and keeps the facts. */
  lemma AppendIndex(kinds: seq<LineKind>, r0: seq<nat>, r: seq<nat>, lo: nat, m: nat, kind: LineKind)
    requires lo <= m < |kinds| && IndexFacts(kinds, r0, lo, m, kind)
    requires r == r0 + (if kinds[m] == kind then [m] else [])
    ensures IndexFacts(kinds, r, lo, m + 1, kind)
  {
    assert forall t :: 0 <= t < |r0| ==> r[t] == r0[t];
    forall t | 0 <= t < |r|
      ensures lo <= r[t] < m + 1 && kinds[r[t]] == kind
    {
      if t >= |r0| {
        assert r[t] == m;
      }
    }
    forall i | lo <= i < m + 1 && kinds[i] == kind
      ensures i in r
    {
      if i < m {
        assert i in r0;
      } else {
        assert r[|r| - 1] == i;
      }
    }
    forall t, u | 0 <= t < u < |r|
      ensures r[t] < r[u]
    {
      if u >= |r0| {
        assert r[u] == m && r[t] == r0[t];
      }
    }
  }

  /** `HeaderLines` lists every header line before `k`, and only those, in
      increasing order. */
  lemma {:induction false} HeaderLinesFacts(kinds: seq<LineKind>, k: nat)
    requires k <= |kinds|
    ensures IndexFacts(kinds, HeaderLines(kinds, k), 0, k, Header)
  {
    if k > 0 {
      HeaderLinesFacts(kinds, k - 1);
      AppendIndex(kinds, HeaderLines(kinds, k - 1), HeaderLines(kinds, k), 0, k - 1, Header);
    }
  }

  /** The indices of the assignment lines in `[lo, hi)`, in order. */
  function AssignmentsIn(kinds: seq<LineKind>, lo: nat, hi: nat): seq<nat>
    requires hi <= |kinds|
  {
    if hi <= lo then []
    else AssignmentsIn(kinds, lo, hi - 1) + (if kinds[hi - 1] == Assignment then [hi - 1] else [])
  }

  /** `AssignmentsIn` lists every assignment line of `[lo, hi)`, and only
      those, in increasing order. */
  lemma {:induction false} AssignmentsFacts(kinds: seq<LineKind>, lo: nat, hi: nat)
    requires hi <= |kinds|
    ensures IndexFacts(kinds, AssignmentsIn(kinds, lo, hi), lo, hi, Assignment)
  {
    if lo < hi {
      AssignmentsFacts(kinds, lo, hi - 1);
      AppendIndex(kinds, AssignmentsIn(kinds, lo, hi - 1), AssignmentsIn(kinds, lo, hi), lo, hi - 1, Assignment);
    }
  }

  /** The header line of each block, in order. */
  function Headers(blocks: seq<Block>): seq<nat> {
    seq(|blocks|, j requires 0 <= j < |blocks| => blocks[j].header)
  }

  /** Where block `j`'s lines end: at the next header, or at `k`. */
  function BlockEnd(blocks: seq<Block>, j: nat, k: nat): nat
    requires j < |blocks|
  {
    if j + 1 < |blocks| then blocks[j + 1].header else k
  }

  /** The blocks are exactly the header lines before `k`, in order, and each
      block holds exactly the assignment lines after its header and before
      the next header (or `k`). */
  predicate Describes(kinds: seq<LineKind>, blocks: seq<Block>, k: nat)
    requires k <= |kinds|
  {
    HeadersMatch(kinds, blocks, k) && EntriesMatch(kinds, blocks, k)
  }

  predicate HeadersMatch(kinds: seq<LineKind>, blocks: seq<Block>, k: nat)
    requires k <= |kinds|
  {
    Headers(blocks) == HeaderLines(kinds, k) && HeadersBelow(blocks, k)
  }

  predicate HeadersBelow(blocks: seq<Block>, k: nat) {
    forall j :: 0 <= j < |blocks| ==> blocks[j].header < k
  }

  predicate EntriesMatch(kinds: seq<LineKind>, blocks: seq<Block>, k: nat)
    requires k <= |kinds| && HeadersBelow(blocks, k)
  {
    forall j :: 0 <= j < |blocks| ==>
      blocks[j].entries == AssignmentsIn(kinds, blocks[j].header + 1, BlockEnd(blocks, j, k))
  }

  /** The scan meets its reference description. */
  lemma {:induction false} ScanDescribed(kinds: seq<LineKind>, k: nat)
    requires k <= |kinds|
    ensures Describes(kinds, ScanUpTo(kinds, k), k)
  {
    if k > 0 {
      var i := k - 1;
      var bs := ScanUpTo(kinds, i);
      ScanDescribed(kinds, i);
      match kinds[i]
      case Header => StepOpensBlock(kinds, i, bs);
      case Assignment =>
        if |bs| > 0 { StepAddsEntry(kinds, i, bs); } else { StepPassesOver(kinds, i, bs); }
      case _ => StepPassesOver(kinds, i, bs);
    }
  }

  lemma StepPassesOver(kinds: seq<LineKind>, i: nat, bs: seq<Block>)
    requires i < |kinds| && Describes(kinds, bs, i)
    requires kinds[i] != Header && (kinds[i] == Assignment ==> bs == [])
    ensures Describes(kinds, bs, i + 1)
  {
    assert HeaderLines(kinds, i + 1) == HeaderLines(kinds, i);
    forall j | 0 <= j < |bs|
      ensures bs[j].entries == AssignmentsIn(kinds, bs[j].header + 1, BlockEnd(bs, j, i + 1))
    {
      if j + 1 == |bs| {
        assert AssignmentsIn(kinds, bs[j].header + 1, i + 1) == AssignmentsIn(kinds, bs[j].header + 1, i);
      }
    }
  }

  lemma StepOpensBlock(kinds: seq<LineKind>, i: nat, bs: seq<Block>)
    requires i < |kinds| && Describes(kinds, bs, i)
    requires kinds[i] == Header
    ensures Describes(kinds, bs + [Block(i, [])], i + 1)
  {
    var r := bs + [Block(i, [])];
    assert Headers(r) == Headers(bs) + [i];
    forall j | 0 <= j < |bs|
      ensures r[j].entries == AssignmentsIn(kinds, r[j].header + 1, BlockEnd(r, j, i + 1))
    {
      assert BlockEnd(r, j, i + 1) == BlockEnd(bs, j, i);
    }
  }

  lemma StepAddsEntry(kinds: seq<LineKind>, i: nat, bs: seq<Block>)
    requires i < |kinds| && Describes(kinds, bs, i)
    requires kinds[i] == Assignment && bs != []
    ensures var last := bs[|bs| - 1];
      Describes(kinds, bs[|bs| - 1 := last.(entries := last.entries + [i])], i + 1)
  {
    var last := bs[|bs| - 1];
    var r := bs[|bs| - 1 := last.(entries := last.entries + [i])];
    HeadersAfterEntry(kinds, i, bs, r);
    EntriesAfterEntry(kinds, i, bs, r);
  }

  lemma HeadersAfterEntry(kinds: seq<LineKind>, i: nat, bs: seq<Block>, r: seq<Block>)
    requires i < |kinds| && HeadersMatch(kinds, bs, i) && kinds[i] == Assignment
    requires |r| == |bs| && forall j :: 0 <= j < |r| ==> r[j].header == bs[j].header
    ensures HeadersMatch(kinds, r, i + 1)
  {
    assert HeaderLines(kinds, i + 1) == HeaderLines(kinds, i);
    assert Headers(r) == Headers(bs);
  }

  lemma EntriesAfterEntry(kinds: seq<LineKind>, i: nat, bs: seq<Block>, r: seq<Block>)
    requires i < |kinds| && HeadersBelow(bs, i) && EntriesMatch(kinds, bs, i)
    requires kinds[i] == Assignment && bs != []
    requires var last := bs[|bs| - 1]; r == bs[|bs| - 1 := last.(entries := last.entries + [i])]
    ensures HeadersBelow(r, i + 1) && EntriesMatch(kinds, r, i + 1)
  {
    var n := |bs| - 1;
    forall j | 0 <= j < |r|
      ensures r[j].entries == AssignmentsIn(kinds, r[j].header + 1, BlockEnd(r, j, i + 1))
    {
      if j < n {
        assert r[j] == bs[j];
        assert BlockEnd(r, j, i + 1) == BlockEnd(bs, j, i) by {
          assert r[j + 1].header == bs[j + 1].header;
        }
        assert bs[j].entries == AssignmentsIn(kinds, bs[j].header + 1, BlockEnd(bs, j, i));
      } else {
        LastBlockGrows(kinds, i, bs[n]);
        assert BlockEnd(r, n, i + 1) == i + 1;
      }
    }
  }

  /** The block still open at an assignment line takes that line last. */
  lemma LastBlockGrows(kinds: seq<LineKind>, i: nat, last: Block)
    requires i < |kinds| && kinds[i] == Assignment && last.header < i
    requires last.entries == AssignmentsIn(kinds, last.header + 1, i)
    ensures last.entries + [i] == AssignmentsIn(kinds, last.header + 1, i + 1)
  {
  }

  /** Where an assignment the scan keeps lies: an assignment line after its
      block's header, before `k`, with no header line in between. */
  lemma Placement(kinds: seq<LineKind>, bs: seq<Block>, k: nat, j: nat, t: nat)
    requires k <= |kinds| && Describes(kinds, bs, k)
    requires j < |bs| && t < |bs[j].entries|
    ensures bs[j].header < bs[j].entries[t] < k
    ensures kinds[bs[j].entries[t]] == Assignment
    ensures forall h :: bs[j].header < h < bs[j].entries[t] ==> kinds[h] != Header
  {
    HeaderLinesFacts(kinds, k);
    var lo, hi := bs[j].header + 1, BlockEnd(bs, j, k);
    AssignmentsFacts(kinds, lo, hi);
    assert bs[j].entries == AssignmentsIn(kinds, lo, hi);
    var e := bs[j].entries[t];
    assert lo <= e < hi && kinds[e] == Assignment;
    forall h | bs[j].header < h < e
      ensures kinds[h] != Header
    {
      NoHeaderInside(kinds, bs, k, j, h);
    }
  }

  /** No header line lies strictly inside a block's range. */
  lemma NoHeaderInside(kinds: seq<LineKind>, bs: seq<Block>, k: nat, j: nat, h: nat)
    requires k <= |kinds| && HeadersMatch(kinds, bs, k)
    requires j < |bs| && bs[j].header < h < BlockEnd(bs, j, k)
    ensures kinds[h] != Header
  {
    HeaderLinesFacts(kinds, k);
    var hs := HeaderLines(kinds, k);
    assert Headers(bs) == hs;
    forall u | 0 <= u < |hs|
      ensures hs[u] != h
    {
      if u <= j {
        assert hs[u] <= hs[j] == bs[j].header;
      } else {
        assert hs[j + 1] == bs[j + 1].header && hs[j + 1] <= hs[u];
      }
    }
    assert h !in hs;
  }

  /** An assignment line before `k` is kept in some block exactly when a
      header line precedes it: assignments ahead of the first header are
      dropped, and no other assignment is lost. */
  lemma Keeps(kinds: seq<LineKind>, bs: seq<Block>, k: nat, e: nat)
    requires e < k <= |kinds| && kinds[e] == Assignment && Describes(kinds, bs, k)
    ensures (exists j :: 0 <= j < |bs| && e in bs[j].entries)
        <==> (exists h :: 0 <= h < e && kinds[h] == Header)
  {
    if j :| 0 <= j < |bs| && e in bs[j].entries {
      var t :| 0 <= t < |bs[j].entries| && bs[j].entries[t] == e;
      Placement(kinds, bs, k, j, t);
      BlockHeaderIsHeader(kinds, bs, k, j);
      assert 0 <= bs[j].header < e && kinds[bs[j].header] == Header;
    }
    if h :| 0 <= h < e && kinds[h] == Header {
      var j := KeepingBlock(kinds, bs, k, e, h);
      assert 0 <= j < |bs| && e in bs[j].entries;
    }
  }

  lemma BlockHeaderIsHeader(kinds: seq<LineKind>, bs: seq<Block>, k: nat, j: nat)
    requires k <= |kinds| && HeadersMatch(kinds, bs, k) && j < |bs|
    ensures kinds[bs[j].header] == Header
  {
    HeaderLinesFacts(kinds, k);
    var hs := HeaderLines(kinds, k);
    assert |Headers(bs)| == |bs| && Headers(bs)[j] == bs[j].header;
    assert j < |hs| && hs[j] == bs[j].header;
    assert kinds[hs[j]] == Header;
  }

  /** The block that keeps assignment `e` when header `h` precedes it: the
      last block whose header lies before `e`. */
  lemma KeepingBlock(kinds: seq<LineKind>, bs: seq<Block>, k: nat, e: nat, h: nat) returns (j: nat)
    requires e < k <= |kinds| && kinds[e] == Assignment && Describes(kinds, bs, k)
    requires h < e && kinds[h] == Header
    ensures j < |bs| && e in bs[j].entries
  {
    j := BlockAround(kinds, bs, k, e, h);
    var lo, hi := bs[j].header + 1, BlockEnd(bs, j, k);
    assert bs[j].entries == AssignmentsIn(kinds, lo, hi);
    AssignmentsFacts(kinds, lo, hi);
  }

  /** The block whose range holds line `e`: its header is the last header
      line before `e`, which exists because `h` is one. */
  lemma BlockAround(kinds: seq<LineKind>, bs: seq<Block>, k: nat, e: nat, h: nat) returns (j: nat)
    requires e < k <= |kinds| && kinds[e] == Assignment && HeadersMatch(kinds, bs, k)
    requires h < e && kinds[h] == Header
    ensures j < |bs| && bs[j].header < e < BlockEnd(bs, j, k)
  {
    var hs := Headers(bs);
    assert h in hs by {
      HeaderLinesFacts(kinds, k);
      assert hs == HeaderLines(kinds, k);
    }
    var u :| 0 <= u < |hs| && hs[u] == h;
    j := LastBelow(hs, u, e);
    assert hs[j] == bs[j].header;
    if j + 1 < |bs| {
      BlockHeaderIsHeader(kinds, bs, k, j + 1);
      assert BlockEnd(bs, j, k) == bs[j + 1].header == hs[j + 1];
    }
  }

  /** The last position from `u` on whose value is still below `e`. */
  lemma LastBelow(hs: seq<nat>, u: nat, e: nat) returns (j: nat)
    requires u < |hs| && hs[u] < e
    ensures u <= j < |hs| && hs[j] < e && (j + 1 < |hs| ==> e <= hs[j + 1])
  {
    j := u;
    while j + 1 < |hs| && hs[j + 1] < e
      invariant u <= j < |hs| && hs[j] < e
      decreases |hs| - j
    {
      j := j + 1;
    }
  }
}
