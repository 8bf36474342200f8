/** ParseIniWithComments and its comment look-behind, from ConfigParser.cs
    (the WPF variant), minus the file read: the input is the file's lines. */
module WpfParser {
  import opened Wrappers
  import opened Text
  import opened IniScan
  import opened WpfModel

  /** What the look-behind returns: the collected comment texts joined with
      "\n", or null when it collected none. */
  function LookBehindText(lines: seq<string>, k: nat): Option<string>
    requires k <= |lines|
  {
    var cs := LookBehind(lines, k);
    if cs == [] then None else Some(Join("\n", cs))
  }

  /** An entry's tooltip when its value carries an inline comment: the
      look-behind text, "\n" and the comment when the look-behind found a
      non-empty text, the comment alone otherwise. */
  function CombineTooltip(lookBehind: Option<string>, comment: string): string {
    if lookBehind.Some? && lookBehind.value != "" then lookBehind.value + "\n" + comment else comment
  }

  /** The entry the parser builds from assignment line `i`: name and value
      split at the first `=` and trimmed, then the value split again at its
      first `;` if it has one. */
  function EntryAt(lines: seq<string>, i: nat): Entry
    requires i < |lines| && KindOf(lines[i]) == Assignment
  {
    var parts := SplitFirst(Trim(lines[i]), '=');
    var name := Trim(parts.0);
    var value := Trim(parts.1);
    var tooltip := LookBehindText(lines, i);
    if ';' in value then
      var commentParts := SplitFirst(value, ';');
      var comment := Trim(commentParts.1);
      WithInlineComment(NewEntry(name, Trim(commentParts.0), Some(CombineTooltip(tooltip, comment)), Some(i)),
                        Some(comment))
    else NewEntry(name, value, tooltip, Some(i))
  }

  /** The section the parser opens at header line `h`. */
  function SectionAt(lines: seq<string>, h: nat): Section
    requires h < |lines| && KindOf(lines[h]) == Header
  {
    NewSection(HeaderName(lines[h]), LookBehindText(lines, h), Some(h))
  }

  /** The entry each line would give, and the section each line would
      open (a placeholder for lines of the other kinds). */
  function EntryTable(lines: seq<string>): (r: seq<Entry>)
    ensures |r| == |lines|
  {
    seq(|lines|, i requires 0 <= i < |lines| =>
      if KindOf(lines[i]) == Assignment then EntryAt(lines, i) else NewEntry("", ""))
  }

  function SectionTable(lines: seq<string>): (r: seq<Section>)
    ensures |r| == |lines|
  {
    seq(|lines|, i requires 0 <= i < |lines| =>
      if KindOf(lines[i]) == Header then SectionAt(lines, i) else NewSection(""))
  }

  /** The sections described by scan blocks, looked up in the tables. */
  function Build(entries: seq<Entry>, sections: seq<Section>, blocks: seq<Block>): (r: seq<Section>)
    requires Bounded(blocks, |sections|, |entries|)
    ensures |r| == |blocks|
  {
    seq(|blocks|, j requires 0 <= j < |blocks| => BuildSection(entries, sections, blocks[j]))
  }

  predicate Bounded(blocks: seq<Block>, headerBound: nat, entryBound: nat) {
    forall j :: 0 <= j < |blocks| ==> BlockBounded(blocks[j], headerBound, entryBound)
  }

  predicate BlockBounded(b: Block, headerBound: nat, entryBound: nat) {
    b.header < headerBound && forall t :: 0 <= t < |b.entries| ==> b.entries[t] < entryBound
  }

  function BuildSection(entries: seq<Entry>, sections: seq<Section>, b: Block): Section
    requires BlockBounded(b, |sections|, |entries|)
  {
    sections[b.header].(entries := seq(|b.entries|, t requires 0 <= t < |b.entries| => entries[b.entries[t]]))
  }

  /** One iteration of the parser's loop on line `i`, on the sections so
      far: a header appends a new section, an assignment appends an entry to
      the last section, and is dropped when there is none yet. */
  function ParseStep(lines: seq<string>, i: nat, sections: seq<Section>): seq<Section>
    requires i < |lines|
  {
    match KindOf(lines[i])
    case Header => sections + [SectionAt(lines, i)]
    case Assignment =>
      if sections == [] then sections
      else sections[|sections| - 1 := AddEntry(sections[|sections| - 1], EntryAt(lines, i))]
    case _ => sections
  }

  /** The sections after the loop has visited the first `k` lines. */
  function ParseUpTo(lines: seq<string>, k: nat): seq<Section>
    requires k <= |lines|
  {
    if k == 0 then [] else ParseStep(lines, k - 1, ParseUpTo(lines, k - 1))
  }

  /** What ParseIniWithComments returns as its sections. */
  function Parse(lines: seq<string>): seq<Section> {
    ParseUpTo(lines, |lines|)
  }

  /** The parse is the scan's blocks with each header index replaced by the
      section it opens and each entry index by the entry it reads. */
  lemma {:induction false} ParseIsBuild(lines: seq<string>, k: nat)
    requires k <= |lines|
    ensures Bounded(ScanUpTo(Kinds(lines), k), |lines|, |lines|)
    ensures ParseUpTo(lines, k) == Build(EntryTable(lines), SectionTable(lines), ScanUpTo(Kinds(lines), k))
  {
    ScanWellKinded(Kinds(lines), k);
    if k > 0 {
      ParseIsBuild(lines, k - 1);
      StepIsBuild(lines, k - 1);
    }
  }

  /** One more line keeps the parse equal to the build of the scan. */
  lemma StepIsBuild(lines: seq<string>, i: nat)
    requires i < |lines|
    requires Bounded(ScanUpTo(Kinds(lines), i), |lines|, |lines|)
    requires ParseUpTo(lines, i) == Build(EntryTable(lines), SectionTable(lines), ScanUpTo(Kinds(lines), i))
    ensures Bounded(ScanUpTo(Kinds(lines), i + 1), |lines|, |lines|)
    ensures ParseUpTo(lines, i + 1) == Build(EntryTable(lines), SectionTable(lines), ScanUpTo(Kinds(lines), i + 1))
  {
    KindAt(lines, i);
    match KindOf(lines[i])
    case Header => HeaderStep(lines, i);
    case Assignment => AssignmentStep(lines, i);
    case _ => PassedStep(lines, i);
  }

  /** A passed or ignored line changes neither the scan nor the parse. */
  lemma PassedStep(lines: seq<string>, i: nat)
    requires i < |lines| && KindOf(lines[i]) in {Passed, Ignored} && Kinds(lines)[i] == KindOf(lines[i])
    ensures ScanUpTo(Kinds(lines), i + 1) == ScanUpTo(Kinds(lines), i)
    ensures ParseUpTo(lines, i + 1) == ParseUpTo(lines, i)
  {
  }

  lemma HeaderStep(lines: seq<string>, i: nat)
    requires i < |lines| && KindOf(lines[i]) == Header && Kinds(lines)[i] == Header
    requires Bounded(ScanUpTo(Kinds(lines), i), |lines|, |lines|)
    requires ParseUpTo(lines, i) == Build(EntryTable(lines), SectionTable(lines), ScanUpTo(Kinds(lines), i))
    ensures Bounded(ScanUpTo(Kinds(lines), i + 1), |lines|, |lines|)
    ensures ParseUpTo(lines, i + 1) == Build(EntryTable(lines), SectionTable(lines), ScanUpTo(Kinds(lines), i + 1))
  {
    var st := SectionTable(lines);
    BuildOpens(EntryTable(lines), st, ScanUpTo(Kinds(lines), i), i);
    assert st[i] == SectionAt(lines, i);
  }

  lemma AssignmentStep(lines: seq<string>, i: nat)
    requires i < |lines| && KindOf(lines[i]) == Assignment && Kinds(lines)[i] == Assignment
    requires Bounded(ScanUpTo(Kinds(lines), i), |lines|, |lines|)
    requires ParseUpTo(lines, i) == Build(EntryTable(lines), SectionTable(lines), ScanUpTo(Kinds(lines), i))
    ensures Bounded(ScanUpTo(Kinds(lines), i + 1), |lines|, |lines|)
    ensures ParseUpTo(lines, i + 1) == Build(EntryTable(lines), SectionTable(lines), ScanUpTo(Kinds(lines), i + 1))
  {
    var et := EntryTable(lines);
    var blocks := ScanUpTo(Kinds(lines), i);
    if blocks != [] {
      BuildAdds(et, SectionTable(lines), blocks, i);
      assert et[i] == EntryAt(lines, i);
    }
  }

  /** The look-behind: walks back from the line before `startIdx` over
      comment and blank lines, collecting the comment texts in file order. */
  method ParseComments(lines: seq<string>, startIdx: nat) returns (r: Option<string>)
    requires startIdx <= |lines|
    ensures r == LookBehindText(lines, startIdx)
  {
    var comments: seq<string> := [];
    var idx: int := startIdx - 1;
    while idx >= 0 && IsBlankOrComment(lines[idx])
      invariant -1 <= idx < startIdx
      invariant RunStart(lines, startIdx) <= idx + 1
      invariant comments == CommentsIn(lines, idx + 1, startIdx)
      decreases idx
    {
      if IsCommentLine(lines[idx]) {
        comments := [CommentText(lines[idx])] + comments;
      }
      idx := idx - 1;
    }
    assert comments == LookBehind(lines, startIdx);
    r := if |comments| > 0 then Some(Join("\n", comments)) else None;
  }

  /** The parser's forward pass.  `current` is the index of the section the
      `currentSection` reference designates, which is always the last one
      added. */
  method ParseIniWithComments(lines: seq<string>) returns (sections: seq<Section>, outLines: seq<string>)
    ensures sections == Parse(lines)
    ensures outLines == lines
  {
    sections := [];
    var current: Option<nat> := None;
    for i := 0 to |lines|
      invariant sections == ParseUpTo(lines, i)
      invariant current.Some? <==> sections != []
      invariant current.Some? ==> current.value == |sections| - 1
    {
      var line := Trim(lines[i]);
      if line == [] || StartsWith(line, ';') {
        continue;
      }
      if StartsWith(line, '[') && EndsWith(line, ']') {
        var section := ReadSection(lines, i, line);
        sections := sections + [section];
        current := Some(|sections| - 1);
      } else if '=' in line && current.Some? {
        var entry := ReadEntry(lines, i, line);
        sections := sections[current.value := AddEntry(sections[current.value], entry)];
      }
    }
    outLines := lines;
  }

  /** The header branch of the loop body: the section opened at line `i`,
      whose trimmed text is `line`. */
  method ReadSection(lines: seq<string>, i: nat, line: string) returns (section: Section)
    requires i < |lines| && line == Trim(lines[i]) && KindOf(lines[i]) == Header
    ensures section == SectionAt(lines, i)
  {
    var sectionName := line[1..|line| - 1];
    var tooltip := ParseComments(lines, i);
    section := NewSection(sectionName, tooltip, Some(i));
  }

  /** The assignment branch of the loop body: the entry read from line `i`,
      whose trimmed text is `line`. */
  method ReadEntry(lines: seq<string>, i: nat, line: string) returns (entry: Entry)
    requires i < |lines| && line == Trim(lines[i]) && KindOf(lines[i]) == Assignment
    ensures entry == EntryAt(lines, i)
  {
    var parts := SplitFirst(line, '=');
    var name := Trim(parts.0);
    var value := Trim(parts.1);
    var tooltip := ParseComments(lines, i);
    var inlineComment: Option<string> := None;
    if ';' in value {
      var commentParts := SplitFirst(value, ';');
      value := Trim(commentParts.0);
      inlineComment := Some(Trim(commentParts.1));
      if tooltip.Some? && tooltip.value != "" {
        tooltip := Some(tooltip.value + "\n" + inlineComment.value);
      } else {
        tooltip := inlineComment;
      }
    }
    entry := WithInlineComment(NewEntry(name, value, tooltip, Some(i)), inlineComment);
  }

  lemma BuildOpens(entries: seq<Entry>, sections: seq<Section>, blocks: seq<Block>, i: nat)
    requires Bounded(blocks, |sections|, |entries|) && i < |sections|
    ensures Bounded(blocks + [Block(i, [])], |sections|, |entries|)
    ensures Build(entries, sections, blocks + [Block(i, [])])
         == Build(entries, sections, blocks) + [sections[i].(entries := [])]
  {
    var bs := blocks + [Block(i, [])];
    assert forall j :: 0 <= j < |blocks| ==> bs[j] == blocks[j];
    assert BuildSection(entries, sections, Block(i, [])) == sections[i].(entries := []);
  }

  lemma BuildAdds(entries: seq<Entry>, sections: seq<Section>, blocks: seq<Block>, i: nat)
    requires Bounded(blocks, |sections|, |entries|) && blocks != [] && i < |entries|
    ensures var last := blocks[|blocks| - 1];
      var bs := blocks[|blocks| - 1 := last.(entries := last.entries + [i])];
      var ss := Build(entries, sections, blocks);
      && Bounded(bs, |sections|, |entries|)
      && Build(entries, sections, bs) == ss[|ss| - 1 := AddEntry(ss[|ss| - 1], entries[i])]
  {
    var last := blocks[|blocks| - 1];
    var b := last.(entries := last.entries + [i]);
    var ss := Build(entries, sections, blocks);
    assert BuildSection(entries, sections, b).entries == ss[|ss| - 1].entries + [entries[i]];
  }

  // ----- what the parse promises -----

  /** The blocks behind the parse, with everything the scan lemmas say
      about them. */
  lemma ParseFacts(lines: seq<string>)
    ensures var bs := Scan(lines);
      && Bounded(bs, |lines|, |lines|)
      && Parse(lines) == Build(EntryTable(lines), SectionTable(lines), bs)
      && WellKinded(Kinds(lines), bs)
      && Describes(Kinds(lines), bs, |lines|)
  {
    ParseIsBuild(lines, |lines|);
    ScanWellKinded(Kinds(lines), |lines|);
    ScanDescribed(Kinds(lines), |lines|);
  }

  /** The parse has one section per scan block and one entry per block
      entry. */
  lemma ParsedShape(lines: seq<string>)
    ensures |Parse(lines)| == |Scan(lines)|
    ensures forall j :: 0 <= j < |Parse(lines)| ==> |Parse(lines)[j].entries| == |Scan(lines)[j].entries|
  {
    ParseFacts(lines);
  }

  /** Section `j` of the parse is opened by the header of scan block `j`. */
  lemma SectionLine(lines: seq<string>, j: nat)
    requires j < |Parse(lines)|
    ensures j < |Scan(lines)| && Parse(lines)[j].lineNumber == Some(Scan(lines)[j].header)
  {
    ParseFacts(lines);
    var h := Scan(lines)[j].header;
    KindAt(lines, h);
    assert SectionTable(lines)[h] == SectionAt(lines, h);
  }

  /** Entry `t` of section `j` is read from entry `t` of scan block `j`. */
  lemma EntryRead(lines: seq<string>, j: nat, t: nat)
    requires j < |Parse(lines)| && t < |Parse(lines)[j].entries|
    ensures j < |Scan(lines)| && t < |Scan(lines)[j].entries|
    ensures var n := Scan(lines)[j].entries[t];
      && n < |lines| && KindOf(lines[n]) == Assignment
      && Parse(lines)[j].entries[t] == EntryAt(lines, n)
  {
    ParseFacts(lines);
    var n := Scan(lines)[j].entries[t];
    KindAt(lines, n);
    assert EntryTable(lines)[n] == EntryAt(lines, n);
  }

  lemma EntryLine(lines: seq<string>, j: nat, t: nat)
    requires j < |Parse(lines)| && t < |Parse(lines)[j].entries|
    ensures j < |Scan(lines)| && t < |Scan(lines)[j].entries|
    ensures Parse(lines)[j].entries[t].lineNumber == Some(Scan(lines)[j].entries[t])
  {
    EntryRead(lines, j, t);
  }

  /** Section `j` of the parse is the section opened by a header line: its
      name is the text between the brackets, its line number that line's
      index, its tooltip the look-behind of that line. */
  lemma ParsedSection(lines: seq<string>, j: nat)
    requires j < |Parse(lines)|
    ensures var s := Parse(lines)[j];
      && s.lineNumber.Some? && 0 <= s.lineNumber.value < |lines|
      && KindOf(lines[s.lineNumber.value]) == Header
      && s.name == HeaderName(lines[s.lineNumber.value])
      && s.tooltip == LookBehindText(lines, s.lineNumber.value)
  {
    ParseFacts(lines);
    var h := Scan(lines)[j].header;
    KindAt(lines, h);
    assert SectionTable(lines)[h] == SectionAt(lines, h);
  }

  /** Sections come in the order of their header lines, one per header:
      none is merged with another. */
  lemma ParsedSectionsOrdered(lines: seq<string>, j: nat, u: nat)
    requires j < u < |Parse(lines)|
    ensures Parse(lines)[j].lineNumber.Some? && Parse(lines)[u].lineNumber.Some?
    ensures Parse(lines)[j].lineNumber.value < Parse(lines)[u].lineNumber.value
  {
    SectionLine(lines, j);
    SectionLine(lines, u);
    ScanDescribed(Kinds(lines), |lines|);
    HeaderLinesFacts(Kinds(lines), |lines|);
    var hs := HeaderLines(Kinds(lines), |lines|);
    assert Headers(Scan(lines))[j] == hs[j] && Headers(Scan(lines))[u] == hs[u];
  }

  /** Every header line opens a section. */
  lemma HeaderOpensSection(lines: seq<string>, h: nat)
    requires h < |lines| && KindOf(lines[h]) == Header
    ensures exists j :: 0 <= j < |Parse(lines)| && Parse(lines)[j].lineNumber == Some(h)
  {
    ScanDescribed(Kinds(lines), |lines|);
    HeaderLinesFacts(Kinds(lines), |lines|);
    KindAt(lines, h);
    var hs := HeaderLines(Kinds(lines), |lines|);
    assert h in hs;
    var j :| 0 <= j < |hs| && hs[j] == h;
    assert Headers(Scan(lines))[j] == h;
    ParsedShape(lines);
    SectionLine(lines, j);
  }

  /** Entry `t` of section `j` is the entry read from an assignment line
      that lies after the section's header line with no header line in
      between. */
  lemma ParsedEntry(lines: seq<string>, j: nat, t: nat)
    requires j < |Parse(lines)| && t < |Parse(lines)[j].entries|
    ensures var s := Parse(lines)[j];
      var e := s.entries[t];
      && e.lineNumber.Some? && s.lineNumber.Some?
      && 0 <= s.lineNumber.value < e.lineNumber.value < |lines|
      && KindOf(lines[e.lineNumber.value]) == Assignment
      && e == EntryAt(lines, e.lineNumber.value)
      && forall h :: s.lineNumber.value < h < e.lineNumber.value ==> KindOf(lines[h]) != Header
  {
    SectionLine(lines, j);
    EntryRead(lines, j, t);
    ScanDescribed(Kinds(lines), |lines|);
    var b := Scan(lines)[j];
    var n := b.entries[t];
    Placement(Kinds(lines), Scan(lines), |lines|, j, t);
    KindAt(lines, n);
    forall h | b.header < h < n
      ensures KindOf(lines[h]) != Header
    {
      KindAt(lines, h);
    }
  }

  /** Within a section, entries come in the order of their lines. */
  lemma ParsedEntriesOrdered(lines: seq<string>, j: nat, t: nat, u: nat)
    requires j < |Parse(lines)| && t < u < |Parse(lines)[j].entries|
    ensures Parse(lines)[j].entries[t].lineNumber.Some? && Parse(lines)[j].entries[u].lineNumber.Some?
    ensures Parse(lines)[j].entries[t].lineNumber.value < Parse(lines)[j].entries[u].lineNumber.value
  {
    EntryLine(lines, j, t);
    EntryLine(lines, j, u);
    ScanDescribed(Kinds(lines), |lines|);
    var bs := Scan(lines);
    AssignmentsFacts(Kinds(lines), bs[j].header + 1, BlockEnd(bs, j, |lines|));
  }

  /** An assignment line yields an entry exactly when some header line comes
      before it: an assignment ahead of the first header is dropped. */
  lemma AssignmentKept(lines: seq<string>, n: nat)
    requires n < |lines| && KindOf(lines[n]) == Assignment
    ensures (exists j, t :: 0 <= j < |Parse(lines)| && 0 <= t < |Parse(lines)[j].entries|
               && Parse(lines)[j].entries[t].lineNumber == Some(n))
        <==> (exists h :: 0 <= h < n && KindOf(lines[h]) == Header)
  {
    var kinds, bs := Kinds(lines), Scan(lines);
    ScanDescribed(kinds, |lines|);
    ParsedShape(lines);
    KindAt(lines, n);
    Keeps(kinds, bs, |lines|, n);
    if j, t :| 0 <= j < |Parse(lines)| && 0 <= t < |Parse(lines)[j].entries|
               && Parse(lines)[j].entries[t].lineNumber == Some(n) {
      EntryLine(lines, j, t);
      assert bs[j].entries[t] == n;
      var h :| 0 <= h < n && kinds[h] == Header;
      KindAt(lines, h);
    }
    if h :| 0 <= h < n && KindOf(lines[h]) == Header {
      KindAt(lines, h);
      var j :| 0 <= j < |bs| && n in bs[j].entries;
      var t :| 0 <= t < |bs[j].entries| && bs[j].entries[t] == n;
      EntryLine(lines, j, t);
    }
  }

  /** A blank, white-space-only or comment line opens no section and yields
      no entry. */
  lemma PassedLineUnused(lines: seq<string>, n: nat)
    requires n < |lines| && KindOf(lines[n]) == Passed
    ensures forall j :: 0 <= j < |Parse(lines)| ==> Parse(lines)[j].lineNumber != Some(n)
    ensures forall j, t :: 0 <= j < |Parse(lines)| && 0 <= t < |Parse(lines)[j].entries| ==>
      Parse(lines)[j].entries[t].lineNumber != Some(n)
  {
    forall j | 0 <= j < |Parse(lines)|
      ensures Parse(lines)[j].lineNumber != Some(n)
    {
      ParsedSection(lines, j);
    }
    forall j, t | 0 <= j < |Parse(lines)| && 0 <= t < |Parse(lines)[j].entries|
      ensures Parse(lines)[j].entries[t].lineNumber != Some(n)
    {
      ParsedEntry(lines, j, t);
    }
  }

  /** Name and value come from the split of the trimmed line at its first
      `=`, each trimmed; a value without `;` is kept whole, with no inline
      comment and the look-behind as tooltip. */
  lemma EntryFields(lines: seq<string>, n: nat, rawName: string, rawValue: string)
    requires n < |lines| && KindOf(lines[n]) == Assignment
    requires Trim(lines[n]) == rawName + "=" + rawValue && '=' !in rawName
    ensures EntryAt(lines, n).name == Trim(rawName)
    ensures EntryAt(lines, n).lineNumber == Some(n)
    ensures ';' !in Trim(rawValue) ==>
      && EntryAt(lines, n).value == Trim(rawValue)
      && EntryAt(lines, n).inlineComment == None
      && EntryAt(lines, n).tooltip == LookBehindText(lines, n)
  {
    SplitFirstUnique(Trim(lines[n]), '=', rawName, rawValue);
  }

  /** A value with a `;` is split again at its first `;`: the value is the
      trimmed text before it, the inline comment the trimmed text after it,
      and the tooltip combines the look-behind with that comment. */
  lemma EntryComment(lines: seq<string>, n: nat, rawName: string, rawValue: string,
                     before: string, after: string)
    requires n < |lines| && KindOf(lines[n]) == Assignment
    requires Trim(lines[n]) == rawName + "=" + rawValue && '=' !in rawName
    requires Trim(rawValue) == before + ";" + after && ';' !in before
    ensures EntryAt(lines, n).value == Trim(before)
    ensures EntryAt(lines, n).inlineComment == Some(Trim(after))
    ensures EntryAt(lines, n).tooltip == Some(CombineTooltip(LookBehindText(lines, n), Trim(after)))
  {
    SplitFirstUnique(Trim(lines[n]), '=', rawName, rawValue);
    SplitFirstUnique(Trim(rawValue), ';', before, after);
  }

  /** The look-behind returns null exactly when the run of blank and
      comment lines above line `k` holds no comment line. */
  lemma LookBehindNull(lines: seq<string>, k: nat)
    requires k <= |lines|
    ensures LookBehindText(lines, k).None? <==>
      forall i :: RunStart(lines, k) <= i < k ==> !IsCommentLine(lines[i])
  {
    CommentsInEmpty(lines, RunStart(lines, k), k);
  }
}
