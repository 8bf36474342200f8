/** Services/ConfigService.cs, the Avalonia variant's parser, look-behind
    and saver, minus the file read and write: the parser takes the file's
    lines and the saver returns the lines it would write. */
module ConfigService {
  import opened Wrappers
  import opened Text
  import opened IniScan
  import opened LinePatch
  import opened AvaloniaModel
  import W = WpfModel
  import WpfParser

  // ----- parsing -----

  /** A WPF-variant null string read as "". */
  function OrEmpty(s: Option<string>): string {
    if s.Some? then s.value else ""
  }

  function FromWpfEntry(e: W.Entry): Entry {
    NewEntry(e.name, e.value, OrEmpty(e.tooltip), e.lineNumber, OrEmpty(e.inlineComment))
  }

  function FromWpfSection(s: W.Section): Section {
    Section(s.name, OrEmpty(s.tooltip), s.lineNumber,
            seq(|s.entries|, t requires 0 <= t < |s.entries| => FromWpfEntry(s.entries[t])))
  }

  /** The WPF parse with every null string read as "": the Avalonia parser
      is proved to produce exactly this. */
  function FromWpf(ss: seq<W.Section>): seq<Section> {
    seq(|ss|, j requires 0 <= j < |ss| => FromWpfSection(ss[j]))
  }

  /** What ParseIniWithCommentsAsync returns as its sections. */
  function Parse(lines: seq<string>): seq<Section> {
    FromWpf(WpfParser.Parse(lines))
  }

  /** The look-behind: the same walk as the WPF variant's, returning the
      joined comment texts, "" when there are none. */
  method ParseComments(lines: seq<string>, startIdx: nat) returns (r: string)
    requires startIdx <= |lines|
    ensures r == Join("\n", LookBehind(lines, startIdx))
  {
    var comments: seq<string> := [];
    var idx: int := startIdx - 1;
    while idx >= 0 && IsBlankOrComment(lines[idx])
      invariant -1 <= idx < startIdx
      invariant RunStart(lines, startIdx) <= idx + 1
      invariant comments == CommentsIn(lines, idx + 1, startIdx)
      decreases idx
    {
      if IsCommentLine(lines[idx]) {
        comments := [CommentText(lines[idx])] + comments;
      }
      idx := idx - 1;
    }
    assert comments == LookBehind(lines, startIdx);
    r := Join("\n", comments);
  }

  /** The two look-behinds differ only in returning "" where the WPF one
      returns null. */
  lemma LookBehindsAgree(lines: seq<string>, k: nat)
    requires k <= |lines|
    ensures Join("\n", LookBehind(lines, k)) == OrEmpty(WpfParser.LookBehindText(lines, k))
  {
  }

  /** The parser's forward pass, as in the WPF variant. */
  method ParseIniWithComments(lines: seq<string>) returns (sections: seq<Section>, outLines: seq<string>)
    ensures sections == Parse(lines)
    ensures outLines == lines
  {
    sections := [];
    var current: Option<nat> := None;
    for i := 0 to |lines|
      invariant sections == FromWpf(WpfParser.ParseUpTo(lines, i))
      invariant current.Some? <==> sections != []
      invariant current.Some? ==> current.value == |sections| - 1
    {
      var line := Trim(lines[i]);
      if line == [] || StartsWith(line, ';') {
        NextSkips(lines, i);
        continue;
      }
      if StartsWith(line, '[') && EndsWith(line, ']') {
        var section := ReadSection(lines, i, line);
        NextOpens(lines, i);
        sections := sections + [section];
        current := Some(|sections| - 1);
      } else if '=' in line && current.Some? {
        var entry := ReadEntry(lines, i, line);
        NextAdds(lines, i);
        sections := sections[current.value := AddEntries(sections[current.value], [entry])];
      } else if '=' in line {
        NextAdds(lines, i);
      } else {
        NextSkips(lines, i);
      }
    }
    outLines := lines;
  }

  /** The header branch of the loop body. */
  method ReadSection(lines: seq<string>, i: nat, line: string) returns (section: Section)
    requires i < |lines| && line == Trim(lines[i]) && KindOf(lines[i]) == Header
    ensures section == FromWpfSection(WpfParser.SectionAt(lines, i))
  {
    var sectionName := line[1..|line| - 1];
    var tooltip := ParseComments(lines, i);
    section := NewSection(sectionName, tooltip, Some(i));
  }

  /** The assignment branch of the loop body; with no `;` in the value the
      inline comment stays "". */
  method ReadEntry(lines: seq<string>, i: nat, line: string) returns (entry: Entry)
    requires i < |lines| && line == Trim(lines[i]) && KindOf(lines[i]) == Assignment
    ensures entry == FromWpfEntry(WpfParser.EntryAt(lines, i))
  {
    var parts := SplitFirst(line, '=');
    var name := Trim(parts.0);
    var value := Trim(parts.1);
    var tooltip := ParseComments(lines, i);
    var inlineComment := "";
    if ';' in value {
      var commentParts := SplitFirst(value, ';');
      value := Trim(commentParts.0);
      inlineComment := Trim(commentParts.1);
      if tooltip != "" {
        tooltip := tooltip + "\n" + inlineComment;
      } else {
        tooltip := inlineComment;
      }
    }
    entry := NewEntry(name, value, tooltip, Some(i), inlineComment);
  }

  /** A line the parser passes over leaves the converted sections as they
      were. */
  lemma NextSkips(lines: seq<string>, i: nat)
    requires i < |lines|
    requires KindOf(lines[i]) == Passed || KindOf(lines[i]) == Ignored
    ensures FromWpf(WpfParser.ParseUpTo(lines, i + 1)) == FromWpf(WpfParser.ParseUpTo(lines, i))
  {
  }

  /** A header appends its converted section. */
  lemma NextOpens(lines: seq<string>, i: nat)
    requires i < |lines| && KindOf(lines[i]) == Header
    ensures FromWpf(WpfParser.ParseUpTo(lines, i + 1))
      == FromWpf(WpfParser.ParseUpTo(lines, i)) + [FromWpfSection(WpfParser.SectionAt(lines, i))]
  {
    var ss := WpfParser.ParseUpTo(lines, i);
    assert WpfParser.ParseUpTo(lines, i + 1) == ss + [WpfParser.SectionAt(lines, i)];
    FromWpfAppend(ss, WpfParser.SectionAt(lines, i));
  }

  /** An assignment after a header adds its converted entry to the last
      converted section. */
  lemma NextAdds(lines: seq<string>, i: nat)
    requires i < |lines| && KindOf(lines[i]) == Assignment
    ensures FromWpf(WpfParser.ParseUpTo(lines, i + 1))
      == AddToLast(FromWpf(WpfParser.ParseUpTo(lines, i)), FromWpfEntry(WpfParser.EntryAt(lines, i)))
  {
    var ss := WpfParser.ParseUpTo(lines, i);
    var e := WpfParser.EntryAt(lines, i);
    AssignmentNext(lines, i, ss, e);
    FromWpfAdd(ss, e);
  }

  lemma AssignmentNext(lines: seq<string>, i: nat, ss: seq<W.Section>, e: W.Entry)
    requires i < |lines| && KindOf(lines[i]) == Assignment
    requires ss == WpfParser.ParseUpTo(lines, i) && e == WpfParser.EntryAt(lines, i)
    ensures WpfParser.ParseUpTo(lines, i + 1) == WAddToLast(ss, e)
  {
  }

  /** The sections with `e` added to the last one, if there is one. */
  function AddToLast(ss: seq<Section>, e: Entry): (r: seq<Section>)
    ensures |r| == |ss|
  {
    if ss == [] then ss else ss[|ss| - 1 := AddEntries(ss[|ss| - 1], [e])]
  }

  function WAddToLast(ss: seq<W.Section>, e: W.Entry): (r: seq<W.Section>)
    ensures |r| == |ss|
  {
    if ss == [] then ss else ss[|ss| - 1 := W.AddEntry(ss[|ss| - 1], e)]
  }

  lemma FromWpfAppend(ss: seq<W.Section>, s: W.Section)
    ensures FromWpf(ss + [s]) == FromWpf(ss) + [FromWpfSection(s)]
  {
  }

  lemma FromWpfAdd(ss: seq<W.Section>, e: W.Entry)
    ensures FromWpf(WAddToLast(ss, e)) == AddToLast(FromWpf(ss), FromWpfEntry(e))
  {
    if ss != [] {
      var last := ss[|ss| - 1];
      var r := FromWpf(ss);
      assert FromWpfSection(W.AddEntry(last, e)).entries == r[|r| - 1].entries + [FromWpfEntry(e)];
    }
  }

  // ----- saving -----

  /** The text SaveIniAsync composes for an entry: `name=value`, followed by
      three tabs, `; ` and the inline comment when that is not empty. */
  function Composed(e: Entry): string {
    if e.inlineComment != "" then e.name + "=" + e.value + "\t\t\t; " + e.inlineComment
    else e.name + "=" + e.value
  }

  /** What the saver writes for an entry: the composed text with a "\n"
      appended, at the entry's line or after the original lines. */
  function SavePatch(e: Entry): Patch {
    Patch(e.lineNumber, Composed(e) + "\n")
  }

  function SavePatches(es: seq<Entry>): seq<Patch> {
    seq(|es|, i requires 0 <= i < |es| => SavePatch(es[i]))
  }

  /** `sections.SelectMany(section => section.Entries)`. */
  function AllEntries(ss: seq<Section>): seq<Entry> {
    if ss == [] then [] else AllEntries(ss[..|ss| - 1]) + ss[|ss| - 1].entries
  }

  /** The flattening holds exactly the entries of the sections. */
  lemma {:induction false} AllEntriesMembers(ss: seq<Section>, e: Entry)
    ensures e in AllEntries(ss) <==> exists j :: 0 <= j < |ss| && e in ss[j].entries
  {
    if ss != [] {
      var front := ss[..|ss| - 1];
      AllEntriesMembers(front, e);
      if e in AllEntries(front) {
        var j :| 0 <= j < |front| && e in front[j].entries;
        assert ss[j] == front[j];
      }
      if exists j :: 0 <= j < |ss| && e in ss[j].entries {
        var j :| 0 <= j < |ss| && e in ss[j].entries;
        if j < |front| {
          assert front[j] == ss[j];
        }
      }
    }
  }

  /** `line.Length - line.TrimStart().Length`. */
  function LeadingSpaces(line: string): (n: nat)
    ensures n == IndentWidth(line)
  {
    TrimStartFacts(line, IsWhite);
    |line| - |TrimStart(line)|
  }

  /** SaveIniAsync without the file write: the lines it would write, or the
      out-of-range line number at which reading `originalLines` throws. */
  method SaveIni(sections: seq<Section>, originalLines: seq<string>) returns (r: Result<seq<string>, int>)
    ensures r == Apply(originalLines, SavePatches(AllEntries(sections)))
  {
    var newLines := originalLines;
    var entries := AllEntries(sections);
    ghost var ps := SavePatches(entries);
    assert |ps| == |entries|;
    for k := 0 to |entries|
      invariant Apply(originalLines, ps[..k]) == Ok(newLines)
    {
      ApplyNext(originalLines, ps, k, newLines);
      var entry := entries[k];
      assert ps[k] == SavePatch(entry);
      var newLine := if entry.inlineComment != "" then entry.name + "=" + entry.value + "\t\t\t; " + entry.inlineComment
                     else entry.name + "=" + entry.value;
      if entry.lineNumber.Some? {
        var n := entry.lineNumber.value;
        if !(0 <= n < |originalLines|) {
          FailureStops(originalLines, ps, k + 1);
          return Err(n);
        }
        var leadingSpaces := LeadingSpaces(originalLines[n]);
        assert newLine == Composed(entry);
        assert Step(originalLines, newLines, ps[k]) == Ok(newLines[n := Reindent(originalLines[n], Composed(entry) + "\n")]);
        assert Reindent(originalLines[n], Composed(entry) + "\n") == Spaces(leadingSpaces) + newLine + "\n";
        newLines := newLines[n := Spaces(leadingSpaces) + newLine + "\n"];
      } else {
        assert Step(originalLines, newLines, ps[k]) == Ok(newLines + [Composed(entry) + "\n"]);
        newLines := newLines + [newLine + "\n"];
      }
    }
    assert ps[..|entries|] == ps;
    r := Ok(newLines);
  }

  /** Every entry of a freshly parsed file was read from an assignment line
      of that file. */
  lemma ParsedEntryLine(lines: seq<string>, e: Entry)
    requires e in AllEntries(Parse(lines))
    ensures e.lineNumber.Some? && 0 <= e.lineNumber.value < |lines|
    ensures KindOf(lines[e.lineNumber.value]) == Assignment
    ensures e == FromWpfEntry(WpfParser.EntryAt(lines, e.lineNumber.value))
  {
    var ws := WpfParser.Parse(lines);
    AllEntriesMembers(Parse(lines), e);
    var j :| 0 <= j < |Parse(lines)| && e in Parse(lines)[j].entries;
    var t :| 0 <= t < |Parse(lines)[j].entries| && Parse(lines)[j].entries[t] == e;
    assert e == FromWpfEntry(ws[j].entries[t]);
    WpfParser.ParsedEntry(lines, j, t);
  }

  /** Saving a freshly parsed file unedited cannot fail and writes as many
      lines as it read: each line is written back as it was or, when it is
      an assignment, replaced by its re-indented entry (an assignment above
      the first header belongs to no section and is kept). */
  lemma ParsedFileSaves(lines: seq<string>)
    ensures var out := Apply(lines, SavePatches(AllEntries(Parse(lines))));
      && out.Ok? && |out.value| == |lines|
      && forall n :: 0 <= n < |lines| ==>
        || out.value[n] == lines[n]
        || (KindOf(lines[n]) == Assignment
            && out.value[n] == Reindent(lines[n], Composed(FromWpfEntry(WpfParser.EntryAt(lines, n))) + "\n"))
  {
    var es := AllEntries(Parse(lines));
    var ps := SavePatches(es);
    forall i | 0 <= i < |ps|
      ensures InRange(lines, ps[i]) && ps[i].lineNumber.Some?
    {
      assert es[i] in es;
      ParsedEntryLine(lines, es[i]);
    }
    ApplyFails(lines, ps);
    ApplyWrites(lines, ps);
    NothingAppended(ps);
    forall n | 0 <= n < |lines| && LastWrite(ps, n).Some?
      ensures KindOf(lines[n]) == Assignment
      ensures Expected(lines, ps, n) == Reindent(lines[n], Composed(FromWpfEntry(WpfParser.EntryAt(lines, n))) + "\n")
    {
      WrittenLine(lines, n);
    }
  }

  /** A line the unedited save writes holds the entry parsed from it. */
  lemma WrittenLine(lines: seq<string>, n: nat)
    requires n < |lines| && LastWrite(SavePatches(AllEntries(Parse(lines))), n).Some?
    ensures KindOf(lines[n]) == Assignment
    ensures LastWrite(SavePatches(AllEntries(Parse(lines))), n).value
      == Composed(FromWpfEntry(WpfParser.EntryAt(lines, n))) + "\n"
  {
    var es := AllEntries(Parse(lines));
    var ps := SavePatches(es);
    LastWriteFrom(ps, n);
    var i :| 0 <= i < |ps| && ps[i].lineNumber == Some(n) && ps[i].text == LastWrite(ps, n).value;
    assert es[i] in es;
    ParsedEntryLine(lines, es[i]);
  }

  /** An entry whose written line the parser reads back unchanged: name,
      value and inline comment carry no surrounding white space, the name
      holds no `=` and does not start like a comment or a header, and the
      value holds no `;`. */
  predicate Writable(e: Entry) {
    && Trim(e.name) == e.name && '=' !in e.name
    && (e.name == [] || (e.name[0] != ';' && e.name[0] != '['))
    && Trim(e.value) == e.value && ';' !in e.value
    && Trim(e.inlineComment) == e.inlineComment
  }

  /** Re-reading a written line: a line holding an entry's composed text,
      after any indentation and with its "\n", is an assignment, and the
      parser reads back the entry's name, value and inline comment. */
  lemma SavedLineReadsBack(lines: seq<string>, n: nat, w: nat, e: Entry)
    requires n < |lines| && Writable(e) && lines[n] == Spaces(w) + SavePatch(e).text
    ensures KindOf(lines[n]) == Assignment
    ensures var r := FromWpfEntry(WpfParser.EntryAt(lines, n));
      r.name == e.name && r.value == e.value && r.inlineComment == e.inlineComment
  {
    var c := Composed(e);
    assert Trim(lines[n]) == c by {
      ComposedEnds(e);
      assert lines[n] == Spaces(w) + c + "\n";
      TrimWithOf(Spaces(w), c, "\n", IsWhite);
    }
    if e.inlineComment == "" {
      WpfParser.EntryFields(lines, n, e.name, e.value);
    } else {
      var rest := e.value + "\t\t\t; " + e.inlineComment;
      assert c == e.name + "=" + rest;
      WpfParser.EntryFields(lines, n, e.name, rest);
      var before, after := CommentSplit(e.value, e.inlineComment);
      WpfParser.EntryComment(lines, n, e.name, rest, before, after);
    }
  }

  /** The value part of a written line with a comment, trimmed, splits at
      its first `;` into the value and the comment, each up to white space. */
  lemma CommentSplit(value: string, comment: string) returns (before: string, after: string)
    requires Trim(value) == value && ';' !in value && Trim(comment) == comment && comment != ""
    ensures Trim(value + "\t\t\t; " + comment) == before + ";" + after && ';' !in before
    ensures Trim(before) == value && Trim(after) == comment
  {
    assert value + "\t\t\t; " + comment == value + "\t\t\t" + ";" + " " + comment;
    after := " " + comment;
    TrimWhite(comment);
    TrimWithOf(" ", comment, "", IsWhite);
    assert " " + comment + "" == after;
    if value != [] {
      before := value + "\t\t\t";
      ValueBeforeComment(value, comment);
    } else {
      before := "";
      NoValueBeforeComment(comment);
      assert value + "\t\t\t; " + comment == "\t\t\t; " + comment;
    }
  }

  lemma ValueBeforeComment(value: string, comment: string)
    requires Trim(value) == value && value != [] && ';' !in value && Trim(comment) == comment && comment != ""
    ensures Trim(value + "\t\t\t; " + comment) == value + "\t\t\t" + ";" + " " + comment
    ensures Trim(value + "\t\t\t") == value && ';' !in value + "\t\t\t"
  {
    var rest := value + "\t\t\t; " + comment;
    TrimWhite(value);
    TrimWhite(comment);
    TrimWithOf("", rest, "", IsWhite);
    assert "" + rest + "" == rest;
    TrimWithOf("", value, "\t\t\t", IsWhite);
    assert "" + value + "\t\t\t" == value + "\t\t\t";
  }

  lemma NoValueBeforeComment(comment: string)
    requires Trim(comment) == comment && comment != ""
    ensures Trim("\t\t\t; " + comment) == "" + ";" + " " + comment
  {
    TrimWhite(comment);
    TrimWithOf("\t\t\t", "; " + comment, "", IsWhite);
    assert "\t\t\t" + ("; " + comment) + "" == "\t\t\t; " + comment;
  }

  /** The composed text of a writable entry neither starts nor ends with
      white space and starts with neither `;` nor `[`. */
  lemma ComposedEnds(e: Entry)
    requires Writable(e)
    ensures var c := Composed(e);
      && c != [] && !IsWhite(c[0]) && !IsWhite(c[|c| - 1])
      && c[0] != ';' && c[0] != '[' && '=' in c
  {
    TrimWhite(e.name);
    TrimWhite(e.value);
    TrimWhite(e.inlineComment);
    var c := Composed(e);
    if e.name != [] {
      assert c[0] == e.name[0];
    } else {
      assert c[0] == '=';
    }
    if e.inlineComment != [] {
      assert c[|c| - 1] == e.inlineComment[|e.inlineComment| - 1];
    } else if e.value != [] {
      assert c[|c| - 1] == e.value[|e.value| - 1];
    } else {
      assert c[|c| - 1] == '=';
    }
    assert c[|e.name|] == '=';
  }
}
