/** The state of MainWindow.xaml.cs that loading and saving use: the parsed
    sections, the widget of each (section name, entry name), the original
    lines, the current file and the `_isSaving` latch; with LoadIni_Click and
    SaveIni_Click minus the dialogs, message boxes and file access, which
    become parameters and results. */
module WpfWindow {
  import opened Wrappers
  import opened Text
  import opened IniScan
  import opened LinePatch
  import opened WpfModel
  import opened WpfWidgets
  import WpfParser

  /** The `_widgets` key: section name and entry name. */
  type Key = (string, string)

  /** One iteration of the save loop's inner body: a section name and one
      of its entries. */
  type Item = (string, Entry)

  function KeyOf(x: Item): Key {
    (x.0, x.1.name)
  }

  /** The items of one section, in entry order. */
  function ItemsOf(s: Section): seq<Item> {
    seq(|s.entries|, t requires 0 <= t < |s.entries| => (s.name, s.entries[t]))
  }

  /** The items the nested `foreach` loops visit, section by section. */
  function Items(ss: seq<Section>): seq<Item> {
    if ss == [] then [] else Items(ss[..|ss| - 1]) + ItemsOf(ss[|ss| - 1])
  }

  /** The line SaveIni_Click composes: `name=value`, then three tabs, `; `
      and the inline comment whenever there is one, even an empty one. */
  function ComposedLine(e: Entry, value: string): string {
    if e.inlineComment.Some? then e.name + "=" + value + "\t\t\t; " + e.inlineComment.value
    else e.name + "=" + value
  }

  /** Why a save shows "Save Failed": a missing widget (a
      `KeyNotFoundException`), a line number outside the original lines
      (an `ArgumentOutOfRangeException`), or the write itself. */
  datatype SaveError = MissingWidget(key: Key) | LineOutOfRange(line: int) | WriteFailed

  /** The text each widget shows, as `GetWidgetValue` reads it. */
  function WidgetTexts(widgets: map<Key, Widget>): map<Key, string> {
    map k | k in widgets :: GetWidgetValue(widgets[k])
  }

  /** `texts` is what the widgets show; stated so that it is used only
      where a widget's value is read. */
  predicate Shows(widgets: map<Key, Widget>, texts: map<Key, string>) {
    && texts.Keys == widgets.Keys
    && forall k {:trigger GetWidgetValue(widgets[k])} :: k in widgets ==> texts[k] == GetWidgetValue(widgets[k])
  }

  /** One inner iteration on the working copy `cur`, with `texts` the text
      of each widget. */
  function RenderItem(orig: seq<string>, cur: seq<string>, texts: map<Key, string>, x: Item): Result<seq<string>, SaveError>
    requires |orig| <= |cur|
  {
    if KeyOf(x) !in texts then Err(MissingWidget(KeyOf(x)))
    else match Step(orig, cur, Patch(x.1.lineNumber, ComposedLine(x.1, texts[KeyOf(x)])))
      case Ok(c) => Ok(c)
      case Err(n) => Err(LineOutOfRange(n))
  }

  /** The working copy after the loops have visited `items`, or the first
      failure. */
  function Render(orig: seq<string>, texts: map<Key, string>, items: seq<Item>): (r: Result<seq<string>, SaveError>)
    ensures r.Ok? ==> |orig| <= |r.value|
  {
    if items == [] then Ok(orig)
    else match Render(orig, texts, items[..|items| - 1])
      case Err(e) => Err(e)
      case Ok(cur) => RenderItem(orig, cur, texts, items[|items| - 1])
  }

  /** The patch an item becomes once its widget is found. */
  function PatchOf(texts: map<Key, string>, x: Item): Patch
    requires KeyOf(x) in texts
  {
    Patch(x.1.lineNumber, ComposedLine(x.1, texts[KeyOf(x)]))
  }

  function PatchesOf(texts: map<Key, string>, items: seq<Item>): seq<Patch>
    requires forall i :: 0 <= i < |items| ==> KeyOf(items[i]) in texts
  {
    seq(|items|, i requires 0 <= i < |items| => PatchOf(texts, items[i]))
  }

  /** With every widget present, the save loop is the line-patching writer
      on the patches the texts give, its failure reported as a line out
      of range; so the writer's lemmas (line count, untouched lines, last
      write wins, appends in order) hold of the WPF save. */
  lemma {:induction false} RenderIsApply(orig: seq<string>, texts: map<Key, string>, items: seq<Item>)
    requires forall i :: 0 <= i < |items| ==> KeyOf(items[i]) in texts
    ensures var a := Apply(orig, PatchesOf(texts, items));
      && (a.Ok? ==> Render(orig, texts, items) == Ok(a.value))
      && (a.Err? ==> Render(orig, texts, items) == Err(LineOutOfRange(a.error)))
  {
    if items != [] {
      var front := items[..|items| - 1];
      RenderIsApply(orig, texts, front);
      assert PatchesOf(texts, items)[..|items| - 1] == PatchesOf(texts, front);
    }
  }

  /** A widget missing for some item makes the save fail, and fail on
      that item's key when the items before it went through. */
  lemma {:induction false} MissingWidgetFails(orig: seq<string>, texts: map<Key, string>, items: seq<Item>, i: nat)
    requires i < |items| && KeyOf(items[i]) !in texts
    ensures Render(orig, texts, items).Err?
    ensures Render(orig, texts, items[..i]).Ok? ==> Render(orig, texts, items) == Err(MissingWidget(KeyOf(items[i])))
  {
    var p := items[..i + 1];
    assert p[..i] == items[..i];
    FailureKept(orig, texts, p, items);
  }

  /** Once the loops have failed, later items change nothing. */
  lemma {:induction false} FailureKept(orig: seq<string>, texts: map<Key, string>, p: seq<Item>, q: seq<Item>)
    requires p <= q && Render(orig, texts, p).Err?
    ensures Render(orig, texts, q) == Render(orig, texts, p)
    decreases |q|
  {
    if |q| > |p| {
      var front := q[..|q| - 1];
      assert p <= front;
      FailureKept(orig, texts, p, front);
    } else {
      assert p == q;
    }
  }

  /** One more item. */
  lemma RenderNext(orig: seq<string>, texts: map<Key, string>, items: seq<Item>, k: nat, cur: seq<string>)
    requires k < |items|
    requires Render(orig, texts, items[..k]) == Ok(cur)
    ensures Render(orig, texts, items[..k + 1]) == RenderItem(orig, cur, texts, items[k])
  {
    assert items[..k + 1][..k] == items[..k];
  }

  /** The items of the first `i` sections come first in `Items(ss)`. */
  lemma {:induction false} ItemsPrefix(ss: seq<Section>, i: nat)
    requires i <= |ss|
    ensures Items(ss[..i]) <= Items(ss)
    decreases |ss|
  {
    if i < |ss| {
      var front := ss[..|ss| - 1];
      assert front[..i] == ss[..i];
      ItemsPrefix(front, i);
    } else {
      assert ss[..i] == ss;
    }
  }

  /** Section `i`'s items follow those of the sections before it. */
  lemma ItemsAfterSection(ss: seq<Section>, i: nat)
    requires i < |ss|
    ensures Items(ss[..i + 1]) == Items(ss[..i]) + ItemsOf(ss[i])
  {
    assert ss[..i + 1][..i] == ss[..i];
  }

  /** Entry `j` of a section, as an item after `done`. */
  lemma ItemAt(done: seq<Item>, s: Section, j: nat)
    requires j < |s.entries|
    ensures |done| + j < |done + ItemsOf(s)| && (done + ItemsOf(s))[|done| + j] == (s.name, s.entries[j])
  {
  }

  /** The items hold exactly the (section name, entry) pairs of the
      sections. */
  lemma {:induction false} ItemsMembers(ss: seq<Section>, x: Item)
    ensures x in Items(ss) <==> exists j, t :: 0 <= j < |ss| && 0 <= t < |ss[j].entries| && x == (ss[j].name, ss[j].entries[t])
  {
    if ss != [] {
      var front := ss[..|ss| - 1];
      ItemsMembers(front, x);
      var last := ItemsOf(ss[|ss| - 1]);
      if x in Items(front) {
        var j, t :| 0 <= j < |front| && 0 <= t < |front[j].entries| && x == (front[j].name, front[j].entries[t]);
        assert ss[j] == front[j];
      } else if x in last {
        var t :| 0 <= t < |last| && last[t] == x;
        assert x == (ss[|ss| - 1].name, ss[|ss| - 1].entries[t]);
      }
      if exists j, t :: 0 <= j < |ss| && 0 <= t < |ss[j].entries| && x == (ss[j].name, ss[j].entries[t]) {
        var j, t :| 0 <= j < |ss| && 0 <= t < |ss[j].entries| && x == (ss[j].name, ss[j].entries[t]);
        if j < |front| {
          assert front[j] == ss[j];
        } else {
          assert last[t] == x;
        }
      }
    }
  }

  // ----- the widget map RefreshUi leaves behind -----

  /** `_widgets` after RefreshUi: each item's key mapped to the widget built
      for it, a later item with the same key replacing the earlier one. */
  function WidgetMap(items: seq<Item>): map<Key, Widget> {
    if items == [] then map[]
    else
      var x := items[|items| - 1];
      WidgetMap(items[..|items| - 1])[KeyOf(x) := CreateWidgetForValue(x.1.value, x.1.name, x.0)]
  }

  /** The widget map has a widget for exactly the keys of the items. */
  lemma {:induction false} WidgetMapKeys(items: seq<Item>, k: Key)
    ensures k in WidgetMap(items) <==> exists i :: 0 <= i < |items| && KeyOf(items[i]) == k
  {
    if items != [] {
      var front := items[..|items| - 1];
      WidgetMapKeys(front, k);
      if exists i :: 0 <= i < |front| && KeyOf(front[i]) == k {
        var i :| 0 <= i < |front| && KeyOf(front[i]) == k;
        assert items[i] == front[i];
      }
      if exists i :: 0 <= i < |items| && KeyOf(items[i]) == k {
        var i :| 0 <= i < |items| && KeyOf(items[i]) == k;
        if i < |front| {
          assert front[i] == items[i];
        }
      }
    }
  }

  /** Each key's widget is built from the last item with that key. */
  lemma {:induction false} WidgetMapLast(items: seq<Item>, i: nat)
    requires i < |items|
    requires forall k :: i < k < |items| ==> KeyOf(items[k]) != KeyOf(items[i])
    ensures KeyOf(items[i]) in WidgetMap(items)
    ensures WidgetMap(items)[KeyOf(items[i])] == CreateWidgetForValue(items[i].1.value, items[i].1.name, items[i].0)
  {
    if i < |items| - 1 {
      var front := items[..|items| - 1];
      assert front[i] == items[i];
      WidgetMapLast(front, i);
    }
  }

  // ----- the window -----

  /** What SaveIni_Click ends with. */
  datatype SaveOutcome =
    | Reentered                       // a save was already running
    | Cancelled                       // the save dialog was dismissed
    | InvalidFilename(message: string)
    | Failed(error: SaveError)        // "Save Failed"
    | Saved(path: string, lines: seq<string>)

  class MainWindow {
    var sections: seq<Section>
    var widgets: map<Key, Widget>
    var originalLines: seq<string>
    var currentFile: Option<string>
    var isSaving: bool

    constructor()
      ensures sections == [] && widgets == map[] && originalLines == []
      ensures currentFile == None && !isSaving
    {
      sections := [];
      widgets := map[];
      originalLines := [];
      currentFile := None;
      isSaving := false;
    }

    /** LoadIni_Click: `choice` is the file the open dialog returned, if
        any, and `fileLines` that file's lines.  A rejected name shows the
        warning and changes nothing. */
    method LoadIni(choice: Option<string>, fileLines: seq<string>) returns (warning: Option<string>)
      modifies this
      ensures choice.None? ==> warning.None? && unchanged(this)
      ensures choice.Some? && VerifyFilename(choice.value, "selected").Some? ==>
        warning == VerifyFilename(choice.value, "selected") && unchanged(this)
      ensures choice.Some? && VerifyFilename(choice.value, "selected").None? ==>
        && warning.None?
        && sections == WpfParser.Parse(fileLines) && originalLines == fileLines
        && currentFile == choice && widgets == WidgetMap(Items(sections))
        && isSaving == old(isSaving)
    {
      if choice.None? {
        return None;
      }
      warning := VerifyFilename(choice.value, "selected");
      if warning.Some? {
        return;
      }
      var parsed, lines := WpfParser.ParseIniWithComments(fileLines);
      sections, originalLines := parsed, lines;
      currentFile := choice;
      widgets := WidgetMap(Items(sections));
    }

    /** The user changes a control; its kind stays what it was. */
    method EditWidget(key: Key, w: Widget)
      requires key in widgets && SameKind(widgets[key], w)
      modifies this
      ensures widgets == old(widgets)[key := w]
      ensures sections == old(sections) && originalLines == old(originalLines)
      ensures currentFile == old(currentFile) && isSaving == old(isSaving)
    {
      widgets := widgets[key := w];
    }

    /** SaveIni_Click: `dialog` is what the save dialog returns when there
        is no current file, `writeSucceeds` whether `File.WriteAllLines`
        completes.  The latch turns a save entered during another into a
        no-op, and the `finally` clears it however the save ends. */
    method SaveIni(dialog: Option<string>, writeSucceeds: bool) returns (outcome: SaveOutcome)
      modifies this
      ensures old(isSaving) ==> outcome == Reentered && unchanged(this)
      ensures sections == old(sections) && widgets == old(widgets) && originalLines == old(originalLines)
      ensures !old(isSaving) ==> !isSaving
      ensures !old(isSaving) && old(currentFile).None? && dialog.None? ==>
        outcome == Cancelled && currentFile == None
      ensures !old(isSaving) && old(currentFile).None? && dialog.Some? && VerifyFilename(dialog.value, "save").Some? ==>
        outcome == InvalidFilename(VerifyFilename(dialog.value, "save").value) && currentFile == None
      ensures !old(isSaving) && (old(currentFile).Some? || (dialog.Some? && VerifyFilename(dialog.value, "save").None?)) ==>
        && currentFile == (if old(currentFile).Some? then old(currentFile) else dialog)
        && outcome == Finished(Render(originalLines, WidgetTexts(widgets), Items(sections)), currentFile.value, writeSucceeds)
    {
      if isSaving {
        return Reentered;
      }
      isSaving := true;
      if currentFile == None {
        if dialog.None? {
          isSaving := false;
          return Cancelled;
        }
        var message := VerifyFilename(dialog.value, "save");
        if message.Some? {
          isSaving := false;
          return InvalidFilename(message.value);
        }
        currentFile := dialog;
      }
      var r := RenderSections(sections, widgets, WidgetTexts(widgets), originalLines);
      outcome := Finished(r, currentFile.value, writeSucceeds);
      isSaving := false;
    }
  }

  /** The outcome once the loops have run and the write was attempted. */
  function Finished(r: Result<seq<string>, SaveError>, path: string, writeSucceeds: bool): SaveOutcome {
    match r
    case Err(e) => Failed(e)
    case Ok(lines) => if writeSucceeds then Saved(path, lines) else Failed(WriteFailed)
  }

  /** Two widgets of the same kind: editing a control changes its state,
      never its kind. */
  predicate SameKind(a: Widget, b: Widget) {
    (a.TextBox? && b.TextBox?) || (a.ComboBox? && b.ComboBox?) || (a.CheckBox? && b.CheckBox?)
    || (a.Stepper? && b.Stepper?)
  }

  /** The nested loops of SaveIni_Click on a copy of the original lines. */
  method RenderSections(sections: seq<Section>, widgets: map<Key, Widget>, ghost texts: map<Key, string>,
                        originalLines: seq<string>)
    returns (r: Result<seq<string>, SaveError>)
    requires Shows(widgets, texts)
    ensures r == Render(originalLines, texts, Items(sections))
  {
    var newLines := originalLines;
    for i := 0 to |sections|
      invariant Render(originalLines, texts, Items(sections[..i])) == Ok(newLines)
    {
      var step := RenderSection(originalLines, widgets, texts, sections, i, newLines);
      if step.Err? {
        return step;
      }
      newLines := step.value;
    }
    assert sections[..|sections|] == sections;
    r := Ok(newLines);
  }

  /** The outer loop body for section `i`: a failure is the failure of
      the whole save. */
  method RenderSection(originalLines: seq<string>, widgets: map<Key, Widget>, ghost texts: map<Key, string>,
                       sections: seq<Section>, i: nat, lines: seq<string>)
    returns (r: Result<seq<string>, SaveError>)
    requires Shows(widgets, texts) && i < |sections| && Render(originalLines, texts, Items(sections[..i])) == Ok(lines)
    ensures r.Ok? ==> r == Render(originalLines, texts, Items(sections[..i + 1]))
    ensures r.Err? ==> r == Render(originalLines, texts, Items(sections))
  {
    ItemsAfterSection(sections, i);
    r := RenderEntries(originalLines, widgets, texts, Items(sections[..i]), sections[i], lines);
    if r.Err? {
      ItemsPrefix(sections, i + 1);
      FailureKept(originalLines, texts, Items(sections[..i + 1]), Items(sections));
    }
  }

  /** The inner loop over one section's entries, once the items `done`
      before them have left the working copy at `lines`. */
  method RenderEntries(originalLines: seq<string>, widgets: map<Key, Widget>, ghost texts: map<Key, string>,
                       ghost done: seq<Item>, section: Section, lines: seq<string>)
    returns (r: Result<seq<string>, SaveError>)
    requires Shows(widgets, texts)
    requires Render(originalLines, texts, done) == Ok(lines)
    ensures r == Render(originalLines, texts, done + ItemsOf(section))
  {
    ghost var all := done + ItemsOf(section);
    assert all[..|done|] == done;
    var newLines := lines;
    for j := 0 to |section.entries|
      invariant Render(originalLines, texts, all[..|done| + j]) == Ok(newLines)
    {
      var step := RenderNextEntry(originalLines, widgets, texts, done, section, j, newLines);
      if step.Err? {
        FailureKept(originalLines, texts, all[..|done| + j + 1], all);
        return step;
      }
      newLines := step.value;
    }
    assert all[..|done| + |section.entries|] == all;
    r := Ok(newLines);
  }

  /** The inner loop body for entry `j` of `section`, after `done` and the
      entries before `j`. */
  method RenderNextEntry(originalLines: seq<string>, widgets: map<Key, Widget>, ghost texts: map<Key, string>,
                         ghost done: seq<Item>, section: Section, j: nat, newLines: seq<string>)
    returns (r: Result<seq<string>, SaveError>)
    requires Shows(widgets, texts) && j < |section.entries|
    requires Render(originalLines, texts, (done + ItemsOf(section))[..|done| + j]) == Ok(newLines)
    ensures r == Render(originalLines, texts, (done + ItemsOf(section))[..|done| + j + 1])
  {
    ItemAt(done, section, j);
    RenderNext(originalLines, texts, done + ItemsOf(section), |done| + j, newLines);
    r := RenderEntry(originalLines, newLines, widgets, texts, section.name, section.entries[j]);
  }

  /** The inner loop body for one entry of section `sectionName`. */
  method RenderEntry(originalLines: seq<string>, newLines: seq<string>, widgets: map<Key, Widget>,
                     ghost texts: map<Key, string>, sectionName: string, entry: Entry)
    returns (r: Result<seq<string>, SaveError>)
    requires Shows(widgets, texts) && |originalLines| <= |newLines|
    ensures r == RenderItem(originalLines, newLines, texts, (sectionName, entry))
  {
    if (sectionName, entry.name) !in widgets {
      return Err(MissingWidget((sectionName, entry.name)));
    }
    var widget := widgets[(sectionName, entry.name)];
    var value := GetWidgetValue(widget);
    assert value == texts[(sectionName, entry.name)];
    var newLine := if entry.inlineComment.Some? then entry.name + "=" + value + "\t\t\t; " + entry.inlineComment.value
                   else entry.name + "=" + value;
    if entry.lineNumber.Some? {
      var n := entry.lineNumber.value;
      if !(0 <= n < |originalLines|) {
        return Err(LineOutOfRange(n));
      }
      TrimStartFacts(originalLines[n], IsWhite);
      var leadingSpace := |originalLines[n]| - |TrimStart(originalLines[n])|;
      assert newLine == ComposedLine(entry, value);
      assert Spaces(leadingSpace) + newLine == Reindent(originalLines[n], ComposedLine(entry, value));
      r := Ok(newLines[n := Spaces(leadingSpace) + newLine]);
    } else {
      r := Ok(newLines + [newLine]);
    }
  }

  // ----- loading and saving an unedited file -----

  /** Every item of a freshly parsed file comes from an assignment line of
      that file. */
  lemma ParsedItem(lines: seq<string>, x: Item)
    requires x in Items(WpfParser.Parse(lines))
    ensures x.1.lineNumber.Some? && 0 <= x.1.lineNumber.value < |lines|
    ensures KindOf(lines[x.1.lineNumber.value]) == Assignment
  {
    var ss := WpfParser.Parse(lines);
    ItemsMembers(ss, x);
    var j, t :| 0 <= j < |ss| && 0 <= t < |ss[j].entries| && x == (ss[j].name, ss[j].entries[t]);
    WpfParser.ParsedEntry(lines, j, t);
  }

  /** Loading a file and saving it without edits cannot fail: every entry
      has a widget and a line inside the file, the output has as many lines
      as the file, and every line that is not an assignment is written back
      as it was. */
  lemma LoadedFileSaves(lines: seq<string>)
    ensures var items := Items(WpfParser.Parse(lines));
      var out := Render(lines, WidgetTexts(WidgetMap(items)), items);
      && out.Ok? && |out.value| == |lines|
      && forall n :: 0 <= n < |lines| && KindOf(lines[n]) != Assignment ==> out.value[n] == lines[n]
  {
    var items := Items(WpfParser.Parse(lines));
    var texts := WidgetTexts(WidgetMap(items));
    forall i | 0 <= i < |items|
      ensures KeyOf(items[i]) in texts
    {
      WidgetMapKeys(items, KeyOf(items[i]));
    }
    var ps := PatchesOf(texts, items);
    forall i | 0 <= i < |ps|
      ensures InRange(lines, ps[i]) && ps[i].lineNumber.Some?
    {
      assert items[i] in items;
      ParsedItem(lines, items[i]);
    }
    ApplyFails(lines, ps);
    ApplyWrites(lines, ps);
    NothingAppended(ps);
    RenderIsApply(lines, texts, items);
    forall n | 0 <= n < |lines| && KindOf(lines[n]) != Assignment
      ensures Apply(lines, ps).value[n] == lines[n]
    {
      forall i | 0 <= i < |ps|
        ensures ps[i].lineNumber != Some(n)
      {
        assert items[i] in items;
        ParsedItem(lines, items[i]);
      }
      Untouched(lines, ps, n);
    }
  }
}
