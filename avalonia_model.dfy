/** The records of the Avalonia variant (Models/ConfigEntry.cs,
    Models/ConfigSection.cs): missing strings are "" rather than null; only
    the line number stays optional. */
module AvaloniaModel {
  import opened Wrappers

  datatype Entry = Entry(
    name: string,
    value: string,
    tooltip: string,
    lineNumber: Option<int>,
    inlineComment: string)

  /** The primary constructor, with the object initializer that may set the
      init-only `InlineComment`: tooltip "" and no line number unless given,
      inline comment "" unless given. */
  function NewEntry(name: string, value: string, tooltip: string := "",
                    lineNumber: Option<int> := None, inlineComment: string := ""): (r: Entry)
    ensures r.name == name && r.value == value && r.tooltip == tooltip
    ensures r.lineNumber == lineNumber && r.inlineComment == inlineComment
  {
    Entry(name, value, tooltip, lineNumber, inlineComment)
  }

  /** The `Value` setter.  `InlineComment` is init-only: no update changes
      it once the entry exists. */
  function WithValue(e: Entry, value: string): (r: Entry)
    ensures r.value == value
    ensures r.name == e.name && r.tooltip == e.tooltip && r.lineNumber == e.lineNumber
    ensures r.inlineComment == e.inlineComment
  {
    e.(value := value)
  }

  datatype Section = Section(
    name: string,
    tooltip: string,
    lineNumber: Option<int>,
    entries: seq<Entry>)

  /** The primary constructor: tooltip "" and no line number unless given,
      and an empty entry list. */
  function NewSection(name: string, tooltip: string := "", lineNumber: Option<int> := None): (r: Section)
    ensures r.name == name && r.tooltip == tooltip && r.lineNumber == lineNumber
    ensures r.entries == []
  {
    Section(name, tooltip, lineNumber, [])
  }

  /** `Entries.Add` and `Entries.AddRange`: the list grows at its end and
      keeps what it held, in order. */
  function AddEntries(s: Section, es: seq<Entry>): (r: Section)
    ensures |r.entries| == |s.entries| + |es|
    ensures r.entries[..|s.entries|] == s.entries && r.entries[|s.entries|..] == es
    ensures r.name == s.name && r.tooltip == s.tooltip && r.lineNumber == s.lineNumber
  {
    assert (s.entries + es)[..|s.entries|] == s.entries;
    s.(entries := s.entries + es)
  }
}
