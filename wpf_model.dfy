/** The records of the WPF variant (ConfigEntry.cs, ConfigSection.cs): a
    missing tooltip, line number or inline comment is null, here `None`. */
module WpfModel {
  import opened Wrappers

  datatype Entry = Entry(
    name: string,
    value: string,
    tooltip: Option<string>,
    lineNumber: Option<int>,
    inlineComment: Option<string>)

  /** The constructor: name and value are stored as given, tooltip and line
      number are optional and the inline comment is unset. */
  function NewEntry(name: string, value: string, tooltip: Option<string> := None,
                    lineNumber: Option<int> := None): (r: Entry)
    ensures r.name == name && r.value == value
    ensures r.tooltip == tooltip && r.lineNumber == lineNumber
    ensures r.inlineComment == None
  {
    Entry(name, value, tooltip, lineNumber, None)
  }

  /** Only `Value` and `InlineComment` have setters: assigning one changes
      that property and keeps every other. */
  function WithValue(e: Entry, value: string): (r: Entry)
    ensures r.value == value
    ensures r.name == e.name && r.tooltip == e.tooltip && r.lineNumber == e.lineNumber
    ensures r.inlineComment == e.inlineComment
  {
    e.(value := value)
  }

  function WithInlineComment(e: Entry, comment: Option<string>): (r: Entry)
    ensures r.inlineComment == comment
    ensures r.name == e.name && r.value == e.value
    ensures r.tooltip == e.tooltip && r.lineNumber == e.lineNumber
  {
    e.(inlineComment := comment)
  }

  datatype Section = Section(
    name: string,
    tooltip: Option<string>,
    lineNumber: Option<int>,
    entries: seq<Entry>)

  /** The constructor: the name is stored as given, tooltip and line number
      are optional, and the entry list starts empty. */
  function NewSection(name: string, tooltip: Option<string> := None,
                      lineNumber: Option<int> := None): (r: Section)
    ensures r.name == name && r.tooltip == tooltip && r.lineNumber == lineNumber
    ensures r.entries == []
  {
    Section(name, tooltip, lineNumber, [])
  }

  /** `Entries.Add`: the list grows by one entry at its end; the section's
      own properties have no setter and stay as they are. */
  function AddEntry(s: Section, e: Entry): (r: Section)
    ensures |r.entries| == |s.entries| + 1 && r.entries[..|s.entries|] == s.entries
    ensures r.entries[|s.entries|] == e
    ensures r.name == s.name && r.tooltip == s.tooltip && r.lineNumber == s.lineNumber
  {
    assert (s.entries + [e])[..|s.entries|] == s.entries;
    s.(entries := s.entries + [e])
  }
}
