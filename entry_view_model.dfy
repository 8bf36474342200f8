/** ViewModels/ConfigurationEntryViewModel.cs: the Avalonia view model of one
    entry, with the kind predicates the view picks its control by, the
    charset and theme tables and selections, and the conversion back to a
    model entry. */
module EntryViewModel {
  import opened Wrappers
  import opened Text
  import opened Scalars
  import opened AvaloniaModel

  /** `CharsetInfo` and `ThemeInfo`: a display name and the number written to
      the file. */
  datatype Choice = Choice(name: string, value: int)

  /** The `Charsets` collection, in its order. */
  const Charsets: seq<Choice> := [
    Choice("ANSI_CHARSET", 0),
    Choice("DEFAULT_CHARSET", 1),
    Choice("SYMBOL_CHARSET", 2),
    Choice("SHIFTJIS_CHARSET", 128),
    Choice("HANGEUL_CHARSET", 129),
    Choice("GB2312_CHARSET", 134),
    Choice("CHINESEBIG5_CHARSET", 136),
    Choice("OEM_CHARSET", 255),
    Choice("JOHAB_CHARSET", 130),
    Choice("HEBREW_CHARSET", 177),
    Choice("ARABIC_CHARSET", 178),
    Choice("GREEK_CHARSET", 161),
    Choice("TURKISH_CHARSET", 162),
    Choice("VIETNAMESE_CHARSET", 163),
    Choice("THAI_CHARSET", 222),
    Choice("EASTEUROPE_CHARSET", 238),
    Choice("RUSSIAN_CHARSET", 204),
    Choice("MAC_CHARSET", 77),
    Choice("BALTIC_CHARSET", 186)]

  /** The `Themes` collection. */
  const Themes: seq<Choice> := [Choice("Lighter", 0), Choice("Darker", 1), Choice("Custom", 2)]

  predicate DistinctValues(cs: seq<Choice>) {
    forall i, j :: 0 <= i < j < |cs| ==> cs[i].value != cs[j].value
  }

  /** The charset table has 19 items with pairwise distinct numbers, so a
      number selects at most one of them; the themes are 0, 1 and 2. */
  lemma Tables()
    ensures |Charsets| == 19 && DistinctValues(Charsets)
    ensures |Themes| == 3 && forall i :: 0 <= i < 3 ==> Themes[i].value == i
    ensures DistinctValues(Themes)
  {
    forall i | 0 <= i < |Charsets|
      ensures CharsetPosition(Charsets[i].value) == i
    {
    }
  }

  /** The position of charset number `n` in the table, or -1. */
  function CharsetPosition(n: int): int {
    if n == 0 then 0
    else if n == 1 then 1
    else if n == 2 then 2
    else if n == 128 then 3
    else if n == 129 then 4
    else if n == 134 then 5
    else if n == 136 then 6
    else if n == 255 then 7
    else if n == 130 then 8
    else if n == 177 then 9
    else if n == 178 then 10
    else if n == 161 then 11
    else if n == 162 then 12
    else if n == 163 then 13
    else if n == 222 then 14
    else if n == 238 then 15
    else if n == 204 then 16
    else if n == 77 then 17
    else if n == 186 then 18
    else -1
  }

  /** `FirstOrDefault(c => c.Value == n)`. */
  function FirstWithValue(cs: seq<Choice>, n: int): (r: Option<Choice>)
    ensures r.None? <==> forall i :: 0 <= i < |cs| ==> cs[i].value != n
    ensures r.Some? ==> exists i :: (0 <= i < |cs| && cs[i] == r.value && r.value.value == n
                                     && forall k :: 0 <= k < i ==> cs[k].value != n)
  {
    if cs == [] then None
    else if cs[0].value == n then Some(cs[0])
    else
      var r := FirstWithValue(cs[1..], n);
      assert r.Some? ==> exists i :: (0 <= i < |cs| - 1 && cs[1..][i] == r.value && r.value.value == n
                                      && forall k :: 0 <= k < i ==> cs[1..][k].value != n);
      r
  }

  /** In a table with distinct numbers, an item's own number finds it. */
  lemma FindsItself(cs: seq<Choice>, i: nat)
    requires DistinctValues(cs) && i < |cs|
    ensures FirstWithValue(cs, cs[i].value) == Some(cs[i])
  {
    var r := FirstWithValue(cs, cs[i].value);
    var k :| 0 <= k < |cs| && cs[k] == r.value && r.value.value == cs[i].value
      && forall m :: 0 <= m < k ==> cs[m].value != cs[i].value;
    if k < i {
      assert cs[k].value != cs[i].value;
    }
  }

  // ----- the kind predicates, on the wrapped entry and its section -----

  /** `bool.TryParse(_entry.Value.ToLower(), out _)`. */
  predicate IsBoolean(e: Entry) {
    TryParseBool(Lower(e.value)).Some?
  }

  /** `int.TryParse(_entry.Value, out _)`. */
  predicate IsInteger(e: Entry) {
    TryParseInt(e.value).Some?
  }

  predicate IsCharset(e: Entry) {
    e.name == "nCharset"
  }

  predicate IsTheme(e: Entry) {
    e.name == "uUIDarkThemeId"
  }

  predicate IsNormalInteger(e: Entry) {
    IsInteger(e) && !IsCharset(e) && !IsTheme(e)
  }

  predicate IsSpecialTextbox(e: Entry, s: Section) {
    e.name == "uTintMaskResolution" || s.name == "Hotkeys" || s.name == "Log"
  }

  predicate IsDefaultTextBox(e: Entry) {
    !IsBoolean(e) && !IsInteger(e) && !IsCharset(e) && !IsTheme(e)
  }

  /** Lower-casing before `bool.TryParse` changes nothing.  The boolean
      and integer kinds exclude each other, so of the check box, the
      plain stepper and the default text box at most one is shown; the
      default text box is shown exactly when no other editor is. */
  lemma KindsExclusive(e: Entry)
    ensures IsBoolean(e) <==> TryParseBool(e.value).Some?
    ensures IsBoolean(e) ==> !IsInteger(e)
    ensures !(IsBoolean(e) && IsNormalInteger(e))
    ensures IsDefaultTextBox(e) <==> !(IsBoolean(e) || IsNormalInteger(e) || IsCharset(e) || IsTheme(e))
  {
    TryParseBoolIgnoresCase(e.value);
    if IsInteger(e) {
      LoweredIntegerIsNotBoolean(e.value);
    }
  }

  /** An integer, lower-cased or not, is no boolean. */
  lemma LoweredIntegerIsNotBoolean(s: string)
    requires TryParseInt(s).Some?
    ensures TryParseBool(Lower(s)).None?
  {
    IntegerIsNotBoolean(s);
    TryParseBoolIgnoresCase(s);
  }

  // ----- the view model -----

  class ConfigEntryViewModel {
    const entry: Entry
    const section: Section
    var value: string
    var selectedCharset: Option<Choice>
    var selectedTheme: Option<Choice>

    /** The initial value is the entry's; the charset and theme selections
        are the first table item with the entry's number, for a charset or
        theme entry whose value parses. */
    constructor(entry: Entry, section: Section)
      ensures this.entry == entry && this.section == section && value == entry.value
      ensures selectedCharset == InitialSelection(entry, IsCharset(entry), Charsets)
      ensures selectedTheme == InitialSelection(entry, IsTheme(entry), Themes)
    {
      this.entry := entry;
      this.section := section;
      value := entry.value;
      new;
      var charsetValue := TryParseInt(value);
      if IsCharset(entry) && charsetValue.Some? {
        selectedCharset := FirstWithValue(Charsets, charsetValue.value);
      } else {
        selectedCharset := None;
      }
      var themeValue := TryParseInt(value);
      if IsTheme(entry) && themeValue.Some? {
        selectedTheme := FirstWithValue(Themes, themeValue.value);
      } else {
        selectedTheme := None;
      }
    }

    /** The `Value` setter. */
    method SetValue(v: string)
      modifies this
      ensures value == v
      ensures selectedCharset == old(selectedCharset) && selectedTheme == old(selectedTheme)
    {
      value := v;
    }

    /** The `SelectedCharset` setter: an item writes its number into
      `Value`; clearing the selection leaves `Value` alone. */
    method SetSelectedCharset(c: Option<Choice>)
      modifies this
      ensures selectedCharset == c && selectedTheme == old(selectedTheme)
      ensures value == Selected(old(value), c)
    {
      selectedCharset := c;
      if c.Some? {
        value := IntToString(c.value.value);
      }
    }

    /** The `SelectedTheme` setter, the same rule. */
    method SetSelectedTheme(t: Option<Choice>)
      modifies this
      ensures selectedTheme == t && selectedCharset == old(selectedCharset)
      ensures value == Selected(old(value), t)
    {
      selectedTheme := t;
      if t.Some? {
        value := IntToString(t.value.value);
      }
    }

    /** `ToModel`: the wrapped entry with the current value. */
    function ToModel(): (r: Entry)
      reads this
      ensures r.value == value
      ensures r.name == entry.name && r.tooltip == entry.tooltip
      ensures r.lineNumber == entry.lineNumber && r.inlineComment == entry.inlineComment
    {
      NewEntry(entry.name, value, entry.tooltip, entry.lineNumber, entry.inlineComment)
    }
  }

  /** The selection the constructor makes in `table` for an entry of the
      table's kind. */
  function InitialSelection(e: Entry, ofKind: bool, table: seq<Choice>): (r: Option<Choice>)
    ensures r.Some? ==>
      ofKind && TryParseInt(e.value).Some? && r.value in table && r.value.value == TryParseInt(e.value).value
    ensures ofKind && TryParseInt(e.value).Some? && (exists i :: 0 <= i < |table| && table[i].value == TryParseInt(e.value).value)
      ==> r.Some?
  {
    if ofKind && TryParseInt(e.value).Some? then FirstWithValue(table, TryParseInt(e.value).value) else None
  }

  /** `Value` after a selection setter. */
  function Selected(before: string, c: Option<Choice>): (r: string)
    ensures c.None? ==> r == before
    ensures c.Some? ==> TryParseInt(r) == Some(c.value.value) || !IsInt32(c.value.value)
  {
    if c.Some? then
      (if IsInt32(c.value.value) then ParseFormatted(c.value.value); IntToString(c.value.value)
       else IntToString(c.value.value))
    else before
  }

  /** Selecting a table item and building a view model from the value it
      wrote selects that item again: the selection round-trips through the
      file. */
  lemma SelectionRoundTrip(e: Entry, i: nat)
    requires i < |Charsets| && IsCharset(e)
    ensures InitialSelection(e.(value := Selected(e.value, Some(Charsets[i]))), true, Charsets) == Some(Charsets[i])
  {
    Tables();
    ParseFormatted(Charsets[i].value);
    FindsItself(Charsets, i);
  }

  /** The same for a theme. */
  lemma ThemeRoundTrip(e: Entry, i: nat)
    requires i < |Themes| && IsTheme(e)
    ensures InitialSelection(e.(value := Selected(e.value, Some(Themes[i]))), true, Themes) == Some(Themes[i])
  {
    Tables();
    ParseFormatted(Themes[i].value);
    FindsItself(Themes, i);
  }

  /** With no edit, a fresh view model converts back to the entry it
      wraps. */
  lemma UneditedToModel(vm: ConfigEntryViewModel)
    requires vm.value == vm.entry.value
    ensures vm.ToModel() == vm.entry
  {
  }
}
