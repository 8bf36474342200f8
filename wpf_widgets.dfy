/** The deterministic rules of MainWindow.xaml.cs around its widgets: the
    charset table, the choice of widget for an entry, the text a widget
    gives back when saving, and the file-name check. */
module WpfWidgets {
  import opened Wrappers
  import opened Text
  import opened Scalars
  import N = NumericUpDown

  /** `CharsetItem`: a display name and the number written to the file. */
  datatype Charset = Charset(name: string, value: int)

  /** The `Charsets` list, in its order. */
  const Charsets: seq<Charset> := [
    Charset("ANSI_CHARSET", 0),
    Charset("DEFAULT_CHARSET", 1),
    Charset("SYMBOL_CHARSET", 2),
    Charset("MAC_CHARSET", 77),
    Charset("SHIFTJIS_CHARSET", 128),
    Charset("HANGEUL_CHARSET", 129),
    Charset("JOHAB_CHARSET", 130),
    Charset("GB2312_CHARSET", 134),
    Charset("CHINESEBIG5_CHARSET", 136),
    Charset("GREEK_CHARSET", 161),
    Charset("TURKISH_CHARSET", 162),
    Charset("VIETNAMESE_CHARSET", 163),
    Charset("HEBREW_CHARSET", 177),
    Charset("ARABIC_CHARSET", 178),
    Charset("BALTIC_CHARSET", 186),
    Charset("RUSSIAN_CHARSET", 204),
    Charset("THAI_CHARSET", 222),
    Charset("EASTEUROPE_CHARSET", 238),
    Charset("OEM_CHARSET", 255)]

  /** The table has 19 items with pairwise distinct numbers and names, and
      item 1, the fallback selection, is DEFAULT_CHARSET with number 1. */
  lemma CharsetsTable()
    ensures |Charsets| == 19
    ensures forall i, j :: 0 <= i < j < |Charsets| ==> Charsets[i].value != Charsets[j].value
    ensures forall i, j :: 0 <= i < j < |Charsets| ==> Charsets[i].name != Charsets[j].name
    ensures Charsets[1] == Charset("DEFAULT_CHARSET", 1)
  {
    forall i, j | 0 <= i < j < |Charsets|
      ensures Charsets[i].value != Charsets[j].value
    {
      CharsetsIncreasing(i, j);
    }
    forall i, j | 0 <= i < j < |Charsets|
      ensures Charsets[i].name != Charsets[j].name
    {
      CharsetsIncreasing(i, j);
    }
  }

  /** The numbers increase along the table. */
  lemma CharsetsIncreasing(i: nat, j: nat)
    requires i < j < |Charsets|
    ensures Charsets[i].value < Charsets[j].value
    decreases j - i
  {
    if i + 1 < j {
      CharsetsIncreasing(i, j - 1);
      CharsetsIncreasing(j - 1, j);
    }
  }

  /** The first item whose number is `n`, searching from index `from`. */
  function CharsetIndexFrom(n: int, from: nat): (r: Option<nat>)
    requires from <= |Charsets|
    ensures r.Some? ==> from <= r.value < |Charsets| && Charsets[r.value].value == n
    ensures r.Some? ==> forall k :: from <= k < r.value ==> Charsets[k].value != n
    ensures r.None? ==> forall k :: from <= k < |Charsets| ==> Charsets[k].value != n
    decreases |Charsets| - from
  {
    if from == |Charsets| then None
    else if Charsets[from].value == n then Some(from)
    else CharsetIndexFrom(n, from + 1)
  }

  /** `FirstOrDefault(item => (int)item.Tag == n)`. */
  function FindCharset(n: int): Option<Charset> {
    match CharsetIndexFrom(n, 0)
    case Some(k) => Some(Charsets[k])
    case None => None
  }

  /** The item found for `n` is the one table item with that number; there
      is none exactly when no item has it. */
  lemma FindCharsetFinds(n: int)
    ensures FindCharset(n).Some? <==> exists k :: 0 <= k < |Charsets| && Charsets[k].value == n
    ensures FindCharset(n).Some? ==> FindCharset(n).value in Charsets && FindCharset(n).value.value == n
  {
  }

  /** The controls the editor builds for an entry, holding what the saver
      reads back: a text box's text, a combo box's selected item, a check
      box's three-state `IsChecked`, a stepper's properties. */
  datatype Widget =
    | TextBox(text: string)
    | ComboBox(selected: Option<Charset>)
    | CheckBox(isChecked: Option<bool>)
    | Stepper(value: int, minimum: int, maximum: int, step: int)

  /** The sections and entry that always get a text box. */
  predicate IsTextOnly(entryName: string, sectionName: string) {
    sectionName == "Hotkeys" || entryName == "uTintMaskResolution" || sectionName == "Log"
  }

  /** `value.ToLower() is "true" or "false"`. */
  predicate IsBooleanText(value: string) {
    Lower(value) == "true" || Lower(value) == "false"
  }

  /** `CreateWidgetForValue`. */
  function CreateWidgetForValue(value: string, entryName: string, sectionName: string): Widget {
    if IsTextOnly(entryName, sectionName) then TextBox(value)
    else if entryName == "nCharset" then
      ComboBox(match TryParseInt(value)
               case Some(n) => (if FindCharset(n).Some? then FindCharset(n) else Some(Charsets[1]))
               case None => Some(Charsets[1]))
    else if IsBooleanText(value) then CheckBox(Some(Lower(value) == "true"))
    else if TryParseInt(value).Some? then
      StepperFor(TryParseInt(value).value, if entryName == "bUIDarkThemeID" || entryName == "nGenerationVersion" then 2 else 999999)
    else TextBox(value)
  }

  /** `new NumericUpDownControl { Value = n, Minimum = 0, Maximum = hi, Step
      = 1 }`: the initializer assigns `Value` first, while the bounds are
      still the defaults 0 and 999999, and changing them afterwards does not
      clamp again. */
  function StepperFor(n: int, hi: int): (w: Widget) {
    Stepper(N.Assigned(0, n, 0, 999999), 0, hi, 1)
  }

  /** `GetWidgetValue`: a check box writes "true" or "false" ("false" when
      unset), a text box its text, a combo box its item's number (1 when
      nothing is selected), a stepper its value in decimal. */
  function GetWidgetValue(w: Widget): string {
    match w
    case CheckBox(c) => if c == Some(true) then "true" else "false"
    case TextBox(t) => t
    case ComboBox(sel) => IntToString(if sel.Some? then sel.value.value else 1)
    case Stepper(v, _, _, _) => IntToString(v)
  }

  /** The widget kind: a text box for Hotkeys, Log and uTintMaskResolution
      whatever the value, a combo box for nCharset, and otherwise a check
      box exactly for a boolean text, a stepper exactly for an `int` and a
      text box for anything else.  No text is both, so the order of the two
      tests does not matter.  Every stepper starts at 0 with step 1 and a
      value in [0, 999999]; its maximum is 2 for bUIDarkThemeID and
      nGenerationVersion and 999999 otherwise. */
  lemma WidgetKinds(value: string, entryName: string, sectionName: string)
    ensures var w := CreateWidgetForValue(value, entryName, sectionName);
      && (IsTextOnly(entryName, sectionName) ==> w == TextBox(value))
      && (!IsTextOnly(entryName, sectionName) && entryName == "nCharset" ==> w.ComboBox?)
      && (!IsTextOnly(entryName, sectionName) && entryName != "nCharset" ==>
            && (w.CheckBox? <==> IsBooleanText(value))
            && (w.Stepper? <==> TryParseInt(value).Some?)
            && (w.TextBox? <==> !IsBooleanText(value) && TryParseInt(value).None?))
      && (w.Stepper? ==>
            && w.minimum == 0 && w.step == 1 && 0 <= w.value <= 999999
            && w.maximum == (if entryName in {"bUIDarkThemeID", "nGenerationVersion"} then 2 else 999999))
  {
    if IsBooleanText(value) {
      CheckBoxAsParsed(value);
      IntegerIsNotBoolean(value);
    }
    if TryParseInt(value).Some? {
      N.AssignedInRange(0, TryParseInt(value).value, 0, 999999);
    }
  }

  /** The check box is checked as `bool.Parse(value)` says: the text is
      "true" or "false" in some case, which `bool.Parse` accepts. */
  lemma CheckBoxAsParsed(value: string)
    requires IsBooleanText(value)
    ensures TryParseBool(value) == Some(Lower(value) == "true")
  {
    forall i | 0 <= i < |value|
      ensures !IsWhiteOrNul(value[i])
    {
      assert Lower(value)[i] == LowerChar(value[i]);
    }
    TrimWithOf("", value, "", IsWhiteOrNul);
    assert "" + value + "" == value;
  }

  /** The nCharset combo box selects the first item with the parsed number,
      and DEFAULT_CHARSET when the value does not parse or no item has it;
      it always selects a table item. */
  lemma CharsetSelection(value: string, sectionName: string)
    requires !IsTextOnly("nCharset", sectionName)
    ensures var w := CreateWidgetForValue(value, "nCharset", sectionName);
      && w.ComboBox? && w.selected.Some? && w.selected.value in Charsets
      && (TryParseInt(value).Some? && FindCharset(TryParseInt(value).value).Some? ==>
            w.selected.value.value == TryParseInt(value).value)
      && (TryParseInt(value).None? || FindCharset(TryParseInt(value).value).None? ==>
            w.selected.value == Charset("DEFAULT_CHARSET", 1))
  {
    if TryParseInt(value).Some? {
      FindCharsetFinds(TryParseInt(value).value);
    }
  }

  // What saving writes for an untouched widget, widget by widget.

  /** Hotkeys, Log and uTintMaskResolution: the text box's text, which is
      the value. */
  lemma TextOnlyReadBack(value: string, entryName: string, sectionName: string)
    requires IsTextOnly(entryName, sectionName)
    ensures GetWidgetValue(CreateWidgetForValue(value, entryName, sectionName)) == value
  {
  }

  /** nCharset: the number of the selected item in decimal, which is the
      value's number when an item has it and 1 (DEFAULT_CHARSET) otherwise. */
  lemma CharsetReadBack(value: string, sectionName: string)
    requires !IsTextOnly("nCharset", sectionName)
    ensures var tag := if TryParseInt(value).Some? && FindCharset(TryParseInt(value).value).Some?
                       then TryParseInt(value).value else 1;
      GetWidgetValue(CreateWidgetForValue(value, "nCharset", sectionName)) == IntToString(tag)
  {
    CharsetSelection(value, sectionName);
  }

  /** A boolean in any case: the check box writes it lower-cased. */
  lemma BooleanReadBack(value: string, entryName: string, sectionName: string)
    requires !IsTextOnly(entryName, sectionName) && entryName != "nCharset" && IsBooleanText(value)
    ensures GetWidgetValue(CreateWidgetForValue(value, entryName, sectionName)) == Lower(value)
  {
  }

  /** A number: the stepper writes it clamped into [0, 999999], in decimal. */
  lemma NumberReadBack(value: string, entryName: string, sectionName: string)
    requires !IsTextOnly(entryName, sectionName) && entryName != "nCharset"
    requires !IsBooleanText(value) && TryParseInt(value).Some?
    ensures GetWidgetValue(CreateWidgetForValue(value, entryName, sectionName))
         == IntToString(N.Clamp(TryParseInt(value).value, 0, 999999))
  {
  }

  /** Any other text: the text box writes it back unchanged. */
  lemma OtherTextReadBack(value: string, entryName: string, sectionName: string)
    requires !IsTextOnly(entryName, sectionName) && entryName != "nCharset"
    requires !IsBooleanText(value) && TryParseInt(value).None?
    ensures GetWidgetValue(CreateWidgetForValue(value, entryName, sectionName)) == value
  {
  }

  /** An untouched value written as `int.ToString` writes it, within the
      stepper's [0, 999999], is saved unchanged; so is a lower-case boolean
      and any text that is neither a number nor a boolean. */
  lemma UneditedValueKept(value: string, entryName: string, sectionName: string)
    requires !IsTextOnly(entryName, sectionName) && entryName != "nCharset"
    requires || (exists n :: 0 <= n <= 999999 && value == IntToString(n))
             || value == "true" || value == "false"
             || (!IsBooleanText(value) && TryParseInt(value).None?)
    ensures GetWidgetValue(CreateWidgetForValue(value, entryName, sectionName)) == value
  {
    if exists n :: 0 <= n <= 999999 && value == IntToString(n) {
      var n :| 0 <= n <= 999999 && value == IntToString(n);
      FormattedIsNotBoolean(n);
      NumberReadBack(value, entryName, sectionName);
    } else if value == "true" || value == "false" {
      assert Lower(value) == value;
      BooleanReadBack(value, entryName, sectionName);
    } else {
      OtherTextReadBack(value, entryName, sectionName);
    }
  }

  /** A number as `int.ToString` writes it parses back and is no boolean. */
  lemma FormattedIsNotBoolean(n: int)
    requires IsInt32(n)
    ensures TryParseInt(IntToString(n)) == Some(n) && !IsBooleanText(IntToString(n))
  {
    var value := IntToString(n);
    ParseFormatted(n);
    assert IsDigit(value[|value| - 1]);
    DigitEndIsNotBoolean(value);
  }

  /** The stepper for bUIDarkThemeID or nGenerationVersion gets the bounds
      [0, 2] only after its value was set, so a larger value in the file is
      shown and saved as it is, above the stepper's own maximum. */
  lemma ThemeStepperKeepsValue(sectionName: string)
    requires !IsTextOnly("bUIDarkThemeID", sectionName)
    ensures CreateWidgetForValue("5", "bUIDarkThemeID", sectionName) == Stepper(5, 0, 2, 1)
  {
    ParseFormatted(5);
    assert IntToString(5) == "5";
    assert Lower("5") == "5";
  }

  // ----- the file-name check -----

  const ExpectedName: string := "CreationKitPlatformExtended.ini"

  predicate IsSeparator(c: char) {
    c == '\\' || c == '/'
  }

  /** `Path.GetFileName` on Windows: the text after the last `\` or `/`, or
      after a leading drive `X:` when there is no separator. */
  function FileName(path: string): (r: string)
    ensures |r| <= |path| && r == path[|path| - |r|..]
    ensures forall i :: 0 <= i < |r| ==> !IsSeparator(r[i])
  {
    if exists i :: 0 <= i < |path| && IsSeparator(path[i]) then
      var k := LastSeparator(path, |path|);
      path[k + 1..]
    else if |path| >= 2 && path[1] == ':' && IsDriveLetter(path[0]) then path[2..]
    else path
  }

  predicate IsDriveLetter(c: char) {
    'A' <= c <= 'Z' || 'a' <= c <= 'z'
  }

  /** The index of the last separator before `end`. */
  function LastSeparator(path: string, end: nat): (k: nat)
    requires end <= |path| && exists i :: 0 <= i < end && IsSeparator(path[i])
    ensures k < end && IsSeparator(path[k])
    ensures forall i :: k < i < end ==> !IsSeparator(path[i])
  {
    if IsSeparator(path[end - 1]) then end - 1 else LastSeparator(path, end - 1)
  }

  /** `VerifyFilename`: `None` when the file name is exactly
      CreationKitPlatformExtended.ini, otherwise the warning shown. */
  function VerifyFilename(filepath: string, operation: string): (r: Option<string>)
    ensures r.None? <==> FileName(filepath) == ExpectedName
  {
    var actualName := FileName(filepath);
    if actualName != ExpectedName then
      Some("The " + operation + " filename must be '" + ExpectedName + "'\nSelected file: '" + actualName + "'")
    else None
  }

  /** A path ending in a separator and the expected name passes, whatever
      directory comes before. */
  lemma VerifyFilenameAccepts(dir: string)
    ensures VerifyFilename(dir + "\\" + ExpectedName, "save").None?
    ensures VerifyFilename(dir + "/" + ExpectedName, "selected").None?
  {
    FileNameAfter(dir, '\\', ExpectedName);
    FileNameAfter(dir, '/', ExpectedName);
  }

  /** The check is case-sensitive. */
  lemma VerifyFilenameCaseSensitive()
    ensures VerifyFilename("creationkitplatformextended.ini", "save").Some?
  {
    var lower := "creationkitplatformextended.ini";
    var r := FileName(lower);
    if |r| == |lower| {
      assert r == lower && lower[0] != ExpectedName[0];
    }
  }

  /** The check looks at the last path component only. */
  lemma VerifyFilenameLastComponent()
    ensures VerifyFilename(ExpectedName + "\\x.ini", "save").Some?
  {
    assert ExpectedName + "\\x.ini" == ExpectedName + ['\\'] + "x.ini";
    FileNameAfter(ExpectedName, '\\', "x.ini");
  }

  /** The file name of `dir` + separator + `name` is `name`, whatever `dir`
      holds, when `name` holds no separator. */
  lemma FileNameAfter(dir: string, sep: char, name: string)
    requires IsSeparator(sep) && forall i :: 0 <= i < |name| ==> !IsSeparator(name[i])
    ensures FileName(dir + [sep] + name) == name
  {
    var p := dir + [sep] + name;
    assert IsSeparator(p[|dir|]);
    var k := LastSeparator(p, |p|);
    assert k == |dir|;
    assert p[k + 1..] == name;
  }
}
