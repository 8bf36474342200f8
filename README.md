# CKPEConfig INI editor — a verified model of its core

CKPEConfig edits `CreationKitPlatformExtended.ini`, the settings file of the
Creation Kit Platform Extended. It comes in two variants: a WPF desktop
program and an Avalonia program. Both contain the same core logic.

- **Line scanner.** It reads the file line by line. It keeps a
  current-section cursor. It turns `[Name]` headers into sections and
  `name=value ; comment` assignments into entries. Each section and entry
  gets a tooltip made of the `;` comment lines directly above it.
- **Line-patching writer.** It copies the original lines. It overwrites
  each entry's own line by index with re-indented `name=value` text. It
  appends entries that have no line number.
- **Rules around them.** The WPF window chooses a widget kind from an
  entry's value and reads the widget back. It checks the file name. A latch
  stops a save from re-entering itself. The numeric stepper clamps its value
  and steps it. The Avalonia view models classify entries, hold the charset
  and theme selections, and convert back to the model records.

## How the model is organised

The Dafny modules follow the program's own structure.

**Shared helpers**
- `Text` models the .NET string operations the code uses: `Char.IsWhiteSpace`
  with its exact Unicode set, `Trim`, `TrimStart`, `Split(c, 2)`,
  `string.Join`, `new string(' ', n)` and `ToLower`.
- `Scalars` models `int.TryParse` and `Int32.ToString` on 32-bit integers,
  and `bool.TryParse`.
- `IniScan` is the scanner that both parsers share. It is variant-neutral.
  - It classifies every line as passed over, header, assignment or ignored.
  - It computes the skeleton of a file: the header line of each section and
    the line of each entry in it.
  - It defines the bounded backward comment walk.
  - It proves once, for every file, where headers and entries can lie.
- `LinePatch` is the writer that both savers share. It is stated as patches
  applied to the original lines. It comes with a reference description
  (`Appended`, `LastWrite`, `Expected`) and lemmas linking the two.

**WPF variant**
- `WpfModel` holds the records `ConfigEntry.cs` and `ConfigSection.cs`.
  Null is modelled as `None`.
- `WpfParser` holds `ConfigParser.cs`. The methods `ParseIniWithComments` and
  `ParseComments` keep the source's loops. Each is proved equal to a
  function. That function is proved equal to building the records from the
  skeleton.
- `WpfWidgets` holds `CreateWidgetForValue`, the `Charsets` table,
  `GetWidgetValue` and `VerifyFilename` from `MainWindow.xaml.cs`.
- `WpfWindow` holds the `MainWindow` class: its fields, `LoadIni_Click`, an
  edit to one widget, and `SaveIni_Click`. The save loop keeps its nested
  loops and is proved equal to a render function. That function is proved
  equal to the shared writer.
- `NumericUpDown` holds `Controls/NumericUpDown.xaml.cs` as a class. Its
  `Value`, `Minimum`, `Maximum` and `Step` fields are updated in place. It
  models the change callback, the buttons and the input filter.

**Avalonia variant**
- `AvaloniaModel` holds `Models/ConfigEntry.cs` and `Models/ConfigSection.cs`.
- `ConfigService` holds `Services/ConfigService.cs`. Its parse loop and
  comment walk are methods, proved equal to the WPF parse result converted
  field by field (null becomes `""`). Its save is a method proved equal to
  the shared writer.
- `EntryViewModel` and `SectionViewModel` hold the two view-model classes.

**Details of the code that the model keeps.**
- The charset table has 19 items.
- The WPF check box test `value.ToLower() is "true" or "false"` does not
  trim the value. The Avalonia `IsBoolean` uses `bool.TryParse`, which
  trims white space and NUL characters.
- The WPF stepper's object initializer assigns `Value` before `Minimum` and
  `Maximum`. The value is therefore clamped against the default bounds
  [0, 999999], not against [0, 2], so `bUIDarkThemeID=5` gives a stepper
  showing 5.

**The stepper's 32-bit arithmetic.** `Value + Step` and `Value - Step` are
32-bit operations that wrap. The model keeps this. `UpWrapsAtMaximum` and
`DownWrapsAtMinimum` show where it matters: with `Maximum` at
`int.MaxValue`, Up from the maximum gives the minimum, not the maximum. The
unwrapped reference definitions `UpValueUnwrapped` and `DownValueUnwrapped`
agree with the buttons wherever no overflow happens, and they are idempotent
at the bounds.

## Model

| member | source | states |
|---|---|---|
| Text.TrimFacts | Services/ConfigService.cs:27 | `Trim` removes a maximal run at each end and nothing else: the result is a slice of the input that neither starts nor ends with white space, and it is empty exactly when the input is all white space |
| Text.TrimStartFacts | MainWindow.xaml.cs:168-169 | `TrimStart` drops exactly the leading white-space run and keeps the rest as it was |
| Text.TrimEndFacts | ConfigParser.cs:14 | the trailing half of `Trim` drops exactly the trailing run |
| Text.TrimWhite | ConfigParser.cs:14-15 | a trimmed line is empty exactly when the line is all white space, and otherwise it starts and ends with a non-white character |
| Text.TrimWithOf | ConfigParser.cs:14 | a text made of white space, a middle that neither starts nor ends in white space, and white space again trims to that middle |
| Text.TrimStartPast | ConfigParser.cs:14 | `TrimStart` over a white-space run followed by a non-white character gives the rest |
| Text.TrimEndPast | ConfigParser.cs:14 | trimming the end over a trailing white-space run gives the rest |
| Text.IndentWidth | Services/ConfigService.cs:112-113 | `Length - TrimStart().Length` is the length of the leading white-space run: those characters are white and the next one is not |
| Text.IndexOf | ConfigParser.cs:29 | the first occurrence of the delimiter: an index holding it with no earlier occurrence |
| Text.SplitFirst | ConfigParser.cs:29-31 | `Split(c, 2)` cuts at the first delimiter: left + delimiter + right is the input again, and the left part contains no delimiter |
| Text.SplitFirstUnique | ConfigParser.cs:29 | any cut at a first delimiter is the one `Split(c, 2)` makes |
| Text.JoinSplits | Services/ConfigService.cs:91 | joining with a one-character separator puts it between every two parts: when no part holds the separator, the joined text holds it exactly when there are two parts or more |
| Text.JoinInjective | Services/ConfigService.cs:91 | `string.Join("\n", parts)` loses nothing when no part holds a line break: two non-empty lists of parts that join to the same text are equal |
| Text.LowerFacts | MainWindow.xaml.cs:405 | `ToLower` keeps the length, maps each capital ASCII letter to its small letter and keeps every other character, leaves no capital behind, and is idempotent |
| Text.LowerSplits | ViewModels/ConfigurationEntryViewModel.cs:53 | `ToLower` distributes over concatenation |
| Text.LowerTrimCommutes | ViewModels/ConfigurationEntryViewModel.cs:53 | for a character class that lower-casing neither enters nor leaves, trimming and `ToLower` may be done in either order |
| Scalars.Wrap32 | Controls/NumericUpDown.xaml.cs:86 | 32-bit two's-complement wrap-around: the result is an `int` value congruent to the input modulo 2^32, and it is unchanged when the input is already in range |
| Scalars.DigitChar | MainWindow.xaml.cs:205 | the digit character with a given value |
| Scalars.NatDigits | MainWindow.xaml.cs:205 | decimal digits of a natural number, with no leading zero unless the number is 0 |
| Scalars.NatDigitsValue | MainWindow.xaml.cs:205 | the digits read back as the number they were made from |
| Scalars.IntegerTextChars | MainWindow.xaml.cs:410 | an integer text is made of digits and signs only and ends in a digit |
| Scalars.NumberTextSlice | MainWindow.xaml.cs:410 | the text `int.TryParse` reads the number from is a slice of the input with white space before it and white space followed by NUL characters after it |
| Scalars.ParsePadded | MainWindow.xaml.cs:410 | an optional sign and digits, with any white space around them and any NUL characters after, parse to their value exactly when it fits in 32 bits, and fail otherwise |
| Scalars.ParseTrailingNul | MainWindow.xaml.cs:384 | `int.TryParse` tolerates NUL characters at the end, also after trailing white space: `"5\0"` gives 5 and `" -12 \0\0"` gives -12 |
| Scalars.AcceptedShape | ViewModels/ConfigurationEntryViewModel.cs:56 | any text `int.TryParse` accepts is made of digits, signs, white space and NUL characters only, and after a NUL come only NULs |
| Scalars.ParseRejects | ViewModels/ConfigurationEntryViewModel.cs:56 | the empty text, a bare `+` or `-`, and a number followed by a NUL and then a space do not parse |
| Scalars.OutOfRangeRefused | ViewModels/ConfigurationEntryViewModel.cs:111 | a number outside the 32-bit range, written in decimal, does not parse |
| Scalars.IntToString | MainWindow.xaml.cs:205 | `Int32.ToString()` is a signed decimal numeral of the number, with a minus sign exactly for negative numbers and never a plus sign |
| Scalars.ParseFormatted | MainWindow.xaml.cs:410 | parsing a formatted 32-bit number gives the number back |
| Scalars.BoolPadded | ViewModels/ConfigurationEntryViewModel.cs:53 | `true` or `false` in any case, with any white space and NUL characters around it, parses, and yields whether it was `true` |
| Scalars.TryParseBoolIgnoresCase | ViewModels/ConfigurationEntryViewModel.cs:53 | lower-casing a text before `bool.TryParse` changes nothing |
| Scalars.IntegerIsNotBoolean | ViewModels/ConfigurationEntryViewModel.cs:53-56 | no text parses both as an integer and as a boolean |
| Scalars.IntegerTrimsToDigitEnd | ViewModels/ConfigurationEntryViewModel.cs:56 | a text that parses as an integer trims, with white space and NUL, to a text ending in a digit |
| Scalars.TrimToNumberText | ViewModels/ConfigurationEntryViewModel.cs:53-56 | when the number text neither starts nor ends with white space or NUL, trimming white space and NUL finds that same text |
| Scalars.DigitEndIsNotBoolean | MainWindow.xaml.cs:405 | a text ending in a digit does not lower-case to `true` or `false` |
| IniScan.Kinds | ConfigParser.cs:12-14 | one kind per line of the file |
| IniScan.KindAt | ConfigParser.cs:14-27 | the kind at index i is the kind of line i |
| IniScan.BlankOrCommentIsPassed | ConfigParser.cs:15-18 | a line is passed over exactly when its trimmed text is empty or starts with `;` |
| IniScan.HeaderName | ConfigParser.cs:22 | the section name is the text between the brackets of the trimmed header line |
| IniScan.CommentText | ConfigParser.cs:72 | a comment's text is the trimmed rest after the leading `;` |
| IniScan.RunStart | ConfigParser.cs:66-68 | the backward walk from `startIdx - 1` passes exactly the blank and comment lines directly above, and stops at the first other line or at the top of the file |
| IniScan.CommentsIn | ConfigParser.cs:65-75 | the collected comments are no more than the lines walked over |
| IniScan.CommentsInEmpty | ConfigParser.cs:70-77 | nothing is collected exactly when no walked line is a comment line |
| IniScan.ScanWellKinded | ConfigParser.cs:20-27 | every section of the scan starts at a header line and every entry comes from an assignment line |
| IniScan.StepWellKinded | ConfigParser.cs:12-57 | one loop iteration keeps that property |
| IniScan.HeaderLinesFacts | ConfigParser.cs:20-25 | the reference list of header lines holds exactly the header lines of the file, in increasing order |
| IniScan.AssignmentsFacts | ConfigParser.cs:27 | the reference list of assignment lines in a range holds exactly those lines, in increasing order |
| IniScan.ScanDescribed | ConfigParser.cs:12-58 | after any number of lines the scan has one section per header line, in header order, and each section's entries are exactly the assignment lines between its header and the next header |
| IniScan.StepPassesOver | ConfigParser.cs:15-27 | passed and ignored lines, and assignments before any header, leave the scan as it was |
| IniScan.StepOpensBlock | ConfigParser.cs:20-26 | a header opens a new, empty section after the existing ones |
| IniScan.StepAddsEntry | ConfigParser.cs:27-56 | an assignment is appended to the current, last section |
| IniScan.Placement | ConfigParser.cs:27-56 | every entry's line is an assignment line after its section's header, before the end of what was read, with no header in between |
| IniScan.Keeps | ConfigParser.cs:27 | an assignment line ends up in some section exactly when some header comes before it |
| WpfModel.NewEntry | ConfigEntry.cs:26-32 | the constructor stores name and value as given, tooltip and line number default to null, and `InlineComment` is null until assigned |
| WpfModel.WithValue | ConfigEntry.cs:9-12 | the `Value` setter changes the value and nothing else |
| WpfModel.WithInlineComment | ConfigEntry.cs:21-24 | the `InlineComment` setter changes the inline comment and nothing else |
| WpfModel.NewSection | ConfigSection.cs:19-24 | the constructor stores the name, tooltip and line number default to null, and `Entries` starts empty |
| WpfModel.AddEntry | ConfigSection.cs:17 | `Entries.Add` appends one entry at the end, keeps the earlier entries and changes none of the section's own fields |
| WpfParser.EntryTable | ConfigParser.cs:27-56 | one entry reading per line |
| WpfParser.SectionTable | ConfigParser.cs:20-25 | one section reading per line |
| WpfParser.Build | ConfigParser.cs:24-56 | one section per skeleton block |
| WpfParser.ParseIsBuild | ConfigParser.cs:12-58 | after any number of lines, the parser's sections are the records read at the skeleton's lines |
| WpfParser.HeaderStep | ConfigParser.cs:20-26 | a header iteration keeps that correspondence |
| WpfParser.AssignmentStep | ConfigParser.cs:27-57 | an assignment iteration keeps that correspondence |
| WpfParser.ParseComments | ConfigParser.cs:63-78 | the backward walk returns the comment texts of the run above the line, in file order joined by `"\n"`, or null when it collected none |
| WpfParser.ParseIniWithComments | ConfigParser.cs:6-61 | the loop returns exactly the parse of the lines, and returns the line array unchanged |
| WpfParser.ReadSection | ConfigParser.cs:22-24 | a header line gives the section read at that index |
| WpfParser.ReadEntry | ConfigParser.cs:29-55 | an assignment line gives the entry read at that index |
| WpfParser.BuildOpens | ConfigParser.cs:24-25 | opening a block appends that header's section with no entries |
| WpfParser.BuildAdds | ConfigParser.cs:56 | adding to the last block appends the entry to the last section |
| WpfParser.ParseFacts | ConfigParser.cs:12-58 | the parse is the records built from the file's skeleton, and that skeleton describes the file |
| WpfParser.ParsedShape | ConfigParser.cs:24-56 | one section per skeleton block, with one entry per skeleton entry |
| WpfParser.SectionLine | ConfigParser.cs:24 | section j's line number is the skeleton's header line j |
| WpfParser.EntryRead | ConfigParser.cs:52-56 | entry t of section j is the entry read at its skeleton line, which is an assignment line |
| WpfParser.EntryLine | ConfigParser.cs:52 | an entry's line number is its skeleton line |
| WpfParser.ParsedSection | ConfigParser.cs:20-25 | each section's line number is a header line of the file, its name is that header's bracketed text, and its tooltip is that line's look-behind |
| WpfParser.ParsedSectionsOrdered | ConfigParser.cs:25 | sections appear in header order with strictly increasing line numbers, so none is merged |
| WpfParser.HeaderOpensSection | ConfigParser.cs:20-26 | every header line of the file opens a section |
| WpfParser.ParsedEntry | ConfigParser.cs:27-56 | each entry comes from an assignment line after its section's header with no header in between, and is the entry read at that line |
| WpfParser.ParsedEntriesOrdered | ConfigParser.cs:56 | entries keep file order within a section |
| WpfParser.AssignmentKept | ConfigParser.cs:27 | an assignment line yields an entry somewhere exactly when a header comes before it |
| WpfParser.PassedLineUnused | ConfigParser.cs:15-18 | an empty or comment line is the line of no section and of no entry |
| WpfParser.EntryFields | ConfigParser.cs:29-55 | name and value are the trimmed parts around the first `=`, the line number is the index, and with no `;` the inline comment is null and the tooltip is the look-behind |
| WpfParser.EntryComment | ConfigParser.cs:36-49 | with a `;` the value is the trimmed text before the first `;`, the inline comment is the trimmed text after it, and the tooltip is the look-behind, then `"\n"`, then the comment (the comment alone when the look-behind is null or empty) |
| WpfParser.LookBehindNull | ConfigParser.cs:77 | the look-behind is null exactly when no line of the walked run is a comment |
| AvaloniaModel.NewEntry | Models/ConfigEntry.cs:8-14 | the primary constructor stores name and value, the tooltip defaults to `""`, the line number to null and the init-only inline comment to `""` |
| AvaloniaModel.WithValue | Models/ConfigEntry.cs:11 | the `Value` setter changes only the value, so the init-only inline comment is kept |
| AvaloniaModel.NewSection | Models/ConfigSection.cs:13-18 | the constructor stores the name, the tooltip defaults to `""`, the line number to null, and `Entries` starts empty |
| AvaloniaModel.AddEntries | Models/ConfigSection.cs:18 | `Entries.Add`/`AddRange` append at the end in order and keep the earlier entries |
| ConfigService.ParseComments | Services/ConfigService.cs:77-92 | the collected comment texts of the run above the line, in file order joined by `"\n"`, and `""` when there are none |
| ConfigService.LookBehindsAgree | Services/ConfigService.cs:91 | this look-behind is the WPF one with null read as `""` |
| ConfigService.ParseIniWithComments | Services/ConfigService.cs:19-68 | the loop returns the WPF parse of the same lines with null texts read as `""`, so section detection, both first-delimiter splits and the dropping of entries before any section match; a value with no `;` has inline comment `""`; the lines come back unchanged |
| ConfigService.ReadSection | Services/ConfigService.cs:33-35 | a header line gives the section the WPF parser reads there, converted |
| ConfigService.ReadEntry | Services/ConfigService.cs:40-62 | an assignment line gives the entry the WPF parser reads there, converted |
| ConfigService.NextSkips | Services/ConfigService.cs:27-29 | a passed or ignored line leaves the converted parse unchanged |
| ConfigService.NextOpens | Services/ConfigService.cs:31-37 | a header appends the converted section |
| ConfigService.NextAdds | Services/ConfigService.cs:38-63 | an assignment appends the converted entry to the last section |
| ConfigService.AssignmentNext | ConfigParser.cs:27-56 | the WPF parser appends the entry read at an assignment line to its last section |
| ConfigService.AddToLast | Services/ConfigService.cs:63 | appending to the current section keeps the number of sections |
| ConfigService.WAddToLast | ConfigParser.cs:56 | appending to the current section keeps the number of sections |
| ConfigService.FromWpfAppend | Services/ConfigService.cs:36 | conversion commutes with appending a section |
| ConfigService.FromWpfAdd | Services/ConfigService.cs:63 | conversion commutes with appending an entry to the last section |
| ConfigService.AllEntriesMembers | Services/ConfigService.cs:106 | `SelectMany` lists exactly the entries of the sections |
| ConfigService.LeadingSpaces | Services/ConfigService.cs:112-113 | the count of leading white-space characters of the original line |
| ConfigService.SaveIni | Services/ConfigService.cs:102-123 | the save loop's lines are the shared writer applied to the original lines with one patch per entry in section-then-entry order: `name=value`, plus `\t\t\t; comment` when the inline comment is non-empty, plus `"\n"`; the result is an error when a line number lies outside the original lines |
| ConfigService.ParsedEntryLine | Services/ConfigService.cs:59 | every parsed entry carries the index of the assignment line it was read from |
| ConfigService.ParsedFileSaves | Services/ConfigService.cs:102-123 | saving a parsed file never fails and keeps the line count; every line either stays as it was or is an assignment line rewritten, re-indented with spaces, as its own entry's composed text plus `"\n"` |
| ConfigService.WrittenLine | Services/ConfigService.cs:114 | a line the save rewrites for a parsed file is an assignment line, and it receives that same entry's composed text |
| ConfigService.SavedLineReadsBack | Services/ConfigService.cs:108-114 | a saved line, parsed again, gives back the entry's name, value and inline comment |
| ConfigService.CommentSplit | Services/ConfigService.cs:47-51 | a composed line with a comment splits at its first `;` into the value and the comment |
| ConfigService.ValueBeforeComment | Services/ConfigService.cs:108 | a composed `value\t\t\t; comment` trims to itself and its part before `;` trims to the value |
| ConfigService.NoValueBeforeComment | Services/ConfigService.cs:108 | with an empty value, the composed comment part trims to `; comment` |
| ConfigService.ComposedEnds | Services/ConfigService.cs:108 | a composed line can be parsed again: it neither starts nor ends with white space, does not start with `;` or `[`, and contains `=` |
| LinePatch.Reindent | Services/ConfigService.cs:112-114 | an overwritten line is one space per leading white-space character of the original line, then the new text |
| LinePatch.Apply | MainWindow.xaml.cs:153-177 | the saved copy is never shorter than the original lines |
| LinePatch.ApplyFails | MainWindow.xaml.cs:168-170 | the writer fails exactly when some patch names a line outside the original lines, and then it reports the first such line number |
| LinePatch.ApplyWrites | Services/ConfigService.cs:104-119 | when it succeeds, the output length is the original count plus the number of entries without a line number; the unnumbered texts are appended in order; every original line no patch names keeps its text; every named line gets the re-indented text of the last patch naming it |
| LinePatch.Untouched | Services/ConfigService.cs:104-115 | an original line that no entry names keeps its original text |
| LinePatch.NoLastWrite | MainWindow.xaml.cs:166-171 | a line no patch names has no last write |
| LinePatch.FailureStops | MainWindow.xaml.cs:186-193 | once a patch fails, later patches do not change the outcome |
| LinePatch.ApplyNext | MainWindow.xaml.cs:157-176 | taking one more patch is one loop iteration on the working copy |
| LinePatch.NothingAppended | MainWindow.xaml.cs:172-175 | when every entry has a line number, nothing is appended |
| LinePatch.LastWriteFrom | Services/ConfigService.cs:114 | a last write to line n is the text of some patch naming n |
| WpfWidgets.CharsetsTable | MainWindow.xaml.cs:341-362 | the table has 19 items with pairwise distinct numbers and names, and item 1 is `DEFAULT_CHARSET` with number 1 |
| WpfWidgets.CharsetsIncreasing | MainWindow.xaml.cs:341-362 | the table's numbers increase strictly |
| WpfWidgets.CharsetIndexFrom | MainWindow.xaml.cs:386-387 | `FirstOrDefault` finds the first item with the number, or reports that there is none |
| WpfWidgets.FindCharsetFinds | MainWindow.xaml.cs:386-391 | the lookup finds an item exactly when the table has that number, and that item is in the table and has the number |
| WpfWidgets.WidgetKinds | MainWindow.xaml.cs:364-432 | `Hotkeys`, `Log` or `uTintMaskResolution` always gives a text box showing the value; otherwise `nCharset` gives a combo box; otherwise a check box exactly for `true`/`false` in any case and a stepper exactly for an `int`, so the order of the two tests does not matter, and a text box for the rest; every stepper has minimum 0, step 1 and a value in [0, 999999], and its maximum is 2 for `bUIDarkThemeID` and `nGenerationVersion` and 999999 otherwise |
| WpfWidgets.CheckBoxAsParsed | MainWindow.xaml.cs:405-407 | a checkbox is checked exactly when `bool.Parse` reads `true` |
| WpfWidgets.CharsetSelection | MainWindow.xaml.cs:371-403 | the combo box always has a table item selected: the one whose number is the parsed value, or `DEFAULT_CHARSET` when parsing fails or no item matches |
| WpfWidgets.TextOnlyReadBack | MainWindow.xaml.cs:366-369 | a text-only widget reads back the value unchanged |
| WpfWidgets.CharsetReadBack | MainWindow.xaml.cs:371-403 | the combo box reads back the parsed number when the table has it, and `1` otherwise |
| WpfWidgets.BooleanReadBack | MainWindow.xaml.cs:405-407 | a checkbox reads back as the value in lower case |
| WpfWidgets.NumberReadBack | MainWindow.xaml.cs:410-429 | a stepper reads back the parsed number clamped to [0, 999999], in decimal |
| WpfWidgets.OtherTextReadBack | MainWindow.xaml.cs:431 | a plain text box reads back the value unchanged |
| WpfWidgets.UneditedValueKept | MainWindow.xaml.cs:364-432 | an unedited widget reads back its value when that value is a number in [0, 999999], `true`, `false` or a non-numeric text |
| WpfWidgets.FormattedIsNotBoolean | MainWindow.xaml.cs:405-410 | a formatted number parses back and never gets a checkbox |
| WpfWidgets.ThemeStepperKeepsValue | MainWindow.xaml.cs:412-420 | because `Value` is assigned before the bounds, `bUIDarkThemeID=5` gives a stepper still showing 5 with bounds [0, 2] |
| WpfWidgets.FileName | MainWindow.xaml.cs:244 | `Path.GetFileName` is the final suffix of the path that contains no separator |
| WpfWidgets.LastSeparator | MainWindow.xaml.cs:244 | the position of the last separator before the end |
| WpfWidgets.VerifyFilename | MainWindow.xaml.cs:241-256 | the check passes (no warning) exactly when the final path component is `CreationKitPlatformExtended.ini` |
| WpfWidgets.VerifyFilenameAccepts | MainWindow.xaml.cs:241-256 | any directory followed by `\` or `/` and the expected name passes |
| WpfWidgets.VerifyFilenameCaseSensitive | MainWindow.xaml.cs:246 | the check is case-sensitive: the name in lower case is refused |
| WpfWidgets.VerifyFilenameLastComponent | MainWindow.xaml.cs:244-246 | only the last component counts: a file inside a folder with the expected name is refused |
| WpfWidgets.FileNameAfter | MainWindow.xaml.cs:244 | the file name after a final separator is the text after it |
| WpfWindow.Render | MainWindow.xaml.cs:153-177 | the rendered copy is never shorter than the original lines |
| WpfWindow.RenderIsApply | MainWindow.xaml.cs:153-177 | when every entry has a widget, the save loop is the shared writer with `name=widgetValue`, plus `\t\t\t; comment` when the inline comment is not null, and no trailing `"\n"`; an out-of-range line number fails |
| WpfWindow.MissingWidgetFails | MainWindow.xaml.cs:159 | an entry with no widget makes the save fail, at the first such entry when nothing failed before it |
| WpfWindow.FailureKept | MainWindow.xaml.cs:186-193 | a failure ends the loop: later entries do not change the outcome |
| WpfWindow.RenderNext | MainWindow.xaml.cs:157-176 | one more entry is one loop iteration |
| WpfWindow.ItemsPrefix | MainWindow.xaml.cs:155 | the items of the first sections come first |
| WpfWindow.ItemsAfterSection | MainWindow.xaml.cs:155-157 | the outer loop visits a section's entries right after the earlier sections' entries |
| WpfWindow.ItemAt | MainWindow.xaml.cs:157 | the inner loop's j-th item is that section's j-th entry |
| WpfWindow.ItemsMembers | MainWindow.xaml.cs:155-157 | the loops visit exactly the (section, entry) pairs of the sections |
| WpfWindow.WidgetMapKeys | MainWindow.xaml.cs:324-334 | after `RefreshUi` there is a widget exactly for each (section name, entry name) key of the file |
| WpfWindow.WidgetMapLast | MainWindow.xaml.cs:324-334 | the widget for a key is the one made for the last entry with that key |
| WpfWindow.MainWindow.constructor | MainWindow.xaml.cs:18-33 | no sections, widgets or lines, no current file, and not saving |
| WpfWindow.MainWindow.LoadIni | MainWindow.xaml.cs:96-117 | a cancelled dialog or a wrong file name changes nothing (the latter warns); otherwise the window holds the file's parse, its lines, the file as current file and one widget per key |
| WpfWindow.MainWindow.EditWidget | MainWindow.xaml.cs:334 | a user edit replaces one widget's state, of the same kind, and nothing else |
| WpfWindow.MainWindow.SaveIni | MainWindow.xaml.cs:119-198 | a save entered while saving returns at once and changes nothing; otherwise the latch is false again whenever the save exits; a cancelled dialog or a wrong file name writes nothing; otherwise the current file is set and the outcome is the rendered lines written, or the render or write failure |
| WpfWindow.RenderSections | MainWindow.xaml.cs:153-177 | the nested loops compute exactly `Render` of the original lines over all items |
| WpfWindow.RenderSection | MainWindow.xaml.cs:155-177 | the body of the outer loop extends the render by one section, or fails as the whole render does |
| WpfWindow.RenderEntries | MainWindow.xaml.cs:157-176 | the inner loop extends the render by the section's entries |
| WpfWindow.RenderNextEntry | MainWindow.xaml.cs:157-176 | one iteration of the inner loop extends the render by one entry |
| WpfWindow.RenderEntry | MainWindow.xaml.cs:159-175 | one entry: look up its widget, compose its line, then overwrite its line by index or append |
| WpfWindow.ParsedItem | ConfigParser.cs:52 | every parsed entry carries the index of an assignment line of the file |
| WpfWindow.LoadedFileSaves | MainWindow.xaml.cs:153-177 | saving a just-loaded file never fails, keeps the line count and keeps every line that is not an assignment |
| NumericUpDown.Clamp | Controls/NumericUpDown.xaml.cs:71-82 | a value below the minimum becomes the minimum, one above the maximum becomes the maximum, and any other is kept |
| NumericUpDown.NumericUpDownControl.constructor | Controls/NumericUpDown.xaml.cs:10-38 | defaults `Value` 0, `Minimum` 0, `Maximum` 999999, `Step` 1 |
| NumericUpDown.NumericUpDownControl.SetValue | Controls/NumericUpDown.xaml.cs:71-82 | assigning `Value` runs the change callback only when the value changes; the result is the clamped value; the bounds and step are unchanged |
| NumericUpDown.NumericUpDownControl.OnValueChanged | Controls/NumericUpDown.xaml.cs:71-82 | the callback leaves the value clamped to [`Minimum`, `Maximum`] |
| NumericUpDown.NumericUpDownControl.SetMinimum | Controls/NumericUpDown.xaml.cs:19-24 | changing `Minimum` registers no callback, so the value is kept |
| NumericUpDown.NumericUpDownControl.SetMaximum | Controls/NumericUpDown.xaml.cs:26-31 | changing `Maximum` registers no callback, so the value is kept |
| NumericUpDown.NumericUpDownControl.SetStep | Controls/NumericUpDown.xaml.cs:33-38 | changing `Step` changes only the step |
| NumericUpDown.NumericUpDownControl.Up | Controls/NumericUpDown.xaml.cs:84-87 | `Value := min(Maximum, Value + Step)` with 32-bit addition, then the change callback |
| NumericUpDown.NumericUpDownControl.Down | Controls/NumericUpDown.xaml.cs:89-92 | `Value := max(Minimum, Value - Step)` with 32-bit subtraction, then the change callback |
| NumericUpDown.AssignedInRange | Controls/NumericUpDown.xaml.cs:71-82 | a value within the bounds stays within them after any assignment |
| NumericUpDown.AssignedClamps | Controls/NumericUpDown.xaml.cs:77-80 | an assignment keeps an in-range value and replaces an out-of-range new value by the bound it crosses |
| NumericUpDown.StepsKeepRange | Controls/NumericUpDown.xaml.cs:77-91 | from a value within the bounds, Up and Down stay within them |
| NumericUpDown.StepsMoveTheRightWay | Controls/NumericUpDown.xaml.cs:84-92 | with a non-negative step and no overflow, Up never lowers the value and Down never raises it |
| NumericUpDown.UpIdempotentAtMaximum | Controls/NumericUpDown.xaml.cs:86 | Up at the maximum stays there, when the sum does not overflow |
| NumericUpDown.DownIdempotentAtMinimum | Controls/NumericUpDown.xaml.cs:91 | Down at the minimum stays there, when the difference does not overflow |
| NumericUpDown.UpWrapsAtMaximum | Controls/NumericUpDown.xaml.cs:86 | at `Maximum` = `int.MaxValue`, Up wraps to a negative sum, which the callback clamps to the minimum 0 |
| NumericUpDown.DownWrapsAtMinimum | Controls/NumericUpDown.xaml.cs:91 | at `Minimum` = `int.MinValue`, Down wraps to a positive difference, which the callback clamps to the maximum 0 |
| NumericUpDown.UpUnwrappedIdempotentAtMaximum | Controls/NumericUpDown.xaml.cs:86 | Up without overflow is idempotent at the maximum, and agrees with Up wherever the sum fits in 32 bits |
| NumericUpDown.DownUnwrappedIdempotentAtMinimum | Controls/NumericUpDown.xaml.cs:91 | Down without overflow is idempotent at the minimum, and agrees with Down wherever the difference fits in 32 bits |
| NumericUpDown.AcceptedTexts | Controls/NumericUpDown.xaml.cs:64 | the filter accepts the empty text, a lone `-` and every formatted integer |
| NumericUpDown.AcceptedShape | Controls/NumericUpDown.xaml.cs:64 | an accepted text is digits with an optional leading `-`, and possibly a final newline, which `$` allows |
| NumericUpDown.DigitKeystrokes | Controls/NumericUpDown.xaml.cs:94-100 | at the end of a numeric text a digit keystroke is accepted and a letter is refused |
| EntryViewModel.Tables | ViewModels/ConfigurationEntryViewModel.cs:80-108 | the charset collection has 19 items with pairwise distinct numbers; the themes are exactly 0, 1, 2 |
| EntryViewModel.FirstWithValue | ViewModels/ConfigurationEntryViewModel.cs:113-118 | `FirstOrDefault` gives the first item with the number, or null exactly when there is none |
| EntryViewModel.FindsItself | ViewModels/ConfigurationEntryViewModel.cs:113-118 | in a table with distinct numbers, looking up an item's number finds that item |
| EntryViewModel.KindsExclusive | ViewModels/ConfigurationEntryViewModel.cs:53-65 | the `ToLower` before `bool.TryParse` changes nothing; a boolean is never an integer, so the check box and the plain stepper are never both shown; the default text box is shown exactly when none of the check box, the plain stepper, the charset and the theme editor is |
| EntryViewModel.LoweredIntegerIsNotBoolean | ViewModels/ConfigurationEntryViewModel.cs:53-56 | a value that parses as an integer does not parse as a boolean, even after `ToLower` |
| EntryViewModel.ConfigEntryViewModel.constructor | ViewModels/ConfigurationEntryViewModel.cs:74-120 | the initial `Value` is the entry's value, and each selection is the first table item with the parsed number, for an entry of that kind whose value parses |
| EntryViewModel.ConfigEntryViewModel.SetValue | ViewModels/ConfigurationEntryViewModel.cs:21-25 | the `Value` setter changes only the value |
| EntryViewModel.ConfigEntryViewModel.SetSelectedCharset | ViewModels/ConfigurationEntryViewModel.cs:27-38 | selecting an item sets `Value` to its number in decimal; selecting null leaves `Value` as it was |
| EntryViewModel.ConfigEntryViewModel.SetSelectedTheme | ViewModels/ConfigurationEntryViewModel.cs:40-51 | selecting an item sets `Value` to its number in decimal; selecting null leaves `Value` as it was |
| EntryViewModel.ConfigEntryViewModel.ToModel | ViewModels/ConfigurationEntryViewModel.cs:128-134 | name, tooltip, line number and inline comment come from the wrapped entry, and the value from the current state |
| EntryViewModel.InitialSelection | ViewModels/ConfigurationEntryViewModel.cs:110-119 | a selection exists only for an entry of the right kind whose value parses, and is then a table item with that number; one exists whenever the table has the number |
| EntryViewModel.Selected | ViewModels/ConfigurationEntryViewModel.cs:33-49 | null keeps the value; an item gives a text that parses back to its number |
| EntryViewModel.SelectionRoundTrip | ViewModels/ConfigurationEntryViewModel.cs:27-114 | choosing a charset and reopening the entry selects the same charset |
| EntryViewModel.ThemeRoundTrip | ViewModels/ConfigurationEntryViewModel.cs:40-119 | choosing a theme and reopening the entry selects the same theme |
| EntryViewModel.UneditedToModel | ViewModels/ConfigurationEntryViewModel.cs:78-134 | without an edit, `ToModel` reproduces the wrapped entry field for field |
| SectionViewModel.ConfigSectionViewModel.constructor | ViewModels/ConfigSectionViewModel.cs:19-24 | exactly one fresh entry view model per model entry, in the same order, each wrapping its entry and this section |
| SectionViewModel.ConfigSectionViewModel.ToModel | ViewModels/ConfigSectionViewModel.cs:31-36 | the section's name, tooltip and line number are kept, with one entry per view model, in order |
| SectionViewModel.UneditedRoundTrip | ViewModels/ConfigSectionViewModel.cs:19-36 | right after construction, `ToModel` gives back the wrapped section |

## Left out

- File access (`File.ReadAllLines`, `File.WriteAllLines` and their async forms) is the boundary. Parsing takes the lines, and saving returns the lines. How `WriteAllLines` joins lines is not modelled, so the Avalonia saver's extra `"\n"` is kept as part of the line (on disk it gives a blank line after each rewritten entry).
- The "Save Complete" and "Save Failed" message boxes and the exception text are not modelled. A write failure is a parameter of `WpfWindow.MainWindow.SaveIni`. The only failures modelled inside the save are a missing widget and an out-of-range line number.
- The file dialogs are parameters: the chosen path, or none when the dialog is cancelled.
- UI construction is not modelled: branding, `RefreshUi` layout, `CreateSectionWidget` beyond the widget map, tooltips on controls, and the XAML bindings of the stepper's text box. `HasUnsavedChanges` always returns false, so the closing prompt in `MainWindow_Closing` never appears; neither is modelled.
- `ToLower` is modelled for ASCII letters only. The source uses the current culture.
- `int.TryParse` is modelled with ASCII digits, the signs `+` and `-`, .NET white space around the number and NUL characters at its end. Culture-specific sign symbols are not modelled; the model uses the invariant ones.
- `StartsWith(";")`, `StartsWith("[")` and `EndsWith("]")` (in `ConfigParser.cs` and `Services/ConfigService.cs`) are modelled by `Text.StartsWith` and `Text.EndsWith` as ordinal tests of the first or last character. The source compares with the current culture, which ignores zero-weight characters such as the soft hyphen U+00AD; a line such as `\u00AD;x` counts as a comment there but not in the model.
- The input filter's `\d` is modelled as ASCII digits. The filter's caret insertion ignores a selected range: typing over a selection is not modelled.
- `Path.GetFileName` is modelled for `\` and `/` separators and a leading drive `X:`. Other path roots are not modelled.
- NumericUpDown.NumericUpDownControl.SetValue: requires `Minimum <= Maximum` whenever the value changes, because otherwise the source's clamping callback re-enters itself without end.
- NumericUpDown.NumericUpDownControl.Up: requires `Minimum <= Maximum`, for the same reason.
- NumericUpDown.NumericUpDownControl.Down: requires `Minimum <= Maximum`, for the same reason.
- The "current section" is modelled as the last section of the list built so far. In the source it is a reference to that same section.
- `CharsetInfo` and `ThemeInfo` are modelled as values. The per-instance `Charsets` and `Themes` collections are modelled as module constants with the same items in the same order.
- Widget editing is modelled by `WpfWindow.MainWindow.EditWidget`, which keeps the widget's kind. The per-control event handlers of WPF are not modelled.
- Two entries with the same (section, entry) name pair share one widget in `_widgets`: the later one wins. The model keeps this behaviour (`WidgetMapLast`).
- `ViewModels/MainWindowViewModel.cs`, `Views/MainWindow.axaml.cs`, `Services/MessageDialog.cs`, `Services/IConfigService.cs`, `ViewLocator.cs`, `Program.cs` and `App.axaml.cs` are UI orchestration, reflection or start-up code and are not part of this model.
- Asynchrony and threading (`async`/`await`, the dispatcher) are not modelled. Each operation runs to completion.

