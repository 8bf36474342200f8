/** ViewModels/ConfigSectionViewModel.cs: the Avalonia view model of a
    section, one entry view model per entry, and its conversion back to a
    model section. */
module SectionViewModel {
  import opened AvaloniaModel
  import opened EntryViewModel

  class ConfigSectionViewModel {
    const section: Section
    const entries: seq<ConfigEntryViewModel>

    /** `Entries` wraps each entry of the section, in order, in a new view
        model that reads it against this section. */
    constructor(section: Section)
      ensures this.section == section && |entries| == |section.entries|
      ensures forall i :: 0 <= i < |entries| ==> fresh(entries[i])
      ensures forall i :: 0 <= i < |entries| ==> Wraps(entries[i], section.entries[i], section)
    {
      this.section := section;
      var vms: seq<ConfigEntryViewModel> := [];
      for i := 0 to |section.entries|
        invariant |vms| == i
        invariant forall k :: 0 <= k < i ==> fresh(vms[k])
        invariant forall k :: 0 <= k < i ==> Wraps(vms[k], section.entries[k], section)
      {
        var vm := new ConfigEntryViewModel(section.entries[i], section);
        vms := vms + [vm];
      }
      entries := vms;
    }

    /** `ToModel`: the section's name, tooltip and line number, with the
        entries as their view models now give them, in order. */
    function ToModel(): (r: Section)
      reads this, entries
      ensures r.name == section.name && r.tooltip == section.tooltip && r.lineNumber == section.lineNumber
      ensures |r.entries| == |entries| && forall i :: 0 <= i < |entries| ==> r.entries[i] == entries[i].ToModel()
    {
      AddEntries(NewSection(section.name, section.tooltip, section.lineNumber),
                 seq(|entries|, i reads entries requires 0 <= i < |entries| => entries[i].ToModel()))
    }
  }

  /** `vm` is the view model the constructor made for entry `e` of `s`,
      with nothing edited yet. */
  predicate Wraps(vm: ConfigEntryViewModel, e: Entry, s: Section)
    reads vm
  {
    vm.entry == e && vm.section == s && vm.value == e.value
  }

  /** Without edits, converting back gives the section that was wrapped,
      field for field and entry for entry. */
  lemma UneditedRoundTrip(vm: ConfigSectionViewModel)
    requires |vm.entries| == |vm.section.entries|
    requires forall i :: 0 <= i < |vm.entries| ==> Wraps(vm.entries[i], vm.section.entries[i], vm.section)
    ensures vm.ToModel() == vm.section
  {
    var r := vm.ToModel();
    forall i | 0 <= i < |r.entries|
      ensures r.entries[i] == vm.section.entries[i]
    {
      UneditedToModel(vm.entries[i]);
    }
  }
}
