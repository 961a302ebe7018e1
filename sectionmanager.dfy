/** The section list editor (src/SectionManager.tsx): the saved sections,
    the error line and the section being edited, and the handlers that
    change them. */
module SectionManager {
  import opened Common
  import Export

  const StartMissing: string := "must specify start"
  const EndMissing: string := "must specify end"
  const NameMissing: string := "must specify name"
  const EndBeforeStart: string := "start must be before end!!!"
  const NameTaken: string := "name must not already be used!!!"

  predicate UniqueNames(sections: seq<Section>)
  {
    forall i, j :: 0 <= i < j < |sections| ==> sections[i].name != sections[j].name
  }

  /** `sections.some(s => s.name === name)`. */
  predicate NameUsed(sections: seq<Section>, name: string)
  {
    exists i :: 0 <= i < |sections| && sections[i].name == name
  }

  /** What saving the section in progress does. */
  datatype AddOutcome = NoChange | Rejected(error: string) | Added(section: Section)

  /** tryToAddSection's decision: nothing in progress changes nothing; the
      first missing field among start, end and name is reported; an end
      before the start and a name already in use are rejected; anything else
      is added. */
  function AddOutcomeOf(sections: seq<Section>, inProgress: Option<PartialSection>): (o: AddOutcome)
    ensures o.NoChange? <==> inProgress.None?
    ensures o == Rejected(StartMissing) <==> inProgress.Some? && inProgress.value.start.None?
    ensures o == Rejected(EndMissing) <==> inProgress.Some? && inProgress.value.start.Some? && inProgress.value.end.None?
    ensures o == Rejected(NameMissing) <==>
      inProgress.Some? && inProgress.value.start.Some? && inProgress.value.end.Some? && inProgress.value.name.None?
    ensures o.Added? ==>
      inProgress == Some(PartialSection(Some(o.section.name), Some(o.section.start), Some(o.section.end)))
      && o.section.start <= o.section.end && !NameUsed(sections, o.section.name)
    ensures inProgress.Some? && inProgress.value.start.Some? && inProgress.value.end.Some? && inProgress.value.name.Some? ==>
      var p := inProgress.value;
      && (o == Rejected(EndBeforeStart) <==> p.end.value < p.start.value)
      && (o == Rejected(NameTaken) <==> p.start.value <= p.end.value && NameUsed(sections, p.name.value))
      && (o.Added? <==> p.start.value <= p.end.value && !NameUsed(sections, p.name.value))
    ensures o.Rejected? ==> o.error in {StartMissing, EndMissing, NameMissing, EndBeforeStart, NameTaken}
  {
    if inProgress.None? then NoChange
    else
      var p := inProgress.value;
      if p.start.None? then Rejected(StartMissing)
      else if p.end.None? then Rejected(EndMissing)
      else if p.name.None? then Rejected(NameMissing)
      else if p.end.value < p.start.value then Rejected(EndBeforeStart)
      else if NameUsed(sections, p.name.value) then Rejected(NameTaken)
      else Added(Section(p.name.value, p.start.value, p.end.value))
  }

  /** `old.filter(os => os.name !== name)`. */
  function WithoutName(sections: seq<Section>, name: string): (r: seq<Section>)
    ensures |r| <= |sections|
    ensures forall s :: s in r <==> s in sections && s.name != name
  {
    if sections == [] then []
    else (if sections[0].name == name then [] else [sections[0]]) + WithoutName(sections[1..], name)
  }

  /** A saved section opened again for editing. */
  function AsPartial(s: Section): PartialSection
  {
    PartialSection(Some(s.name), Some(s.start), Some(s.end))
  }

  class SectionManager {
    var sections: seq<Section>
    var error: string
    var sectionInProgress: Option<PartialSection>

    /** No two saved sections share a name. */
    predicate Valid()
      reads this
    {
      UniqueNames(sections)
    }

    constructor(initial: seq<Section>)
      requires UniqueNames(initial)
      ensures Valid()
      ensures sections == initial && error == "" && sectionInProgress == None
    {
      sections := initial;
      error := "";
      sectionInProgress := None;
    }

    /** tryToAddSection. */
    method TryToAddSection()
      requires Valid()
      modifies this
      ensures Valid()
      ensures var o := AddOutcomeOf(old(sections), old(sectionInProgress));
        match o
        case NoChange =>
          sections == old(sections) && error == old(error) && sectionInProgress == old(sectionInProgress)
        case Rejected(e) =>
          sections == old(sections) && error == e && sectionInProgress == old(sectionInProgress)
        case Added(s) =>
          sections == old(sections) + [s] && error == "" && sectionInProgress == None
    {
      if sectionInProgress.None? {
        return;
      }
      var p := sectionInProgress.value;
      if p.start.None? {
        error := StartMissing;
        return;
      }
      if p.end.None? {
        error := EndMissing;
        return;
      }
      if p.name.None? {
        error := NameMissing;
        return;
      }
      var start, end, name := p.start.value, p.end.value, p.name.value;
      if end < start {
        error := EndBeforeStart;
      } else if NameUsed(sections, name) {
        error := NameTaken;
      } else {
        error := "";
        AddFreshNameKeepsUnique(sections, Section(name, start, end));
        sections := sections + [Section(name, start, end)];
        sectionInProgress := None;
      }
    }

    /** The delete icon of the row named `name`. */
    method DeleteSection(name: string)
      requires Valid()
      modifies this
      ensures Valid()
      ensures sections == WithoutName(old(sections), name)
      ensures error == old(error) && sectionInProgress == old(sectionInProgress)
    {
      WithoutNameKeepsUnique(sections, name);
      sections := WithoutName(sections, name);
    }

    /** The edit icon of row `s`: the section goes back into the editor and
        leaves the list. */
    method EditSection(s: Section)
      requires Valid()
      modifies this
      ensures Valid()
      ensures sectionInProgress == Some(AsPartial(s))
      ensures sections == WithoutName(old(sections), s.name)
      ensures error == old(error)
    {
      WithoutNameKeepsUnique(sections, s.name);
      sectionInProgress := Some(AsPartial(s));
      sections := WithoutName(sections, s.name);
    }

    /** The "New Section" button: an empty section in progress. */
    method NewSection()
      requires Valid()
      modifies this
      ensures Valid()
      ensures sectionInProgress == Some(PartialSection(None, None, None))
      ensures sections == old(sections) && error == old(error)
    {
      sectionInProgress := Some(PartialSection(None, None, None));
    }

    /** The cancel icon: the section in progress is dropped. */
    method Cancel()
      requires Valid()
      modifies this
      ensures Valid()
      ensures sectionInProgress == None
      ensures sections == old(sections) && error == old(error)
    {
      sectionInProgress := None;
    }

    /** Editing the start field: `{...old, start}`, which also starts a
        section when none is in progress. */
    method SetStart(start: real)
      requires Valid()
      modifies this
      ensures Valid()
      ensures sectionInProgress == Some(Pending(old(sectionInProgress)).(start := Some(start)))
      ensures sections == old(sections) && error == old(error)
    {
      sectionInProgress := Some(Pending(sectionInProgress).(start := Some(start)));
    }

    /** Editing the end field. */
    method SetEnd(end: real)
      requires Valid()
      modifies this
      ensures Valid()
      ensures sectionInProgress == Some(Pending(old(sectionInProgress)).(end := Some(end)))
      ensures sections == old(sections) && error == old(error)
    {
      sectionInProgress := Some(Pending(sectionInProgress).(end := Some(end)));
    }

    /** Choosing or clearing a name. */
    method SetName(name: Option<string>)
      requires Valid()
      modifies this
      ensures Valid()
      ensures sectionInProgress == Some(Pending(old(sectionInProgress)).(name := name))
      ensures sections == old(sections) && error == old(error)
    {
      sectionInProgress := Some(Pending(sectionInProgress).(name := name));
    }
  }

  /** Spreading `undefined` gives an empty object. */
  function Pending(p: Option<PartialSection>): PartialSection
  {
    if p.None? then PartialSection(None, None, None) else p.value
  }

  /** A section whose name is not yet used keeps the names unique. */
  lemma AddFreshNameKeepsUnique(sections: seq<Section>, s: Section)
    requires UniqueNames(sections) && !NameUsed(sections, s.name)
    ensures UniqueNames(sections + [s])
  {
    var r := sections + [s];
    forall i, j | 0 <= i < j < |r| ensures r[i].name != r[j].name {
      if j == |sections| {
        assert r[i] == sections[i];
      }
    }
  }

  /** Every successful save keeps the names unique. */
  lemma AddedKeepsNamesUnique(sections: seq<Section>, inProgress: Option<PartialSection>)
    requires UniqueNames(sections)
    requires AddOutcomeOf(sections, inProgress).Added?
    ensures UniqueNames(sections + [AddOutcomeOf(sections, inProgress).section])
  {
    AddFreshNameKeepsUnique(sections, AddOutcomeOf(sections, inProgress).section);
  }

  lemma {:induction false} WithoutNameKeepsUnique(sections: seq<Section>, name: string)
    requires UniqueNames(sections)
    ensures UniqueNames(WithoutName(sections, name))
    ensures !NameUsed(WithoutName(sections, name), name)
  {
    if sections != [] {
      WithoutNameKeepsUnique(sections[1..], name);
      var rest := WithoutName(sections[1..], name);
      var r := WithoutName(sections, name);
      if sections[0].name != name {
        assert r == [sections[0]] + rest;
        forall j | 0 <= j < |rest| ensures rest[j].name != sections[0].name {
          assert rest[j] in sections[1..];
          var k :| 0 <= k < |sections[1..]| && sections[1..][k] == rest[j];
          assert sections[k + 1] == rest[j];
        }
      } else {
        assert r == rest;
      }
    }
  }

  /** Opening a saved section for editing and saving it unchanged moves it
      to the end of the list. */
  lemma EditThenSaveMovesToEnd(sections: seq<Section>, s: Section)
    requires UniqueNames(sections) && s in sections && s.start <= s.end
    ensures AddOutcomeOf(WithoutName(sections, s.name), Some(AsPartial(s))) == Added(s)
  {
    WithoutNameKeepsUnique(sections, s.name);
  }

  /** A section that starts where it ends is saved, and then the shared
      validator flags it whenever that bound is non-zero, so it takes no
      part in the per-section figures; at zero it slips through. */
  lemma EmptySectionSavedButFlagged(sections: seq<Section>, name: string, t: real)
    requires !NameUsed(sections, name)
    ensures AddOutcomeOf(sections, Some(PartialSection(Some(name), Some(t), Some(t)))) == Added(Section(name, t, t))
    ensures Export.StartNotBeforeEnd in Export.FindErrorsInSection(PartialSection(Some(name), Some(t), Some(t))) <==> t != 0.0
    ensures Export.StartNotBeforeEnd in Export.FindErrorsInSectionIntended(PartialSection(Some(name), Some(t), Some(t)))
  {
  }

  /** A saved section never has its end before its start, so the only
      sections the editor saves and the intended validator rejects are the
      empty ones. */
  lemma SavedSectionsPassIntendedCheckUnlessEmpty(sections: seq<Section>, inProgress: Option<PartialSection>)
    requires AddOutcomeOf(sections, inProgress).Added?
    ensures var s := AddOutcomeOf(sections, inProgress).section;
      Export.FindErrorsInSectionIntended(AsPartial(s)) == [] <==> s.start < s.end
  {
    var s := AddOutcomeOf(sections, inProgress).section;
    var errs := Export.FindErrorsInSectionIntended(AsPartial(s));
    if s.start < s.end {
      assert Export.EndMissing !in errs && Export.StartMissing !in errs && Export.StartNotBeforeEnd !in errs;
    } else {
      assert Export.StartNotBeforeEnd in errs;
    }
  }
}
