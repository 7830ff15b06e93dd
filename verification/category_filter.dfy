/** The filter panel of the recommendation grid: which genre and status options are
    selected, how a checkbox click, a "Clear" click and an "Apply" submit change that
    selection, and the class-name helper the panel renders with. The React state of the
    component is an explicit value here: every handler takes the current selection and
    returns the next one together with what it hands to the `onApplyFilters` callback. */
module CategoryFilter {
  import opened Wrappers
  import opened Seqs
  import opened Text
  import Ordering

  // ---------------------------------------------------------------------------
  // Class names
  // ---------------------------------------------------------------------------

  /** The arguments JavaScript's `Boolean` keeps (the non-empty strings) joined with
      single spaces. */
  function ClassNames(classes: seq<string>): (r: string)
    ensures r == "" <==> forall i :: 0 <= i < |classes| ==> classes[i] == ""
    ensures |classes| == 1 ==> r == classes[0]
  {
    var kept := Without(classes, "");
    assert kept == [] <==> forall i :: 0 <= i < |classes| ==> classes[i] == "" by {
      NonEmptyAreKept(classes);
      if kept != [] {
        assert kept[0] in kept;
        var i :| 0 <= i < |classes| && classes[i] == kept[0];
      } else {
        forall i | 0 <= i < |classes| ensures classes[i] == "" {
          assert classes[i] in classes;
        }
      }
    }
    assert kept != [] ==> kept[0] != "" by {
      NonEmptyAreKept(classes);
      assert kept != [] ==> kept[0] in kept;
    }
    Join(kept, ' ')
  }

  /** The non-empty arguments are exactly the elements of `Without(classes, "")`. */
  lemma NonEmptyAreKept(classes: seq<string>)
    ensures forall x :: x in Without(classes, "") <==> x != "" && x in classes
  {
    var kept := Without(classes, "");
    forall x ensures x in kept <==> x != "" && x in classes {
      assert x in kept <==> multiset(kept)[x] > 0;
      assert x in classes <==> multiset(classes)[x] > 0;
    }
  }

  /** When no argument contains a space, splitting the result on spaces recovers the
      non-empty arguments in their original order: each one appears as its own piece,
      separated by exactly one space. The panel's only call passes "h-5 w-5 transform",
      which contains spaces and so lies outside this lemma; `ClassNamesConcat` with the
      one-argument case of `ClassNames` covers every argument list, and `ClassNamesPair`
      spells out that call. */
  lemma {:induction false} ClassNamesSplit(classes: seq<string>)
    requires forall i :: 0 <= i < |classes| ==> ' ' !in classes[i]
    requires exists i :: 0 <= i < |classes| && classes[i] != ""
    ensures Split(ClassNames(classes), ' ') == Without(classes, "")
  {
    var kept := Without(classes, "");
    NonEmptyAreKept(classes);
    var i :| 0 <= i < |classes| && classes[i] != "";
    assert classes[i] in kept;
    forall j | 0 <= j < |kept| ensures ' ' !in kept[j] {
      assert kept[j] in kept;
    }
    SplitJoin(kept, ' ');
  }

  /** Two class strings as `ClassNames` combines them: a space between them only when both
      are non-empty. */
  function Combine(a: string, b: string): (r: string)
  {
    if a == "" then b else if b == "" then a else a + " " + b
  }

  /** `ClassNames` of a longer argument list is built from the class names of its parts. */
  lemma ClassNamesConcat(a: seq<string>, b: seq<string>)
    ensures ClassNames(a + b) == Combine(ClassNames(a), ClassNames(b))
  {
    WithoutConcat(a, b, "");
    var ka, kb := Without(a, ""), Without(b, "");
    if ka == [] {
      assert ka + kb == kb;
    } else if kb == [] {
      assert ka + kb == ka;
      NonEmptyAreKept(a);
      assert ka[0] in ka;
    } else {
      JoinConcat(ka, kb, ' ');
      NonEmptyAreKept(a);
      NonEmptyAreKept(b);
      assert ka[0] in ka && kb[0] in kb;
    }
  }

  /** Two non-empty arguments, as in the chevron icon's class list: the first, one space,
      then the second, whatever spaces either contains. */
  lemma ClassNamesPair(a: string, b: string)
    requires a != "" && b != ""
    ensures ClassNames([a, b]) == a + " " + b
  {
    ClassNamesConcat([a], [b]);
    assert [a] + [b] == [a, b];
  }

  // ---------------------------------------------------------------------------
  // Data model
  // ---------------------------------------------------------------------------

  /** One checkbox of a filter section; `caption` is the option's `label` (a reserved
      word in Dafny). */
  datatype FilterOption = FilterOption(value: string, caption: string)

  /** A collapsible group of checkboxes, identified by `id`. */
  datatype Section = Section(id: string, name: string, options: seq<FilterOption>)

  /** The selection: for each section id, the selected option values. */
  type Filter = map<string, seq<string>>

  /** What a handler leaves behind: the next selection state, and the filter handed to
      `onApplyFilters` if the handler calls it. */
  datatype Step = Step(selected: Filter, applied: Option<Filter>)

  const Genres: string := "genres"
  const Status: string := "status"

  /** The module-level section list before any genres are known: three status options,
      and a genres section whose options are filled in later. */
  const InitialSections: seq<Section> := [
    Section(Status, Status, [
      FilterOption("finished", "finished"),
      FilterOption("on_hiatus", "on_hiatus"),
      FilterOption("currently_publishing", "currently_publishing")
    ]),
    Section(Genres, Genres, [])
  ]

  /** The selection the component starts from: the current filters' genres and status. */
  function InitialSelection(currentGenres: seq<string>, currentStatus: seq<string>): (f: Filter)
    ensures f.Keys == {Genres, Status}
    ensures f[Genres] == currentGenres && f[Status] == currentStatus
    ensures forall id, v :: IsChecked(f, id, v) <==>
              (id == Genres && v in currentGenres) || (id == Status && v in currentStatus)
  {
    map[Genres := currentGenres, Status := currentStatus]
  }

  /** The values of a list of options, in order. */
  function Values(options: seq<FilterOption>): (vs: seq<string>)
    ensures |vs| == |options|
    ensures forall i :: 0 <= i < |vs| ==> vs[i] == options[i].value
  {
    seq(|options|, i requires 0 <= i < |options| => options[i].value)
  }

  /** A checkbox renders checked when its section's selection includes its value; a
      section missing from the selection (`undefined?.includes`) renders unchecked. */
  predicate IsChecked(f: Filter, sectionId: string, value: string)
  {
    sectionId in f && value in f[sectionId]
  }

  // ---------------------------------------------------------------------------
  // Genre options
  // ---------------------------------------------------------------------------

  /** The genre checkboxes: a sorted copy of `allGenres`, one option per genre, with the
      genre as both value and label. */
  function GenreOptions(allGenres: seq<string>): (options: seq<FilterOption>)
    ensures |options| == |allGenres|
    ensures forall i :: 0 <= i < |options| ==> options[i].value == options[i].caption
    ensures Ordering.Sorted(Values(options))
    ensures multiset(Values(options)) == multiset(allGenres)
  {
    var sorted := Ordering.Sort(allGenres);
    assert |sorted| == |multiset(sorted)| == |multiset(allGenres)| == |allGenres|;
    var options := seq(|sorted|, i requires 0 <= i < |sorted| => FilterOption(sorted[i], sorted[i]));
    assert Values(options) == sorted;
    options
  }

  /** The genre options are fully determined: any option list whose values are a sorted
      arrangement of `allGenres` and whose labels equal their values is `GenreOptions`. */
  lemma GenreOptionsDetermined(allGenres: seq<string>, options: seq<FilterOption>)
    requires forall i :: 0 <= i < |options| ==> options[i].value == options[i].caption
    requires Ordering.Sorted(Values(options))
    requires multiset(Values(options)) == multiset(allGenres)
    ensures options == GenreOptions(allGenres)
  {
    var expected := GenreOptions(allGenres);
    Ordering.SortedUnique(Values(options), Values(expected));
    assert |options| == |expected|;
    forall i | 0 <= i < |options| ensures options[i] == expected[i] {
      assert Values(options)[i] == Values(expected)[i];
    }
  }

  /** The index of the first section with the given id: JavaScript's `Array.prototype.find`. */
  function FindSection(sections: seq<Section>, id: string): (k: Option<nat>)
    ensures k.Some? ==> k.value < |sections| && sections[k.value].id == id
    ensures k.Some? ==> forall j :: 0 <= j < k.value ==> sections[j].id != id
    ensures k.None? <==> forall j :: 0 <= j < |sections| ==> sections[j].id != id
  {
    if sections == [] then None
    else if sections[0].id == id then Some(0)
    else
      match FindSection(sections[1..], id)
      case None => None
      case Some(i) => Some(i + 1)
  }

  /** The effect that runs when `allGenres` changes: the first section with id "genres"
      gets the genre options; every other section, and every id and name, stays as it
      was. Without a genres section nothing changes. */
  function InstallGenreOptions(sections: seq<Section>, allGenres: seq<string>): (r: seq<Section>)
    ensures |r| == |sections|
    ensures forall i :: 0 <= i < |r| ==> r[i].id == sections[i].id && r[i].name == sections[i].name
    ensures FindSection(sections, Genres).None? ==> r == sections
    ensures FindSection(sections, Genres).Some? ==>
              var k := FindSection(sections, Genres).value;
              r[k].options == GenreOptions(allGenres) &&
              forall i :: 0 <= i < |r| && i != k ==> r[i] == sections[i]
  {
    match FindSection(sections, Genres)
    case None => sections
    case Some(k) => sections[k := sections[k].(options := GenreOptions(allGenres))]
  }

  /** The genres effect applied to the panel's own section list: the status section stays
      as it is, the genres section gets the genre options, and the ids stay distinct. */
  lemma InstallOnInitialSections(allGenres: seq<string>)
    ensures InstallGenreOptions(InitialSections, allGenres) ==
            [InitialSections[0], Section(Genres, Genres, GenreOptions(allGenres))]
    ensures DistinctIds(InstallGenreOptions(InitialSections, allGenres))
  {
  }

  // ---------------------------------------------------------------------------
  // Checkbox clicks and "Clear"
  // ---------------------------------------------------------------------------

  /** A checkbox becoming checked: the value goes at the end of its section's list
      (`?.push`); a section missing from the selection is left missing. */
  function Check(f: Filter, sectionId: string, value: string): (r: Filter)
    ensures r.Keys == f.Keys
    ensures sectionId in f ==> r[sectionId] == f[sectionId] + [value]
    ensures forall k :: k in f && k != sectionId ==> r[k] == f[k]
    ensures IsChecked(r, sectionId, value) <==> sectionId in f
  {
    if sectionId in f then f[sectionId := f[sectionId] + [value]] else f
  }

  /** A checkbox becoming unchecked: every occurrence of the value leaves its section's
      list, the rest keep their order; a section missing from the selection is left
      missing. */
  function Uncheck(f: Filter, sectionId: string, value: string): (r: Filter)
    ensures r.Keys == f.Keys
    ensures sectionId in f ==>
              && IsSubsequence(r[sectionId], f[sectionId])
              && forall x :: x != value ==> multiset(r[sectionId])[x] == multiset(f[sectionId])[x]
    ensures forall k :: k in f && k != sectionId ==> r[k] == f[k]
    ensures !IsChecked(r, sectionId, value)
  {
    if sectionId in f then f[sectionId := Without(f[sectionId], value)] else f
  }

  /** A checkbox click. It never calls `onApplyFilters`. Afterwards the clicked box shows
      the state it was clicked into (when its section is part of the selection) and every
      other box shows what it showed before. */
  function HandleCheckboxChange(f: Filter, sectionId: string, value: string, isChecked: bool): (step: Step)
    ensures step.applied == None
    ensures step.selected.Keys == f.Keys
    ensures sectionId in f ==> (IsChecked(step.selected, sectionId, value) <==> isChecked)
    ensures sectionId !in f ==> step.selected == f
    ensures forall k, x :: k != sectionId || x != value ==>
              (IsChecked(step.selected, k, x) <==> IsChecked(f, k, x))
  {
    var r := if isChecked then Check(f, sectionId, value) else Uncheck(f, sectionId, value);
    assert forall x :: x != value ==> sectionId in f ==>
      (x in r[sectionId] <==> multiset(r[sectionId])[x] > 0) &&
      (x in f[sectionId] <==> multiset(f[sectionId])[x] > 0);
    Step(r, None)
  }

  /** Unchecking a value that checking added restores the selection exactly. */
  lemma UncheckUndoesCheck(f: Filter, sectionId: string, value: string)
    requires !IsChecked(f, sectionId, value)
    ensures Uncheck(Check(f, sectionId, value), sectionId, value) == f
  {
    if sectionId in f {
      WithoutConcat(f[sectionId], [value], value);
      WithoutAbsent(f[sectionId], value);
      assert Without([value], value) == [];
      assert Without(f[sectionId] + [value], value) == f[sectionId];
      assert Check(f, sectionId, value)[sectionId] == f[sectionId] + [value];
      var r := Uncheck(Check(f, sectionId, value), sectionId, value);
      assert r.Keys == f.Keys;
      assert forall k :: k in r ==> r[k] == f[k];
    }
  }

  /** The "Clear" button of a section: the section becomes empty (and is added if it was
      missing), nothing else changes, and the cleared selection is applied at once. */
  function HandleClear(f: Filter, sectionId: string): (step: Step)
    ensures step.applied == Some(step.selected)
    ensures step.selected.Keys == f.Keys + {sectionId}
    ensures step.selected[sectionId] == []
    ensures forall k :: k in f && k != sectionId ==> step.selected[k] == f[k]
    ensures forall x :: !IsChecked(step.selected, sectionId, x)
  {
    var updated := f[sectionId := []];
    Step(updated, Some(updated))
  }

  // ---------------------------------------------------------------------------
  // "Apply": rebuilding the selection from the checkboxes
  // ---------------------------------------------------------------------------

  /** No two sections share an id, as in the panel's own section list. */
  ghost predicate DistinctIds(sections: seq<Section>)
  {
    forall i, j :: 0 <= i < j < |sections| ==> sections[i].id != sections[j].id
  }

  /** Reading the boxes of the form in the popover of `form`. Only that section's boxes,
      `#filter-<id>-<i>` for its options, are in that form, and each reads as rendered:
      ticked exactly when the selection includes its value. Every other box is absent
      from the form and reads unticked. This assumes the form was last rendered from the
      same `sections` that the submit iterates; the genres effect changes the section list
      without a re-render, so in the program the form can lag it by one render. */
  function FormReading(form: Section, selected: Filter): (checked: (string, nat) -> bool)
    ensures forall i :: 0 <= i < |form.options| ==>
              (checked(form.id, i) <==> IsChecked(selected, form.id, form.options[i].value))
    ensures forall id: string, i: nat :: id != form.id || i >= |form.options| ==> !checked(id, i)
  {
    (id: string, i: nat) => id == form.id && i < |form.options| && IsChecked(selected, id, form.options[i].value)
  }

  /** The sections whose selection "Apply" collects. */
  predicate Collected(sectionId: string)
  {
    sectionId == Genres || sectionId == Status
  }

  /** Reference definition: the values of the options at index `from` and later whose
      checkbox `checked` reports as ticked, in option order. `checked(id, i)` stands for
      reading the box `#filter-<id>-<i>` from the submitted form. */
  function CheckedValues(options: seq<FilterOption>, sectionId: string, from: nat,
                         checked: (string, nat) -> bool): (vs: seq<string>)
    decreases |options| - from
  {
    if from >= |options| then []
    else (if checked(sectionId, from) then [options[from].value] else [])
         + CheckedValues(options, sectionId, from + 1, checked)
  }

  /** Reference definition: the checked values of every section with this id, section
      by section. */
  function SelectedFor(sections: seq<Section>, sectionId: string,
                       checked: (string, nat) -> bool): (vs: seq<string>)
  {
    if sections == [] then []
    else Contribution(sections[0], sectionId, checked) + SelectedFor(sections[1..], sectionId, checked)
  }

  /** Every option value of every section with this id, section by section. */
  function OptionValuesFor(sections: seq<Section>, sectionId: string): (vs: seq<string>)
  {
    if sections == [] then []
    else (if sections[0].id == sectionId then Values(sections[0].options) else [])
         + OptionValuesFor(sections[1..], sectionId)
  }

  /** The checked values of one section that land in the `sectionId` list: none unless
      the section has that id. */
  function Contribution(section: Section, sectionId: string, checked: (string, nat) -> bool): (vs: seq<string>)
  {
    if section.id == sectionId then CheckedValues(section.options, sectionId, 0, checked) else []
  }

  /** The object "Apply" fills in: a genres list and a status list. */
  datatype Lists = Lists(genres: seq<string>, status: seq<string>)

  /** The inner `forEach`: visit the options of one section from index `idx` on and push
      the value of each checked one onto the genres list or the status list, by section id;
      a checked option of any other section is dropped. */
  function CollectOptions(acc: Lists, sectionId: string, options: seq<FilterOption>, idx: nat,
                          checked: (string, nat) -> bool): (r: Lists)
    ensures r.genres == acc.genres + (if sectionId == Genres then CheckedValues(options, Genres, idx, checked) else [])
    ensures r.status == acc.status + (if sectionId == Status then CheckedValues(options, Status, idx, checked) else [])
    decreases |options| - idx
  {
    if idx >= |options| then acc
    else
      var value := options[idx].value;
      var here := if checked(sectionId, idx) then [value] else [];
      assert CheckedValues(options, sectionId, idx, checked) ==
             here + CheckedValues(options, sectionId, idx + 1, checked);
      ConcatAssoc(acc.genres, here, CheckedValues(options, sectionId, idx + 1, checked));
      ConcatAssoc(acc.status, here, CheckedValues(options, sectionId, idx + 1, checked));
      var next := if !checked(sectionId, idx) then acc
                  else if sectionId == Genres then acc.(genres := acc.genres + [value])
                  else if sectionId == Status then acc.(status := acc.status + [value])
                  else acc;
      CollectOptions(next, sectionId, options, idx + 1, checked)
  }

  /** The outer `forEach` over the sections. */
  function CollectSections(acc: Lists, sections: seq<Section>, checked: (string, nat) -> bool): (r: Lists)
    ensures r.genres == acc.genres + SelectedFor(sections, Genres, checked)
    ensures r.status == acc.status + SelectedFor(sections, Status, checked)
    decreases sections
  {
    if sections == [] then acc
    else
      var s := sections[0];
      var next := CollectOptions(acc, s.id, s.options, 0, checked);
      ConcatAssoc(acc.genres, Contribution(s, Genres, checked), SelectedFor(sections[1..], Genres, checked));
      ConcatAssoc(acc.status, Contribution(s, Status, checked), SelectedFor(sections[1..], Status, checked));
      CollectSections(next, sections[1..], checked)
  }

  /** The "Apply" submit. The next selection holds exactly the genres and status sections,
      each listing its checked options' values in option order. The callback, however,
      receives `selected`, the selection from BEFORE the submit: the freshly built one only
      becomes the component state. */
  function OnFilterChange(sections: seq<Section>, selected: Filter, checked: (string, nat) -> bool): (step: Step)
    ensures step.applied == Some(selected)
    ensures step.selected.Keys == {Genres, Status}
    ensures step.selected[Genres] == SelectedFor(sections, Genres, checked)
    ensures step.selected[Status] == SelectedFor(sections, Status, checked)
  {
    var lists := CollectSections(Lists([], []), sections, checked);
    Step(map[Genres := lists.genres, Status := lists.status], Some(selected))
  }

  lemma {:induction false} CheckedValuesSubsequence(options: seq<FilterOption>, sectionId: string, from: nat,
                                                    checked: (string, nat) -> bool)
    requires from <= |options|
    ensures IsSubsequence(CheckedValues(options, sectionId, from, checked), Values(options)[from..])
    decreases |options| - from
  {
    if from < |options| {
      CheckedValuesSubsequence(options, sectionId, from + 1, checked);
      var rest := CheckedValues(options, sectionId, from + 1, checked);
      var vs := Values(options)[from..];
      assert vs[0] == options[from].value && vs[1..] == Values(options)[from + 1..];
      if !checked(sectionId, from) {
        assert CheckedValues(options, sectionId, from, checked) == rest;
      }
    }
  }

  /** Some option at index `from` or later has value `v` and a ticked box. */
  predicate TickedWithValue(options: seq<FilterOption>, sectionId: string, from: nat,
                            checked: (string, nat) -> bool, v: string)
  {
    exists i :: from <= i < |options| && checked(sectionId, i) && options[i].value == v
  }

  lemma {:induction false} CheckedValuesMembership(options: seq<FilterOption>, sectionId: string, from: nat,
                                                   checked: (string, nat) -> bool, v: string)
    ensures v in CheckedValues(options, sectionId, from, checked) <==>
            TickedWithValue(options, sectionId, from, checked, v)
    decreases |options| - from
  {
    if from < |options| {
      CheckedValuesMembership(options, sectionId, from + 1, checked, v);
      var here := if checked(sectionId, from) then [options[from].value] else [];
      var rest := CheckedValues(options, sectionId, from + 1, checked);
      assert CheckedValues(options, sectionId, from, checked) == here + rest;
      if v in here {
        assert checked(sectionId, from) && options[from].value == v;
      } else if v in rest {
        var i :| from + 1 <= i < |options| && checked(sectionId, i) && options[i].value == v;
        assert from <= i;
      } else {
        forall i | from <= i < |options| && checked(sectionId, i) ensures options[i].value != v {
          if i == from {
            assert options[from].value in here;
          }
        }
      }
    }
  }

  lemma {:induction false} SelectedForSubsequence(sections: seq<Section>, sectionId: string,
                                                  checked: (string, nat) -> bool)
    ensures IsSubsequence(SelectedFor(sections, sectionId, checked), OptionValuesFor(sections, sectionId))
  {
    if sections != [] {
      SelectedForSubsequence(sections[1..], sectionId, checked);
      if sections[0].id == sectionId {
        CheckedValuesSubsequence(sections[0].options, sectionId, 0, checked);
        assert Values(sections[0].options)[0..] == Values(sections[0].options);
        SubsequenceConcat(CheckedValues(sections[0].options, sectionId, 0, checked),
                          Values(sections[0].options),
                          SelectedFor(sections[1..], sectionId, checked),
                          OptionValuesFor(sections[1..], sectionId));
      } else {
        assert SelectedFor(sections, sectionId, checked) == SelectedFor(sections[1..], sectionId, checked);
        assert OptionValuesFor(sections, sectionId) == OptionValuesFor(sections[1..], sectionId);
      }
    }
  }

  /** Some section with this id has a ticked option with value `v`. */
  predicate SomeSectionTicks(sections: seq<Section>, sectionId: string,
                             checked: (string, nat) -> bool, v: string)
  {
    exists k :: 0 <= k < |sections| && sections[k].id == sectionId &&
                TickedWithValue(sections[k].options, sectionId, 0, checked, v)
  }

  lemma {:induction false} SelectedForMembership(sections: seq<Section>, sectionId: string,
                                                 checked: (string, nat) -> bool, v: string)
    ensures v in SelectedFor(sections, sectionId, checked) <==>
            SomeSectionTicks(sections, sectionId, checked, v)
  {
    if sections != [] {
      var s := sections[0];
      SelectedForMembership(sections[1..], sectionId, checked, v);
      CheckedValuesMembership(s.options, sectionId, 0, checked, v);
      var here := Contribution(s, sectionId, checked);
      var rest := SelectedFor(sections[1..], sectionId, checked);
      if v in here {
        assert s.id == sectionId && TickedWithValue(s.options, sectionId, 0, checked, v);
      } else if v in rest {
        var k :| 0 <= k < |sections[1..]| && sections[1..][k].id == sectionId &&
                 TickedWithValue(sections[1..][k].options, sectionId, 0, checked, v);
        assert sections[k + 1] == sections[1..][k];
      } else {
        forall k | 0 <= k < |sections| && sections[k].id == sectionId
          ensures !TickedWithValue(sections[k].options, sectionId, 0, checked, v)
        {
          if k > 0 {
            assert sections[1..][k - 1] == sections[k];
          }
        }
      }
    }
  }

  /** "Apply" keeps, per collected section, a subsequence of that section's option values:
      only options that exist are selected, and in option order. */
  lemma {:induction false} SubmittedSelectionInOptionOrder(sections: seq<Section>, selected: Filter,
                                        checked: (string, nat) -> bool, sectionId: string)
    requires Collected(sectionId)
    ensures IsSubsequence(OnFilterChange(sections, selected, checked).selected[sectionId],
                          OptionValuesFor(sections, sectionId))
  {
    SelectedForSubsequence(sections, sectionId, checked);
  }

  /** "Apply" selects a value exactly when some option with that value has its box ticked. */
  lemma {:induction false} SubmittedSelectionIsChecked(sections: seq<Section>, selected: Filter,
                                    checked: (string, nat) -> bool, sectionId: string, v: string)
    requires Collected(sectionId)
    ensures v in OnFilterChange(sections, selected, checked).selected[sectionId] <==>
            SomeSectionTicks(sections, sectionId, checked, v)
  {
    SelectedForMembership(sections, sectionId, checked, v);
  }

  /** "Apply" from the popover of section `sections[k]`: the rebuilt list of that section
      holds a value exactly when the old selection holds it and the section has an option
      for it. So it differs from the filter handed to the callback only in order, in
      repetition, and in values without an option. */
  lemma {:induction false} SubmitAgreesWithRenderedBoxes(sections: seq<Section>, selected: Filter, k: nat, v: string)
    requires k < |sections| && Collected(sections[k].id)
    requires DistinctIds(sections)
    ensures var next := OnFilterChange(sections, selected, FormReading(sections[k], selected)).selected;
            v in next[sections[k].id] <==> IsChecked(selected, sections[k].id, v) && v in Values(sections[k].options)
  {
    var form := sections[k];
    var checked := FormReading(form, selected);
    SubmittedSelectionIsChecked(sections, selected, checked, form.id, v);
    if SomeSectionTicks(sections, form.id, checked, v) {
      var k' :| 0 <= k' < |sections| && sections[k'].id == form.id &&
                TickedWithValue(sections[k'].options, form.id, 0, checked, v);
      var i :| 0 <= i < |sections[k'].options| && checked(form.id, i) && sections[k'].options[i].value == v;
      assert k' == k;
      assert Values(form.options)[i] == v;
    }
    if IsChecked(selected, form.id, v) && v in Values(form.options) {
      var i :| 0 <= i < |form.options| && Values(form.options)[i] == v;
      assert checked(form.id, i);
      assert TickedWithValue(sections[k].options, form.id, 0, checked, v);
    }
  }

  /** "Apply" from the popover of `form` empties every other collected section: its boxes
      are not in the submitted form, so none of them reads ticked, and whatever that
      section held before is no longer selected. */
  lemma {:induction false} ApplyEmptiesOtherSection(sections: seq<Section>, selected: Filter, form: Section, other: string)
    requires Collected(other) && other != form.id
    ensures var next := OnFilterChange(sections, selected, FormReading(form, selected)).selected;
            next[other] == [] && forall v :: !IsChecked(next, other, v)
  {
    SelectedForNoneTicked(sections, other, FormReading(form, selected));
  }

  /** No box of `sectionId` ticked: that section's options contribute nothing. */
  lemma {:induction false} CheckedValuesNoneTicked(options: seq<FilterOption>, sectionId: string, from: nat,
                                                   checked: (string, nat) -> bool)
    requires forall i: nat :: !checked(sectionId, i)
    ensures CheckedValues(options, sectionId, from, checked) == []
    decreases |options| - from
  {
    if from < |options| {
      CheckedValuesNoneTicked(options, sectionId, from + 1, checked);
    }
  }

  /** No box of `sectionId` ticked: "Apply" collects nothing for it. */
  lemma {:induction false} SelectedForNoneTicked(sections: seq<Section>, sectionId: string,
                                                 checked: (string, nat) -> bool)
    requires forall i: nat :: !checked(sectionId, i)
    ensures SelectedFor(sections, sectionId, checked) == []
  {
    if sections != [] {
      CheckedValuesNoneTicked(sections[0].options, sectionId, 0, checked);
      SelectedForNoneTicked(sections[1..], sectionId, checked);
    }
  }

  /** The submit as it was evidently meant to work from a per-section popover: the
      submitted section `formId` is rebuilt from its boxes and every other section keeps
      its selection. The callback receives the selection from before the submit, as in
      `OnFilterChange`. */
  function OnFilterChangeKeepingOthers(sections: seq<Section>, selected: Filter, formId: string,
                                       checked: (string, nat) -> bool): (step: Step)
    ensures step.applied == Some(selected)
    ensures !Collected(formId) ==> step.selected == selected
    ensures Collected(formId) ==> step.selected.Keys == selected.Keys + {formId}
    ensures Collected(formId) ==> step.selected[formId] == SelectedFor(sections, formId, checked)
    ensures forall id :: id in selected && id != formId ==> step.selected[id] == selected[id]
  {
    if Collected(formId) then
      var lists := CollectSections(Lists([], []), sections, checked);
      Step(selected[formId := if formId == Genres then lists.genres else lists.status], Some(selected))
    else
      Step(selected, Some(selected))
  }

  /** With the corrected submit, "Apply" from any popover leaves every box of every section
      reading exactly as it did before. */
  lemma ApplyKeepsEveryBox(sections: seq<Section>, selected: Filter, k: nat, j: nat, i: nat)
    requires k < |sections| && j < |sections| && i < |sections[j].options|
    requires DistinctIds(sections)
    ensures IsChecked(OnFilterChangeKeepingOthers(sections, selected, sections[k].id,
                                                  FormReading(sections[k], selected)).selected,
                      sections[j].id, sections[j].options[i].value)
            <==> IsChecked(selected, sections[j].id, sections[j].options[i].value)
  {
    var form := sections[k];
    var id, v := sections[j].id, sections[j].options[i].value;
    if Collected(form.id) && id == form.id {
      assert j == k;
      SubmitAgreesWithRenderedBoxes(sections, selected, k, v);
      assert Values(form.options)[i] == v;
      var lists := CollectSections(Lists([], []), sections, FormReading(form, selected));
      assert OnFilterChange(sections, selected, FormReading(form, selected)).selected[id]
          == SelectedFor(sections, id, FormReading(form, selected));
    }
  }

  /** "Apply" selects only values that some section with that id offers as an option. */
  lemma {:induction false} SubmittedValuesAreOffered(sections: seq<Section>, selected: Filter,
                                  checked: (string, nat) -> bool, sectionId: string, v: string)
    requires Collected(sectionId)
    ensures v in OnFilterChange(sections, selected, checked).selected[sectionId] ==>
            v in OptionValuesFor(sections, sectionId)
  {
    SubmittedSelectionIsChecked(sections, selected, checked, sectionId, v);
    if v in OnFilterChange(sections, selected, checked).selected[sectionId] {
      SubmittedValueOffered(sections, checked, sectionId, v);
    }
  }

  /** A value some ticked box of a `sectionId` section holds is an option value for it. */
  lemma {:induction false} SubmittedValueOffered(sections: seq<Section>, checked: (string, nat) -> bool, sectionId: string, v: string)
    requires SomeSectionTicks(sections, sectionId, checked, v)
    ensures v in OptionValuesFor(sections, sectionId)
  {
    var k :| 0 <= k < |sections| && sections[k].id == sectionId &&
             TickedWithValue(sections[k].options, sectionId, 0, checked, v);
    var i :| 0 <= i < |sections[k].options| && checked(sectionId, i) && sections[k].options[i].value == v;
    assert Values(sections[k].options)[i] == v;
    OptionValuesMembership(sections, sectionId, v);
  }

  /** An option value for `sectionId` is one of the options of some section with that id. */
  lemma {:induction false} OptionValuesMembership(sections: seq<Section>, sectionId: string, v: string)
    ensures v in OptionValuesFor(sections, sectionId) <==>
            exists k :: 0 <= k < |sections| && sections[k].id == sectionId && v in Values(sections[k].options)
  {
    if sections != [] {
      OptionValuesMembership(sections[1..], sectionId, v);
      var here := if sections[0].id == sectionId then Values(sections[0].options) else [];
      var rest := OptionValuesFor(sections[1..], sectionId);
      if v in here {
      } else if v in rest {
        var k :| 0 <= k < |sections[1..]| && sections[1..][k].id == sectionId && v in Values(sections[1..][k].options);
        assert sections[k + 1] == sections[1..][k];
      } else {
        forall k | 0 <= k < |sections| && sections[k].id == sectionId
          ensures v !in Values(sections[k].options)
        {
          if k > 0 {
            assert sections[1..][k - 1] == sections[k];
          }
        }
      }
    }
  }
}
