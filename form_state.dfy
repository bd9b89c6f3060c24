/** The state behind the habit form (src/hooks/useHabitFormState.ts): the
    habit being edited, the habit type chosen on the first screen and the
    validation errors of the last save attempt. Each React state update is
    a method that replaces the fields the source's setter replaces; the
    new value is given by a function of the old one. */
module FormState {
  import opened Wrappers
  import opened Habits
  import opened Text
  import opened Frequency

  /** The form fields validation can complain about. */
  datatype Field = NameField | UnitField | TargetField | FrequencyDaysField

  /** The empty form: a yes/no habit, target 1, no unit, no frequency, red. */
  function DefaultHabit(): FormHabit {
    FormHabit("", Some(""), Boolean, Some(1.0), Some(""), None, "#FF0000", false)
  }

  /** The object passed to `updateHabit`: a key that is present replaces
      the field (even with `undefined`, as object spread does); an absent
      key keeps it. */
  datatype Patch = Patch(
    name: Option<string>,
    description: Option<Option<string>>,
    kind: Option<HabitKind>,
    target: Option<Option<real>>,
    unit: Option<Option<string>>,
    frequencyDays: Option<Option<int>>,
    color: Option<string>,
    isArchived: Option<bool>)

  /** The patch with no keys. */
  function EmptyPatch(): Patch {
    Patch(None, None, None, None, None, None, None, None)
  }

  /** `{ ...prev, ...updates }`. */
  function Merge(h: FormHabit, p: Patch): FormHabit {
    FormHabit(
      p.name.GetOr(h.name),
      p.description.GetOr(h.description),
      p.kind.GetOr(h.kind),
      p.target.GetOr(h.target),
      p.unit.GetOr(h.unit),
      p.frequencyDays.GetOr(h.frequencyDays),
      p.color.GetOr(h.color),
      p.isArchived.GetOr(h.isArchived))
  }

  /** Two patches applied one after the other: the later key wins. */
  function Then(p: Patch, q: Patch): Patch {
    Patch(
      if q.name.Some? then q.name else p.name,
      if q.description.Some? then q.description else p.description,
      if q.kind.Some? then q.kind else p.kind,
      if q.target.Some? then q.target else p.target,
      if q.unit.Some? then q.unit else p.unit,
      if q.frequencyDays.Some? then q.frequencyDays else p.frequencyDays,
      if q.color.Some? then q.color else p.color,
      if q.isArchived.Some? then q.isArchived else p.isArchived)
  }

  /** Merging nothing changes nothing; merging twice is merging once; two
      merges are one merge of the combined patch. */
  lemma MergeLaws(h: FormHabit, p: Patch, q: Patch)
    ensures Merge(h, EmptyPatch()) == h
    ensures Merge(Merge(h, p), p) == Merge(h, p)
    ensures Merge(Merge(h, p), q) == Merge(h, Then(p, q))
  {
  }

  /** `handleTypeSelection(type)`'s habit update: the new type, target 1
      and no unit for a yes/no habit, the old target and unit for a
      measurable one, and never a frequency. */
  function SelectType(h: FormHabit, kind: HabitKind): (r: FormHabit)
    ensures r.frequencyDays == None && r.kind == kind
    ensures kind == Boolean ==> r.target == Some(1.0) && r.unit == Some("")
    ensures kind == Measurable ==> r.target == h.target && r.unit == h.unit
    ensures r.name == h.name && r.description == h.description && r.color == h.color && r.isArchived == h.isArchived
  {
    h.(kind := kind,
       target := if kind == Boolean then Some(1.0) else h.target,
       unit := if kind == Boolean then Some("") else h.unit,
       frequencyDays := None)
  }

  /** The table of `updateHabitFrequency`: the (frequencyDays, target) pair
      each schedule stands for, from the dialog's days and times. */
  function FrequencyMap(t: FrequencyType, days: int, times: real): (int, real) {
    match t
      case EveryDay => (1, 1.0)
      case EveryXDays => (days, 1.0)
      case TimesPerWeek => (7, times)
      case TimesPerMonth => (30, times)
      case TimesInXDays => (days, times)
  }

  /** `updateHabitFrequency(type, days, times)`'s habit update: the pair of
      the table replaces frequencyDays and target, nothing else changes. */
  function ApplyFrequency(h: FormHabit, t: FrequencyType, days: int, times: real): (r: FormHabit)
    ensures r.frequencyDays == Some(FrequencyMap(t, days, times).0)
    ensures r.target == Some(FrequencyMap(t, days, times).1)
    ensures r.(frequencyDays := h.frequencyDays, target := h.target) == h
  {
    h.(frequencyDays := Some(FrequencyMap(t, days, times).0), target := Some(FrequencyMap(t, days, times).1))
  }

  /** The dialog inputs whose pair reads back as the same schedule: the
      days and times that do not make the pair look like an earlier row of
      the classification. */
  predicate ReadsBack(t: FrequencyType, days: int, times: real) {
    match t
      case EveryDay => true
      case EveryXDays => days != 0 && days != 1
      case TimesPerWeek => times != 1.0
      case TimesPerMonth => times != 1.0
      case TimesInXDays => times != 1.0 && times != 0.0 && days != 0 && days != 7 && days != 30
  }

  /** Saving a schedule from the dialog and reopening the dialog shows the
      same schedule exactly when the inputs read back; e.g. "every 1 days"
      reopens as every day and "1 time per week" as every 7 days. */
  lemma FrequencyRoundTrip(h: FormHabit, t: FrequencyType, days: int, times: real)
    ensures GetDialogFrequencyType(ApplyFrequency(h, t, days, times)) == t <==> ReadsBack(t, days, times)
  {
    var r := ApplyFrequency(h, t, days, times);
    match t
      case EveryDay =>
      case EveryXDays =>
        assert r.frequencyDays == Some(days) && r.target == Some(1.0);
      case TimesPerWeek =>
        assert r.frequencyDays == Some(7) && r.target == Some(times);
      case TimesPerMonth =>
        assert r.frequencyDays == Some(30) && r.target == Some(times);
      case TimesInXDays =>
        assert r.frequencyDays == Some(days) && r.target == Some(times);
  }

  /** `!habit.frequencyDays`: missing or 0. */
  predicate NoFrequency(h: FormHabit) {
    !HasDays(h)
  }

  /** `!habit.target || habit.target <= 0`: missing or not positive. */
  predicate BadTarget(h: FormHabit) {
    h.target.None? || h.target.value <= 0.0
  }

  /** `!habit.unit?.trim()`: missing or blank. */
  predicate BadUnit(h: FormHabit) {
    h.unit.None? || IsBlank(h.unit.value)
  }

  /** The message `validate()` stores under each field. */
  function Message(f: Field): string {
    match f
      case NameField => "Name is required."
      case UnitField => "Unit is required."
      case TargetField => "Target must be a positive number."
      case FrequencyDaysField => "Frequency is required."
  }

  /** The guard of `validate()` that reports field `f`: the unit and the
      target are checked for measurable habits only, the frequency for
      both types. */
  predicate Fails(h: FormHabit, f: Field) {
    match f
      case NameField => IsBlank(h.name)
      case UnitField => h.kind == Measurable && BadUnit(h)
      case TargetField => h.kind == Measurable && BadTarget(h)
      case FrequencyDaysField => NoFrequency(h)
  }

  /** `validate()`: the error message of each field that fails. */
  function ValidationErrors(h: FormHabit): (errs: map<Field, string>)
    ensures NameField in errs <==> IsBlank(h.name)
    ensures FrequencyDaysField in errs <==> NoFrequency(h)
    ensures UnitField in errs <==> h.kind == Measurable && BadUnit(h)
    ensures TargetField in errs <==> h.kind == Measurable && BadTarget(h)
    ensures forall f :: f in errs ==> errs[f] == Message(f)
  {
    map f | f in {NameField, UnitField, TargetField, FrequencyDaysField} && Fails(h, f) :: Message(f)
  }

  /** A habit can be saved exactly when it has a name and a frequency and,
      when it is measurable, a unit and a positive target. */
  predicate Complete(h: FormHabit) {
    !IsBlank(h.name) && HasDays(h) &&
    (h.kind == Measurable ==> h.unit.Some? && !IsBlank(h.unit.value) && h.target.Some? && h.target.value > 0.0)
  }

  /** No errors exactly when the habit is complete. */
  lemma NoErrorsIffComplete(h: FormHabit)
    ensures ValidationErrors(h) == map[] <==> Complete(h)
  {
    var errs := ValidationErrors(h);
    if !Complete(h) {
      if IsBlank(h.name) {
        assert NameField in errs;
      } else if !HasDays(h) {
        assert FrequencyDaysField in errs;
      } else if BadUnit(h) {
        assert UnitField in errs;
      } else {
        assert TargetField in errs;
      }
    }
  }

  /** A fresh form reports exactly a missing name and a missing frequency. */
  lemma FreshFormErrors()
    ensures ValidationErrors(DefaultHabit()) ==
      map[NameField := "Name is required.", FrequencyDaysField := "Frequency is required."]
  {
    assert IsBlank(DefaultHabit().name);
  }

  /** Choosing a type always asks for the frequency again, and a yes/no
      habit then needs nothing but a name and a frequency. */
  lemma TypeSelectionNeedsFrequency(h: FormHabit, kind: HabitKind)
    ensures FrequencyDaysField in ValidationErrors(SelectType(h, kind))
    ensures kind == Boolean ==> ValidationErrors(SelectType(h, kind)).Keys <= {NameField, FrequencyDaysField}
  {
  }

  /** Choosing a schedule with a nonzero number of days clears the
      frequency error. */
  lemma FrequencyClearsError(h: FormHabit, t: FrequencyType, days: int, times: real)
    requires FrequencyMap(t, days, times).0 != 0
    ensures FrequencyDaysField !in ValidationErrors(ApplyFrequency(h, t, days, times))
  {
  }

  /** The hook's state. `saved` stands for the calls to the `onSave`
      callback: the habits handed to it, oldest first. */
  class HabitForm {
    var habit: FormHabit
    var habitType: Option<HabitKind>
    var errors: map<Field, string>
    var saved: seq<FormHabit>

    /** `useHabitFormState(onSave, initialHabit)`: the initial habit and its
        type, or the empty form with no type chosen; no errors. */
    constructor(initial: Option<FormHabit>)
      ensures habit == (if initial.Some? then initial.value else DefaultHabit())
      ensures habitType == (if initial.Some? then Some(initial.value.kind) else None)
      ensures errors == map[] && saved == []
    {
      habit := if initial.Some? then initial.value else DefaultHabit();
      habitType := if initial.Some? then Some(initial.value.kind) else None;
      errors := map[];
      saved := [];
    }

    /** `updateHabit(updates)`. */
    method UpdateHabit(p: Patch)
      modifies this
      ensures habit == Merge(old(habit), p)
      ensures habitType == old(habitType) && errors == old(errors) && saved == old(saved)
    {
      habit := Merge(habit, p);
    }

    /** `handleTypeSelection(type)`. */
    method HandleTypeSelection(kind: HabitKind)
      modifies this
      ensures habitType == Some(kind) && habit == SelectType(old(habit), kind)
      ensures errors == old(errors) && saved == old(saved)
    {
      habitType := Some(kind);
      habit := SelectType(habit, kind);
    }

    /** `updateHabitFrequency(type, days, times)`. */
    method UpdateHabitFrequency(t: FrequencyType, days: int, times: real)
      modifies this
      ensures habit == ApplyFrequency(old(habit), t, days, times)
      ensures habitType == old(habitType) && errors == old(errors) && saved == old(saved)
    {
      habit := ApplyFrequency(habit, t, days, times);
    }

    /** `handleSave()`: the errors of `validate()` are stored, and the
        habit goes to `onSave` exactly when there are none. */
    method HandleSave()
      modifies this
      ensures errors == ValidationErrors(habit)
      ensures saved == old(saved) + (if errors == map[] then [habit] else [])
      ensures habit == old(habit) && habitType == old(habitType)
    {
      var validationErrors := ValidationErrors(habit);
      errors := validationErrors;
      if |validationErrors| == 0 {
        saved := saved + [habit];
      }
    }
  }
}
