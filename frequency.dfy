/** The habit being edited in the form and the classification of its
    frequency (src/lib/habitFormHelpers.ts): the pair (frequencyDays,
    target) read as one of five kinds of schedule, as a summary sentence
    and as the frequency dialog's initial choice. */
module Frequency {
  import opened Wrappers
  import opened Habits

  /** The habit as the form holds it before it is saved: no id, history,
      creation time or order yet. Numbers come from inputs, so the number
      of days may be zero or negative. */
  datatype FormHabit = FormHabit(
    name: string,
    description: Option<string>,
    kind: HabitKind,
    target: Option<real>,
    unit: Option<string>,
    frequencyDays: Option<int>,
    color: string,
    isArchived: bool)

  /** The five schedules of the frequency dialog. */
  datatype FrequencyType = EveryDay | EveryXDays | TimesPerWeek | TimesPerMonth | TimesInXDays

  /** The sentence `getFrequencySummary` returns, with the numbers it
      interpolates: "Every day", "Every N days", "T times per week",
      "T times per month", "T times in N days", "Select frequency". */
  datatype Summary =
    | EveryDaySummary
    | EveryNDays(days: int)
    | TimesPerWeekSummary(times: real)
    | TimesPerMonthSummary(times: real)
    | TimesInDays(times: real, days: int)
    | SelectFrequency

  /** `habit.frequencyDays` is truthy: present and not 0. */
  predicate HasDays(h: FormHabit) {
    h.frequencyDays.Some? && h.frequencyDays.value != 0
  }

  /** `habit.target` is truthy: present and not 0. */
  predicate HasTarget(h: FormHabit) {
    h.target.Some? && h.target.value != 0.0
  }

  /** `habit.target || 1`. */
  function TargetOrOne(h: FormHabit): real {
    if HasTarget(h) then h.target.value else 1.0
  }

  /** No guard of either function applies: no number of days, or a number
      of days other than 7 and 30 with neither a target of 1 nor any
      other target. */
  predicate Unclassified(h: FormHabit) {
    !HasDays(h) ||
    (h.frequencyDays.value != 7 && h.frequencyDays.value != 30 && h.target != Some(1.0) && !HasTarget(h))
  }

  /** `getFrequencySummary(habit)`: the first matching guard decides. */
  function GetFrequencySummary(h: FormHabit): (s: Summary)
    ensures s == SelectFrequency <==> Unclassified(h)
    ensures s == EveryDaySummary <==> h.frequencyDays == Some(1) && h.target == Some(1.0)
  {
    if h.frequencyDays == Some(1) && h.target == Some(1.0) then EveryDaySummary
    else if HasDays(h) && h.target == Some(1.0) then EveryNDays(h.frequencyDays.value)
    else if h.frequencyDays == Some(7) then TimesPerWeekSummary(TargetOrOne(h))
    else if h.frequencyDays == Some(30) then TimesPerMonthSummary(TargetOrOne(h))
    else if HasDays(h) && HasTarget(h) then TimesInDays(h.target.value, h.frequencyDays.value)
    else SelectFrequency
  }

  /** `getDialogFrequencyType(habit)`: the same guards, falling back to
      every day. */
  function GetDialogFrequencyType(h: FormHabit): (t: FrequencyType)
    ensures t == EveryDay <==> (h.frequencyDays == Some(1) && h.target == Some(1.0)) || Unclassified(h)
  {
    if h.frequencyDays == Some(1) && h.target == Some(1.0) then EveryDay
    else if HasDays(h) && h.target == Some(1.0) then EveryXDays
    else if h.frequencyDays == Some(7) then TimesPerWeek
    else if h.frequencyDays == Some(30) then TimesPerMonth
    else if HasDays(h) && HasTarget(h) then TimesInXDays
    else EveryDay
  }

  /** The dialog choice a summary sentence describes; "Select frequency"
      opens the dialog on every day. */
  function SummaryType(s: Summary): FrequencyType {
    match s
      case EveryDaySummary => EveryDay
      case EveryNDays(_) => EveryXDays
      case TimesPerWeekSummary(_) => TimesPerWeek
      case TimesPerMonthSummary(_) => TimesPerMonth
      case TimesInDays(_, _) => TimesInXDays
      case SelectFrequency => EveryDay
  }

  /** The summary shown and the dialog's initial choice always agree, and
      the summary's numbers are the habit's own. */
  lemma SummaryMatchesDialog(h: FormHabit)
    ensures SummaryType(GetFrequencySummary(h)) == GetDialogFrequencyType(h)
    ensures GetFrequencySummary(h).EveryNDays? ==> Some(GetFrequencySummary(h).days) == h.frequencyDays && h.target == Some(1.0)
    ensures GetFrequencySummary(h).TimesInDays? ==>
      Some(GetFrequencySummary(h).days) == h.frequencyDays && Some(GetFrequencySummary(h).times) == h.target
  {
  }

  /** A weekly or monthly count other than 1 reads as times per week or
      month, a missing or zero count as once. */
  lemma WeeklyAndMonthly(h: FormHabit)
    requires h.frequencyDays == Some(7) || h.frequencyDays == Some(30)
    requires h.target != Some(1.0)
    ensures h.frequencyDays == Some(7) ==> GetFrequencySummary(h) == TimesPerWeekSummary(TargetOrOne(h))
    ensures h.frequencyDays == Some(30) ==> GetFrequencySummary(h) == TimesPerMonthSummary(TargetOrOne(h))
    ensures !HasTarget(h) ==> TargetOrOne(h) == 1.0
  {
  }
}
