/** The habit list kept by the habits provider (src/hooks/useHabits.tsx):
    the list read back from storage, and the five operations that replace
    it. Every `setHabits(prev => …)` is a method of `HabitStore` that
    replaces `habits` with a function of the old list. */
module Store {
  import opened Wrappers
  import opened Civil
  import opened Habits
  import opened Sequences

  // ----- a stable sort by an integer key -----

  /** Ascending by `key`. */
  predicate SortedBy<T>(s: seq<T>, key: T -> int) {
    forall i, j :: 0 <= i < j < |s| ==> key(s[i]) <= key(s[j])
  }

  /** `x` placed in the sorted list `t` after every element whose key is at
      most its own. */
  function InsertBy<T>(t: seq<T>, x: T, key: T -> int): (r: seq<T>)
    ensures |r| == |t| + 1
    decreases |t|
  {
    if t == [] then [x]
    else if key(t[0]) > key(x) then [x] + t
    else [t[0]] + InsertBy(t[1..], x, key)
  }

  /** Insertion sort adding the elements from the first to the last. */
  function SortBy<T>(s: seq<T>, key: T -> int): (r: seq<T>)
    ensures |r| == |s|
    decreases |s|
  {
    if s == [] then [] else InsertBy(SortBy(s[..|s| - 1], key), s[|s| - 1], key)
  }

  /** The elements of `s` whose key is `k`, in their order in `s`. */
  function WithKey<T>(s: seq<T>, key: T -> int, k: int): seq<T>
    decreases |s|
  {
    if s == [] then []
    else (if key(s[0]) == k then [s[0]] else []) + WithKey(s[1..], key, k)
  }

  lemma WithKeyCons<T>(x: T, t: seq<T>, key: T -> int, k: int)
    ensures WithKey([x] + t, key, k) == (if key(x) == k then [x] else []) + WithKey(t, key, k)
  {
    assert ([x] + t)[0] == x;
    assert ([x] + t)[1..] == t;
  }

  lemma {:induction false} WithKeyConcat<T>(a: seq<T>, b: seq<T>, key: T -> int, k: int)
    ensures WithKey(a + b, key, k) == WithKey(a, key, k) + WithKey(b, key, k)
    decreases |a|
  {
    if a != [] {
      SplitEnds(a);
      ConcatAssoc([a[0]], a[1..], b);
      WithKeyCons(a[0], a[1..] + b, key, k);
      WithKeyCons(a[0], a[1..], key, k);
      WithKeyConcat(a[1..], b, key, k);
      var h := if key(a[0]) == k then [a[0]] else [];
      ConcatAssoc(h, WithKey(a[1..], key, k), WithKey(b, key, k));
    } else {
      assert a + b == b;
    }
  }

  /** A sorted list whose first key exceeds `k` has no element of key `k`. */
  lemma {:induction false} WithKeyAbove<T>(t: seq<T>, key: T -> int, k: int)
    requires SortedBy(t, key) && t != [] && key(t[0]) > k
    ensures WithKey(t, key, k) == []
    decreases |t|
  {
    if |t| > 1 {
      assert t[1..][0] == t[1];
      WithKeyAbove(t[1..], key, k);
    }
  }

  /** An element no later than every element of a sorted list can go first. */
  lemma SortedCons<T>(a: T, r: seq<T>, key: T -> int)
    requires SortedBy(r, key) && forall i :: 0 <= i < |r| ==> key(a) <= key(r[i])
    ensures SortedBy([a] + r, key)
  {
    var s := [a] + r;
    forall i, j | 0 <= i < j < |s|
      ensures key(s[i]) <= key(s[j])
    {
      assert s[j] == r[j - 1];
      if i > 0 {
        assert s[i] == r[i - 1];
      }
    }
  }

  /** A lower bound of the keys of `t` and of `x` bounds their insertion. */
  lemma {:induction false} InsertBounded<T>(t: seq<T>, x: T, key: T -> int, lo: int)
    requires (forall i :: 0 <= i < |t| ==> lo <= key(t[i])) && lo <= key(x)
    ensures forall i :: 0 <= i < |InsertBy(t, x, key)| ==> lo <= key(InsertBy(t, x, key)[i])
    decreases |t|
  {
    if t != [] && key(t[0]) <= key(x) {
      InsertBounded(t[1..], x, key, lo);
      var r := InsertBy(t, x, key);
      forall i | 0 < i < |r|
        ensures lo <= key(r[i])
      {
        assert r[i] == InsertBy(t[1..], x, key)[i - 1];
      }
    }
  }

  lemma {:induction false} InsertSorted<T>(t: seq<T>, x: T, key: T -> int)
    requires SortedBy(t, key)
    ensures SortedBy(InsertBy(t, x, key), key)
    decreases |t|
  {
    if t == [] {
    } else if key(t[0]) > key(x) {
      SortedCons(x, t, key);
    } else {
      var rest := t[1..];
      assert forall i :: 0 <= i < |rest| ==> rest[i] == t[i + 1];
      InsertSorted(rest, x, key);
      InsertBounded(rest, x, key, key(t[0]));
      SortedCons(t[0], InsertBy(rest, x, key), key);
    }
  }

  lemma {:induction false} InsertPermutes<T>(t: seq<T>, x: T, key: T -> int)
    ensures multiset(InsertBy(t, x, key)) == multiset(t) + multiset{x}
    decreases |t|
  {
    if t != [] && key(t[0]) <= key(x) {
      SplitEnds(t);
      InsertPermutes(t[1..], x, key);
    }
  }

  /** Inserting keeps the elements of each key in their previous order, `x`
      after those of its own key. */
  lemma {:induction false} InsertStable<T>(t: seq<T>, x: T, key: T -> int, k: int)
    requires SortedBy(t, key)
    ensures WithKey(InsertBy(t, x, key), key, k) == WithKey(t, key, k) + (if key(x) == k then [x] else [])
    decreases |t|
  {
    var tail := if key(x) == k then [x] else [];
    if t == [] {
      WithKeyCons(x, [], key, k);
      assert [x] + [] == [x];
    } else if key(t[0]) > key(x) {
      WithKeyCons(x, t, key, k);
      if key(x) == k {
        WithKeyAbove(t, key, k);
      }
    } else {
      var rest := t[1..];
      InsertStable(rest, x, key, k);
      WithKeyCons(t[0], InsertBy(rest, x, key), key, k);
      WithKeyCons(t[0], rest, key, k);
      SplitEnds(t);
      var h := if key(t[0]) == k then [t[0]] else [];
      ConcatAssoc(h, WithKey(rest, key, k), tail);
    }
  }

  /** The sort orders the list by key and loses and adds nothing. */
  lemma {:induction false} SortSorted<T>(s: seq<T>, key: T -> int)
    ensures SortedBy(SortBy(s, key), key)
    ensures multiset(SortBy(s, key)) == multiset(s)
    decreases |s|
  {
    if s != [] {
      var init, last := s[..|s| - 1], s[|s| - 1];
      SortSorted(init, key);
      InsertSorted(SortBy(init, key), last, key);
      InsertPermutes(SortBy(init, key), last, key);
      SplitEnds(s);
    }
  }

  /** The sort is stable: the elements of key `k` keep their relative order. */
  lemma {:induction false} SortStable<T>(s: seq<T>, key: T -> int, k: int)
    ensures WithKey(SortBy(s, key), key, k) == WithKey(s, key, k)
    decreases |s|
  {
    if s != [] {
      var init, last := s[..|s| - 1], s[|s| - 1];
      SortStable(init, key, k);
      SortSorted(init, key);
      InsertStable(SortBy(init, key), last, key, k);
      SplitEnds(s);
      WithKeyConcat(init, [last], key, k);
      WithKeyCons(last, [], key, k);
      assert [last] + [] == [last];
    }
  }

  // ----- ordering habits by `order` -----

  function OrderOf(h: Habit): int {
    h.order
  }

  /** Ascending by `order`. */
  predicate SortedByOrder(s: seq<Habit>) {
    forall i, j :: 0 <= i < j < |s| ==> s[i].order <= s[j].order
  }

  /** `[...list].sort((a, b) => a.order - b.order)`: a stable sort. */
  function SortByOrder(s: seq<Habit>): (r: seq<Habit>)
    ensures |r| == |s|
  {
    SortBy(s, OrderOf)
  }

  /** The habits of `s` whose order is `k`, in their order in `s`. */
  function WithOrder(s: seq<Habit>, k: int): seq<Habit> {
    WithKey(s, OrderOf, k)
  }

  /** The sort orders the list by `order`, loses and adds nothing, and is
      stable: the habits of each order keep their relative order. */
  lemma SortByOrderSpec(s: seq<Habit>)
    ensures SortedByOrder(SortByOrder(s))
    ensures multiset(SortByOrder(s)) == multiset(s)
    ensures forall k :: WithOrder(SortByOrder(s), k) == WithOrder(s, k)
  {
    SortSorted(s, OrderOf);
    forall k
      ensures WithOrder(SortByOrder(s), k) == WithOrder(s, k)
    {
      SortStable(s, OrderOf, k);
    }
    var r := SortByOrder(s);
    assert forall i, j :: 0 <= i < j < |r| ==> OrderOf(r[i]) <= OrderOf(r[j]);
  }

  // ----- loading -----

  /** A habit as parsed from storage, with its `order` key when it has one
      (lists saved before orders existed have none). */
  datatype StoredHabit = StoredHabit(habit: Habit, order: Option<int>)

  /** `parsed.map((habit, index) => ({ ...habit, order: habit.order ?? index }))`. */
  function WithOrders(stored: seq<StoredHabit>): (r: seq<Habit>)
    ensures |r| == |stored|
    ensures forall i :: 0 <= i < |r| ==> r[i] == stored[i].habit.(order := stored[i].order.GetOr(i))
  {
    seq(|stored|, i requires 0 <= i < |stored| => stored[i].habit.(order := stored[i].order.GetOr(i)))
  }

  /** The initial list: nothing stored, or a parse failure (both `None`),
      gives the empty list; otherwise the parsed habits with their orders
      filled in, sorted by order. */
  function Load(saved: Option<seq<StoredHabit>>): seq<Habit> {
    match saved
      case None => []
      case Some(stored) => SortByOrder(WithOrders(stored))
  }

  /** The loaded list is sorted, holds exactly the parsed habits with their
      orders filled in, and lists the habits that share an order as they
      were stored. */
  lemma LoadSpec(saved: Option<seq<StoredHabit>>)
    ensures SortedByOrder(Load(saved))
    ensures saved.None? ==> Load(saved) == []
    ensures saved.Some? ==> multiset(Load(saved)) == multiset(WithOrders(saved.value))
    ensures saved.Some? ==> forall k :: WithOrder(Load(saved), k) == WithOrder(WithOrders(saved.value), k)
  {
    if saved.Some? {
      SortByOrderSpec(WithOrders(saved.value));
    }
  }

  // ----- adding -----

  /** `Math.max(...habits.map(h => h.order))`. */
  function MaxOrder(s: seq<Habit>): (m: int)
    requires s != []
    ensures forall i :: 0 <= i < |s| ==> s[i].order <= m
    ensures exists i :: 0 <= i < |s| && s[i].order == m
    decreases |s|
  {
    if |s| == 1 then s[0].order
    else
      var m := MaxOrder(s[1..]);
      assert forall i :: 1 <= i < |s| ==> s[i] == s[1..][i - 1];
      if s[0].order >= m then s[0].order else m
  }

  /** `addHabit(habit)`'s new list: the habit appended with the order after
      the largest one, 0 for the first habit. */
  function Added(s: seq<Habit>, h: Habit): seq<Habit> {
    var maxOrder := if |s| > 0 then MaxOrder(s) else -1;
    s + [h.(order := maxOrder + 1)]
  }

  /** The added habit comes last with an order above every other; a sorted
      list stays sorted and distinct orders stay distinct. */
  lemma AddedSpec(s: seq<Habit>, h: Habit)
    ensures var r := Added(s, h);
      |r| == |s| + 1 && r[..|s|] == s && r[|s|] == h.(order := r[|s|].order)
    ensures var r := Added(s, h);
      (s == [] ==> r[0].order == 0) && forall i :: 0 <= i < |s| ==> s[i].order < r[|s|].order
    ensures SortedByOrder(s) ==> SortedByOrder(Added(s, h))
    ensures (forall i, j :: 0 <= i < j < |s| ==> s[i].order != s[j].order) ==>
      forall i, j :: 0 <= i < j < |s| + 1 ==> Added(s, h)[i].order != Added(s, h)[j].order
  {
    var r := Added(s, h);
    assert r[..|s|] == s;
  }

  // ----- updating and deleting -----

  /** The object passed to `updateHabit`: a present key replaces the field,
      an absent one keeps it. */
  datatype HabitPatch = HabitPatch(
    id: Option<string>,
    name: Option<string>,
    description: Option<Option<string>>,
    kind: Option<HabitKind>,
    target: Option<Option<real>>,
    unit: Option<Option<string>>,
    history: Option<History>,
    frequencyDays: Option<Option<int>>,
    frequencyTimes: Option<Option<real>>,
    color: Option<string>,
    createdAt: Option<string>,
    order: Option<int>,
    isArchived: Option<bool>)

  /** `{ ...habit, ...updatedHabit }`. */
  function MergeHabit(h: Habit, p: HabitPatch): Habit {
    Habit(
      p.id.GetOr(h.id), p.name.GetOr(h.name), p.description.GetOr(h.description),
      p.kind.GetOr(h.kind), p.target.GetOr(h.target), p.unit.GetOr(h.unit),
      p.history.GetOr(h.history), p.frequencyDays.GetOr(h.frequencyDays),
      p.frequencyTimes.GetOr(h.frequencyTimes), p.color.GetOr(h.color),
      p.createdAt.GetOr(h.createdAt), p.order.GetOr(h.order), p.isArchived.GetOr(h.isArchived))
  }

  /** `updateHabit(id, updatedHabit)`'s new list. */
  function Updated(s: seq<Habit>, id: string, p: HabitPatch): (r: seq<Habit>)
    ensures |r| == |s|
  {
    seq(|s|, i requires 0 <= i < |s| => if s[i].id == id then MergeHabit(s[i], p) else s[i])
  }

  /** Only the habits with the id change, each by the merge; a patch without
      an id keeps every id; an unknown id changes nothing. */
  lemma UpdatedSpec(s: seq<Habit>, id: string, p: HabitPatch)
    ensures forall i :: 0 <= i < |s| && s[i].id != id ==> Updated(s, id, p)[i] == s[i]
    ensures forall i :: 0 <= i < |s| && s[i].id == id ==> Updated(s, id, p)[i] == MergeHabit(s[i], p)
    ensures p.id.None? ==> forall i :: 0 <= i < |s| ==> Updated(s, id, p)[i].id == s[i].id
    ensures (forall i :: 0 <= i < |s| ==> s[i].id != id) ==> Updated(s, id, p) == s
  {
  }

  /** `prevHabits.filter(habit => habit.id !== id)`. */
  function Deleted(s: seq<Habit>, id: string): seq<Habit>
    decreases |s|
  {
    if s == [] then []
    else (if s[0].id != id then [s[0]] else []) + Deleted(s[1..], id)
  }

  lemma {:induction false} DeleteConcat(a: seq<Habit>, b: seq<Habit>, id: string)
    ensures Deleted(a + b, id) == Deleted(a, id) + Deleted(b, id)
    decreases |a|
  {
    if a != [] {
      assert (a + b)[0] == a[0];
      assert (a + b)[1..] == a[1..] + b;
      DeleteConcat(a[1..], b, id);
      var h := if a[0].id != id then [a[0]] else [];
      calc {
        Deleted(a + b, id);
        h + Deleted(a[1..] + b, id);
        h + (Deleted(a[1..], id) + Deleted(b, id));
        { ConcatAssoc(h, Deleted(a[1..], id), Deleted(b, id)); }
        (h + Deleted(a[1..], id)) + Deleted(b, id);
      }
    } else {
      assert a + b == b;
    }
  }

  /** Deleting removes every habit with the id and keeps every other one as
      often as it occurred; it works piecewise, so the kept habits stay in
      their order. */
  lemma {:induction false} DeletedSpec(s: seq<Habit>, id: string)
    ensures forall x :: x in Deleted(s, id) ==> x.id != id
    ensures forall x: Habit :: x.id != id ==> multiset(Deleted(s, id))[x] == multiset(s)[x]
    decreases |s|
  {
    if s != [] {
      DeletedSpec(s[1..], id);
      SplitEnds(s);
    }
  }

  // ----- completions -----

  /** `updateCompletion(habitId, date, value)`'s new list: the matching
      habit's history gets `value` on the day; the day is given as a day
      number rather than its key string. */
  function WithCompletion(s: seq<Habit>, habitId: string, d: Day, value: real): (r: seq<Habit>)
    ensures |r| == |s|
  {
    seq(|s|, i requires 0 <= i < |s| =>
      if s[i].id == habitId then s[i].(history := s[i].history[d := value]) else s[i])
  }

  /** The matching habit reads `value` on the day and what it read before on
      every other day; nothing else about it, and no other habit, changes. */
  lemma WithCompletionSpec(s: seq<Habit>, habitId: string, d: Day, value: real)
    ensures forall i :: 0 <= i < |s| && s[i].id == habitId ==>
      Value(WithCompletion(s, habitId, d, value)[i].history, d) == value
    ensures forall i, e :: 0 <= i < |s| && e != d ==>
      Value(WithCompletion(s, habitId, d, value)[i].history, e) == Value(s[i].history, e)
    ensures forall i :: 0 <= i < |s| ==>
      WithCompletion(s, habitId, d, value)[i].(history := s[i].history) == s[i]
    ensures forall i :: 0 <= i < |s| && s[i].id != habitId ==> WithCompletion(s, habitId, d, value)[i] == s[i]
  {
  }

  // ----- reordering -----

  /** The start position `Array.prototype.splice` uses for `k` on a list of
      length `len`: negative positions count from the end, and positions
      are clamped to `0 .. len`. */
  function SpliceIndex(k: int, len: nat): (r: nat)
    ensures r <= len
  {
    if k < 0 then (if len + k < 0 then 0 else len + k)
    else if k > len then len else k
  }

  /** `s.splice(i, 1)` leaves this list. */
  function RemoveAt(s: seq<Habit>, i: nat): seq<Habit>
    requires i < |s|
  {
    s[..i] + s[i + 1..]
  }

  /** `s.splice(j, 0, x)` leaves this list. */
  function InsertAt(s: seq<Habit>, j: nat, x: Habit): seq<Habit>
    requires j <= |s|
  {
    s[..j] + [x] + s[j..]
  }

  /** The sorted list with the habit at `startIndex` taken out and put back
      at `endIndex`. The start must name a habit: on an empty list, or a
      start at the end, `splice` yields `undefined`, which the source then
      inserts. */
  function Moved(s: seq<Habit>, startIndex: int, endIndex: int): seq<Habit>
    requires SpliceIndex(startIndex, |s|) < |s|
  {
    var sorted := SortByOrder(s);
    SortByOrderSpec(s);
    var i := SpliceIndex(startIndex, |s|);
    var rest := RemoveAt(sorted, i);
    InsertAt(rest, SpliceIndex(endIndex, |rest|), sorted[i])
  }

  /** `sortedHabits.map((habit, index) => ({ ...habit, order: index }))`. */
  function Renumber(s: seq<Habit>): (r: seq<Habit>)
    ensures |r| == |s|
    ensures forall i :: 0 <= i < |r| ==> r[i] == s[i].(order := i)
  {
    seq(|s|, i requires 0 <= i < |s| => s[i].(order := i))
  }

  /** `reorderHabits(startIndex, endIndex)`'s new list. */
  function Reordered(s: seq<Habit>, startIndex: int, endIndex: int): seq<Habit>
    requires SpliceIndex(startIndex, |s|) < |s|
  {
    Renumber(Moved(s, startIndex, endIndex))
  }

  /** Taking out the element at `i` leaves the rest of the list. */
  lemma RemoveAtSpec(s: seq<Habit>, i: nat)
    requires i < |s|
    ensures multiset(RemoveAt(s, i)) + multiset{s[i]} == multiset(s)
  {
    assert s == s[..i] + [s[i]] + s[i + 1..];
  }

  /** Putting `x` in at `j` and taking out what is at `j` undoes itself. */
  lemma InsertAtSpec(s: seq<Habit>, j: nat, x: Habit)
    requires j <= |s|
    ensures |InsertAt(s, j, x)| == |s| + 1 && InsertAt(s, j, x)[j] == x
    ensures RemoveAt(InsertAt(s, j, x), j) == s
    ensures multiset(InsertAt(s, j, x)) == multiset(s) + multiset{x}
  {
    var m := InsertAt(s, j, x);
    assert m[..j] == s[..j] && m[j + 1..] == s[j..];
    assert s[..j] + s[j..] == s;
  }

  /** The move: the habit at sorted position `i` ends up at `j`, the others
      keep their relative (sorted) order, and the list is a permutation of
      the old one. */
  lemma MovedSpec(s: seq<Habit>, startIndex: int, endIndex: int, i: nat, j: nat)
    requires i == SpliceIndex(startIndex, |s|) && i < |s| && j == SpliceIndex(endIndex, |s| - 1)
    ensures var m := Moved(s, startIndex, endIndex);
      |m| == |s| && m[j] == SortByOrder(s)[i] && RemoveAt(m, j) == RemoveAt(SortByOrder(s), i)
    ensures multiset(Moved(s, startIndex, endIndex)) == multiset(s)
  {
    SortByOrderSpec(s);
    var sorted := SortByOrder(s);
    RemoveAtSpec(sorted, i);
    InsertAtSpec(RemoveAt(sorted, i), j, sorted[i]);
  }

  /** After a reorder the orders are the positions `0 .. n - 1`. */
  lemma ReorderedOrders(s: seq<Habit>, startIndex: int, endIndex: int)
    requires SpliceIndex(startIndex, |s|) < |s|
    ensures var r := Reordered(s, startIndex, endIndex);
      |r| == |s| && (forall k :: 0 <= k < |r| ==> r[k].order == k) && SortedByOrder(r)
  {
    MovedSpec(s, startIndex, endIndex, SpliceIndex(startIndex, |s|), SpliceIndex(endIndex, |s| - 1));
  }

  // ----- the provider's state -----

  /** The provider's list of habits. */
  class HabitStore {
    var habits: seq<Habit>

    /** The lazy initial state: the stored list, normalised. */
    constructor(saved: Option<seq<StoredHabit>>)
      ensures habits == Load(saved)
    {
      habits := Load(saved);
    }

    method AddHabit(h: Habit)
      modifies this
      ensures habits == Added(old(habits), h)
    {
      habits := Added(habits, h);
    }

    method UpdateHabit(id: string, p: HabitPatch)
      modifies this
      ensures habits == Updated(old(habits), id, p)
    {
      habits := Updated(habits, id, p);
    }

    method DeleteHabit(id: string)
      modifies this
      ensures habits == Deleted(old(habits), id)
    {
      habits := Deleted(habits, id);
    }

    method UpdateCompletion(habitId: string, d: Day, value: real)
      modifies this
      ensures habits == WithCompletion(old(habits), habitId, d, value)
    {
      habits := WithCompletion(habits, habitId, d, value);
    }

    method ReorderHabits(startIndex: int, endIndex: int)
      requires SpliceIndex(startIndex, |habits|) < |habits|
      modifies this
      ensures habits == Reordered(old(habits), startIndex, endIndex)
    {
      habits := Reordered(habits, startIndex, endIndex);
    }
  }
}
