/** Generic facts about sequences and sets that the helpers share. */
module Sequences {
  import opened Wrappers

  /** A set is empty or has a member. */
  lemma EmptyOrMember<T>(s: set<T>)
    ensures s == {} || exists y :: y in s
  {
    if forall y :: y !in s {
      assert s == {};
    }
  }

  /** `f` applied to each element, in order: `Array.prototype.map`. */
  function Map<A, B>(f: A -> B, s: seq<A>): (r: seq<B>)
    ensures |r| == |s|
    ensures forall i :: 0 <= i < |s| ==> r[i] == f(s[i])
  {
    seq(|s|, i requires 0 <= i < |s| => f(s[i]))
  }

  lemma MapCons<A, B>(f: A -> B, x: A, tail: seq<A>)
    ensures Map(f, [x] + tail) == [f(x)] + Map(f, tail)
  {
    var s := [x] + tail;
    assert s[0] == x;
    forall i | 0 < i < |s|
      ensures s[i] == tail[i - 1]
    {
    }
  }

  lemma MapPush<A, B>(f: A -> B, s: seq<A>, x: A)
    ensures Map(f, s + [x]) == Map(f, s) + [f(x)]
  {
    assert (s + [x])[|s|] == x;
  }

  /** Concatenation is associative. */
  lemma ConcatAssoc<T>(a: seq<T>, b: seq<T>, c: seq<T>)
    ensures a + (b + c) == (a + b) + c
  {
  }

  /** A non-empty sequence is its first element before the rest, and the
      elements before its last one followed by it. */
  lemma SplitEnds<T>(s: seq<T>)
    requires s != []
    ensures s == [s[0]] + s[1..]
    ensures s == s[..|s| - 1] + [s[|s| - 1]]
  {
  }

  /** No element occurs twice. */
  predicate Distinct<T(==)>(s: seq<T>) {
    forall i, j :: 0 <= i < j < |s| ==> s[i] != s[j]
  }

  lemma DistinctCons<T>(x: T, tail: seq<T>)
    requires Distinct(tail) && x !in tail
    ensures Distinct([x] + tail)
  {
    var s := [x] + tail;
    forall i, j | 0 <= i < j < |s|
      ensures s[i] != s[j]
    {
      assert s[j] == tail[j - 1];
      if i > 0 {
        assert s[i] == tail[i - 1];
      }
    }
  }

  /** The last element, if any. */
  lemma NotInPair<T>(x: T, s: seq<T>)
    requires |s| == 2 && x != s[0] && x != s[1]
    ensures x !in s
  {
  }

  function LastOf<T>(s: seq<T>): Option<T> {
    if s == [] then None else Some(s[|s| - 1])
  }

  /** `s` with every run of equal neighbours cut to its first element;
      `prev` is the element kept just before `s`, if any. */
  function Squeeze<T(==)>(s: seq<T>, prev: Option<T>): seq<T>
    decreases |s|
  {
    if s == [] then []
    else if prev == Some(s[0]) then Squeeze(s[1..], prev)
    else [s[0]] + Squeeze(s[1..], Some(s[0]))
  }

  /** Keeping or dropping the next element as a loop does, against the
      squeezed remainder. */
  lemma SqueezeStep<T>(kept: seq<T>, x: T, rest: seq<T>, total: seq<T>)
    requires kept + Squeeze([x] + rest, LastOf(kept)) == total
    ensures var kept' := if LastOf(kept) == Some(x) then kept else kept + [x];
      kept' + Squeeze(rest, LastOf(kept')) == total
  {
    var s := [x] + rest;
    assert s[0] == x && s[1..] == rest;
    if LastOf(kept) != Some(x) {
      assert LastOf(kept + [x]) == Some(x);
      assert (kept + [x]) + Squeeze(rest, Some(x)) == kept + ([x] + Squeeze(rest, Some(x)));
    }
  }

  /** Every element of `s` is kept, or is the element kept just before. */
  lemma {:induction false} SqueezeKeeps<T>(s: seq<T>, prev: Option<T>, x: T)
    requires x in s
    ensures x in Squeeze(s, prev) || prev == Some(x)
    decreases |s|
  {
    if s[0] != x {
      assert x in s[1..];
      SqueezeKeeps(s[1..], if prev == Some(s[0]) then prev else Some(s[0]), x);
    }
  }

  /** Only elements of `s` are kept. */
  lemma {:induction false} SqueezeSound<T>(s: seq<T>, prev: Option<T>, x: T)
    requires x in Squeeze(s, prev)
    ensures x in s
    decreases |s|
  {
    if s[0] != x {
      SqueezeSound(s[1..], if prev == Some(s[0]) then prev else Some(s[0]), x);
      assert x in s[1..];
    }
  }

  /** No two neighbours of the result are equal, and the first differs
      from `prev`. */
  lemma {:induction false} SqueezeNoRepeats<T>(s: seq<T>, prev: Option<T>)
    ensures var r := Squeeze(s, prev);
      (forall i :: 0 < i < |r| ==> r[i - 1] != r[i]) && (|r| > 0 ==> prev != Some(r[0]))
    decreases |s|
  {
    if s != [] {
      var next := if prev == Some(s[0]) then prev else Some(s[0]);
      SqueezeNoRepeats(s[1..], next);
      var r := Squeeze(s, prev);
      var tail := Squeeze(s[1..], next);
      if prev != Some(s[0]) {
        assert r == [s[0]] + tail;
        forall i | 0 < i < |r|
          ensures r[i - 1] != r[i]
        {
          if i > 1 {
            assert r[i - 1] == tail[i - 2] && r[i] == tail[i - 1];
          }
        }
      }
    }
  }
}
