/** The default order of `Array.prototype.sort` on strings: lexicographic
    by character, a proper prefix first. */
module StringOrder {
  import opened Sequences

  /** `a` sorts strictly before `b`. */
  predicate Less(a: string, b: string)
    decreases |a|
  {
    if a == [] then b != []
    else b != [] && (a[0] < b[0] || (a[0] == b[0] && Less(a[1..], b[1..])))
  }

  lemma {:induction false} LessIrreflexive(a: string)
    ensures !Less(a, a)
    decreases |a|
  {
    if a != [] {
      LessIrreflexive(a[1..]);
    }
  }

  lemma {:induction false} LessTransitive(a: string, b: string, c: string)
    requires Less(a, b) && Less(b, c)
    ensures Less(a, c)
    decreases |a|
  {
    if a != [] && a[0] == b[0] && b[0] == c[0] {
      LessTransitive(a[1..], b[1..], c[1..]);
    }
  }

  lemma LessAsymmetric()
    ensures forall a, b :: Less(a, b) ==> !Less(b, a)
  {
    forall a, b | Less(a, b)
      ensures !Less(b, a)
    {
      if Less(b, a) {
        LessTransitive(a, b, a);
        LessIrreflexive(a);
      }
    }
  }

  /** Any two different strings are ordered one way or the other. */
  lemma {:induction false} LessTotal(a: string, b: string)
    requires a != b
    ensures Less(a, b) || Less(b, a)
    decreases |a|
  {
    if a != [] && b != [] && a[0] == b[0] {
      assert a == [a[0]] + a[1..] && b == [b[0]] + b[1..];
      LessTotal(a[1..], b[1..]);
    }
  }

  /** A finite non-empty set of strings has a first element. */
  lemma {:induction false} FirstOf(s: set<string>) returns (m: string)
    requires s != {}
    ensures m in s && forall x :: x in s && x != m ==> Less(m, x)
    decreases |s|
  {
    EmptyOrMember(s);
    var y :| y in s;
    if s == {y} {
      m := y;
    } else {
      var k := FirstOf(s - {y});
      if y != k {
        LessTotal(y, k);
      }
      m := if Less(y, k) then y else k;
      forall x | x in s && x != m
        ensures Less(m, x)
      {
        if x != y && x != k {
          assert x in s - {y};
          if m == y {
            LessTransitive(y, k, x);
          }
        }
      }
    }
  }

  lemma HasFirst(s: set<string>)
    requires s != {}
    ensures exists m :: m in s && forall x :: x in s && x != m ==> Less(m, x)
  {
    var m := FirstOf(s);
  }

  /** The first string of a finite non-empty set. */
  function SetFirst(s: set<string>): (m: string)
    requires s != {}
    ensures m in s && forall x :: x in s && x != m ==> Less(m, x)
  {
    HasFirst(s);
    LessAsymmetric();
    var m :| m in s && forall x :: x in s && x != m ==> Less(m, x);
    m
  }

  /** `Array.from(s).sort()`: the strings of a finite set in order. */
  function Sorted(s: set<string>): (r: seq<string>)
    ensures |r| == |s|
    ensures forall i :: 0 <= i < |r| ==> r[i] in s
    ensures forall i, j :: 0 <= i < j < |r| ==> Less(r[i], r[j])
    decreases |s|
  {
    if s == {} then []
    else
      var m := SetFirst(s);
      [m] + Sorted(s - {m})
  }

  /** Every string of the set is in the sorted list. */
  lemma {:induction false} SortedComplete(s: set<string>, x: string)
    requires x in s
    ensures x in Sorted(s)
    decreases |s|
  {
    var m := SetFirst(s);
    if x != m {
      SortedComplete(s - {m}, x);
      assert Sorted(s) == [m] + Sorted(s - {m});
    }
  }
}
