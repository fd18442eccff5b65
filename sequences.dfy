/** The LINQ operators the reconciliation relies on (`Distinct`, and
    `GroupBy(...).Where(g => g.Count() > 1)` for reporting duplicates),
    stated over sequences of names. Multiplicities are read off `multiset(s)[x]`. */
module Sequences {

  /** No element occurs twice. */
  predicate AllDistinct(s: seq<string>) {
    forall i, j | 0 <= i < j < |s| :: s[i] != s[j]
  }

  /** `Enumerable.Distinct`: each element once, in order of first occurrence. */
  function Distinct(s: seq<string>): (d: seq<string>)
    ensures forall x :: x in d <==> x in s
    ensures AllDistinct(d)
    ensures |d| <= |s|
  {
    if s == [] then []
    else
      var p := Distinct(s[..|s| - 1]);
      if s[|s| - 1] in s[..|s| - 1] then p else p + [s[|s| - 1]]
  }

  /** Removing repeats shortens a sequence exactly when it has a repeat. */
  lemma {:induction false} DistinctLength(s: seq<string>)
    ensures |Distinct(s)| == |s| <==> AllDistinct(s)
  {
    if s != [] {
      var pre := s[..|s| - 1];
      DistinctLength(pre);
      assert s == pre + [s[|s| - 1]];
      if AllDistinct(s) {
        assert AllDistinct(pre) by {
          forall i, j | 0 <= i < j < |pre| ensures pre[i] != pre[j] {
            assert pre[i] == s[i] && pre[j] == s[j];
          }
        }
      }
    }
  }

  /** A sequence without repeats is its own `Distinct`. */
  lemma {:induction false} DistinctOfDistinct(s: seq<string>)
    requires AllDistinct(s)
    ensures Distinct(s) == s
  {
    if s != [] {
      var pre := s[..|s| - 1];
      assert AllDistinct(pre) by {
        forall i, j | 0 <= i < j < |pre| ensures pre[i] != pre[j] {
          assert pre[i] == s[i] && pre[j] == s[j];
        }
      }
      DistinctOfDistinct(pre);
      assert s[|s| - 1] !in pre by {
        forall i | 0 <= i < |pre| ensures pre[i] != s[|s| - 1] {
          assert pre[i] == s[i];
        }
      }
      assert s == pre + [s[|s| - 1]];
    }
  }

  /** `Distinct` of an extended sequence extends `Distinct` of the prefix by
      the new element exactly when that element was not seen before. */
  lemma DistinctSnoc(s: seq<string>, x: string)
    ensures Distinct(s + [x]) == if x in s then Distinct(s) else Distinct(s) + [x]
  {
    assert (s + [x])[..|s + [x]| - 1] == s;
  }

  /** The elements of `keys` that occur more than once in `s`, in the order of `keys`. */
  function Repeated(keys: seq<string>, s: seq<string>): (r: seq<string>)
    ensures forall x :: x in r <==> x in keys && multiset(s)[x] > 1
    ensures AllDistinct(keys) ==> AllDistinct(r)
  {
    if keys == [] then []
    else
      var p := Repeated(keys[..|keys| - 1], s);
      var k := keys[|keys| - 1];
      assert AllDistinct(keys) ==> AllDistinct(keys[..|keys| - 1]) && k !in keys[..|keys| - 1] by {
        if AllDistinct(keys) {
          var pre := keys[..|keys| - 1];
          forall i, j | 0 <= i < j < |pre| ensures pre[i] != pre[j] {
            assert pre[i] == keys[i] && pre[j] == keys[j];
          }
          forall i | 0 <= i < |pre| ensures pre[i] != k {
            assert pre[i] == keys[i];
          }
        }
      }
      if multiset(s)[k] > 1 then p + [k] else p
  }

  /** The names a `GroupBy(i => i).Where(g => g.Count() > 1).Select(g => g.Key)`
      reports: every element that occurs more than once, each of them once. */
  function Duplicates(s: seq<string>): (d: seq<string>)
    ensures AllDistinct(d)
    ensures forall x :: x in d <==> multiset(s)[x] > 1
  {
    Repeated(Distinct(s), s)
  }

  /** Two equal entries at distinct positions make their value a duplicate. */
  lemma {:induction false} TwoPositionsMakeADuplicate(s: seq<string>, i: nat, j: nat)
    requires i < j < |s| && s[i] == s[j]
    ensures multiset(s)[s[i]] > 1
  {
    assert s == s[..i] + [s[i]] + s[i + 1..j] + [s[j]] + s[j + 1..];
    assert multiset(s) == multiset(s[..i]) + multiset{s[i]} + multiset(s[i + 1..j]) + multiset{s[j]} + multiset(s[j + 1..]);
  }

  /** An element with multiplicity above one sits at two distinct positions. */
  lemma {:induction false} DuplicateHasTwoPositions(s: seq<string>, x: string)
    requires multiset(s)[x] > 1
    ensures !AllDistinct(s)
  {
    var pre := s[..|s| - 1];
    assert s == pre + [s[|s| - 1]];
    if s[|s| - 1] == x {
      assert multiset(pre)[x] > 0;
      var i :| 0 <= i < |pre| && pre[i] == x;
      assert s[i] == s[|s| - 1];
    } else {
      assert multiset(pre)[x] > 1;
      DuplicateHasTwoPositions(pre, x);
      var i, j :| 0 <= i < j < |pre| && pre[i] == pre[j];
      assert s[i] == s[j];
    }
  }

  /** The duplicate report is empty exactly when there are no repeats. */
  lemma DuplicatesEmpty(s: seq<string>)
    ensures Duplicates(s) == [] <==> AllDistinct(s)
  {
    if !AllDistinct(s) {
      var i, j :| 0 <= i < j < |s| && s[i] == s[j];
      TwoPositionsMakeADuplicate(s, i, j);
      assert s[i] in Duplicates(s);
    }
    if Duplicates(s) != [] {
      DuplicateHasTwoPositions(s, Duplicates(s)[0]);
    }
  }
}
