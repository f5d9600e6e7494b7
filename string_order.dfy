/**
 * Python's ordering of `str` values (code point by code point, a proper
 * prefix first) and `sorted` on a list of strings.
 */
module StringOrder {
  import opened Sequences

  /** Python's `a < b` on strings. */
  predicate Less(a: string, b: string)
    ensures Less(a, b) ==> a != b
    ensures a < b ==> Less(a, b)
  {
    if |a| == 0 then |b| > 0
    else if |b| == 0 then false
    else if a[0] != b[0] then a[0] < b[0]
    else Less(a[1..], b[1..])
  }

  lemma {:induction false} LessIrreflexive(a: string)
    ensures !Less(a, a)
  {
    if |a| > 0 {
      LessIrreflexive(a[1..]);
    }
  }

  /** Any two different strings are ordered one way. */
  lemma {:induction false} LessTotal(a: string, b: string)
    ensures a == b || Less(a, b) || Less(b, a)
  {
    if |a| > 0 && |b| > 0 && a[0] == b[0] {
      LessTotal(a[1..], b[1..]);
      if a[1..] == b[1..] {
        assert a == [a[0]] + a[1..] && b == [b[0]] + b[1..];
      }
    }
  }

  /** Never both ways. */
  lemma {:induction false} LessAsymmetric(a: string, b: string)
    ensures !(Less(a, b) && Less(b, a))
  {
    if |a| > 0 && |b| > 0 && a[0] == b[0] {
      LessAsymmetric(a[1..], b[1..]);
    }
  }

  lemma {:induction false} LessTransitive(a: string, b: string, c: string)
    requires Less(a, b) && Less(b, c)
    ensures Less(a, c)
  {
    if |a| > 0 && |b| > 0 && |c| > 0 && a[0] == b[0] == c[0] {
      LessTransitive(a[1..], b[1..], c[1..]);
    }
  }

  /** Neighbours never descend: the order `sorted` produces. */
  predicate Ascending(s: seq<string>)
  {
    forall i :: 0 < i < |s| ==> !Less(s[i], s[i - 1])
  }

  /** Every earlier element is strictly smaller than every later one. */
  predicate StrictlyAscending(s: seq<string>)
  {
    forall i, j :: 0 <= i < j < |s| ==> Less(s[i], s[j])
  }

  /** `x` placed before the first element of `s` that is not smaller than it. */
  function Insert(x: string, s: seq<string>): (r: seq<string>)
    requires Ascending(s)
    ensures Ascending(r)
    ensures multiset(r) == multiset(s) + multiset{x}
    ensures |r| > 0 && (r[0] == x || (|s| > 0 && r[0] == s[0]))
  {
    if |s| == 0 then [x]
    else if !Less(s[0], x) then
      LessTotal(x, s[0]);
      [x] + s
    else
      var rest := Insert(x, s[1..]);
      assert s == [s[0]] + s[1..];
      LessAsymmetric(s[0], x);
      [s[0]] + rest
  }

  /** `sorted(s)`: the elements of `s`, each as often as in `s`, in ascending order. */
  function Sort(s: seq<string>): (r: seq<string>)
    ensures Ascending(r)
    ensures multiset(r) == multiset(s)
  {
    if |s| == 0 then []
    else
      assert s == [s[0]] + s[1..];
      Insert(s[0], Sort(s[1..]))
  }

  /** Sorting keeps exactly the elements of the input. */
  lemma SortElements(s: seq<string>)
    ensures forall x :: x in Sort(s) <==> x in s
  {
    forall x
      ensures x in Sort(s) <==> x in s
    {
      assert x in Sort(s) <==> x in multiset(Sort(s));
    }
  }

  /** A sorted sequence without repeats is strictly ascending, pair by pair. */
  lemma {:induction false} AscendingNoDupsIsStrict(s: seq<string>)
    requires Ascending(s) && NoDups(s)
    ensures StrictlyAscending(s)
  {
    if |s| > 1 {
      var init := s[..|s| - 1];
      assert Ascending(init) && NoDups(init);
      AscendingNoDupsIsStrict(init);
      var n := |s| - 1;
      LessTotal(s[n - 1], s[n]);
      forall i | 0 <= i < n
        ensures Less(s[i], s[n])
      {
        if i < n - 1 {
          assert init[i] == s[i] && init[n - 1] == s[n - 1];
          LessTransitive(s[i], s[n - 1], s[n]);
        }
      }
      forall i, j | 0 <= i < j < |s|
        ensures Less(s[i], s[j])
      {
        if j < n {
          assert init[i] == s[i] && init[j] == s[j];
        }
      }
    }
  }

  /** Sorting a duplicate-free list gives a strictly ascending one. */
  lemma SortStrict(s: seq<string>)
    requires NoDups(s)
    ensures StrictlyAscending(Sort(s))
  {
    var r := Sort(s);
    forall i, j | 0 <= i < j < |r|
      ensures r[i] != r[j]
    {
      if r[i] == r[j] {
        assert multiset(r)[r[i]] >= 2 by {
          assert r == r[..i] + [r[i]] + r[i + 1..j] + [r[j]] + r[j + 1..];
        }
        MultiplicityOfNoDups(s, r[i]);
        assert false;
      }
    }
    AscendingNoDupsIsStrict(r);
  }

  /** In a duplicate-free sequence nothing occurs more than once. */
  lemma {:induction false} MultiplicityOfNoDups(s: seq<string>, x: string)
    requires NoDups(s)
    ensures multiset(s)[x] <= 1
  {
    if |s| > 0 {
      var init, last := s[..|s| - 1], s[|s| - 1];
      assert s == init + [last];
      MultiplicityOfNoDups(init, x);
      assert last !in init;
      if x == last {
        assert multiset(init)[x] == 0;
      }
    }
  }
}
