/** `Array.prototype.sort` as the scripts use it: a stable sort. A comparator
    `cmp` is modelled by `le(a, b) == (cmp(a, b) <= 0)`, and the sort of
    strings without a comparator by the order on characters;
    `Sort` is insertion sort, and the lemmas prove that its result is ordered
    by `le`, is a permutation of its input, and keeps elements that compare
    equal in their input order, which is what ECMAScript requires of `sort`. */
module Sorting {

  /** `le` is total and transitive, as a consistent comparator is. */
  ghost predicate TotalPreorder<T(!new)>(le: (T, T) -> bool) {
    && (forall a, b :: le(a, b) || le(b, a))
    && (forall a, b, c :: le(a, b) && le(b, c) ==> le(a, c))
  }

  ghost predicate Sorted<T>(s: seq<T>, le: (T, T) -> bool) {
    forall i, j :: 0 <= i < j < |s| ==> le(s[i], s[j])
  }

  /** Two elements the comparator cannot tell apart. */
  predicate Equivalent<T>(a: T, b: T, le: (T, T) -> bool) {
    le(a, b) && le(b, a)
  }

  /** The elements of `s` equivalent to `y`, in their order in `s`. */
  function Class<T>(s: seq<T>, y: T, le: (T, T) -> bool): seq<T> {
    if s == [] then []
    else (if Equivalent(s[0], y, le) then [s[0]] else []) + Class(s[1..], y, le)
  }

  /** Puts `x` before the first element it is not greater than. */
  function Insert<T>(x: T, s: seq<T>, le: (T, T) -> bool): seq<T> {
    if s == [] || le(x, s[0]) then [x] + s else [s[0]] + Insert(x, s[1..], le)
  }

  function Sort<T>(s: seq<T>, le: (T, T) -> bool): seq<T> {
    if s == [] then [] else Insert(s[0], Sort(s[1..], le), le)
  }

  // ---------------------------------------------------------------------------
  // Permutation

  lemma {:induction false} InsertPermutes<T>(x: T, s: seq<T>, le: (T, T) -> bool)
    ensures multiset(Insert(x, s, le)) == multiset(s) + multiset{x}
    ensures |Insert(x, s, le)| == |s| + 1
  {
    if s != [] && !le(x, s[0]) {
      InsertPermutes(x, s[1..], le);
      assert s == [s[0]] + s[1..];
    }
  }

  lemma {:induction false} SortPermutes<T>(s: seq<T>, le: (T, T) -> bool)
    ensures multiset(Sort(s, le)) == multiset(s)
    ensures |Sort(s, le)| == |s|
  {
    if s != [] {
      SortPermutes(s[1..], le);
      InsertPermutes(s[0], Sort(s[1..], le), le);
      assert s == [s[0]] + s[1..];
    }
  }

  // ---------------------------------------------------------------------------
  // Order

  lemma {:induction false} InsertSorted<T(!new)>(x: T, s: seq<T>, le: (T, T) -> bool)
    requires TotalPreorder(le) && Sorted(s, le)
    ensures Sorted(Insert(x, s, le), le)
  {
    if s == [] || le(x, s[0]) {
      var r := [x] + s;
      forall i, j | 0 <= i < j < |r| ensures le(r[i], r[j]) {
        if i == 0 && j > 1 {
          assert le(s[0], s[j - 1]);
        }
      }
    } else {
      InsertSorted(x, s[1..], le);
      InsertPermutes(x, s[1..], le);
      var t := Insert(x, s[1..], le);
      var r := [s[0]] + t;
      forall i, j | 0 <= i < j < |r| ensures le(r[i], r[j]) {
        if i == 0 {
          assert r[j] in multiset(t);
          assert r[j] == x || r[j] in multiset(s[1..]);
          if r[j] != x {
            var k :| 1 <= k < |s| && s[k] == r[j] by {
              assert r[j] in s[1..];
            }
            assert le(s[0], s[k]);
          }
        }
      }
    }
  }

  lemma {:induction false} SortSorted<T(!new)>(s: seq<T>, le: (T, T) -> bool)
    requires TotalPreorder(le)
    ensures Sorted(Sort(s, le), le)
  {
    if s != [] {
      SortSorted(s[1..], le);
      InsertSorted(s[0], Sort(s[1..], le), le);
    }
  }

  // ---------------------------------------------------------------------------
  // Stability

  lemma ClassCons<T>(a: T, s: seq<T>, y: T, le: (T, T) -> bool)
    ensures Class([a] + s, y, le) == (if Equivalent(a, y, le) then [a] else []) + Class(s, y, le)
  {
    assert ([a] + s)[1..] == s;
  }

  lemma {:induction false} InsertStable<T(!new)>(x: T, s: seq<T>, y: T, le: (T, T) -> bool)
    requires TotalPreorder(le)
    ensures Class(Insert(x, s, le), y, le) == Class([x] + s, y, le)
  {
    if s != [] && !le(x, s[0]) {
      var a, t := s[0], s[1..];
      var ca := if Equivalent(a, y, le) then [a] else [];
      var cx := if Equivalent(x, y, le) then [x] else [];
      // x lies strictly above a, so they are not both equivalent to y
      assert ca == [] || cx == [];
      InsertStable(x, t, y, le);
      calc {
        Class(Insert(x, s, le), y, le);
        { ClassCons(a, Insert(x, t, le), y, le); }
        ca + Class(Insert(x, t, le), y, le);
        { ClassCons(x, t, y, le); }
        ca + (cx + Class(t, y, le));
        cx + (ca + Class(t, y, le));
        { ClassCons(a, t, y, le); assert s == [a] + t; }
        cx + Class(s, y, le);
        { ClassCons(x, s, y, le); }
        Class([x] + s, y, le);
      }
    }
  }

  lemma {:induction false} SortStable<T(!new)>(s: seq<T>, y: T, le: (T, T) -> bool)
    requires TotalPreorder(le)
    ensures Class(Sort(s, le), y, le) == Class(s, y, le)
  {
    if s != [] {
      SortStable(s[1..], y, le);
      InsertStable(s[0], Sort(s[1..], le), y, le);
      ClassCons(s[0], Sort(s[1..], le), y, le);
      ClassCons(s[0], s[1..], y, le);
      assert s == [s[0]] + s[1..];
    }
  }
}
