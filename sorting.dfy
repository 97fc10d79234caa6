/**
 * Python's `sorted` on a set of ints and on a set of strings, `sorted(set(xs))` on a
 * list of ints, and the list slice `xs[:n]`.
 */
module Sorting {
  import opened Text

  predicate StrictlyAscending(s: seq<int>) {
    forall i, j :: 0 <= i < j < |s| ==> s[i] < s[j]
  }

  function Elements<T>(s: seq<T>): set<T> {
    set x | x in s
  }

  lemma ElementsAppend<T>(a: seq<T>, b: seq<T>)
    ensures Elements(a + b) == Elements(a) + Elements(b)
  {
    assert forall x :: x in a + b <==> x in a || x in b;
  }

  /** A non-empty set of ints has an element (stated over int, the form `:|` asks for). */
  lemma NonEmptyInts(s: set<int>)
    requires s != {}
    ensures exists x: int :: x in s
  {
    if forall y: int :: y !in s {
      assert false;
    }
  }

  lemma NonEmptyStrings(s: set<string>)
    requires s != {}
    ensures exists x: string :: x in s
  {
    if forall y: string :: y !in s {
      assert false;
    }
  }

  /** Inserts x into an ascending duplicate-free list, keeping it so. */
  function InsertAscending(s: seq<int>, x: int): (r: seq<int>)
    requires StrictlyAscending(s)
    ensures StrictlyAscending(r)
    ensures forall y :: y in r <==> y in s || y == x
    ensures x !in s ==> |r| == |s| + 1
    decreases |s|
  {
    if s == [] then [x]
    else if x < s[0] then [x] + s
    else if x == s[0] then s
    else
      var tail := InsertAscending(s[1..], x);
      assert forall y :: y in s <==> y == s[0] || y in s[1..] by {
        assert s == [s[0]] + s[1..];
      }
      assert forall k :: 0 <= k < |tail| ==> s[0] < tail[k] by {
        forall k | 0 <= k < |tail| ensures s[0] < tail[k] {
          assert tail[k] in tail;
        }
      }
      [s[0]] + tail
  }

  /** Python's `sorted(set(xs))`: the distinct elements of xs in ascending order. */
  function SortedUnique(xs: seq<int>): (r: seq<int>)
    ensures StrictlyAscending(r)
    ensures forall y :: y in r <==> y in xs
    decreases |xs|
  {
    if xs == [] then []
    else
      var init := xs[..|xs| - 1];
      assert forall y :: y in xs <==> y in init || y == xs[|xs| - 1] by {
        assert xs == init + [xs[|xs| - 1]];
      }
      InsertAscending(SortedUnique(init), xs[|xs| - 1])
  }

  /** Two ascending duplicate-free lists with the same elements are the same list. */
  lemma {:induction false} AscendingUnique(a: seq<int>, b: seq<int>)
    requires StrictlyAscending(a) && StrictlyAscending(b)
    requires forall y :: y in a <==> y in b
    ensures a == b
    decreases |a|
  {
    assert a != [] ==> a[0] in a;
    assert b != [] ==> b[0] in b;
    if a != [] && b != [] {
      assert a[0] == b[0];
      assert forall y :: y in a[1..] <==> y in b[1..] by {
        assert a == [a[0]] + a[1..] && b == [b[0]] + b[1..];
        assert forall y :: y in a <==> y == a[0] || y in a[1..];
        assert forall y :: y in b <==> y == b[0] || y in b[1..];
        forall y ensures y in a[1..] ==> y != a[0] {
          if y in a[1..] {
            var k :| 0 <= k < |a[1..]| && a[1..][k] == y;
            assert a[k + 1] == y;
          }
        }
        forall y ensures y in b[1..] ==> y != b[0] {
          if y in b[1..] {
            var k :| 0 <= k < |b[1..]| && b[1..][k] == y;
            assert b[k + 1] == y;
          }
        }
      }
      AscendingUnique(a[1..], b[1..]);
    }
  }

  ghost function MinOf(s: set<int>): (m: int)
    requires s != {}
    ensures m in s && forall y :: y in s ==> m <= y
    decreases |s|
  {
    NonEmptyInts(s);
    var x :| x in s;
    var rest := s - {x};
    if rest == {} then
      assert forall y :: y in s ==> y == x by {
        forall y | y in s ensures y == x {
          assert y == x || y in rest;
        }
      }
      x
    else
      var m := MinOf(rest);
      assert forall y :: y in s ==> y == x || y in rest;
      if x < m then x else m
  }

  /** The elements of s in ascending order: the list `sorted(s)` returns. */
  ghost function Ascending(s: set<int>): (r: seq<int>)
    ensures StrictlyAscending(r)
    ensures forall y :: y in r <==> y in s
    decreases |s|
  {
    if s == {} then
      assert forall y :: y !in s;
      []
    else
      var m := MinOf(s);
      var rest := Ascending(s - {m});
      assert forall k :: 0 <= k < |rest| ==> m < rest[k] by {
        forall k | 0 <= k < |rest| ensures m < rest[k] {
          assert rest[k] in rest;
        }
      }
      [m] + rest
  }

  /** Python's `sorted(ids)` on a set of ints, one element at a time. */
  method SortedIds(ids: set<int>) returns (r: seq<int>)
    ensures r == Ascending(ids)
  {
    r := [];
    var rest := ids;
    while rest != {}
      invariant rest <= ids
      invariant StrictlyAscending(r)
      invariant forall y :: y in r <==> y in ids && y !in rest
      decreases |rest|
    {
      NonEmptyInts(rest);
      var x :| x in rest;
      r := InsertAscending(r, x);
      rest := rest - {x};
    }
    AscendingUnique(r, Ascending(ids));
  }

  // ---------------------------------------------------------------------------
  // Strings in code-point order.

  predicate StrictlyAscendingStrings(s: seq<string>) {
    forall i, j :: 0 <= i < j < |s| ==> LexLess(s[i], s[j])
  }

  function InsertString(s: seq<string>, x: string): (r: seq<string>)
    requires StrictlyAscendingStrings(s)
    ensures StrictlyAscendingStrings(r)
    ensures Elements(r) == Elements(s) + {x}
    ensures x !in s ==> |r| == |s| + 1
    decreases |s|
  {
    if s == [] then [x]
    else if x == s[0] then s
    else if LexLess(x, s[0]) then
      assert forall k :: 0 <= k < |s| ==> LexLess(x, s[k]) by {
        forall k | 0 <= k < |s| ensures LexLess(x, s[k]) {
          if k > 0 { LexLessTransitive(x, s[0], s[k]); }
        }
      }
      [x] + s
    else
      LexLessTotal(x, s[0]);
      var tail := InsertString(s[1..], x);
      assert Elements(s) == {s[0]} + Elements(s[1..]) by {
        assert s == [s[0]] + s[1..];
      }
      assert forall k :: 0 <= k < |tail| ==> LexLess(s[0], tail[k]) by {
        forall k | 0 <= k < |tail| ensures LexLess(s[0], tail[k]) {
          assert tail[k] in Elements(tail);
        }
      }
      ElementsAppend([s[0]], tail);
      [s[0]] + tail
  }

  /** Python's `sorted(list(strings))` on a set of strings: ascending, each element once. */
  method SortStrings(strings: set<string>) returns (r: seq<string>)
    ensures StrictlyAscendingStrings(r)
    ensures Elements(r) == strings
    ensures |r| == |strings|
  {
    r := [];
    var rest := strings;
    while rest != {}
      invariant rest <= strings
      invariant StrictlyAscendingStrings(r)
      invariant Elements(r) == strings - rest
      invariant |r| + |rest| == |strings|
      decreases |rest|
    {
      NonEmptyStrings(rest);
      var x :| x in rest;
      assert x !in Elements(r);
      r := InsertString(r, x);
      rest := rest - {x};
    }
  }

  // ---------------------------------------------------------------------------
  // List slicing.

  /** Python's `xs[:n]`: a negative n counts from the end, and n may exceed the length. */
  function SliceTo<T>(xs: seq<T>, n: int): (r: seq<T>)
    ensures r <= xs
    ensures 0 <= n ==> |r| == if n <= |xs| then n else |xs|
    ensures n < 0 ==> |r| == if |xs| + n >= 0 then |xs| + n else 0
  {
    if n >= 0 then (if n <= |xs| then xs[..n] else xs)
    else if |xs| + n >= 0 then xs[..|xs| + n]
    else []
  }
}
