/**
 * The parts of Python's built-in behaviour that the core relies on, written
 * out: list indexing (negative indices count from the end), `str.join`,
 * the ordering `<` on `str`, `min(xs, key=...)`, `itertools.combinations`,
 * list comprehensions with a condition, and `*s` unpacking of a string.
 */
module Builtins {
  import opened Wrappers

  /** `s[i]` on a Python list; `None` stands for the IndexError it raises. */
  function Index<T>(s: seq<T>, i: int): (r: Option<T>)
    ensures r.Some? <==> -|s| <= i < |s|
    ensures r.Some? ==> r.value == s[i % |s|]
  {
    if 0 <= i < |s| then Some(s[i])
    else if -|s| <= i < 0 then Some(s[|s| + i])
    else None
  }

  /** `sep.join(parts)`. */
  function Join(sep: string, parts: seq<string>): string
    decreases |parts|
  {
    if |parts| == 0 then ""
    else if |parts| == 1 then parts[0]
    else parts[0] + sep + Join(sep, parts[1..])
  }

  /** Joins of one, two and three parts. */
  lemma JoinSmall(sep: string, a: string, b: string, c: string)
    ensures Join(sep, [a]) == a
    ensures Join(sep, [a, b]) == a + sep + b
    ensures Join(sep, [a, b, c]) == a + sep + b + sep + c
  {
    assert [a, b][1..] == [b];
    assert [a, b, c][1..] == [b, c];
    assert [b, c][1..] == [c];
    assert Join(sep, [b, c]) == b + sep + c;
    assert Join(sep, [a, b, c]) == a + sep + Join(sep, [b, c]);
    assert a + sep + (b + sep + c) == a + sep + b + sep + c;
  }

  /** Joining after a leading empty string puts the separator in front. */
  lemma JoinAfterEmpty(sep: string, parts: seq<string>)
    ensures Join(sep, [""] + parts) == if parts == [] then "" else sep + Join(sep, parts)
  {
    if parts != [] {
      assert ([""] + parts)[1..] == parts;
    }
  }

  /** A join whose first part is not empty is not empty. */
  lemma JoinNotEmpty(sep: string, parts: seq<string>)
    requires parts != [] && parts[0] != ""
    ensures Join(sep, parts) != ""
  {
  }

  /** `a < b` on Python strings: code-point order, a proper prefix being smaller. */
  predicate Less(a: string, b: string)
    decreases |a|
  {
    if |a| == 0 then |b| > 0
    else if |b| == 0 then false
    else if a[0] != b[0] then a[0] < b[0]
    else Less(a[1..], b[1..])
  }

  lemma {:induction false} LessIrreflexive(a: string)
    ensures !Less(a, a)
    decreases |a|
  {
    if |a| > 0 {
      LessIrreflexive(a[1..]);
    }
  }

  lemma {:induction false} LessTransitive(a: string, b: string, c: string)
    requires Less(a, b) && Less(b, c)
    ensures Less(a, c)
    decreases |a|
  {
    if |a| > 0 && a[0] == b[0] && b[0] == c[0] {
      LessTransitive(a[1..], b[1..], c[1..]);
    }
  }

  lemma LessAsymmetric(a: string, b: string)
    requires Less(a, b)
    ensures !Less(b, a)
  {
    if Less(b, a) {
      LessTransitive(a, b, a);
      LessIrreflexive(a);
    }
  }

  lemma {:induction false} LessTotal(a: string, b: string)
    ensures a == b || Less(a, b) || Less(b, a)
    decreases |a|
  {
    if |a| > 0 && |b| > 0 && a[0] == b[0] {
      LessTotal(a[1..], b[1..]);
      if a[1..] == b[1..] {
        assert a == [a[0]] + a[1..] && b == [b[0]] + b[1..];
      }
    }
  }

  /**
   * The position `min(xs, key=key)` picks: the scan goes left to right and
   * replaces its current best only by a strictly smaller key.
   */
  function ArgMin<T>(xs: seq<T>, key: T -> string): (i: nat)
    requires |xs| > 0
    ensures i < |xs|
    decreases |xs|
  {
    if |xs| == 1 then 0
    else
      var m := ArgMin(xs[..|xs| - 1], key);
      if Less(key(xs[|xs| - 1]), key(xs[m])) then |xs| - 1 else m
  }

  /** `min` picks an element whose key no other key is below, the first such one. */
  lemma {:induction false} ArgMinIsFirstMinimum<T>(xs: seq<T>, key: T -> string)
    requires |xs| > 0
    ensures forall j :: 0 <= j < |xs| ==> !Less(key(xs[j]), key(xs[ArgMin(xs, key)]))
    ensures forall j :: 0 <= j < ArgMin(xs, key) ==> Less(key(xs[ArgMin(xs, key)]), key(xs[j]))
    decreases |xs|
  {
    if |xs| == 1 {
      LessIrreflexive(key(xs[0]));
    } else {
      var init, last := xs[..|xs| - 1], xs[|xs| - 1];
      ArgMinIsFirstMinimum(init, key);
      var m := ArgMin(init, key);
      if Less(key(last), key(xs[m])) {
        forall j | 0 <= j < |xs| - 1
          ensures Less(key(last), key(xs[j]))
        {
          assert xs[j] == init[j];
          LessTotal(key(xs[m]), key(xs[j]));
          if key(xs[m]) != key(xs[j]) {
            LessTransitive(key(last), key(xs[m]), key(xs[j]));
          }
        }
        forall j | 0 <= j < |xs|
          ensures !Less(key(xs[j]), key(last))
        {
          if j < |xs| - 1 {
            LessAsymmetric(key(last), key(xs[j]));
          } else {
            LessIrreflexive(key(last));
          }
        }
      } else {
        forall j | 0 <= j < |xs|
          ensures !Less(key(xs[j]), key(xs[m]))
        {
          if j < |xs| - 1 {
            assert xs[j] == init[j];
          }
        }
        forall j | 0 <= j < m
          ensures Less(key(xs[m]), key(xs[j]))
        {
          assert xs[j] == init[j];
        }
      }
    }
  }

  /** `[x for x in xs if p(x)]`. */
  function Filter<T>(p: T -> bool, xs: seq<T>): seq<T>
    decreases |xs|
  {
    if |xs| == 0 then []
    else (if p(xs[0]) then [xs[0]] else []) + Filter(p, xs[1..])
  }

  /** The comprehension keeps exactly the elements that satisfy the condition. */
  lemma {:induction false} FilterMembers<T>(p: T -> bool, xs: seq<T>)
    ensures |Filter(p, xs)| <= |xs|
    ensures forall i :: 0 <= i < |Filter(p, xs)| ==> Filter(p, xs)[i] in xs && p(Filter(p, xs)[i])
    ensures forall i :: 0 <= i < |xs| && p(xs[i]) ==> xs[i] in Filter(p, xs)
    decreases |xs|
  {
    if |xs| > 0 {
      FilterMembers(p, xs[1..]);
      var r := Filter(p, xs);
      var head: seq<T> := if p(xs[0]) then [xs[0]] else [];
      assert r == head + Filter(p, xs[1..]);
      forall i | 0 <= i < |xs| && p(xs[i])
        ensures xs[i] in r
      {
        if i > 0 {
          assert xs[i] == xs[1..][i - 1];
        }
      }
    }
  }

  /** Puts `x` in front of every sequence of `cs`. */
  function Prepend<T>(x: T, cs: seq<seq<T>>): seq<seq<T>>
    decreases |cs|
  {
    if |cs| == 0 then [] else [[x] + cs[0]] + Prepend(x, cs[1..])
  }

  /**
   * `itertools.combinations(xs, n)`: the `n`-element selections of `xs`,
   * kept in their order in `xs`, listed in lexicographic order of positions.
   */
  function Combinations<T>(xs: seq<T>, n: nat): seq<seq<T>>
    decreases |xs|
  {
    if n == 0 then [[]]
    else if |xs| == 0 then []
    else Prepend(xs[0], Combinations(xs[1..], n - 1)) + Combinations(xs[1..], n)
  }

  /** `*s` on a string: the arguments are its one-character strings. */
  function Chars(s: string): (r: seq<string>)
    ensures |r| == |s|
    ensures forall x :: x in r ==> |x| == 1
  {
    seq(|s|, i requires 0 <= i < |s| => [s[i]])
  }
}
