/** Python's ordering of strings (code point by code point, a proper prefix
    first) and the sorted, duplicate-free listing that `sorted(...)` of a
    pandas index and `pivot_table`'s grouping produce. */
module Order {

  /** `a <= b` on Python strings. */
  predicate Below(a: string, b: string)
    decreases |a|
  {
    a == [] || (b != [] && (a[0] < b[0] || (a[0] == b[0] && Below(a[1..], b[1..]))))
  }

  lemma {:induction false} BelowReflexive(a: string)
    ensures Below(a, a)
    decreases |a|
  {
    if a != [] { BelowReflexive(a[1..]); }
  }

  lemma {:induction false} BelowAntisymmetric(a: string, b: string)
    requires Below(a, b) && Below(b, a)
    ensures a == b
    decreases |a|
  {
    if a != [] {
      BelowAntisymmetric(a[1..], b[1..]);
      assert a == [a[0]] + a[1..] && b == [b[0]] + b[1..];
    }
  }

  lemma {:induction false} BelowTransitive(a: string, b: string, c: string)
    requires Below(a, b) && Below(b, c)
    ensures Below(a, c)
    decreases |a|
  {
    if a != [] && a[0] == b[0] && b[0] == c[0] {
      BelowTransitive(a[1..], b[1..], c[1..]);
    }
  }

  lemma {:induction false} BelowTotal(a: string, b: string)
    ensures Below(a, b) || Below(b, a)
    decreases |a|
  {
    if a != [] && b != [] && a[0] == b[0] {
      BelowTotal(a[1..], b[1..]);
    }
  }

  function Elems(s: seq<string>): set<string> {
    set y | y in s
  }

  /** Strictly increasing, hence free of duplicates. */
  predicate Increasing(s: seq<string>) {
    forall i, j :: 0 <= i < j < |s| ==> Below(s[i], s[j]) && s[i] != s[j]
  }

  /** Adds `x` to an increasing listing, keeping it increasing. */
  function Insert(x: string, s: seq<string>): (r: seq<string>)
    requires Increasing(s)
    ensures Increasing(r)
    ensures Elems(r) == Elems(s) + {x}
    decreases |s|
  {
    if s == [] then [x]
    else if x == s[0] then s
    else if Below(x, s[0]) then
      InsertFront(x, s);
      [x] + s
    else
      BelowTotal(x, s[0]);
      var t := Insert(x, s[1..]);
      InsertBehind(x, s, t);
      [s[0]] + t
  }

  lemma InsertFront(x: string, s: seq<string>)
    requires Increasing(s) && s != [] && Below(x, s[0]) && x != s[0]
    ensures Increasing([x] + s)
    ensures Elems([x] + s) == Elems(s) + {x}
  {
    forall j | 0 <= j < |s| ensures Below(x, s[j]) && x != s[j] {
      if j > 0 {
        BelowTransitive(x, s[0], s[j]);
        if x == s[j] { BelowAntisymmetric(s[0], s[j]); }
      }
    }
  }

  lemma InsertBehind(x: string, s: seq<string>, t: seq<string>)
    requires Increasing(s) && s != [] && Below(s[0], x) && x != s[0]
    requires Increasing(t) && Elems(t) == Elems(s[1..]) + {x}
    ensures Increasing([s[0]] + t)
    ensures Elems([s[0]] + t) == Elems(s) + {x}
  {
    forall y | y in t ensures Below(s[0], y) && s[0] != y {
      assert y in Elems(t);
      assert y in s[1..] || y == x;
    }
    assert Elems([s[0]] + t) == {s[0]} + Elems(t);
    assert Elems(s) == {s[0]} + Elems(s[1..]) by { assert s == [s[0]] + s[1..]; }
  }

  /** The distinct strings of `s` in increasing order. */
  function SortedDistinct(s: seq<string>): (r: seq<string>)
    ensures Increasing(r)
    ensures Elems(r) == Elems(s)
  {
    if s == [] then []
    else
      var r := Insert(s[|s| - 1], SortedDistinct(s[..|s| - 1]));
      assert s == s[..|s| - 1] + [s[|s| - 1]];
      r
  }
}
