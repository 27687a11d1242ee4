/**
 * Python's `sorted()` applied to a set of `str`: the elements in increasing
 * code-point lexicographic order, each once.
 */
module PySorted {

  /** Python's `a < b` on `str`: the first differing code point decides,
      and a proper prefix comes first. */
  predicate Below(a: string, b: string)
    decreases |a|
  {
    if a == [] then b != []
    else if b == [] then false
    else if a[0] != b[0] then a[0] < b[0]
    else Below(a[1..], b[1..])
  }

  lemma {:induction false} BelowIrreflexive(a: string)
    ensures !Below(a, a)
    decreases |a|
  {
    if a != [] { BelowIrreflexive(a[1..]); }
  }

  lemma {:induction false} BelowAsymmetric(a: string, b: string)
    ensures Below(a, b) ==> !Below(b, a)
    decreases |a|
  {
    if a != [] && b != [] && a[0] == b[0] { BelowAsymmetric(a[1..], b[1..]); }
  }

  lemma {:induction false} BelowTransitive(a: string, b: string, c: string)
    requires Below(a, b) && Below(b, c)
    ensures Below(a, c)
    decreases |a|
  {
    if a != [] && a[0] == b[0] && b[0] == c[0] { BelowTransitive(a[1..], b[1..], c[1..]); }
  }

  /** Any two different strings are ordered one way or the other. */
  lemma {:induction false} BelowTotal(a: string, b: string)
    requires a != b
    ensures Below(a, b) || Below(b, a)
    decreases |a|
  {
    if a != [] && b != [] && a[0] == b[0] {
      assert a == [a[0]] + a[1..] && b == [b[0]] + b[1..];
      BelowTotal(a[1..], b[1..]);
    }
  }

  predicate StrictlySorted(s: seq<string>) {
    forall i, j | 0 <= i < j < |s| :: Below(s[i], s[j])
  }

  function Elements(s: seq<string>): set<string> {
    set x | x in s
  }

  ghost predicate IsLeast(m: string, s: set<string>) {
    m in s && forall y | y in s && y != m :: Below(m, y)
  }

  lemma LeastExists(s: set<string>)
    requires s != {}
    ensures exists m :: IsLeast(m, s)
    decreases s
  {
    var x :| x in s;
    if s != {x} {
      LeastExists(s - {x});
      var m :| IsLeast(m, s - {x});
      if Below(m, x) {
        forall y | y in s && y != m ensures Below(m, y) {
          if y == x { } else { assert y in s - {x}; }
        }
        assert IsLeast(m, s);
      } else {
        BelowTotal(m, x);
        forall y | y in s && y != x ensures Below(x, y) {
          if y != m { BelowTransitive(x, m, y); }
        }
        assert IsLeast(x, s);
      }
    } else {
      assert IsLeast(x, s);
    }
  }

  /** `sorted(s)`, defined by taking the least element first. */
  ghost function SortedList(s: set<string>): seq<string>
    decreases s
  {
    if s == {} then []
    else
      LeastExists(s);
      var m :| IsLeast(m, s);
      [m] + SortedList(s - {m})
  }

  /** The sorted list is strictly increasing (hence duplicate-free) and holds exactly the set. */
  lemma {:induction false} SortedListSpec(s: set<string>)
    ensures StrictlySorted(SortedList(s))
    ensures Elements(SortedList(s)) == s
    decreases s
  {
    if s != {} {
      LeastExists(s);
      var m :| IsLeast(m, s) && SortedList(s) == [m] + SortedList(s - {m});
      SortedListSpec(s - {m});
      var r := SortedList(s);
      forall i, j | 0 <= i < j < |r| ensures Below(r[i], r[j]) {
        if i == 0 {
          assert r[j] in Elements(SortedList(s - {m}));
        } else {
          assert r[i] == SortedList(s - {m})[i - 1] && r[j] == SortedList(s - {m})[j - 1];
        }
      }
      forall x | x in s ensures x in Elements(r) {
        if x != m { assert x in Elements(SortedList(s - {m})); }
      }
    }
  }

  /** A strictly sorted list is determined by its elements. */
  lemma {:induction false} SortedUnique(a: seq<string>, b: seq<string>)
    requires StrictlySorted(a) && StrictlySorted(b)
    requires Elements(a) == Elements(b)
    ensures a == b
    decreases |a|
  {
    assert a != [] ==> a[0] in Elements(b);
    assert b != [] ==> b[0] in Elements(a);
    if a != [] && b != [] {
      if a[0] != b[0] {
        assert b[0] in Elements(a) && a[0] in Elements(b);
        var i :| 0 <= i < |a| && a[i] == b[0];
        var j :| 0 <= j < |b| && b[j] == a[0];
        BelowAsymmetric(a[0], b[0]);
        assert false;
      }
      TailElements(a);
      TailElements(b);
      SortedUnique(a[1..], b[1..]);
      assert a == [a[0]] + a[1..] && b == [b[0]] + b[1..];
    }
  }

  lemma TailElements(a: seq<string>)
    requires StrictlySorted(a) && a != []
    ensures StrictlySorted(a[1..])
    ensures Elements(a[1..]) == Elements(a) - {a[0]}
  {
    forall x | x in a[1..] ensures x != a[0] {
      var j :| 1 <= j < |a| && a[j] == x;
      BelowIrreflexive(a[0]);
    }
    forall x | x in Elements(a) - {a[0]} ensures x in a[1..] {
      var j :| 0 <= j < |a| && a[j] == x;
      assert a[1..][j - 1] == x;
    }
  }

  /** The least element of a non-empty set, found by one pass over it. */
  method Least(s: set<string>) returns (m: string)
    requires s != {}
    ensures IsLeast(m, s)
  {
    m :| m in s;
    var rest := s - {m};
    while rest != {}
      invariant rest <= s && m in s && m !in rest
      invariant forall y | y in s - rest && y != m :: Below(m, y)
      decreases rest
    {
      var y :| y in rest;
      if Below(y, m) {
        forall z | z in s - (rest - {y}) && z != y ensures Below(y, z) {
          if z != m { BelowTransitive(y, m, z); }
        }
        m := y;
      } else {
        BelowTotal(m, y);
      }
      rest := rest - {y};
    }
  }

  /** `sorted(s)` by repeatedly moving the least remaining element to the end of the list. */
  method Sorted(s: set<string>) returns (r: seq<string>)
    ensures r == SortedList(s)
  {
    r := [];
    var rest := s;
    while rest != {}
      invariant StrictlySorted(r)
      invariant Elements(r) + rest == s && Elements(r) !! rest
      invariant forall x, y | x in r && y in rest :: Below(x, y)
      decreases rest
    {
      var m := Least(rest);
      r := r + [m];
      rest := rest - {m};
    }
    SortedListSpec(s);
    SortedUnique(r, SortedList(s));
  }
}
