/** The port-name list the Model keeps: names are ordered as `QString`
    orders them (lexicographically by character code), and a refreshed list
    is always sorted before it is compared with the stored one. */
module PortNames {

  /** `a` sorts no later than `b`: lexicographic order on character codes,
      where a proper prefix sorts first. */
  predicate NameLe(a: string, b: string): (le: bool)
    ensures |a| <= |b| && a == b[..|a|] ==> le
    ensures le && |a| > 0 ==> |b| > 0 && a[0] <= b[0]
  {
    |a| == 0 || (|b| > 0 && (a[0] < b[0] || (a[0] == b[0] && NameLe(a[1..], b[1..]))))
  }

  lemma {:induction false} NameLeReflexive(a: string)
    ensures NameLe(a, a)
  {
    if |a| > 0 {
      NameLeReflexive(a[1..]);
    }
  }

  lemma {:induction false} NameLeTotal(a: string, b: string)
    ensures NameLe(a, b) || NameLe(b, a)
  {
    if |a| > 0 && |b| > 0 && a[0] == b[0] {
      NameLeTotal(a[1..], b[1..]);
    }
  }

  lemma {:induction false} NameLeAntisymmetric(a: string, b: string)
    requires NameLe(a, b) && NameLe(b, a)
    ensures a == b
  {
    if |a| > 0 && |b| > 0 {
      NameLeAntisymmetric(a[1..], b[1..]);
      assert a == [a[0]] + a[1..] && b == [b[0]] + b[1..];
    }
  }

  lemma {:induction false} NameLeTransitive(a: string, b: string, c: string)
    requires NameLe(a, b) && NameLe(b, c)
    ensures NameLe(a, c)
  {
    if |a| > 0 && |b| > 0 && |c| > 0 && a[0] == b[0] && b[0] == c[0] {
      NameLeTransitive(a[1..], b[1..], c[1..]);
    }
  }

  /** Every pair of names is in order. */
  predicate Sorted(s: seq<string>)
  {
    forall i, j :: 0 <= i < j < |s| ==> NameLe(s[i], s[j])
  }

  /** A name no later than the head of a sorted list may precede it. */
  lemma SortedCons(x: string, s: seq<string>)
    requires Sorted(s)
    requires forall y :: y in multiset(s) ==> NameLe(x, y)
    ensures Sorted([x] + s)
  {
    forall i, j | 0 <= i < j < |[x] + s| ensures NameLe(([x] + s)[i], ([x] + s)[j]) {
      if i == 0 {
        assert s[j - 1] in multiset(s);
      }
    }
  }

  /** Inserts `x` into the sorted list `s` before the first name that sorts
      after it. */
  function Insert(x: string, s: seq<string>): (r: seq<string>)
    requires Sorted(s)
    ensures Sorted(r)
    ensures multiset(r) == multiset(s) + multiset{x}
  {
    if s == [] then [x]
    else if NameLe(x, s[0]) then
      assert forall y :: y in multiset(s) ==> NameLe(x, y) by {
        forall y | y in multiset(s) ensures NameLe(x, y) {
          var j :| 0 <= j < |s| && s[j] == y;
          if j > 0 { NameLeTransitive(x, s[0], s[j]); }
        }
      }
      SortedCons(x, s);
      [x] + s
    else
      NameLeTotal(x, s[0]);
      var rest := Insert(x, s[1..]);
      assert s == [s[0]] + s[1..];
      assert forall y :: y in multiset(rest) ==> NameLe(s[0], y) by {
        forall y | y in multiset(rest) ensures NameLe(s[0], y) {
          if y != x {
            assert y in multiset(s[1..]);
            var j :| 0 <= j < |s[1..]| && s[1..][j] == y;
            assert s[j + 1] == y;
          }
        }
      }
      SortedCons(s[0], rest);
      [s[0]] + rest
  }

  /** The sorted order of a list of port names: what `qSort` leaves in the
      list. */
  function Sort(s: seq<string>): (r: seq<string>)
    ensures Sorted(r)
    ensures multiset(r) == multiset(s)
  {
    if s == [] then []
    else
      assert s == [s[0]] + s[1..];
      Insert(s[0], Sort(s[1..]))
  }

  /** Two sorted lists holding the same names begin with the same name. */
  lemma SameFirst(a: seq<string>, b: seq<string>)
    requires Sorted(a) && Sorted(b) && a != [] && b != []
    requires multiset(a) == multiset(b)
    ensures a[0] == b[0]
  {
    assert a[0] in multiset(b) && b[0] in multiset(a);
    NameLeReflexive(a[0]);
    var i :| 0 <= i < |b| && b[i] == a[0];
    var j :| 0 <= j < |a| && a[j] == b[0];
    assert NameLe(b[0], a[0]) by { assert i == 0 || NameLe(b[0], b[i]); }
    assert NameLe(a[0], b[0]) by { assert j == 0 || NameLe(a[0], a[j]); }
    NameLeAntisymmetric(a[0], b[0]);
  }

  /** Removing a common first name keeps two multisets equal. */
  lemma SameTail(a: seq<string>, b: seq<string>)
    requires a != [] && b != [] && a[0] == b[0]
    requires multiset(a) == multiset(b)
    ensures multiset(a[1..]) == multiset(b[1..])
  {
    assert a == [a[0]] + a[1..];
    assert b == [b[0]] + b[1..];
    calc {
      multiset(a[1..]);
      multiset(a) - multiset{a[0]};
      multiset(b) - multiset{b[0]};
      multiset(b[1..]);
    }
  }

  /** A sorted list is determined by its elements: two sorted lists holding
      the same names equally often are equal. */
  lemma {:induction false} SortedUnique(a: seq<string>, b: seq<string>)
    requires Sorted(a) && Sorted(b)
    requires multiset(a) == multiset(b)
    ensures a == b
    decreases |a|
  {
    if a != [] {
      assert b != [] by { assert |multiset(b)| == |multiset(a)|; }
      SameFirst(a, b);
      SameTail(a, b);
      SortedUnique(a[1..], b[1..]);
      assert a == [a[0]] + a[1..] && b == [b[0]] + b[1..];
    } else {
      assert |b| == |multiset(b)| == 0;
    }
  }

  /** The refreshed list does not depend on the order in which the ports
      were enumerated. */
  lemma SortIgnoresOrder(a: seq<string>, b: seq<string>)
    requires multiset(a) == multiset(b)
    ensures Sort(a) == Sort(b)
  {
    SortedUnique(Sort(a), Sort(b));
  }

  /** Against a sorted stored list, the refreshed list differs exactly when
      the multiset of available port names differs from the stored one. */
  lemma ChangedIffDifferentPorts(stored: seq<string>, available: seq<string>)
    requires Sorted(stored)
    ensures stored != Sort(available) <==> multiset(stored) != multiset(available)
  {
    if multiset(stored) == multiset(available) {
      SortedUnique(stored, Sort(available));
    }
  }
}
