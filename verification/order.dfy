/**
 * The order `std::map<std::string, ...>` keeps its keys in: lexicographic
 * comparison character by character, a proper prefix first. Characters are
 * compared by code, as `char_traits<char>` compares bytes.
 */
module StringOrder {

  /** `a < b` as `std::string` compares them. */
  predicate Less(a: string, b: string)
    decreases |a|
  {
    if a == [] then b != []
    else if b == [] then false
    else if a[0] != b[0] then a[0] < b[0]
    else Less(a[1..], b[1..])
  }

  lemma {:induction false} Irreflexive(a: string)
    ensures !Less(a, a)
    decreases |a|
  {
    if a != [] {
      Irreflexive(a[1..]);
    }
  }

  lemma {:induction false} Transitive(a: string, b: string, c: string)
    requires Less(a, b) && Less(b, c)
    ensures Less(a, c)
    decreases |a|
  {
    if a != [] {
      assert b != [] && c != [];
      if a[0] == b[0] && b[0] == c[0] {
        Transitive(a[1..], b[1..], c[1..]);
      }
    }
  }

  lemma {:induction false} Total(a: string, b: string)
    requires a != b
    ensures Less(a, b) || Less(b, a)
    decreases |a|
  {
    if a != [] && b != [] && a[0] == b[0] {
      Total(a[1..], b[1..]);
    }
  }

  lemma Asymmetric(a: string, b: string)
    requires Less(a, b)
    ensures !Less(b, a)
  {
    if Less(b, a) {
      Transitive(a, b, a);
      Irreflexive(a);
    }
  }

  /** `x` is the least element of `s`. */
  predicate IsLeast(x: string, s: set<string>) {
    x in s && forall y :: y in s && y != x ==> Less(x, y)
  }

  /** Every non-empty finite set of strings has a least element. */
  lemma {:induction false} LeastExists(s: set<string>)
    requires s != {}
    ensures exists x :: IsLeast(x, s)
    decreases |s|
  {
    var y :| y in s;
    var rest := s - {y};
    if rest == {} {
      assert s == {y};
      assert IsLeast(y, s);
    } else {
      LeastExists(rest);
      var x :| IsLeast(x, rest);
      if Less(y, x) {
        forall z | z in s && z != y
          ensures Less(y, z)
        {
          if z != x {
            Transitive(y, x, z);
          }
        }
        assert IsLeast(y, s);
      } else {
        Total(x, y);
        assert IsLeast(x, s);
      }
    }
  }

  /** The least element is unique. */
  lemma LeastUnique(x: string, x': string, s: set<string>)
    requires IsLeast(x, s) && IsLeast(x', s)
    ensures x == x'
  {
    if x != x' {
      Asymmetric(x, x');
    }
  }

  /** The elements of `s` in increasing order. */
  ghost function Sorted(s: set<string>): (r: seq<string>)
    ensures |r| == |s|
    decreases |s|
  {
    if s == {} then []
    else
      LeastExists(s);
      var x :| IsLeast(x, s);
      [x] + Sorted(s - {x})
  }

  /** Strictly increasing: every earlier element is less than every later one. */
  predicate Increasing(r: seq<string>) {
    forall i, j :: 0 <= i < j < |r| ==> Less(r[i], r[j])
  }

  /** `Sorted(s)` lists exactly the elements of `s`, in strictly increasing order. */
  lemma {:induction false} SortedFacts(s: set<string>)
    ensures forall x :: x in s <==> x in Sorted(s)
    ensures Increasing(Sorted(s))
    decreases |s|
  {
    if s != {} {
      LeastExists(s);
      var x :| IsLeast(x, s);
      var r := Sorted(s);
      var x0 := r[0];
      assert IsLeast(x0, s) by {
        var x1 :| IsLeast(x1, s) && r == [x1] + Sorted(s - {x1});
        assert x0 == x1;
      }
      LeastUnique(x, x0, s);
      assert r == [x] + Sorted(s - {x});
      SortedFacts(s - {x});
      forall i, j | 0 <= i < j < |r|
        ensures Less(r[i], r[j])
      {
        if i > 0 {
          assert r[i] == Sorted(s - {x})[i - 1];
          assert r[j] == Sorted(s - {x})[j - 1];
        } else {
          var rest := Sorted(s - {x});
          assert r[j] == rest[j - 1];
          assert rest[j - 1] in rest;
          assert r[j] in s - {x};
        }
      }
    }
  }

  /** Taking the least element off the front: the rest are the sorted remaining elements. */
  lemma SortedStep(s: set<string>, x: string)
    requires IsLeast(x, s)
    ensures Sorted(s) == [x] + Sorted(s - {x})
  {
    var r := Sorted(s);
    var x1 :| IsLeast(x1, s) && r == [x1] + Sorted(s - {x1});
    LeastUnique(x, x1, s);
  }
}
