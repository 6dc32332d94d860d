/**
 * The order in which the snapshot's keys are written: Python compares strings
 * code point by code point, and a proper prefix comes first.
 */
module KeyOrder {

  /** `a` sorts strictly before `b`. */
  predicate Less(a: string, b: string)
    decreases |a|
  {
    if a == [] then b != []
    else if b == [] then false
    else if a[0] != b[0] then a[0] < b[0]
    else Less(a[1..], b[1..])
  }

  lemma {:induction false} LessIrreflexive(a: string)
    ensures !Less(a, a)
    decreases |a|
  {
    if a != [] {
      LessIrreflexive(a[1..]);
    }
  }

  lemma {:induction false} LessTransitive(a: string, b: string, c: string)
    requires Less(a, b) && Less(b, c)
    ensures Less(a, c)
    decreases |a|
  {
    if a != [] && b != [] && c != [] && a[0] == b[0] && b[0] == c[0] {
      LessTransitive(a[1..], b[1..], c[1..]);
    }
  }

  lemma {:induction false} LessTotal(a: string, b: string)
    requires a != b
    ensures Less(a, b) || Less(b, a)
    decreases |a|
  {
    if a != [] && b != [] && a[0] == b[0] {
      assert a == [a[0]] + a[1..] && b == [b[0]] + b[1..];
      LessTotal(a[1..], b[1..]);
    }
  }

  /** `x` is the least element of `s`. */
  predicate IsLeast(x: string, s: set<string>) {
    x in s && forall y :: y in s && y != x ==> Less(x, y)
  }

  /** Every non-empty finite set of strings has a least element. */
  lemma {:induction false} LeastExists(s: set<string>)
    requires s != {}
    ensures exists x :: IsLeast(x, s)
    decreases |s|
  {
    var z :| z in s;
    var rest := s - {z};
    if rest != {} {
      LeastExists(rest);
      var m :| IsLeast(m, rest);
      if Less(z, m) {
        forall y | y in s && y != z
          ensures Less(z, y)
        {
          if y != m {
            LessTransitive(z, m, y);
          }
        }
        assert IsLeast(z, s);
      } else {
        LessTotal(z, m);
        assert IsLeast(m, s);
      }
    } else {
      assert s == {z};
      assert IsLeast(z, s);
    }
  }

  /** The keys in ascending order, each exactly once, as `sort_keys` writes them:
      repeatedly take the least key not yet written. */
  method SortKeys(keys: set<string>) returns (ks: seq<string>)
    ensures forall i :: 0 <= i < |ks| ==> ks[i] in keys
    ensures forall k :: k in keys ==> k in ks
    ensures forall i, j :: 0 <= i < j < |ks| ==> Less(ks[i], ks[j])
  {
    ks := [];
    var rest := keys;
    while rest != {}
      invariant rest <= keys
      invariant forall i :: 0 <= i < |ks| ==> ks[i] in keys && ks[i] !in rest
      invariant forall k :: k in keys ==> k in rest || k in ks
      invariant forall i, j :: 0 <= i < j < |ks| ==> Less(ks[i], ks[j])
      invariant forall i, k :: 0 <= i < |ks| && k in rest ==> Less(ks[i], k)
      decreases rest
    {
      LeastExists(rest);
      var x :| IsLeast(x, rest);
      ks := ks + [x];
      rest := rest - {x};
    }
  }
}
