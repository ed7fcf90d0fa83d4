/** The key order of `std::map<std::string, ...>`: lexicographic comparison
    of character codes, a proper prefix ordering before its extensions. */
module Lexical {

  /** `a < b` as `std::string::compare` orders them. */
  predicate Less(a: string, b: string)
    decreases |a|
  {
    |b| > 0 && (|a| == 0 || a[0] < b[0] || (a[0] == b[0] && Less(a[1..], b[1..])))
  }

  lemma {:induction false} LessIrreflexive(a: string)
    ensures !Less(a, a)
    decreases |a|
  {
    if |a| > 0 {
      LessIrreflexive(a[1..]);
    }
  }

  lemma {:induction false} LessTransitive(a: string, b: string, c: string)
    requires Less(a, b) && Less(b, c)
    ensures Less(a, c)
    decreases |a|
  {
    if |a| > 0 && a[0] == b[0] && b[0] == c[0] {
      LessTransitive(a[1..], b[1..], c[1..]);
    }
  }

  lemma {:induction false} LessTotal(a: string, b: string)
    requires a != b
    ensures Less(a, b) || Less(b, a)
    decreases |a|
  {
    if |a| > 0 && |b| > 0 && a[0] == b[0] {
      assert a == [a[0]] + a[1..] && b == [b[0]] + b[1..];
      LessTotal(a[1..], b[1..]);
    }
  }

  lemma LessAsymmetric(a: string, b: string)
    requires Less(a, b)
    ensures !Less(b, a)
  {
    if Less(b, a) {
      LessTransitive(a, b, a);
      LessIrreflexive(a);
    }
  }

  /** `m` is the first key of `s` in map order. */
  predicate IsLeast(m: string, s: set<string>)
  {
    m in s && forall y :: y in s && y != m ==> Less(m, y)
  }

  lemma {:induction false} LeastExists(s: set<string>)
    requires s != {}
    ensures exists m :: IsLeast(m, s)
    decreases |s|
  {
    var x :| x in s;
    if s - {x} == {} {
      assert s == {x};
      assert IsLeast(x, s);
    } else {
      LeastExists(s - {x});
      var m :| IsLeast(m, s - {x});
      if Less(x, m) {
        forall y | y in s && y != x
          ensures Less(x, y)
        {
          if y != m {
            LessTransitive(x, m, y);
          }
        }
        assert IsLeast(x, s);
      } else {
        LessTotal(x, m);
        assert IsLeast(m, s);
      }
    }
  }

  lemma LeastUnique(m: string, n: string, s: set<string>)
    requires IsLeast(m, s) && IsLeast(n, s)
    ensures m == n
  {
    if m != n {
      LessAsymmetric(m, n);
    }
  }

  /** Strictly increasing in map order (hence without duplicates). */
  ghost predicate StrictlySorted(ks: seq<string>)
  {
    forall i, j :: 0 <= i < j < |ks| ==> Less(ks[i], ks[j])
  }

  /** The keys of `s` in the order a `std::map` with those keys visits them. */
  ghost function SortedKeys(s: set<string>): (r: seq<string>)
    ensures |r| == |s|
    ensures forall x :: x in r <==> x in s
    decreases |s|
  {
    if s == {} then []
    else
      LeastExists(s);
      var m :| IsLeast(m, s);
      var rest := SortedKeys(s - {m});
      assert forall j :: 0 <= j < |rest| ==> rest[j] in rest;
      assert forall j :: 0 <= j < |rest| ==> rest[j] in s - {m};
      [m] + rest
  }

  /** The traversal visits the keys in increasing order. */
  lemma {:induction false} SortedKeysSorted(s: set<string>)
    ensures StrictlySorted(SortedKeys(s))
    decreases |s|
  {
    if s != {} {
      var r := SortedKeys(s);
      var m := r[0];
      var rest := r[1..];
      LeastExists(s);
      assert IsLeast(m, s) && rest == SortedKeys(s - {m});
      SortedKeysSorted(s - {m});
      forall i, j | 0 <= i < j < |r|
        ensures Less(r[i], r[j])
      {
        if i > 0 {
          assert r[i] == rest[i - 1] && r[j] == rest[j - 1];
        } else {
          assert r[j] == rest[j - 1];
          assert r[j] in s - {m};
        }
      }
    }
  }

  /** No key occurs twice. */
  predicate Distinct(ks: seq<string>)
  {
    forall i, j :: 0 <= i < j < |ks| ==> ks[i] != ks[j]
  }

  /** A strictly sorted sequence repeats no key; in particular `SortedKeys(s)`. */
  lemma SortedKeysDistinct(s: set<string>)
    ensures Distinct(SortedKeys(s))
  {
    var ks := SortedKeys(s);
    SortedKeysSorted(s);
    forall i, j | 0 <= i < j < |ks|
      ensures ks[i] != ks[j]
    {
      LessIrreflexive(ks[i]);
    }
  }

  /** The step of an ordered traversal: the first key still to visit and what remains. */
  method FirstKey(s: set<string>) returns (k: string)
    requires s != {}
    ensures k in s
    ensures SortedKeys(s) == [k] + SortedKeys(s - {k})
  {
    LeastExists(s);
    k :| IsLeast(k, s);
    ghost var r := SortedKeys(s);
    SortedKeysSorted(s);
    assert IsLeast(r[0], s);
    LeastUnique(k, r[0], s);
  }

  /** After visiting `k`, the keys visited and the keys left still make up
      the whole traversal. */
  lemma TraversalStep(done: seq<string>, rest: set<string>, all: set<string>, k: string)
    requires done + SortedKeys(rest) == SortedKeys(all)
    requires SortedKeys(rest) == [k] + SortedKeys(rest - {k})
    ensures (done + [k]) + SortedKeys(rest - {k}) == SortedKeys(all)
  {
    assert (done + [k]) + SortedKeys(rest - {k}) == done + ([k] + SortedKeys(rest - {k}));
  }

  /** The keys already visited are keys of the map. */
  lemma VisitedKeys(done: seq<string>, rest: set<string>, all: set<string>)
    requires done + SortedKeys(rest) == SortedKeys(all)
    ensures forall i :: 0 <= i < |done| ==> done[i] in all
  {
    forall i | 0 <= i < |done|
      ensures done[i] in all
    {
      assert done[i] == SortedKeys(all)[i];
    }
  }
}
