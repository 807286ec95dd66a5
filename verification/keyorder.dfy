/** The order in which a std::map<std::string, ...> visits its keys:
    lexicographic comparison of the characters, a proper prefix first. */
module KeyOrder {

  /** std::string's operator< */
  predicate Less(a: string, b: string)
    ensures Less(a, b) ==> a != b
    decreases |a|
  {
    if b == [] then false
    else if a == [] then true
    else a[0] < b[0] || (a[0] == b[0] && Less(a[1..], b[1..]))
  }

  lemma {:induction false} LessIrreflexive(a: string)
    ensures !Less(a, a)
    decreases |a|
  {
    if a != [] {
      LessIrreflexive(a[1..]);
    }
  }

  /** A proper prefix comes first */
  lemma {:induction false} LessPrefix(a: string, b: string)
    requires |a| < |b| && a == b[..|a|]
    ensures Less(a, b)
    decreases |a|
  {
    if a != [] {
      assert a[0] == b[0];
      assert a[1..] == b[1..][..|a| - 1];
      LessPrefix(a[1..], b[1..]);
    }
  }

  /** Otherwise the first differing character decides */
  lemma {:induction false} LessFirstDifference(a: string, b: string, i: nat)
    requires i < |a| && i < |b|
    requires a[..i] == b[..i] && a[i] != b[i]
    ensures Less(a, b) <==> a[i] < b[i]
    decreases i
  {
    if i > 0 {
      assert a[0] == a[..i][0] == b[..i][0] == b[0];
      assert a[1..][..i - 1] == a[..i][1..] == b[..i][1..] == b[1..][..i - 1];
      LessFirstDifference(a[1..], b[1..], i - 1);
    }
  }

  lemma {:induction false} LessTransitive(a: string, b: string, c: string)
    requires Less(a, b) && Less(b, c)
    ensures Less(a, c)
    decreases |a|
  {
    if a != [] && a[0] == b[0] && b[0] == c[0] {
      LessTransitive(a[1..], b[1..], c[1..]);
    }
  }

  lemma {:induction false} LessTotal(a: string, b: string)
    requires a != b
    ensures Less(a, b) || Less(b, a)
    decreases |a|
  {
    if a != [] && b != [] && a[0] == b[0] {
      assert a == [a[0]] + a[1..] && b == [b[0]] + b[1..];
      LessTotal(a[1..], b[1..]);
    }
  }

  lemma LessAsymmetric(a: string, b: string)
    requires Less(a, b)
    ensures !Less(b, a)
  {
    if Less(b, a) {
      LessTransitive(a, b, a);
      LessIrreflexive(a);
    }
  }

  /** k is the smallest key of s */
  predicate IsLeast(k: string, s: set<string>)
  {
    k in s && forall x :: x in s && x != k ==> Less(k, x)
  }

  lemma {:induction false} LeastExists(s: set<string>)
    requires s != {}
    ensures exists k :: IsLeast(k, s)
    decreases |s|
  {
    var x :| x in s;
    if s == {x} {
      assert IsLeast(x, s);
    } else {
      LeastExists(s - {x});
      var m :| IsLeast(m, s - {x});
      LessTotal(x, m);
      if Less(x, m) {
        forall y | y in s && y != x
          ensures Less(x, y)
        {
          if y != m {
            LessTransitive(x, m, y);
          }
        }
        assert IsLeast(x, s);
      } else {
        assert IsLeast(m, s);
      }
    }
  }

  lemma LeastUnique(k: string, k': string, s: set<string>)
    requires IsLeast(k, s) && IsLeast(k', s)
    ensures k == k'
  {
    if k != k' {
      LessAsymmetric(k, k');
    }
  }

  ghost function Least(s: set<string>): (k: string)
    requires s != {}
    ensures IsLeast(k, s)
  {
    LeastExists(s);
    var k :| IsLeast(k, s);
    k
  }

  /** Strictly increasing */
  predicate StrictlySorted(keys: seq<string>)
  {
    forall i, j :: 0 <= i < j < |keys| ==> Less(keys[i], keys[j])
  }

  /** The keys of s in the order a std::map iterates them */
  ghost function Ordered(s: set<string>): seq<string>
    decreases |s|
  {
    if s == {} then []
    else
      var k := Least(s);
      [k] + Ordered(s - {k})
  }

  /** The ordered keys are exactly the keys of s, each once, increasing */
  lemma {:induction false} OrderedIsSortedEnumeration(s: set<string>)
    ensures |Ordered(s)| == |s|
    ensures forall k :: k in Ordered(s) <==> k in s
    ensures StrictlySorted(Ordered(s))
    decreases |s|
  {
    if s != {} {
      var k := Least(s);
      var rest := Ordered(s - {k});
      OrderedIsSortedEnumeration(s - {k});
      assert Ordered(s) == [k] + rest;
      forall i, j | 0 <= i < j < |Ordered(s)|
        ensures Less(Ordered(s)[i], Ordered(s)[j])
      {
        if i == 0 {
          assert Ordered(s)[j] == rest[j - 1] && rest[j - 1] in rest;
        } else {
          assert Ordered(s)[i] == rest[i - 1] && Ordered(s)[j] == rest[j - 1];
        }
      }
    }
  }

  /** Taking the smallest key off the front of the ordered keys */
  lemma OrderedUnfold(s: set<string>, k: string)
    requires IsLeast(k, s)
    ensures Ordered(s) == [k] + Ordered(s - {k})
  {
    LeastUnique(k, Least(s), s);
  }
}
