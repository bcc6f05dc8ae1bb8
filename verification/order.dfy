/** Rust's `Ord` on `str`.  It compares the bytes of the UTF-8 form, which `Utf8.OrderIsByteOrder`
    shows to be the lexicographic order on characters defined here. */
module Order {

  predicate Before(a: string, b: string) {
    b != [] && (a == [] || a[0] < b[0] || (a[0] == b[0] && Before(a[1..], b[1..])))
  }

  lemma {:induction false} Irreflexive(a: string)
    ensures !Before(a, a)
  {
    if a != [] { Irreflexive(a[1..]); }
  }

  lemma {:induction false} Asymmetric(a: string, b: string)
    requires Before(a, b)
    ensures !Before(b, a)
  {
    if a != [] && a[0] == b[0] { Asymmetric(a[1..], b[1..]); }
  }

  lemma {:induction false} Transitive(a: string, b: string, c: string)
    requires Before(a, b) && Before(b, c)
    ensures Before(a, c)
  {
    if a != [] && a[0] == b[0] && b[0] == c[0] { Transitive(a[1..], b[1..], c[1..]); }
  }

  lemma {:induction false} Total(a: string, b: string)
    ensures Before(a, b) || a == b || Before(b, a)
  {
    if a != [] && b != [] && a[0] == b[0] {
      Total(a[1..], b[1..]);
      if a[1..] == b[1..] { assert a == [a[0]] + a[1..] == b; }
    }
  }

  /** A common prefix does not influence the comparison. */
  lemma {:induction false} CommonPrefix(p: string, a: string, b: string)
    ensures Before(p + a, p + b) == Before(a, b)
  {
    if p == [] {
      assert p + a == a && p + b == b;
    } else {
      assert (p + a)[1..] == p[1..] + a && (p + b)[1..] == p[1..] + b;
      CommonPrefix(p[1..], a, b);
    }
  }

  // ----- the keys of an ordered map -----

  ghost predicate IsLeast(k: string, keys: set<string>) {
    k in keys && forall other :: other in keys && other != k ==> Before(k, other)
  }

  /** The first key an ordered map yields. */
  method Least(keys: set<string>) returns (k: string)
    requires keys != {}
    ensures IsLeast(k, keys)
  {
    k :| k in keys;
    var todo := keys - {k};
    while todo != {}
      invariant todo < keys && k in keys && k !in todo
      invariant forall other :: other in keys && other !in todo && other != k ==> Before(k, other)
      decreases |todo|
    {
      var c :| c in todo;
      todo := todo - {c};
      if Before(c, k) {
        forall other | other in keys && other !in todo && other != c ensures Before(c, other) {
          if other != k { Transitive(c, k, other); }
        }
        k := c;
      } else {
        Total(k, c);
      }
    }
  }

  lemma LeastExists(keys: set<string>)
    requires keys != {}
    ensures exists k :: IsLeast(k, keys)
  {
    var x :| x in keys;
    var rest := keys - {x};
    if rest != {} {
      LeastExists(rest);
      var y :| IsLeast(y, rest);
      Total(x, y);
      if Before(x, y) {
        forall other | other in keys && other != x ensures Before(x, other) {
          if other != y { Transitive(x, y, other); }
        }
        assert IsLeast(x, keys);
      } else {
        forall other | other in keys && other != y ensures Before(y, other) { assert other == x || other in rest; }
        assert IsLeast(y, keys);
      }
    } else {
      assert keys == {x};
      assert IsLeast(x, keys);
    }
  }

  /** The keys in the order an ordered map yields them. */
  ghost function Ascending(keys: set<string>): (s: seq<string>)
    ensures forall k :: k in s <==> k in keys
  {
    if keys == {} then []
    else
      LeastExists(keys);
      var k :| IsLeast(k, keys);
      [k] + Ascending(keys - {k})
  }

  lemma AscendingStep(keys: set<string>, k: string)
    requires IsLeast(k, keys)
    ensures Ascending(keys) == [k] + Ascending(keys - {k})
  {
    forall other | IsLeast(other, keys) ensures other == k {
      if other != k { Asymmetric(other, k); }
    }
  }
}
