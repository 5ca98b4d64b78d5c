/** The order in which Badger's iterators visit keys. */
module KeyOrder {
  predicate Before(a: string, b: string) {
    b != "" && (a == "" || a[0] < b[0] || (a[0] == b[0] && Before(a[1..], b[1..])))
  }

  lemma {:induction false} BeforeIsStrict(a: string, b: string)
    ensures !(Before(a, b) && Before(b, a)) && !Before(a, a)
  {
    if a != "" {
      BeforeIsStrict(a[1..], if b == "" then b else b[1..]);
    }
  }

  lemma {:induction false} BeforeIsTotal(a: string, b: string)
    ensures a == b || Before(a, b) || Before(b, a)
  {
    if a != "" && b != "" && a[0] == b[0] {
      BeforeIsTotal(a[1..], b[1..]);
      assert a == [a[0]] + a[1..] && b == [b[0]] + b[1..];
    }
  }

  lemma {:induction false} BeforeIsTransitive(a: string, b: string, c: string)
    requires Before(a, b) && Before(b, c)
    ensures Before(a, c)
  {
    if a != "" && a[0] == b[0] && b[0] == c[0] {
      BeforeIsTransitive(a[1..], b[1..], c[1..]);
    }
  }

  /** A directory's key comes before everything under it. */
  lemma {:induction false} PrefixComesFirst(a: string, b: string)
    requires a < b
    ensures Before(a, b)
  {
    if a != "" {
      PrefixComesFirst(a[1..], b[1..]);
    }
  }

  predicate IsFirst(keys: set<string>, k: string) {
    k in keys && forall j :: j in keys && j != k ==> Before(k, j)
  }

  lemma {:induction false} FirstExists(keys: set<string>)
    requires keys != {}
    ensures exists k :: IsFirst(keys, k)
    decreases |keys|
  {
    hide Before;
    var x :| x in keys;
    var rest := keys - {x};
    assert forall j :: j in keys ==> j == x || j in rest;
    if rest == {} {
      assert IsFirst(keys, x);
    } else {
      FirstExists(rest);
      var y :| IsFirst(rest, y);
      BeforeIsTotal(x, y);
      if Before(x, y) {
        forall j | j in keys && j != x ensures Before(x, j) {
          if j != y { BeforeIsTransitive(x, y, j); }
        }
        assert IsFirst(keys, x);
      } else {
        forall j | j in keys && j != y ensures Before(y, j) {
        }
        assert IsFirst(keys, y);
      }
    }
  }
}
