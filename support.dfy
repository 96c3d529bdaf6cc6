/** The optional value used for the source's `None` results. */
module Options {

  datatype Option<T> = None | Some(value: T)
}

/** Facts about finite sets used by the proofs. */
module FiniteSets {

  /** A non-empty set has an element; the element lets a loop or a proof pick from the set. */
  lemma Pick<T>(s: set<T>) returns (x: T)
    requires s != {}
    ensures x in s
  {
    if forall z :: z !in s {
      assert false;
    }
    x :| x in s;
  }

  /** A subset is no larger than its superset. */
  lemma {:induction false} SubsetCard<T>(a: set<T>, b: set<T>)
    requires a <= b
    ensures |a| <= |b|
    decreases b
  {
    if a != {} {
      var x := Pick(a);
      SubsetCard(a - {x}, b - {x});
    }
  }

  /** A subset as large as its superset is the whole superset. */
  lemma SubsetSameCard<T>(a: set<T>, b: set<T>)
    requires a <= b && |a| == |b|
    ensures a == b
  {
    if b - a != {} {
      var x := Pick(b - a);
      SubsetCard(a, b - {x});
      assert false;
    }
    assert forall z | z in b :: z !in b - a;
  }

  /** A set has a subset of every size up to its own. */
  lemma {:induction false} SubsetOfSize<T>(s: set<T>, n: nat) returns (t: set<T>)
    requires n <= |s|
    ensures t <= s && |t| == n
    decreases n
  {
    if n == 0 {
      t := {};
    } else {
      var x := Pick(s);
      var rest := SubsetOfSize(s - {x}, n - 1);
      t := rest + {x};
    }
  }

  /** The elements of a sequence, as a set. */
  function Elements<T>(xs: seq<T>): set<T>
  {
    set x | x in xs
  }

  /** All subsets of the elements of `xs`; a finite bound on the sets that can be built from them. */
  ghost function Subsets<T(!new)>(xs: seq<T>): (r: set<set<T>>)
    ensures forall s :: s in r <==> s <= Elements(xs)
  {
    if xs == [] then
      assert forall s | s <= Elements(xs) :: s == {};
      {{}}
    else
      var rest := Subsets(xs[1..]);
      var r := rest + set t | t in rest :: t + {xs[0]};
      assert forall s | s <= Elements(xs) :: s in r by {
        forall s | s <= Elements(xs)
          ensures s in r
        {
          assert s - {xs[0]} in rest;
          if xs[0] in s {
            assert s == (s - {xs[0]}) + {xs[0]};
          } else {
            assert s == s - {xs[0]};
          }
        }
      }
      r
  }
}
