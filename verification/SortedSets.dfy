/** Ordered enumeration of a finite set of keys, as a B-tree yields them. */
module SortedSets {

  lemma {:induction false} MinExists(s: set<nat>, y: nat)
    requires y in s
    ensures exists m :: m in s && forall x | x in s :: m <= x
  {
    if x :| x in s && x < y {
      MinExists(s, x);
    }
  }

  function Least(s: set<nat>): (m: nat)
    requires s != {}
    ensures m in s && forall x | x in s :: m <= x
  {
    var y :| y in s;
    MinExists(s, y);
    var m :| m in s && forall x | x in s :: m <= x;
    m
  }

  /** The keys in the order a BTreeMap yields them. */
  function Ascending(s: set<nat>): (r: seq<nat>)
    ensures forall x :: x in r <==> x in s
  {
    if s == {} then [] else [Least(s)] + Ascending(s - {Least(s)})
  }

  lemma LeastIs(s: set<nat>, m: nat)
    requires m in s && forall x | x in s :: m <= x
    ensures Least(s) == m
  {
  }

  ghost predicate StrictlyAscending(s: seq<nat>) {
    forall i, j | 0 <= i < j < |s| :: s[i] < s[j]
  }

  lemma {:induction false} AscendingIsStrict(s: set<nat>)
    ensures StrictlyAscending(Ascending(s))
  {
    if s != {} {
      var rest := Ascending(s - {Least(s)});
      AscendingIsStrict(s - {Least(s)});
      forall i | 0 <= i < |rest| ensures Least(s) < rest[i] {
        assert rest[i] in s - {Least(s)};
      }
    }
  }
}
