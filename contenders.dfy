/**
 * The position search that the lock and the leader election share: sort the
 * children of the root, find one's own node, and either go first or watch
 * the node just before it. Every child of the root takes part, whatever its
 * prefix.
 */
module Contenders {
  import opened Wrappers
  import opened JavaStrings

  /** `me` is among `names` and no name comes before it. */
  ghost predicate IsLeast(me: string, names: set<string>)
  {
    me in names && forall c :: c in names ==> !Less(c, me)
  }

  /** `p` comes before `me` and no name of `names` lies strictly between them. */
  ghost predicate IsPredecessor(p: string, me: string, names: set<string>)
  {
    p in names && Less(p, me) && forall c :: c in names && Less(p, c) ==> !Less(c, me)
  }

  /** What a contender learns from one sorted listing: it goes first, it must
      watch the node before it, or its own node is not listed. */
  datatype Turn = First | After(pred: string) | NotListed

  /** The turn read off a sorted listing, from the first occurrence of `me`. */
  function TurnAt(sorted: seq<string>, me: string): Turn
  {
    match IndexOf(sorted, me)
    case None => NotListed
    case Some(i) => if i == 0 then First else After(sorted[i - 1])
  }

  /** The search loop of checkLock and checkLeadership over the sorted children. */
  method FindTurn(sorted: seq<string>, me: string) returns (t: Turn)
    ensures t == TurnAt(sorted, me)
  {
    var i := 0;
    while i < |sorted|
      invariant i <= |sorted|
      invariant me !in sorted[..i]
    {
      if sorted[i] == me {
        assert IndexOf(sorted, me) == Some(i);
        if i == 0 {
          return First;
        } else {
          return After(sorted[i - 1]);
        }
      }
      i := i + 1;
    }
    assert sorted[..i] == sorted;
    return NotListed;
  }

  /** On a listing without duplicates, sorting and searching decide by string
      order alone: first exactly when least, otherwise the immediate predecessor. */
  lemma {:induction false} TurnMeaning(listing: seq<string>, me: string)
    requires Distinct(listing)
    ensures TurnAt(Sort(listing), me) == NotListed <==> me !in listing
    ensures TurnAt(Sort(listing), me) == First <==> IsLeast(me, Elements(listing))
    ensures TurnAt(Sort(listing), me).After? ==>
      IsPredecessor(TurnAt(Sort(listing), me).pred, me, Elements(listing))
  {
    var sorted := Sort(listing);
    var names := Elements(listing);
    SortKeepsListing(listing);
    match IndexOf(sorted, me)
    case None =>
      assert me !in names;
    case Some(i) =>
      assert me in names;
      if i == 0 {
        forall c | c in names ensures !Less(c, me) {
          var j :| 0 <= j < |sorted| && sorted[j] == c;
          if j == 0 {
            LessIrreflexive(me);
          } else {
            LessAsymmetric(me, c);
          }
        }
      } else {
        var p := sorted[i - 1];
        assert p in names && Less(p, me);
        forall c | c in names && Less(p, c) ensures !Less(c, me) {
          var j :| 0 <= j < |sorted| && sorted[j] == c;
          if j < i - 1 {
            LessAsymmetric(c, p);
          } else if j == i - 1 {
            LessIrreflexive(p);
          } else if j == i {
            LessIrreflexive(me);
          } else {
            LessAsymmetric(me, c);
          }
        }
        LessAsymmetric(p, me);
      }
  }

  /** Mutual exclusion on one snapshot of the children: two contenders that
      both find themselves least are the same contender. */
  lemma AtMostOneLeast(names: set<string>, a: string, b: string)
    requires IsLeast(a, names) && IsLeast(b, names)
    ensures a == b
  {
    LessTotal(a, b);
  }
}
