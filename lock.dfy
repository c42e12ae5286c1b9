/**
 * VotingLock: every contender creates a sequential "lock-" child of the
 * lock root; the contender whose child sorts first holds the lock, every
 * other one watches the child sorted just before its own.
 */
module Lock {
  import opened Wrappers
  import opened JavaStrings
  import opened Coordination
  import opened Contenders

  const LockPrefix: string := "lock-"

  /** Where one check leaves a contender: it holds the lock, it would now
      block until `pred` is deleted, or its own node is gone (false). */
  datatype LockStatus = Held | Waiting(pred: string) | Lost

  /** `s` is the right answer for the node `me` among the children `names`. */
  ghost predicate Decides(s: LockStatus, me: string, names: set<string>)
  {
    && (s == Held <==> IsLeast(me, names))
    && (s == Lost <==> me !in names)
    && (s.Waiting? ==> IsPredecessor(s.pred, me, names))
  }

  class VotingLock {
    const ns: Namespace
    const root: string
    var currentPath: Option<string>

    ghost predicate Valid()
      reads this, ns
    {
      ns.Valid() && (currentPath.Some? ==> InRoot(root, currentPath.value))
    }

    /** The constructor: connect, and create the lock root if it is absent. */
    constructor (ns: Namespace, root: string)
      requires ns.Valid()
      modifies ns
      ensures Valid() && this.ns == ns && this.root == root && currentPath == None
      ensures root in ns.nodes
      ensures old(root in ns.nodes) ==> ns.nodes == old(ns.nodes)
      ensures old(root !in ns.nodes) ==> ns.nodes == old(ns.nodes)[root := Znode("", map[], 0)]
    {
      this.ns := ns;
      this.root := root;
      currentPath := None;
      new;
      EnsureRoot(ns, root);
    }

    /** Creates this contender's "lock-" node, remembers its path, and checks. */
    method Acquire() returns (r: Result<LockStatus, KeeperError>)
      requires Valid() && (root in ns.nodes ==> ns.nodes[root].cseq <= MaxSequence)
      modifies this, ns
      ensures Valid()
      ensures old(root !in ns.nodes) ==>
        r == Failure(NoNode) && ns.nodes == old(ns.nodes) && currentPath == old(currentPath)
      ensures old(root in ns.nodes) ==>
        var name := SequentialName(LockPrefix, old(ns.nodes[root].cseq));
        && name !in old(ns.nodes[root].children)
        && ns.nodes == AddChild(old(ns.nodes), root, name, "")
        && currentPath == Some(ChildPath(root, name))
        && r.Success? && Decides(r.value, name, ns.nodes[root].children.Keys)
    {
      var created := ns.CreateSequential(root, LockPrefix, "");
      if created.Failure? {
        return Failure(created.error);
      }
      currentPath := Some(ChildPath(root, created.value));
      r := CheckLock();
    }

    /** Sorts all children of the root, whatever their prefix, and finds
        this contender's place: first holds, otherwise wait for the
        predecessor, and a node that is not listed gives false. */
    method CheckLock() returns (r: Result<LockStatus, KeeperError>)
      requires Valid() && currentPath.Some?
      decreases 1
      ensures root !in ns.nodes ==> r == Failure(NoNode)
      ensures root in ns.nodes ==>
        r.Success? && Decides(r.value, NodeName(root, currentPath.value), ns.nodes[root].children.Keys)
    {
      var children := ns.GetChildren(root);
      if children.Failure? {
        return Failure(children.error);
      }
      var sorted := Sort(children.value);
      var myNode := NodeName(root, currentPath.value);
      var turn := FindTurn(sorted, myNode);
      TurnMeaning(children.value, myNode);
      match turn
      case First =>
        r := Success(Held);
      case NotListed =>
        r := Success(Lost);
      case After(previous) =>
        r := WaitForLock(previous);
    }

    /** Registers the watch on the predecessor: if it still exists the
        contender waits; if it is already gone it checks again at once. */
    method WaitForLock(previous: string) returns (r: Result<LockStatus, KeeperError>)
      requires Valid() && currentPath.Some?
      decreases if root in ns.nodes && previous in ns.nodes[root].children then 0 else 2
      ensures root in ns.nodes && previous in ns.nodes[root].children ==> r == Success(Waiting(previous))
      ensures root !in ns.nodes ==> r == Failure(NoNode)
      ensures root in ns.nodes && previous !in ns.nodes[root].children ==>
        r.Success? && Decides(r.value, NodeName(root, currentPath.value), ns.nodes[root].children.Keys)
    {
      var present := ns.ExistsChild(root, previous);
      if present {
        return Success(Waiting(previous));
      }
      r := CheckLock();
    }

    /** Deletes this contender's node if it has one; a node that is already
        gone is an error, and then `currentPath` is kept. */
    method Release() returns (r: Result<(), KeeperError>)
      requires Valid()
      modifies this, ns
      ensures Valid()
      ensures old(currentPath).None? ==>
        r.Success? && ns.nodes == old(ns.nodes) && currentPath == None
      ensures old(currentPath).Some? ==>
        var name := NodeName(root, old(currentPath).value);
        if old(root in ns.nodes && name in ns.nodes[root].children) then
          r.Success? && ns.nodes == RemoveChild(old(ns.nodes), root, name) && currentPath == None
        else
          r == Failure(NoNode) && ns.nodes == old(ns.nodes) && currentPath == old(currentPath)
    {
      if currentPath.Some? {
        var deleted := ns.DeleteChild(root, NodeName(root, currentPath.value));
        if deleted.Failure? {
          return deleted;
        }
        currentPath := None;
      }
      return Success(());
    }
  }
}
