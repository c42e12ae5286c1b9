/**
 * VotingLeaderElection: every candidate creates a sequential "candidate-"
 * child of the election root holding its id; the candidate whose child sorts
 * first becomes leader and publishes its id in the leader node.
 */
module Election {
  import opened Wrappers
  import opened JavaStrings
  import opened Decimal
  import opened Coordination
  import opened Contenders

  const CandidatePrefix: string := "candidate-"

  /** `Integer.parseInt` threw NumberFormatException. */
  datatype NumberFormatError = NumberFormatException

  /** The nodes after `data` was published in the leader node: created when
      absent, overwritten when present. */
  function Publish(nodes: map<string, Znode>, leaderPath: string, data: string): (r: map<string, Znode>)
    ensures leaderPath in r && r[leaderPath].data == data
    ensures forall p :: p in nodes && p != leaderPath ==> p in r && r[p] == nodes[p]
    ensures r.Keys == nodes.Keys + {leaderPath}
    ensures leaderPath in nodes ==> r[leaderPath].children == nodes[leaderPath].children
  {
    if leaderPath in nodes then nodes[leaderPath := nodes[leaderPath].(data := data)]
    else nodes[leaderPath := Znode(data, map[], 0)]
  }

  /** What getCurrentLeader reads from the leader node: -1 without a node, the
      parsed id otherwise, and an exception for a payload that is not a number. */
  function LeaderIn(nodes: map<string, Znode>, leaderPath: string): Result<int, NumberFormatError>
  {
    if leaderPath !in nodes then Success(-1)
    else match ParseInt(nodes[leaderPath].data)
      case Some(id) => Success(id)
      case None => Failure(NumberFormatException)
  }

  /** Once a leader has published its id, getCurrentLeader returns that id. */
  lemma PublishedLeader(nodes: map<string, Znode>, leaderPath: string, nodeId: int)
    requires IsInt32(nodeId)
    ensures LeaderIn(Publish(nodes, leaderPath, IntToString(nodeId)), leaderPath) == Success(nodeId)
  {
    ParseIntToString(nodeId);
  }

  class VotingLeaderElection {
    const ns: Namespace
    const root: string
    const leaderPath: string
    const nodeId: int
    var currentPath: Option<string>
    var isLeader: bool

    ghost predicate Valid()
      reads this, ns
    {
      ns.Valid() && IsInt32(nodeId) && (currentPath.Some? ==> InRoot(root, currentPath.value))
    }

    /** The child name of this candidate's node. */
    function OwnName(): string
      reads this
      requires currentPath.Some? && |currentPath.value| > |root|
    {
      NodeName(root, currentPath.value)
    }

    /** The constructor: connect, and create the election root if it is absent. */
    constructor (ns: Namespace, root: string, leaderPath: string, nodeId: int)
      requires ns.Valid() && IsInt32(nodeId)
      modifies ns
      ensures Valid() && this.ns == ns && this.root == root && this.leaderPath == leaderPath
      ensures this.nodeId == nodeId && currentPath == None && !isLeader
      ensures root in ns.nodes
      ensures old(root in ns.nodes) ==> ns.nodes == old(ns.nodes)
      ensures old(root !in ns.nodes) ==> ns.nodes == old(ns.nodes)[root := Znode("", map[], 0)]
    {
      this.ns := ns;
      this.root := root;
      this.leaderPath := leaderPath;
      this.nodeId := nodeId;
      currentPath := None;
      isLeader := false;
      new;
      EnsureRoot(ns, root);
    }

    /** Creates this candidate's node, holding its id, and checks whether it
        leads; true exactly when its node is the least child of the root. */
    method Elect() returns (r: Result<bool, KeeperError>, ghost watched: Option<string>)
      requires Valid() && (root in ns.nodes ==> ns.nodes[root].cseq <= MaxSequence)
      modifies this, ns
      ensures Valid() && (old(isLeader) ==> isLeader)
      ensures old(root !in ns.nodes) ==>
        && r == Failure(NoNode) && ns.nodes == old(ns.nodes)
        && currentPath == old(currentPath) && isLeader == old(isLeader)
      ensures old(root in ns.nodes) ==>
        var name := SequentialName(CandidatePrefix, old(ns.nodes[root].cseq));
        var joined := AddChild(old(ns.nodes), root, name, IntToString(nodeId));
        && name !in old(ns.nodes[root].children)
        && currentPath == Some(ChildPath(root, name))
        && r.Success? && (r.value <==> IsLeast(name, joined[root].children.Keys))
        && (r.value ==> isLeader && ns.nodes == Publish(joined, leaderPath, IntToString(nodeId)))
        && (!r.value ==> isLeader == old(isLeader) && ns.nodes == joined)
        && (watched.Some? <==> !r.value)
        && (watched.Some? ==> IsPredecessor(watched.value, name, joined[root].children.Keys))
    {
      var created := ns.CreateSequential(root, CandidatePrefix, IntToString(nodeId));
      if created.Failure? {
        return Failure(created.error), None;
      }
      currentPath := Some(ChildPath(root, created.value));
      r, watched := CheckLeadership();
    }

    /** Sorts all children of the root and finds this candidate's place: the
        first becomes leader, any other watches its predecessor and answers
        false, and a node that is not listed answers false. */
    method CheckLeadership() returns (r: Result<bool, KeeperError>, ghost watched: Option<string>)
      requires Valid() && currentPath.Some?
      modifies this, ns
      decreases 1
      ensures Valid() && currentPath == old(currentPath) && (old(isLeader) ==> isLeader)
      ensures old(root !in ns.nodes) ==>
        r == Failure(NoNode) && ns.nodes == old(ns.nodes) && isLeader == old(isLeader)
      ensures old(root in ns.nodes) ==>
        && r.Success?
        && (r.value <==> IsLeast(OwnName(), old(ns.nodes[root].children.Keys)))
        && (r.value ==> isLeader && ns.nodes == Publish(old(ns.nodes), leaderPath, IntToString(nodeId)))
        && (!r.value ==> isLeader == old(isLeader) && ns.nodes == old(ns.nodes))
        && (watched.Some? <==> !r.value && OwnName() in old(ns.nodes[root].children))
        && (watched.Some? ==> IsPredecessor(watched.value, OwnName(), old(ns.nodes[root].children.Keys)))
    {
      watched := None;
      var candidates := ns.GetChildren(root);
      if candidates.Failure? {
        return Failure(candidates.error), None;
      }
      var sorted := Sort(candidates.value);
      var myNode := NodeName(root, currentPath.value);
      var turn := FindTurn(sorted, myNode);
      TurnMeaning(candidates.value, myNode);
      match turn
      case First =>
        BecomeLeader();
        r := Success(true);
      case After(previous) =>
        var watching := WatchPreviousCandidate(previous);
        if watching.Failure? {
          // The root was just listed, so the watch cannot report it gone.
          assert false;
        }
        r, watched := Success(false), Some(previous);
      case NotListed =>
        r := Success(false);
    }

    /** Sets `isLeader` and publishes this candidate's id in the leader node,
        creating it or overwriting whatever id it held. */
    method BecomeLeader()
      requires Valid()
      modifies this, ns
      ensures Valid() && currentPath == old(currentPath)
      ensures isLeader && ns.nodes == Publish(old(ns.nodes), leaderPath, IntToString(nodeId))
    {
      isLeader := true;
      var present := ns.Exists(leaderPath);
      if !present {
        var _ := ns.Create(leaderPath, IntToString(nodeId));
      } else {
        var _ := ns.SetData(leaderPath, IntToString(nodeId));
      }
    }

    /** Registers the watch on the predecessor. If it still exists nothing
        changes; if it is already gone, leadership is checked again: the
        answer of that check is dropped, but its error (the root is gone)
        propagates. */
    method WatchPreviousCandidate(previous: string) returns (r: Result<(), KeeperError>)
      requires Valid() && currentPath.Some?
      modifies this, ns
      decreases if root in ns.nodes && previous in ns.nodes[root].children then 0 else 2
      ensures Valid() && currentPath == old(currentPath) && (old(isLeader) ==> isLeader)
      ensures r.Failure? <==> old(root !in ns.nodes)
      ensures r.Failure? ==> r.error == NoNode
      ensures old(root in ns.nodes && previous in ns.nodes[root].children) ==>
        ns.nodes == old(ns.nodes) && isLeader == old(isLeader)
      ensures old(!(root in ns.nodes && previous in ns.nodes[root].children)) ==>
        if old(root in ns.nodes) && IsLeast(OwnName(), old(ns.nodes[root].children.Keys))
        then isLeader && ns.nodes == Publish(old(ns.nodes), leaderPath, IntToString(nodeId))
        else ns.nodes == old(ns.nodes) && isLeader == old(isLeader)
    {
      r := Success(());
      var present := ns.ExistsChild(root, previous);
      if !present {
        var answer;
        ghost var watched;
        answer, watched := CheckLeadership();
        if answer.Failure? {
          r := Failure(answer.error);
        }
      }
    }

    /** `isLeader()` */
    method IsLeader() returns (b: bool)
      ensures b == isLeader
    {
      b := isLeader;
    }

    /** Reads the id in the leader node; -1 when there is none. A payload
        that is not a number is an error, as the parse is not guarded. */
    method GetCurrentLeader() returns (r: Result<int, NumberFormatError>)
      ensures r == LeaderIn(ns.nodes, leaderPath)
      ensures r.Success? ==> r.value == -1 || IsInt32(r.value)
    {
      var data := ns.GetData(leaderPath);
      if data.Failure? {
        return Success(-1);
      }
      match ParseInt(data.value)
      case Some(id) =>
        r := Success(id);
      case None =>
        r := Failure(NumberFormatException);
    }

    /** Leaves the election: deletes this candidate's node (an error if it is
        already gone), then, if it was leader, deletes the leader node, where
        an absent node is tolerated but one with children is an error. */
    method Resign() returns (r: Result<(), KeeperError>)
      requires Valid()
      modifies this, ns
      ensures Valid()
      ensures old(currentPath.Some? && !(root in ns.nodes && OwnName() in ns.nodes[root].children)) ==>
        && r == Failure(NoNode) && ns.nodes == old(ns.nodes)
        && currentPath == old(currentPath) && isLeader == old(isLeader)
      ensures old(currentPath.None? || (root in ns.nodes && OwnName() in ns.nodes[root].children)) ==>
        var withdrawn := if old(currentPath).Some?
          then RemoveChild(old(ns.nodes), root, NodeName(root, old(currentPath).value))
          else old(ns.nodes);
        && currentPath == None
        && (!old(isLeader) || leaderPath !in withdrawn ==>
              r.Success? && ns.nodes == withdrawn && !isLeader)
        && (old(isLeader) && leaderPath in withdrawn && withdrawn[leaderPath].children != map[] ==>
              r == Failure(NotEmpty) && ns.nodes == withdrawn && isLeader)
        && (old(isLeader) && leaderPath in withdrawn && withdrawn[leaderPath].children == map[] ==>
              r.Success? && ns.nodes == withdrawn - {leaderPath} && !isLeader)
    {
      if currentPath.Some? {
        var deleted := ns.DeleteChild(root, NodeName(root, currentPath.value));
        if deleted.Failure? {
          return deleted;
        }
        currentPath := None;
      }
      if isLeader {
        var deleted := ns.Delete(leaderPath);
        if deleted.Failure? && deleted.error != NoNode {
          return deleted;
        }
        isLeader := false;
      }
      return Success(());
    }
  }
}
