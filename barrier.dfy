/**
 * VotingBarrier: a participant enters by creating a sequential child named
 * after itself and may go on once the root has `size` children; it leaves by
 * deleting a child that carries its name and may go on once the root is empty.
 * Each wait loop is modelled by the check it repeats: Open means the Java
 * method returns true now, Blocked means it would wait for the children to
 * change and check again.
 */
module Barrier {
  import opened Wrappers
  import opened JavaStrings
  import opened Decimal
  import opened Coordination

  datatype Gate = Open | Blocked

  /** The position of the first listed name that starts with `p`. */
  function FirstWithPrefix(s: seq<string>, p: string): (r: Option<nat>)
    ensures r.None? <==> forall i :: 0 <= i < |s| ==> !StartsWith(s[i], p)
    ensures r.Some? ==> r.value < |s| && StartsWith(s[r.value], p)
    ensures r.Some? ==> forall i :: 0 <= i < r.value ==> !StartsWith(s[i], p)
  {
    if s == [] then None
    else if StartsWith(s[0], p) then Some(0)
    else match FirstWithPrefix(s[1..], p)
      case None => None
      case Some(i) => Some(i + 1)
  }

  /** `child` has exactly the shape of the node `enter` creates for the
      participant `name`: the name, '-', and the ten-digit counter. */
  predicate OwnNode(name: string, child: string)
  {
    && |child| == |name| + 1 + SuffixWidth
    && StartsWith(child, name + "-")
    && AllDigits(Suffix(child))
  }

  /** A node `enter` created has the shape of its own participant's node and
      of no other participant's. */
  lemma OwnNodeExact(a: string, b: string, k: nat)
    requires k <= MaxSequence
    ensures OwnNode(a, SequentialName(b + "-", k)) <==> a == b
  {
    var child := SequentialName(b + "-", k);
    if OwnNode(a, child) {
      assert a == child[..|a|] == b;
    }
  }

  /** As written, `leave` matches any child that starts with the bare name,
      and so also the node of a participant whose name extends it: with the
      names "1700000000000-1" and "1700000000000-12" (same millisecond,
      threads 1 and 12), the first participant's `leave` takes the second's
      node when it is listed first. */
  lemma PrefixMatchesOther()
    ensures
      var mine := "1700000000000-1";
      var other := SequentialName("1700000000000-12" + "-", 0);
      && StartsWith(other, mine) && !OwnNode(mine, other)
      && FirstWithPrefix([other, SequentialName(mine + "-", 1)], mine) == Some(0)
  {
    var mine := "1700000000000-1";
    var other := SequentialName("1700000000000-12" + "-", 0);
    OwnNodeExact(mine, "1700000000000-12", 0);
    assert other[..|mine|] == ("1700000000000-12" + "-")[..|mine|] == mine;
  }

  /** The position of the first listed node of the participant `name`. */
  function FirstOwn(s: seq<string>, name: string): (r: Option<nat>)
    ensures r.None? <==> forall i :: 0 <= i < |s| ==> !OwnNode(name, s[i])
    ensures r.Some? ==> r.value < |s| && OwnNode(name, s[r.value])
    ensures r.Some? ==> forall i :: 0 <= i < r.value ==> !OwnNode(name, s[i])
  {
    if s == [] then None
    else if OwnNode(name, s[0]) then Some(0)
    else match FirstOwn(s[1..], name)
      case None => None
      case Some(i) => Some(i + 1)
  }

  /** Where the scan of `leave` stops: at the first name that starts with
      `p`, or past the end. */
  lemma FirstWithPrefixAt(s: seq<string>, p: string, i: nat)
    requires i <= |s| && (forall k :: 0 <= k < i ==> !StartsWith(s[k], p))
    requires i < |s| ==> StartsWith(s[i], p)
    ensures FirstWithPrefix(s, p) == if i < |s| then Some(i) else None
  {
    var r := FirstWithPrefix(s, p);
    if r.Some? {
      assert !(r.value < i) && !(i < r.value);
    }
  }

  /** Where the corrected scan stops: at the first node of the participant, or
      past the end. */
  lemma FirstOwnAt(s: seq<string>, name: string, i: nat)
    requires i <= |s| && (forall k :: 0 <= k < i ==> !OwnNode(name, s[k]))
    requires i < |s| ==> OwnNode(name, s[i])
    ensures FirstOwn(s, name) == if i < |s| then Some(i) else None
  {
    var r := FirstOwn(s, name);
    if r.Some? {
      assert !(r.value < i) && !(i < r.value);
    }
  }

  class VotingBarrier {
    const ns: Namespace
    const root: string
    const size: int
    /** The participant's own name, any string here. */
    const name: string

    ghost predicate Valid()
      reads this, ns
    {
      ns.Valid()
    }

    /** The constructor: connect, and create the barrier root if it is absent;
        the children already there are kept. */
    constructor (ns: Namespace, root: string, size: int, name: string)
      requires ns.Valid()
      modifies ns
      ensures Valid() && this.ns == ns && this.root == root && this.size == size && this.name == name
      ensures root in ns.nodes
      ensures old(root in ns.nodes) ==> ns.nodes == old(ns.nodes)
      ensures old(root !in ns.nodes) ==> ns.nodes == old(ns.nodes)[root := Znode("", map[], 0)]
    {
      this.ns := ns;
      this.root := root;
      this.size := size;
      this.name := name;
      new;
      EnsureRoot(ns, root);
    }

    /** Creates this participant's node under the root, then checks the
        number of children. */
    method Enter() returns (r: Result<Gate, KeeperError>)
      requires Valid() && (root in ns.nodes ==> ns.nodes[root].cseq <= MaxSequence)
      modifies ns
      ensures Valid()
      ensures old(root !in ns.nodes) ==> r == Failure(NoNode) && ns.nodes == old(ns.nodes)
      ensures old(root in ns.nodes) ==>
        var node := SequentialName(name + "-", old(ns.nodes[root].cseq));
        && StartsWith(node, name + "-") && OwnNode(name, node) && node !in old(ns.nodes[root].children)
        && ns.nodes == AddChild(old(ns.nodes), root, node, "")
        && r.Success? && (r.value == Open <==> |ns.nodes[root].children| >= size)
    {
      var created := ns.CreateSequential(root, name + "-", "");
      if created.Failure? {
        return Failure(created.error);
      }
      r := CheckEnter();
    }

    /** One pass of the wait loop of `enter`: all children count, whatever
        their name. */
    method CheckEnter() returns (r: Result<Gate, KeeperError>)
      ensures root !in ns.nodes ==> r == Failure(NoNode)
      ensures root in ns.nodes ==> r.Success? && (r.value == Open <==> |ns.nodes[root].children| >= size)
    {
      var list := ns.GetChildren(root);
      if list.Failure? {
        return Failure(list.error);
      }
      DistinctCardinality(list.value);
      assert |ns.nodes[root].children| == |ns.nodes[root].children.Keys|;
      if |list.value| < size {
        r := Success(Blocked);
      } else {
        r := Success(Open);
      }
    }

    /** Deletes the first listed child whose name starts with this
        participant's name, then checks whether the root is empty. */
    method Leave() returns (r: Result<Gate, KeeperError>, ghost listing: seq<string>)
      requires Valid()
      modifies ns
      ensures Valid()
      ensures old(root !in ns.nodes) ==> r == Failure(NoNode) && ns.nodes == old(ns.nodes)
      ensures old(root in ns.nodes) ==>
        && IsListing(listing, old(ns.nodes[root].children.Keys))
        && (match FirstWithPrefix(listing, name)
            case None => ns.nodes == old(ns.nodes)
            case Some(i) => ns.nodes == RemoveChild(old(ns.nodes), root, listing[i]))
        && r.Success? && (r.value == Open <==> ns.nodes[root].children == map[])
    {
      var list := ns.GetChildren(root);
      if list.Failure? {
        return Failure(list.error), [];
      }
      listing := list.value;
      var children := list.value;
      var i := 0;
      while i < |children|
        invariant i <= |children|
        invariant forall k :: 0 <= k < i ==> !StartsWith(children[k], name)
        invariant ns.nodes == old(ns.nodes)
      {
        if StartsWith(children[i], name) {
          var _ := ns.DeleteChild(root, children[i]);
          break;
        }
        i := i + 1;
      }
      FirstWithPrefixAt(children, name, i);
      r := CheckLeave();
    }

    /** `leave` as evidently intended: the first phase deletes only a node of
        this participant's own shape, never one of a participant whose name
        merely starts with this one's. */
    method LeaveOwn() returns (r: Result<Gate, KeeperError>, ghost listing: seq<string>)
      requires Valid()
      modifies ns
      ensures Valid()
      ensures old(root !in ns.nodes) ==> r == Failure(NoNode) && ns.nodes == old(ns.nodes)
      ensures old(root in ns.nodes) ==>
        && IsListing(listing, old(ns.nodes[root].children.Keys))
        && (match FirstOwn(listing, name)
            case None => ns.nodes == old(ns.nodes)
            case Some(i) => OwnNode(name, listing[i]) && ns.nodes == RemoveChild(old(ns.nodes), root, listing[i]))
        && r.Success? && (r.value == Open <==> ns.nodes[root].children == map[])
    {
      var list := ns.GetChildren(root);
      if list.Failure? {
        return Failure(list.error), [];
      }
      listing := list.value;
      var children := list.value;
      var i := 0;
      while i < |children|
        invariant i <= |children|
        invariant forall k :: 0 <= k < i ==> !OwnNode(name, children[k])
        invariant ns.nodes == old(ns.nodes)
      {
        if OwnNode(name, children[i]) {
          var _ := ns.DeleteChild(root, children[i]);
          break;
        }
        i := i + 1;
      }
      FirstOwnAt(children, name, i);
      r := CheckLeave();
    }

    /** One pass of the wait loop of `leave`: go on only once the root has no
        children at all. */
    method CheckLeave() returns (r: Result<Gate, KeeperError>)
      ensures root !in ns.nodes ==> r == Failure(NoNode)
      ensures root in ns.nodes ==> r.Success? && (r.value == Open <==> ns.nodes[root].children == map[])
    {
      var list := ns.GetChildren(root);
      if list.Failure? {
        return Failure(list.error);
      }
      if |list.value| > 0 {
        assert list.value[0] in ns.nodes[root].children;
        r := Success(Blocked);
      } else {
        assert ns.nodes[root].children.Keys == {};
        r := Success(Open);
      }
    }
  }
}
