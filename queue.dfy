/**
 * VotingQueue: votes are sequential "voto-" children of the queue root; a
 * consumer takes the least of them in string order, reads it and deletes it.
 * The ghost fields `items` and `pending` are the queue as its users see it:
 * the vote nodes oldest first, and their payloads.
 */
module Queue {
  import opened Wrappers
  import opened JavaStrings
  import opened Decimal
  import opened Coordination
  import opened Contenders

  const VotePrefix: string := "voto-"
  const ResultPrefix: string := "resultado-"

  /** The vote nodes among `names`. */
  ghost function Votes(names: set<string>): set<string>
  {
    set n | n in names && StartsWith(n, VotePrefix)
  }

  /** Every vote node under the root was named by a sequential create with
      the "voto-" prefix: the prefix and ten digits. */
  ghost predicate WellNamed(z: Znode)
  {
    forall n :: n in z.children && StartsWith(n, VotePrefix) ==> |n| == |VotePrefix| + SuffixWidth
  }

  /** The children of `z` that are not vote nodes, such as the "resultado-"
      nodes, with their payloads. */
  ghost function Others(z: Znode): map<string, string>
  {
    map n | n in z.children && !StartsWith(n, VotePrefix) :: z.children[n]
  }

  /** `after` differs from `before` at most in its vote nodes and its counter. */
  ghost predicate SameBesideVotes(before: Znode, after: Znode)
  {
    after.data == before.data && Others(after) == Others(before)
  }

  /** From `before` to `after`, only the vote nodes under `root` and its
      counter changed: every other top-level node, the root's payload and
      its other children are as they were. */
  ghost predicate OnlyVotes(before: map<string, Znode>, after: map<string, Znode>, root: string)
  {
    && root in before && root in after
    && ChangedOnly(before, after, {root})
    && SameBesideVotes(before[root], after[root])
  }

  /** Creating a vote node leaves the other children as they were. */
  lemma OthersAddVote(nodes: map<string, Znode>, root: string, name: string, data: string)
    requires root in nodes && StartsWith(name, VotePrefix)
    ensures OnlyVotes(nodes, AddChild(nodes, root, name, data), root)
  {
    var z := nodes[root];
    var z' := AddChild(nodes, root, name, data)[root];
    assert Others(z') == Others(z);
  }

  /** Deleting a vote node leaves the other children as they were. */
  lemma OthersRemoveVote(nodes: map<string, Znode>, root: string, name: string)
    requires root in nodes && StartsWith(name, VotePrefix)
    ensures OnlyVotes(nodes, RemoveChild(nodes, root, name), root)
  {
    var z := nodes[root];
    var z' := RemoveChild(nodes, root, name)[root];
    assert Others(z') == Others(z);
  }

  /** Changes to vote nodes only, one after the other, are changes to vote
      nodes only. */
  lemma OnlyVotesTrans(a: map<string, Znode>, b: map<string, Znode>, c: map<string, Znode>, root: string)
    requires OnlyVotes(a, b, root) && OnlyVotes(b, c, root)
    ensures OnlyVotes(a, c, root)
  {
  }

  /** `items` lists the vote nodes of `z` in creation order, and `pending`
      holds their payloads. */
  ghost predicate Holds(z: Znode, items: seq<string>, pending: seq<string>)
  {
    && |items| == |pending|
    && Elements(items) == Votes(z.children.Keys)
    && StrictlyIncreasing(items)
    && (forall i :: 0 <= i < |items| ==> items[i] in z.children && z.children[items[i]] == pending[i])
    && WellNamed(z)
  }

  /** A new vote node sorts after every vote node already there. */
  lemma NewestVote(z: Znode, items: seq<string>, pending: seq<string>)
    requires Numbered(z) && Holds(z, items, pending) && z.cseq <= MaxSequence
    ensures forall x :: x in items ==> Less(x, SequentialName(VotePrefix, z.cseq))
  {
    forall x | x in items ensures Less(x, SequentialName(VotePrefix, z.cseq)) {
      assert x in Votes(z.children.Keys);
      SequentialNameOf(VotePrefix, x);
      SequentialOrder(VotePrefix, Value(Suffix(x)), z.cseq);
    }
  }

  /** How the vote nodes of a listing grow by one more listed name. */
  lemma VotesStep(list: seq<string>, i: nat)
    requires i < |list|
    ensures StartsWith(list[i], VotePrefix) ==>
      Votes(Elements(list[..i + 1])) == Votes(Elements(list[..i])) + {list[i]}
    ensures !StartsWith(list[i], VotePrefix) ==>
      Votes(Elements(list[..i + 1])) == Votes(Elements(list[..i]))
  {
    assert list[..i + 1] == list[..i] + [list[i]];
    assert Elements(list[..i + 1]) == Elements(list[..i]) + {list[i]};
  }

  /** Appending a new vote node that sorts after the others keeps the queue. */
  lemma AppendVote(z: Znode, items: seq<string>, pending: seq<string>, name: string, voto: string)
    requires Holds(z, items, pending) && name !in z.children
    requires StartsWith(name, VotePrefix) && |name| == |VotePrefix| + SuffixWidth
    requires forall x :: x in items ==> Less(x, name)
    ensures Holds(Znode(z.data, z.children[name := voto], z.cseq + 1), items + [name], pending + [voto])
  {
    var z' := Znode(z.data, z.children[name := voto], z.cseq + 1);
    assert Votes(z'.children.Keys) == Votes(z.children.Keys) + {name};
    assert Elements(items + [name]) == Elements(items) + {name};
  }

  /** Appending a node that is not a vote node leaves the queue as it is. */
  lemma AppendOther(z: Znode, items: seq<string>, pending: seq<string>, name: string, data: string)
    requires Holds(z, items, pending) && name !in z.children && !StartsWith(name, VotePrefix)
    ensures Holds(Znode(z.data, z.children[name := data], z.cseq + 1), items, pending)
  {
    var z' := Znode(z.data, z.children[name := data], z.cseq + 1);
    assert Votes(z'.children.Keys) == Votes(z.children.Keys);
  }

  /** The head of the queue is a vote node. */
  lemma HeadIsVote(z: Znode, items: seq<string>, pending: seq<string>)
    requires Holds(z, items, pending) && items != []
    ensures StartsWith(items[0], VotePrefix)
  {
    assert items[0] in Votes(z.children.Keys);
  }

  /** The oldest vote node is the least one, and removing it leaves the rest. */
  lemma RemoveHead(z: Znode, items: seq<string>, pending: seq<string>)
    requires Holds(z, items, pending) && items != []
    ensures IsLeast(items[0], Votes(z.children.Keys))
    ensures Holds(Znode(z.data, z.children - {items[0]}, z.cseq), items[1..], pending[1..])
  {
    HeadIsLeast(items);
    IncreasingDistinct(items);
    var z' := Znode(z.data, z.children - {items[0]}, z.cseq);
    assert Votes(z'.children.Keys) == Votes(z.children.Keys) - {items[0]};
    assert Elements(items) == {items[0]} + Elements(items[1..]) by {
      assert items == [items[0]] + items[1..];
    }
    assert items[0] !in items[1..];
  }

  /** The scan of `consume` for the least vote node of a listing. */
  method LeastVote(list: seq<string>) returns (minNode: Option<string>)
    ensures minNode.None? <==> Votes(Elements(list)) == {}
    ensures minNode.Some? ==> IsLeast(minNode.value, Votes(Elements(list)))
  {
    minNode := None;
    var i := 0;
    while i < |list|
      invariant i <= |list|
      invariant minNode.None? <==> Votes(Elements(list[..i])) == {}
      invariant minNode.Some? ==> IsLeast(minNode.value, Votes(Elements(list[..i])))
    {
      var node := list[i];
      VotesStep(list, i);
      if StartsWith(node, VotePrefix) {
        LessIrreflexive(node);
        if minNode.None? || Less(node, minNode.value) {
          if minNode.Some? {
            forall c | c in Votes(Elements(list[..i])) ensures !Less(c, node) {
              if Less(c, node) {
                LessTransitive(c, node, minNode.value);
              }
            }
          }
          minNode := Some(node);
        }
      }
      i := i + 1;
    }
    assert list[..i] == list;
  }

  /** The vote nodes already under a root, sorted, are a queue in creation
      order, with their payloads. */
  lemma QueueOf(z: Znode) returns (items: seq<string>, pending: seq<string>)
    requires WellNamed(z)
    ensures Holds(z, items, pending)
    ensures z.children == map[] ==> items == []
  {
    ListingExists(Votes(z.children.Keys));
    var listing :| IsListing(listing, Votes(z.children.Keys));
    SortKeepsListing(listing);
    items := Sort(listing);
    assert forall i :: 0 <= i < |items| ==> items[i] in Votes(z.children.Keys);
    pending := seq(|items|, i requires 0 <= i < |items| => z.children[items[i]]);
  }

  class VotingQueue {
    const ns: Namespace
    const root: string
    ghost var items: seq<string>
    ghost var pending: seq<string>

    ghost predicate Valid()
      reads this, ns
    {
      && ns.Valid()
      && |items| == |pending|
      && (root !in ns.nodes ==> items == [])
      && (root in ns.nodes ==> Holds(ns.nodes[root], items, pending))
    }

    /** The constructor: connect, and create the queue root if it is absent;
        votes already under an existing root stay queued, oldest first. */
    constructor (ns: Namespace, root: string)
      requires ns.Valid() && (root in ns.nodes ==> WellNamed(ns.nodes[root]))
      modifies ns
      ensures Valid() && this.ns == ns && this.root == root
      ensures root in ns.nodes
      ensures old(root in ns.nodes) ==> ns.nodes == old(ns.nodes)
      ensures old(root !in ns.nodes) ==> ns.nodes == old(ns.nodes)[root := Znode("", map[], 0)] && items == []
    {
      this.ns := ns;
      this.root := root;
      items := [];
      pending := [];
      new;
      EnsureRoot(ns, root);
      items, pending := QueueOf(ns.nodes[root]);
    }

    /** Adds a vote node holding `voto`; false when the root is missing. */
    method Produce(voto: string) returns (ok: bool)
      requires Valid() && (root in ns.nodes ==> ns.nodes[root].cseq <= MaxSequence)
      modifies this, ns
      ensures Valid()
      ensures ok <==> old(root in ns.nodes)
      ensures !ok ==> ns.nodes == old(ns.nodes) && items == old(items) && pending == old(pending)
      ensures ok ==>
        var name := SequentialName(VotePrefix, old(ns.nodes[root].cseq));
        && ns.nodes == AddChild(old(ns.nodes), root, name, voto)
        && items == old(items) + [name] && pending == old(pending) + [voto]
        && root in ns.nodes && ns.nodes[root].cseq == old(ns.nodes[root].cseq) + 1
    {
      if root in ns.nodes {
        NewestVote(ns.nodes[root], items, pending);
        AppendVote(ns.nodes[root], items, pending, SequentialName(VotePrefix, ns.nodes[root].cseq), voto);
      }
      var created := ns.CreateSequential(root, VotePrefix, voto);
      if created.Failure? {
        return false;
      }
      var name := created.value;
      items := items + [name];
      pending := pending + [voto];
      return true;
    }

    /** Takes the least vote node: answers its payload and deletes it, or
        answers None (Java's null) when the root holds no vote node. */
    method Consume() returns (r: Result<Option<string>, KeeperError>)
      requires Valid()
      modifies this, ns
      ensures Valid()
      ensures old(root !in ns.nodes) ==>
        r == Failure(NoNode) && ns.nodes == old(ns.nodes) && items == old(items) && pending == old(pending)
      ensures old(root in ns.nodes) ==> r.Success? && (r.value.None? <==> Votes(old(ns.nodes[root].children.Keys)) == {})
      ensures old(root in ns.nodes) && old(items) == [] ==>
        ns.nodes == old(ns.nodes) && items == old(items) && pending == old(pending)
      ensures old(root in ns.nodes) && old(items) != [] ==>
        && IsLeast(old(items[0]), Votes(old(ns.nodes[root].children.Keys)))
        && r.value == Some(old(ns.nodes[root].children[items[0]])) && r.value == Some(old(pending[0]))
        && ns.nodes == RemoveChild(old(ns.nodes), root, old(items[0]))
        && items == old(items[1..]) && pending == old(pending[1..])
    {
      var list := ns.GetChildren(root);
      if list.Failure? {
        return Failure(list.error);
      }
      if list.value == [] {
        return Success(None);
      }
      var minNode := LeastVote(list.value);
      if minNode.None? {
        return Success(None);
      }
      var node := minNode.value;
      RemoveHead(ns.nodes[root], items, pending);
      AtMostOneLeast(Votes(ns.nodes[root].children.Keys), node, items[0]);
      var data := ns.GetChildData(root, node);
      var _ := ns.DeleteChild(root, node);
      items := items[1..];
      pending := pending[1..];
      return Success(Some(data.value));
    }

    /** Counts the vote nodes under the root; the other children do not count. */
    method Size() returns (r: Result<int, KeeperError>)
      requires Valid()
      ensures root !in ns.nodes ==> r == Failure(NoNode)
      ensures root in ns.nodes ==> r == Success(|Votes(ns.nodes[root].children.Keys)|) && r.value == |pending|
    {
      var list := ns.GetChildren(root);
      if list.Failure? {
        return Failure(list.error);
      }
      var children := list.value;
      var count := 0;
      var i := 0;
      while i < |children|
        invariant i <= |children|
        invariant count == |Votes(Elements(children[..i]))|
      {
        VotesStep(children, i);
        if StartsWith(children[i], VotePrefix) {
          assert children[i] !in Elements(children[..i]);
          count := count + 1;
        }
        i := i + 1;
      }
      assert children[..i] == children;
      IncreasingDistinct(items);
      DistinctCardinality(items);
      return Success(count);
    }

    /** Adds a "resultado-" node holding `message`; vote nodes are untouched,
        so neither `size` nor `consume` sees it. */
    method NotifyResult(message: string) returns (r: Result<(), KeeperError>)
      requires Valid() && (root in ns.nodes ==> ns.nodes[root].cseq <= MaxSequence)
      modifies ns
      ensures Valid() && items == old(items) && pending == old(pending)
      ensures old(root !in ns.nodes) ==> r == Failure(NoNode) && ns.nodes == old(ns.nodes)
      ensures old(root in ns.nodes) ==>
        var name := SequentialName(ResultPrefix, old(ns.nodes[root].cseq));
        && !StartsWith(name, VotePrefix)
        && r.Success? && ns.nodes == AddChild(old(ns.nodes), root, name, message)
    {
      if root in ns.nodes {
        var name := SequentialName(ResultPrefix, ns.nodes[root].cseq);
        assert name[0] == ResultPrefix[0];
        AppendOther(ns.nodes[root], items, pending, name, message);
      }
      var created := ns.CreateSequential(root, ResultPrefix, message);
      if created.Failure? {
        return Failure(created.error);
      }
      return Success(());
    }
  }

  /** How the loops below grow their prefixes of a sequence by one element. */
  lemma PrefixStep(start: seq<string>, s: seq<string>, i: nat)
    requires i <= |s|
    ensures i < |s| ==> s[..i + 1] == s[..i] + [s[i]] && start + s[..i + 1] == (start + s[..i]) + [s[i]]
    ensures i == |s| ==> s[..i] == s
  {
  }

  /** Produces each value of `vs` in turn. */
  method ProduceAll(q: VotingQueue, vs: seq<string>)
    requires q.Valid() && q.root in q.ns.nodes
    requires q.ns.nodes[q.root].cseq + |vs| <= MaxSequence + 1
    modifies q, q.ns
    ensures q.Valid() && q.root in q.ns.nodes
    ensures q.pending == old(q.pending) + vs
    ensures OnlyVotes(old(q.ns.nodes), q.ns.nodes, q.root)
    ensures q.ns.nodes[q.root].cseq == old(q.ns.nodes[q.root].cseq) + |vs|
  {
    ghost var start, before := q.pending, q.ns.nodes;
    var i := 0;
    while i < |vs|
      invariant q.Valid() && q.root in q.ns.nodes && i <= |vs|
      invariant q.ns.nodes[q.root].cseq + |vs| - i <= MaxSequence + 1
      invariant q.pending == start + vs[..i]
      invariant OnlyVotes(before, q.ns.nodes, q.root)
      invariant q.ns.nodes[q.root].cseq == before[q.root].cseq + i
    {
      PrefixStep(start, vs, i);
      ghost var mid := q.ns.nodes;
      OthersAddVote(mid, q.root, SequentialName(VotePrefix, mid[q.root].cseq), vs[i]);
      var ok := q.Produce(vs[i]);
      OnlyVotesTrans(before, mid, q.ns.nodes, q.root);
      i := i + 1;
    }
    PrefixStep(start, vs, i);
  }

  /** Consumes as many values as `size` reports and returns them in order. */
  method ConsumeAll(q: VotingQueue) returns (out: seq<string>)
    requires q.Valid() && q.root in q.ns.nodes
    modifies q, q.ns
    ensures q.Valid() && q.root in q.ns.nodes
    ensures out == old(q.pending) && q.pending == []
    ensures OnlyVotes(old(q.ns.nodes), q.ns.nodes, q.root)
    ensures q.ns.nodes[q.root].cseq == old(q.ns.nodes[q.root].cseq)
  {
    ghost var before := q.ns.nodes;
    var size := q.Size();
    out := [];
    var j := 0;
    while j < size.value
      invariant q.Valid() && q.root in q.ns.nodes && j <= |old(q.pending)| == size.value
      invariant q.pending == old(q.pending)[j..] && out == old(q.pending)[..j]
      invariant OnlyVotes(before, q.ns.nodes, q.root)
      invariant q.ns.nodes[q.root].cseq == before[q.root].cseq
    {
      PrefixStep([], old(q.pending), j);
      ghost var mid := q.ns.nodes;
      HeadIsVote(mid[q.root], q.items, q.pending);
      OthersRemoveVote(mid, q.root, q.items[0]);
      var taken := q.Consume();
      OnlyVotesTrans(before, mid, q.ns.nodes, q.root);
      out := out + [taken.value.value];
      j := j + 1;
    }
    PrefixStep([], old(q.pending), j);
  }

  /** First in, first out: after producing `vs`, as many consumes as there
      are queued values return the values queued before, then `vs`, in order. */
  method ProduceThenConsume(q: VotingQueue, vs: seq<string>) returns (out: seq<string>)
    requires q.Valid() && q.root in q.ns.nodes
    requires q.ns.nodes[q.root].cseq + |vs| <= MaxSequence + 1
    modifies q, q.ns
    ensures q.Valid() && q.root in q.ns.nodes && q.pending == []
    ensures out == old(q.pending) + vs
    ensures OnlyVotes(old(q.ns.nodes), q.ns.nodes, q.root)
    ensures q.ns.nodes[q.root].cseq == old(q.ns.nodes[q.root].cseq) + |vs|
  {
    ProduceAll(q, vs);
    out := ConsumeAll(q);
  }
}
