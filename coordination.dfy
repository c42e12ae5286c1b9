/**
 * An in-memory model of the coordination service's namespace, as the four
 * primitives see it: top-level nodes (the primitives' roots and the leader
 * node), each holding a payload and a map from child name to child payload.
 * Payloads are strings; the byte encoding is not modelled.
 */
module Coordination {
  import opened Wrappers
  import opened JavaStrings
  import opened Decimal

  /** The service pads the counter of a sequential node to ten digits. */
  const SuffixWidth: nat := 10
  /** The counter is a Java int; this model stops before it would overflow. */
  const MaxSequence: nat := 2147483647

  /** The KeeperException codes the primitives can meet. */
  datatype KeeperError = NoNode | NodeExists | NotEmpty

  /** A top-level node: its payload, its children (name to payload) and the
      counter the service appends to the next sequential child's name. The
      service takes that counter from the parent's child version, which also
      rises when a child is deleted; here it rises on creates only. The
      primitives rely only on its growth, which both give. */
  datatype Znode = Znode(data: string, children: map<string, string>, cseq: nat)

  function Suffix(name: string): string
    requires |name| >= SuffixWidth
  {
    name[|name| - SuffixWidth..]
  }

  /** The guarantee of the service for sequential nodes, taken as an
      assumption about it: each child's name ends in ten digits that give a
      counter value below the parent's current counter. */
  ghost predicate Numbered(z: Znode)
  {
    forall n :: n in z.children ==>
      |n| >= SuffixWidth && AllDigits(Suffix(n)) && Value(Suffix(n)) < z.cseq
  }

  lemma PowTen()
    ensures Pow10(SuffixWidth) == 10000000000
  {
    assert Pow10(1) == 10;
    assert Pow10(2) == 100;
    assert Pow10(3) == 1000;
    assert Pow10(4) == 10000;
    assert Pow10(5) == 100000;
    assert Pow10(6) == 1000000;
    assert Pow10(7) == 10000000;
    assert Pow10(8) == 100000000;
    assert Pow10(9) == 1000000000;
  }

  /** The name the service gives the `k`-th sequential child created with `prefix`. */
  function SequentialName(prefix: string, k: nat): (name: string)
    requires k <= MaxSequence
    ensures |name| == |prefix| + SuffixWidth && StartsWith(name, prefix)
    ensures AllDigits(Suffix(name)) && Value(Suffix(name)) == k
  {
    PowTen();
    var name := prefix + Padded(k, SuffixWidth);
    assert Suffix(name) == Padded(k, SuffixWidth);
    PaddedValue(k, SuffixWidth);
    name
  }

  /** Sequential names with a common prefix are ordered by their counters:
      the fact behind the queue's first-in, first-out order. */
  lemma SequentialOrder(prefix: string, a: nat, b: nat)
    requires a < b <= MaxSequence
    ensures Less(SequentialName(prefix, a), SequentialName(prefix, b))
  {
    PowTen();
    PaddedLess(a, b, SuffixWidth);
    LessCommonPrefix(prefix, Padded(a, SuffixWidth), Padded(b, SuffixWidth));
  }

  /** A name made of `prefix` and ten digits is the sequential name of its counter. */
  lemma SequentialNameOf(prefix: string, name: string)
    requires |name| == |prefix| + SuffixWidth && StartsWith(name, prefix)
    requires AllDigits(Suffix(name)) && Value(Suffix(name)) <= MaxSequence
    ensures name == SequentialName(prefix, Value(Suffix(name)))
  {
    ValuePadded(Suffix(name));
    assert name == name[..|prefix|] + Suffix(name);
  }

  /** The full path of child `name` of `root`. */
  function ChildPath(root: string, name: string): (path: string)
    ensures |path| > |root| && NodeName(root, path) == name
  {
    root + "/" + name
  }

  /** `path.substring(root.length() + 1)`: how the primitives get a child's
      name back from the full path the service returned. */
  function NodeName(root: string, path: string): string
    requires |path| > |root|
  {
    path[|root| + 1..]
  }

  /** `path` is the full path of a child of `root`. */
  predicate InRoot(root: string, path: string)
  {
    |path| > |root| && path == ChildPath(root, NodeName(root, path))
  }

  /** The nodes after `name` was created under `root` with payload `data`. */
  function AddChild(nodes: map<string, Znode>, root: string, name: string, data: string): map<string, Znode>
    requires root in nodes
  {
    var z := nodes[root];
    nodes[root := Znode(z.data, z.children[name := data], z.cseq + 1)]
  }

  /** The nodes after child `name` of `root` was deleted. */
  function RemoveChild(nodes: map<string, Znode>, root: string, name: string): map<string, Znode>
    requires root in nodes
  {
    var z := nodes[root];
    nodes[root := Znode(z.data, z.children - {name}, z.cseq)]
  }

  /** `after` has the same top-level nodes as `before`, and only those in
      `roots` may differ. */
  ghost predicate ChangedOnly(before: map<string, Znode>, after: map<string, Znode>, roots: set<string>)
  {
    && after.Keys == before.Keys
    && forall p :: p in before && p !in roots ==> after[p] == before[p]
  }

  class Namespace {
    var nodes: map<string, Znode>

    ghost predicate Valid()
      reads this
    {
      forall p :: p in nodes ==> Numbered(nodes[p])
    }

    constructor ()
      ensures Valid() && nodes == map[]
    {
      nodes := map[];
    }

    /** `exists(path)` on a top-level node. */
    method Exists(path: string) returns (b: bool)
      ensures b <==> path in nodes
    {
      b := path in nodes;
    }

    /** `exists(root + "/" + name)` */
    method ExistsChild(root: string, name: string) returns (b: bool)
      ensures b <==> root in nodes && name in nodes[root].children
    {
      b := root in nodes && name in nodes[root].children;
    }

    /** `getChildren(root)`: every child name once, in an order the service chooses. */
    method GetChildren(root: string) returns (r: Result<seq<string>, KeeperError>)
      ensures root !in nodes ==> r == Failure(NoNode)
      ensures root in nodes ==> r.Success? && IsListing(r.value, nodes[root].children.Keys)
    {
      if root !in nodes {
        return Failure(NoNode);
      }
      var keys := nodes[root].children.Keys;
      var rest, listing := keys, [];
      while rest != {}
        invariant rest <= keys
        invariant IsListing(listing, keys - rest)
        decreases rest
      {
        var x :| x in rest;
        assert Elements(listing + [x]) == Elements(listing) + {x};
        listing, rest := listing + [x], rest - {x};
      }
      return Success(listing);
    }

    /** `getData(path)` on a top-level node. */
    method GetData(path: string) returns (r: Result<string, KeeperError>)
      ensures r == if path in nodes then Success(nodes[path].data) else Failure(NoNode)
    {
      r := if path in nodes then Success(nodes[path].data) else Failure(NoNode);
    }

    /** `getData(root + "/" + name)` */
    method GetChildData(root: string, name: string) returns (r: Result<string, KeeperError>)
      ensures r == if root in nodes && name in nodes[root].children
                   then Success(nodes[root].children[name]) else Failure(NoNode)
    {
      r := if root in nodes && name in nodes[root].children
           then Success(nodes[root].children[name]) else Failure(NoNode);
    }

    /** `create(path, data, PERSISTENT or EPHEMERAL)` of a top-level node. */
    method Create(path: string, data: string) returns (r: Result<(), KeeperError>)
      requires Valid()
      modifies this
      ensures Valid()
      ensures old(path in nodes) ==> r == Failure(NodeExists) && nodes == old(nodes)
      ensures old(path !in nodes) ==> r.Success? && nodes == old(nodes)[path := Znode(data, map[], 0)]
    {
      if path in nodes {
        return Failure(NodeExists);
      }
      nodes := nodes[path := Znode(data, map[], 0)];
      return Success(());
    }

    /** `create(root + "/" + prefix, data, *_SEQUENTIAL)`: the service appends
        the parent's counter and answers with the name it chose, which no
        existing child has. */
    method CreateSequential(root: string, prefix: string, data: string) returns (r: Result<string, KeeperError>)
      requires Valid() && (root in nodes ==> nodes[root].cseq <= MaxSequence)
      modifies this
      ensures Valid()
      ensures old(root !in nodes) ==> r == Failure(NoNode) && nodes == old(nodes)
      ensures old(root in nodes) ==>
        && r == Success(SequentialName(prefix, old(nodes[root].cseq)))
        && r.value !in old(nodes[root].children)
        && nodes == AddChild(old(nodes), root, r.value, data)
    {
      if root !in nodes {
        return Failure(NoNode);
      }
      var z := nodes[root];
      var name := SequentialName(prefix, z.cseq);
      assert name !in z.children;
      nodes := AddChild(nodes, root, name, data);
      return Success(name);
    }

    /** `setData(path, data, -1)` on a top-level node: any version matches. */
    method SetData(path: string, data: string) returns (r: Result<(), KeeperError>)
      requires Valid()
      modifies this
      ensures Valid()
      ensures old(path !in nodes) ==> r == Failure(NoNode) && nodes == old(nodes)
      ensures old(path in nodes) ==> r.Success? && nodes == old(nodes)[path := old(nodes[path]).(data := data)]
    {
      if path !in nodes {
        return Failure(NoNode);
      }
      nodes := nodes[path := nodes[path].(data := data)];
      return Success(());
    }

    /** `delete(path, -1)` of a top-level node: it must exist and have no children. */
    method Delete(path: string) returns (r: Result<(), KeeperError>)
      requires Valid()
      modifies this
      ensures Valid()
      ensures old(path !in nodes) ==> r == Failure(NoNode) && nodes == old(nodes)
      ensures old(path in nodes) && old(nodes[path].children) != map[] ==>
        r == Failure(NotEmpty) && nodes == old(nodes)
      ensures old(path in nodes) && old(nodes[path].children) == map[] ==>
        r.Success? && nodes == old(nodes) - {path}
    {
      if path !in nodes {
        return Failure(NoNode);
      }
      if nodes[path].children != map[] {
        return Failure(NotEmpty);
      }
      nodes := nodes - {path};
      return Success(());
    }

    /** `delete(root + "/" + name, -1)` */
    method DeleteChild(root: string, name: string) returns (r: Result<(), KeeperError>)
      requires Valid()
      modifies this
      ensures Valid()
      ensures old(root !in nodes || name !in nodes[root].children) ==>
        r == Failure(NoNode) && nodes == old(nodes)
      ensures old(root in nodes && name in nodes[root].children) ==>
        r.Success? && nodes == RemoveChild(old(nodes), root, name)
    {
      if root !in nodes || name !in nodes[root].children {
        return Failure(NoNode);
      }
      nodes := RemoveChild(nodes, root, name);
      return Success(());
    }
  }

  /** What each primitive's constructor does first: create its root as an
      empty persistent node unless it exists; existing children are kept. */
  method EnsureRoot(ns: Namespace, root: string)
    requires ns.Valid()
    modifies ns
    ensures ns.Valid() && root in ns.nodes
    ensures old(root in ns.nodes) ==> ns.nodes == old(ns.nodes)
    ensures old(root !in ns.nodes) ==> ns.nodes == old(ns.nodes)[root := Znode("", map[], 0)]
  {
    var present := ns.Exists(root);
    if !present {
      var _ := ns.Create(root, "");
    }
  }
}
