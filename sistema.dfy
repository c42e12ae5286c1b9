/**
 * SistemaVotacao: the tally utilities over `Map<String, Integer>` (each a
 * loop over the map's entries, in an order the HashMap chooses) and the
 * `processarVotos` loop that drains the vote queue under the lock.
 */
module Sistema {
  import opened Wrappers
  import opened JavaStrings
  import opened Decimal
  import opened Coordination
  import opened Contenders
  import opened Tally
  import opened Lock
  import opened Queue

  /** One more entry at the end of the order: a ';' and the entry, or just
      the entry when it is the first. */
  lemma RenderSnoc(m: Counts, order: seq<string>, k: string)
    requires (forall j :: j in order ==> j in m) && k in m
    ensures Render(m, order + [k]) ==
      if order == [] then Entry(k, m[k]) else Render(m, order) + [';'] + Entry(k, m[k])
  {
    var next := order + [k];
    assert forall j :: j in next ==> j in m;
    var entries := Entries(m, next);
    assert entries[..|order|] == Entries(m, order);
    assert entries[|order|] == Entry(k, m[k]);
  }

  /** `serializeContagem`: the entries as "k=v", separated by ';', in the
      order the loop met them (`order`, which lists every key once). */
  method SerializeContagem(m: Counts) returns (text: string, ghost order: seq<string>)
    ensures IsListing(order, m.Keys)
    ensures text == Render(m, order)
    ensures text == "" <==> m == map[]
  {
    text := "";
    order := [];
    var keys := m.Keys;
    while keys != {}
      invariant Distinct(order)
      invariant forall j :: j in order ==> j in m
      invariant forall j :: j in m ==> (j in keys <==> j !in order)
      invariant keys <= m.Keys
      invariant text == Render(m, order)
      invariant text == "" <==> order == []
      decreases keys
    {
      var k :| k in keys;
      RenderSnoc(m, order, k);
      if |text| > 0 {
        text := text + [';'];
      }
      text := text + Entry(k, m[k]);
      order := order + [k];
      keys := keys - {k};
    }
    assert Elements(order) == m.Keys;
    if order != [] {
      assert order[0] in m;
    }
  }

  /** `deserializeContagem`: null or empty data gives the empty tally;
      otherwise every part that holds a key, '=' and a parseable count puts
      that count, and every other part is skipped. */
  method DeserializeContagem(data: Option<string>) returns (m: Counts)
    ensures m == ParseCounts(data)
    ensures data.None? || data.value == "" ==> m == map[]
  {
    m := map[];
    if data.None? || |data.value| == 0 {
      return;
    }
    var parts := Split(data.value, ';');
    var i := 0;
    while i < |parts|
      invariant i <= |parts|
      invariant m == ParseParts(parts[..i])
    {
      var part := parts[i];
      ParsePartsPrefix(parts, i);
      if part != "" {
        var kv := KeyValue(part);
        if kv.Some? {
          var parsed := ParseInt(kv.value.1);
          if parsed.Some? {
            m := m[kv.value.0 := parsed.value];
          }
        }
      }
      i := i + 1;
    }
    assert parts[..i] == parts;
  }

  /** `somar(base, inc)`: every count of `inc` is added to the count of
      `base` (0 when missing); keys only in `base` keep their counts. */
  method Somar(base: Counts, inc: Counts) returns (r: Counts)
    ensures r.Keys == base.Keys + inc.Keys
    ensures forall k :: k in inc ==> r[k] == Get(base, k) + inc[k]
    ensures forall k :: k in base && k !in inc ==> r[k] == base[k]
    ensures r == Merged(base, inc)
  {
    r := base;
    var keys := inc.Keys;
    while keys != {}
      invariant keys <= inc.Keys
      invariant r.Keys == base.Keys + (inc.Keys - keys)
      invariant forall k :: k in inc && k !in keys ==> r[k] == Get(base, k) + inc[k]
      invariant forall k :: k in base && (k !in inc || k in keys) ==> r[k] == base[k]
      decreases keys
    {
      var k :| k in keys;
      r := r[k := Get(r, k) + inc[k]];
      keys := keys - {k};
    }
    MergedMeaning(base, inc, r);
  }

  /** The summary loop of `imprimirResultado` over the entries, met in the
      order `order`: the sum of the counts, and the first entry whose count
      beats every count before it and 0, with that count. */
  method ImprimirResultado(contagem: Counts) returns (total: int, vencedor: Option<string>, max: int, ghost order: seq<string>, ghost at: nat)
    ensures IsListing(order, contagem.Keys)
    ensures total == Total(contagem)
    ensures IsWinner(contagem, order, vencedor, max, at)
    ensures vencedor.None? <==> forall k :: k in contagem ==> contagem[k] <= 0
    ensures vencedor.Some? ==> vencedor.value in contagem && contagem[vencedor.value] == max
    ensures vencedor.Some? ==> forall k :: k in contagem ==> contagem[k] <= max
  {
    total := 0;
    vencedor := None;
    max := 0;
    order := [];
    at := 0;
    var rest := contagem;
    while rest != map[]
      invariant Distinct(order)
      invariant forall j :: j in order ==> j in contagem
      invariant forall j :: j in contagem ==> (j in rest <==> j !in order)
      invariant forall j :: j in rest ==> j in contagem && rest[j] == contagem[j]
      invariant total + Total(rest) == Total(contagem)
      invariant IsWinner(contagem, order, vencedor, max, at)
      decreases |rest|
    {
      var k :| k in rest;
      TotalRemove(rest, k);
      WinnerStep(contagem, order, vencedor, max, at, k);
      total := total + rest[k];
      if rest[k] > max {
        max := rest[k];
        vencedor := Some(k);
        at := |order|;
      }
      order := order + [k];
      rest := rest - {k};
    }
    assert Elements(order) == contagem.Keys;
  }

  /** The node's tally, fed by the shared vote queue under the shared lock. */
  class SistemaVotacao {
    const lock: VotingLock
    const queue: VotingQueue
    var contadorLocal: Counts

    /** The lock and the queue work on one namespace, under different roots. */
    ghost predicate Shared()
      reads this, lock, queue, lock.ns, queue.ns
    {
      && lock.Valid() && queue.Valid() && lock.ns == queue.ns && lock.root != queue.root
      && lock.root in lock.ns.nodes && queue.root in queue.ns.nodes
    }

    /** Between two turns: this node is the only actor, so nobody holds a
        lock node. */
    ghost predicate Ready()
      reads this, lock, queue, lock.ns, queue.ns
    {
      Shared() && lock.ns.nodes[lock.root].children == map[] && lock.currentPath == None
    }

    /** The lock root's sequence counter can still number `n` more lock
        nodes. */
    ghost predicate Room(n: int)
      reads lock, lock.ns
    {
      lock.root in lock.ns.nodes && lock.ns.nodes[lock.root].cseq + n <= MaxSequence
    }

    /** What `n` turns may change, from `before` to `after`: the lock root
        only in its counter, which rises by one per turn; the queue root only
        in its vote nodes; every other node stays as it was. */
    ghost predicate Framed(before: map<string, Znode>, after: map<string, Znode>, n: nat)
    {
      && lock.root in before && queue.root in before
      && ChangedOnly(before, after, {lock.root, queue.root})
      && after[lock.root] == before[lock.root].(cseq := before[lock.root].cseq + n)
      && SameBesideVotes(before[queue.root], after[queue.root])
      && after[queue.root].cseq == before[queue.root].cseq
    }

    constructor (lock: VotingLock, queue: VotingQueue)
      ensures this.lock == lock && this.queue == queue && contadorLocal == map[]
    {
      this.lock := lock;
      this.queue := queue;
      contadorLocal := map[];
    }

    /** `lock.acquire()` with no other contender: granted at once, and the
        lock root holds this node's one lock node. */
    method TakeLock()
      requires Ready() && lock.ns.nodes[lock.root].cseq <= MaxSequence
      modifies lock, lock.ns
      ensures Shared() && lock.currentPath.Some?
      ensures lock.ns.nodes[lock.root].children == map[NodeName(lock.root, lock.currentPath.value) := ""]
      ensures lock.ns.nodes[lock.root].cseq == old(lock.ns.nodes[lock.root].cseq) + 1
      ensures lock.ns.nodes[queue.root] == old(lock.ns.nodes[queue.root])
      ensures lock.ns.nodes == AddChild(old(lock.ns.nodes), lock.root, NodeName(lock.root, lock.currentPath.value), "")
    {
      var ns := lock.ns;
      ghost var name := SequentialName(LockPrefix, ns.nodes[lock.root].cseq);
      var acquired := lock.Acquire();
      assert ns.nodes[lock.root].children == map[name := ""];
      LessIrreflexive(name);
      assert IsLeast(name, {name});
      assert acquired == Success(Held);
    }

    /** The body of the critical section: `queue.consume()`, and one more
        vote for the value it returns; `done` when it returns null. */
    method CountOne() returns (done: bool)
      requires Shared()
      modifies this, queue, queue.ns
      ensures Shared() && lock.ns.nodes[lock.root] == old(lock.ns.nodes[lock.root])
      ensures done <==> old(queue.pending) == []
      ensures done ==> lock.ns.nodes == old(lock.ns.nodes)
      ensures !done ==>
        && StartsWith(old(queue.items)[0], VotePrefix)
        && lock.ns.nodes == RemoveChild(old(lock.ns.nodes), queue.root, old(queue.items)[0])
      ensures done ==> contadorLocal == old(contadorLocal) && queue.pending == []
      ensures !done ==>
        && contadorLocal == AddVote(old(contadorLocal), old(queue.pending)[0])
        && queue.pending == old(queue.pending)[1..]
    {
      if queue.items != [] {
        HeadIsVote(queue.ns.nodes[queue.root], queue.items, queue.pending);
      }
      var voto := queue.Consume();
      if voto.value.None? {
        done := true;
      } else {
        done := false;
        contadorLocal := AddVote(contadorLocal, voto.value.value);
      }
    }

    /** `lock.release()` in the `finally` block: deletes this node's lock
        node, which leaves the lock root empty again. */
    method DropLock()
      requires Shared() && lock.currentPath.Some?
      requires lock.ns.nodes[lock.root].children == map[NodeName(lock.root, lock.currentPath.value) := ""]
      modifies lock, lock.ns
      ensures Ready()
      ensures lock.ns.nodes[lock.root].cseq == old(lock.ns.nodes[lock.root].cseq)
      ensures lock.ns.nodes[queue.root] == old(lock.ns.nodes[queue.root])
      ensures lock.ns.nodes == RemoveChild(old(lock.ns.nodes), lock.root, NodeName(lock.root, old(lock.currentPath).value))
    {
      ghost var name := NodeName(lock.root, lock.currentPath.value);
      var released := lock.Release();
      assert lock.ns.nodes[lock.root].children == map[name := ""] - {name};
    }

    /** One turn of the loop: take the lock, consume one vote and count it,
        release the lock; `done` tells whether the queue was empty. */
    method Turn() returns (done: bool)
      requires Ready() && Room(|queue.pending|)
      modifies this, lock, queue, lock.ns
      ensures Ready()
      ensures !done ==> Room(|queue.pending|)
      ensures done <==> old(queue.pending) == []
      ensures done ==> contadorLocal == old(contadorLocal) && queue.pending == []
      ensures !done ==>
        && contadorLocal == AddVote(old(contadorLocal), old(queue.pending)[0])
        && queue.pending == old(queue.pending)[1..]
      ensures Framed(old(lock.ns.nodes), lock.ns.nodes, 1)
    {
      ghost var before := lock.ns.nodes;
      TakeLock();
      ghost var name, taken := NodeName(lock.root, lock.currentPath.value), lock.ns.nodes;
      ghost var vote := if queue.items == [] then None else Some(queue.items[0]);
      done := CountOne();
      ghost var counted := lock.ns.nodes;
      DropLock();
      TurnFrame(before, taken, counted, lock.ns.nodes, name, vote);
    }

    /** The nodes a turn leaves: one lock node created and deleted again,
        and at most one vote node deleted. */
    lemma TurnFrame(before: map<string, Znode>, taken: map<string, Znode>, counted: map<string, Znode>,
                    after: map<string, Znode>, name: string, vote: Option<string>)
      requires lock.root != queue.root && lock.root in before && queue.root in before
      requires before[lock.root].children == map[]
      requires taken == AddChild(before, lock.root, name, "")
      requires vote.None? ==> counted == taken
      requires vote.Some? ==> StartsWith(vote.value, VotePrefix) && counted == RemoveChild(taken, queue.root, vote.value)
      requires after == RemoveChild(counted, lock.root, name)
      ensures Framed(before, after, 1)
    {
      if vote.Some? {
        OthersRemoveVote(taken, queue.root, vote.value);
      }
      assert taken[lock.root].children - {name} == map[];
    }

    lemma FramedTrans(a: map<string, Znode>, b: map<string, Znode>, c: map<string, Znode>, m: nat, n: nat)
      requires Framed(a, b, m) && Framed(b, c, n)
      ensures Framed(a, c, m + n)
    {
    }

    /** Part way through `processarVotos`: the first `i` votes of `all`
        are counted on top of `start`, and the rest are still queued. */
    ghost predicate Draining(start: Counts, all: seq<string>, i: int)
      reads this, lock, queue, lock.ns, queue.ns
    {
      && Ready() && 0 <= i <= |all| && queue.pending == all[i..] && Room(|all| - i)
      && contadorLocal == AddVotes(start, all[..i])
    }

    /** One pass of the `processarVotos` loop, seen from the draining
        invariant: either the queue was empty and every vote of `all` is
        counted, or one more vote of `all` is counted. */
    method DrainStep(ghost start: Counts, ghost all: seq<string>, ghost i: int) returns (done: bool)
      requires Draining(start, all, i)
      modifies this, lock, queue, lock.ns
      ensures done ==> Ready() && queue.pending == [] && contadorLocal == AddVotes(start, all) && i == |all|
      ensures !done ==> i < |all| && Draining(start, all, i + 1)
      ensures Framed(old(lock.ns.nodes), lock.ns.nodes, 1)
    {
      if i < |all| {
        AddVotesSnoc(start, all[..i], all[i]);
        assert all[..i + 1] == all[..i] + [all[i]];
      } else {
        assert all[..i] == all;
      }
      done := Turn();
    }

    /** `processarVotos`: turns until the queue answers null; every queued
        vote is counted once, in queue order. */
    method ProcessarVotos()
      requires Ready() && Room(|queue.pending|)
      modifies this, lock, queue, lock.ns
      ensures Ready() && queue.pending == []
      ensures contadorLocal == AddVotes(old(contadorLocal), old(queue.pending))
      ensures Framed(old(lock.ns.nodes), lock.ns.nodes, |old(queue.pending)| + 1)
    {
      ghost var start, all, before := contadorLocal, queue.pending, lock.ns.nodes;
      ghost var i := 0;
      while true
        invariant Draining(start, all, i)
        invariant Framed(before, lock.ns.nodes, i)
        decreases |all| - i
      {
        ghost var mid := lock.ns.nodes;
        var done := DrainStep(start, all, i);
        FramedTrans(before, mid, lock.ns.nodes, i, 1);
        if done {
          break;
        }
        i := i + 1;
      }
    }
  }
}
