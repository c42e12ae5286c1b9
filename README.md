# Distributed voting over ZooKeeper-style primitives, in Dafny

This project models the core of a small distributed voting system written in
Java on top of Apache ZooKeeper. It proves properties of that model.

The system has four coordination primitives, each built from child nodes
under a root path:

- **VotingLock.** Each contender creates a sequential `lock-` child. The
  contender whose child sorts first holds the lock. Every other contender
  watches the child sorted just before its own.
- **VotingLeaderElection.** Each candidate creates a sequential `candidate-`
  child that holds its id. The first candidate in sort order becomes leader
  and writes its id into the leader node.
- **VotingQueue.** Votes are sequential `voto-` children. A consumer reads
  and deletes the least of them. `resultado-` children carry announcements.
- **VotingBarrier.** A participant enters by creating a child named after
  itself. It may go on once the root has `size` children. It leaves by
  deleting its child, then waits until the root is empty.

On top of these sit the application programs:

- **SistemaVotacao** drains the vote queue under the lock into a local tally
  (`Map<String, Integer>`). It serialises tallies as `A=3;B=1`, parses them
  back, merges them, and prints the total and the winner.
- **VotacaoDistribuida** is a stand-alone demonstration. It tallies an array
  of votes and computes the same total and winner.

## How the model is built

- **The namespace.** The coordination service is the class
  `Coordination.Namespace`. It holds a map from top-level path to `Znode`:
  a payload, a map from child name to child payload, and the counter for
  the next sequential child.
- **Its operations.** Each service call the primitives make is a method on
  that class: `exists`, `getChildren`, `getData`, `create`, sequential
  `create`, `setData` and `delete`. An error is a
  `Failure(NoNode | NodeExists | NotEmpty)` result, which the callers
  propagate as the Java code propagates `KeeperException`.
- **Sequential names.** A sequential name is the prefix followed by the
  parent's counter, padded to ten digits. Two facts about the service are
  taken as the invariant `Namespace.Valid()`:
  - every child name ends in ten digits;
  - the value of those digits is below the parent's counter.

  `Coordination.SequentialOrder` proves that names with one prefix sort by
  their counters under Java's `String.compareTo` (`JavaStrings.Less`).
  The FIFO order of the queue (`Queue.NewestVote`) rests on that lemma. The
  lock and the election decide by plain string order over whatever children
  are listed.
- **Listings.** A listing returned by `getChildren`, and the iteration
  order of a `HashMap`, are modelled as "some sequence that lists every key
  exactly once" (`JavaStrings.IsListing`). Results that depend on that
  order are stated relative to it.
- **Blocking waits.** A wait (`mutex.wait()` until a watch fires) is
  modelled by the check it repeats:
  - `LockStatus.Waiting(pred)` and `Gate.Blocked` mean "the Java method
    would now block";
  - `Held` and `Open` mean it returns now;
  - re-checks that happen at once are modelled as real recursive calls.
- **The shapes follow the source.**
  - The primitives are classes with the source's fields (`currentPath`,
    `isLeader`).
  - Their loops are `while` loops with invariants, and their decisions are
    proved against specification functions and predicates. Examples are
    `Contenders.TurnAt`, `Contenders.IsLeast`, `Contenders.IsPredecessor`,
    `Tally.Render`, `Tally.ParseCounts`, `Tally.Total` and
    `Tally.IsWinner`.
  - The queue carries ghost fields `items` and `pending`: its queued vote
    nodes in creation order, and their payloads. The FIFO property is
    proved over them.

### Where the model follows the code rather than the intended design

- **No prefix filter.** `checkLock` and `checkLeadership` sort and search
  all children of the root. The comments say that only lock or candidate
  nodes are meant to count. `Lock.Decides` and the ensures of
  `Election.VotingLeaderElection.CheckLeadership` are stated over all
  children.
- **`release`.** `VotingLock.release` does not catch `NoNode`. Releasing a
  path whose node is gone is an error, and `currentPath` is then kept.
- **`getCurrentLeader`.** It catches only `NoNodeException`. A payload that
  is not a number gives `NumberFormatException`, modelled as
  `Failure(NumberFormatException)`.
- **`checkLeadership` after a watch.** It answers `false` after
  `watchPreviousCandidate`, even when the re-check inside that call made
  this candidate leader. The contract of
  `Election.VotingLeaderElection.WatchPreviousCandidate` states the
  re-check's outcome: leader exactly when the own node is then the least
  child. In the model, the predecessor just listed by `checkLeadership`
  is still present when it is watched, so there the answer `false` comes
  with no change.
- **`resign`.** It deletes its own node without catching `NoNode`, so a
  vanished node makes it fail before the leader node is touched. Deleting
  the leader node tolerates `NoNode` only, so a leader node with children
  fails with `NotEmpty`.

## Model

| member | source | states |
|---|---|---|
| JavaStrings.SortKeepsListing | projeto_base/src/votacao/VotingLock.java:69-70 | sorting a listing of the children keeps exactly the same names, each once, and puts them in strictly increasing `compareTo` order |
| JavaStrings.IndexOf | projeto_base/src/votacao/VotingLock.java:75-76 | the position found is the first occurrence of the name; None exactly when the name is not listed |
| JavaStrings.LessTransitive | projeto_base/src/votacao/VotingQueue.java:82 | `compareTo(...) < 0` is transitive, which the least-vote scan relies on |
| JavaStrings.LessMeaning | projeto_base/src/votacao/VotingLock.java:70 | `compareTo` as documented: `a` sorts first exactly when it is a proper prefix of `b`, or at the first index where they differ its character is smaller |
| JavaStrings.LessTotal | projeto_base/src/votacao/VotingLock.java:70 | of two different strings, exactly one sorts before the other; no two strings sort before each other |
| Decimal.ParseInt | projeto_base/src/votacao/VotingLeaderElection.java:153 | `Integer.parseInt`: accepts only an optional sign followed by digits, with a value in 32-bit range; a string of digits, with or without a sign, is accepted exactly when its signed value fits in 32 bits, and yields that value |
| Decimal.ParseIntToString | projeto_base/src/votacao/VotingLeaderElection.java:150-156 | `Integer.parseInt(Integer.toString(i)) == i` for every 32-bit `i` |
| Coordination.SequentialName | projeto_base/src/votacao/VotingLock.java:59-60 | a sequential child's name is the prefix and ten digits whose value is the parent's counter |
| Coordination.SequentialOrder | projeto_base/src/votacao/VotingQueue.java:78-86 | of two sequential names with one prefix, the one created first sorts first in string order |
| Coordination.SequentialNameOf | projeto_base/src/votacao/VotingQueue.java:54-55 | a name made of a prefix and ten digits is the sequential name of its counter value |
| Coordination.ChildPath | projeto_base/src/votacao/VotingLock.java:73 | `currentPath.substring(root.length() + 1)` gives back the child name of a created path |
| Coordination.Namespace.Exists | projeto_base/src/votacao/VotingLeaderElection.java:108 | `exists` answers true exactly when the node is present |
| Coordination.Namespace.ExistsChild | projeto_base/src/votacao/VotingLock.java:99 | `exists` on a child path answers true exactly when the child is present |
| Coordination.Namespace.GetChildren | projeto_base/src/votacao/VotingLock.java:69 | `getChildren` lists every child once, in some order, and fails with NoNode for a missing parent |
| Coordination.Namespace.GetData | projeto_base/src/votacao/VotingLeaderElection.java:152 | `getData` returns the payload, or NoNode |
| Coordination.Namespace.GetChildData | projeto_base/src/votacao/VotingQueue.java:95 | `getData` on a child returns the child's payload, or NoNode |
| Coordination.Namespace.Create | projeto_base/src/votacao/VotingLeaderElection.java:110-111 | `create` adds an empty node holding the payload and fails with NodeExists when it is present; nothing else changes |
| Coordination.Namespace.CreateSequential | projeto_base/src/votacao/VotingQueue.java:54-55 | a sequential create adds exactly one child, named after the counter, which no child had; the counter grows by one; NoNode for a missing parent |
| Coordination.Namespace.SetData | projeto_base/src/votacao/VotingLeaderElection.java:113 | `setData` with version -1 overwrites the payload and keeps the children, or fails with NoNode |
| Coordination.Namespace.Delete | projeto_base/src/votacao/VotingLeaderElection.java:170 | `delete` removes a node without children; NoNode when it is absent, NotEmpty when it has children |
| Coordination.Namespace.DeleteChild | projeto_base/src/votacao/VotingLock.java:115 | `delete` of a child removes exactly that child, or fails with NoNode and changes nothing |
| Coordination.EnsureRoot | projeto_base/src/votacao/VotingLock.java:41-44 | the root is created empty when absent; an existing root and its children are untouched |
| Contenders.FindTurn | projeto_base/src/votacao/VotingLock.java:75-89 | the scan over the sorted children answers First, After(the entry before), or NotListed, as the position of the caller's node decides |
| Contenders.TurnMeaning | projeto_base/src/votacao/VotingLock.java:75-89 | First exactly when the caller's node is the least child; NotListed exactly when it is absent; After(p) only with p the immediate predecessor (smaller, nothing in between) |
| Contenders.AtMostOneLeast | projeto_base/src/votacao/VotingLock.java:75-80 | in one set of children at most one node is the least, so at most one contender's check answers "holds" |
| Lock.VotingLock.constructor | projeto_base/src/votacao/VotingLock.java:34-50 | the lock root is created only when absent, and existing children are untouched |
| Lock.VotingLock.Acquire | projeto_base/src/votacao/VotingLock.java:57-63 | exactly one new `lock-` child is added, its full path is recorded in `currentPath`, and the answer is the right decision for it among all children |
| Lock.VotingLock.CheckLock | projeto_base/src/votacao/VotingLock.java:68-90 | Held exactly when the own node is least of all children, Lost exactly when it is absent, and Waiting only on the immediate predecessor |
| Lock.VotingLock.WaitForLock | projeto_base/src/votacao/VotingLock.java:95-108 | a present predecessor means waiting on it; an absent one means checking again at once |
| Lock.VotingLock.Release | projeto_base/src/votacao/VotingLock.java:113-119 | with a path, exactly that child is deleted and the path cleared; without one, nothing changes; a vanished node is a NoNode error and the path is kept |
| Election.Publish | projeto_base/src/votacao/VotingLeaderElection.java:108-114 | the leader node ends up holding the payload whether it existed or not; every other node is unchanged |
| Election.PublishedLeader | projeto_base/src/votacao/VotingLeaderElection.java:150-156 | after a leader publishes its id, `getCurrentLeader` returns that id |
| Election.VotingLeaderElection.constructor | projeto_base/src/votacao/VotingLeaderElection.java:37-54 | the election root is created only when absent; not leader, no path |
| Election.VotingLeaderElection.Elect | projeto_base/src/votacao/VotingLeaderElection.java:61-70 | one new `candidate-` child holding the decimal id; true exactly when it is the least child, and then the id is published; otherwise the candidate watches exactly its immediate predecessor among the children |
| Election.VotingLeaderElection.CheckLeadership | projeto_base/src/votacao/VotingLeaderElection.java:75-98 | true exactly when the own node is least of all children, and then `isLeader` is set and the id published; otherwise false, nothing changes, and the node watched is exactly the immediate predecessor of the own node |
| Election.VotingLeaderElection.BecomeLeader | projeto_base/src/votacao/VotingLeaderElection.java:103-121 | `isLeader` becomes true and the leader node holds the decimal id, created or overwritten |
| Election.VotingLeaderElection.WatchPreviousCandidate | projeto_base/src/votacao/VotingLeaderElection.java:126-138 | a present predecessor changes nothing; an absent one leads to a re-check, whose `NoNode` (the root is gone) propagates and which otherwise which makes this candidate leader (and publishes its id) exactly when its node is then the least child, and otherwise changes nothing |
| Election.VotingLeaderElection.IsLeader | projeto_base/src/votacao/VotingLeaderElection.java:143-145 | answers the `isLeader` field |
| Election.VotingLeaderElection.GetCurrentLeader | projeto_base/src/votacao/VotingLeaderElection.java:150-157 | -1 without a leader node, the parsed 32-bit id otherwise, NumberFormatException for a payload that is not a number |
| Election.VotingLeaderElection.Resign | projeto_base/src/votacao/VotingLeaderElection.java:162-178 | the own node is deleted (NoNode propagates); a leader deletes the leader node, tolerating its absence, and stops being leader |
| Queue.NewestVote | projeto_base/src/votacao/VotingQueue.java:54-55 | a newly produced vote node sorts after every queued vote node |
| Queue.AppendVote | projeto_base/src/votacao/VotingQueue.java:52-57 | producing a vote appends it to the queue as its users see it |
| Queue.AppendOther | projeto_base/src/votacao/VotingQueue.java:131-133 | a `resultado-` node leaves the queue as it is |
| Queue.RemoveHead | projeto_base/src/votacao/VotingQueue.java:79-99 | the oldest vote node is the least one, and deleting it leaves the rest of the queue in order |
| Queue.LeastVote | projeto_base/src/votacao/VotingQueue.java:79-90 | the scan finds nothing exactly when no listed name starts with `voto-`, and otherwise finds the least such name |
| Queue.QueueOf | projeto_base/src/votacao/VotingQueue.java:30-45 | the vote nodes already under a root, sorted, form a queue in creation order with their payloads |
| Queue.VotingQueue.constructor | projeto_base/src/votacao/VotingQueue.java:30-45 | the queue root is created only when absent; votes already there stay queued, oldest first |
| Queue.VotingQueue.Produce | projeto_base/src/votacao/VotingQueue.java:52-62 | true exactly when the root exists, and then one new `voto-` child holds the vote and the vote joins the end of the queue |
| Queue.VotingQueue.Consume | projeto_base/src/votacao/VotingQueue.java:69-110 | null exactly when there is no `voto-` child; otherwise the payload of the least vote child, which is the oldest and is the only child deleted |
| Queue.VotingQueue.Size | projeto_base/src/votacao/VotingQueue.java:117-126 | the number of `voto-` children, which is the number of queued votes |
| Queue.VotingQueue.NotifyResult | projeto_base/src/votacao/VotingQueue.java:131-135 | one new `resultado-` child; the queued votes, and so `size` and `consume`, are unchanged |
| Queue.ProduceAll | projeto_base/src/votacao/SistemaVotacao.java:98-101 | producing a list of votes appends them to the queue in order; the root's counter rises by one per vote, and no other node, payload or non-vote child changes |
| Queue.ConsumeAll | projeto_base/src/votacao/VotingQueue.java:69-126 | consuming as many times as `size` reports returns every queued vote, oldest first, and empties the queue, which stays well formed; only vote nodes are deleted, so every other node and the `resultado-` children stay as they were |
| Queue.ProduceThenConsume | projeto_base/src/votacao/VotingQueue.java:52-110 | first in, first out: votes produced in order come back from consume in that order, after those queued before, and the queue stays well formed; nothing but the queue's vote nodes and counter changes |
| Queue.OthersAddVote | projeto_base/src/votacao/VotingQueue.java:52-62 | creating a `voto-` child changes only the queue root, and not its payload or its other children |
| Queue.OthersRemoveVote | projeto_base/src/votacao/VotingQueue.java:92-99 | deleting a `voto-` child changes only the queue root, and not its payload or its other children |
| Barrier.FirstWithPrefix | projeto_base/src/votacao/VotingBarrier.java:86-91 | the first listed child whose name starts with the prefix, or none |
| Barrier.OwnNodeExact | projeto_base/src/votacao/VotingBarrier.java:59-60 | a node created by `enter` has the exact shape of its own participant's node and of no other participant's |
| Barrier.PrefixMatchesOther | projeto_base/src/votacao/VotingBarrier.java:86-88 | `startsWith(name)` matches the node of a participant whose name extends this one's, and `leave` picks it when it is listed first |
| Barrier.FirstWithPrefixAt | projeto_base/src/votacao/VotingBarrier.java:86-91 | the scan of `leave` stops at the first name with the prefix, or runs past the end when there is none |
| Barrier.FirstOwn | projeto_base/src/votacao/VotingBarrier.java:86-91 | the first listed child of exactly this participant's shape, or none |
| Barrier.FirstOwnAt | projeto_base/src/votacao/VotingBarrier.java:86-91 | the corrected scan stops at the participant's first own node, or runs past the end when there is none |
| Barrier.VotingBarrier.constructor | projeto_base/src/votacao/VotingBarrier.java:33-50 | the barrier root is created only when absent, and existing children are untouched |
| Barrier.VotingBarrier.Enter | projeto_base/src/votacao/VotingBarrier.java:57-77 | exactly one new child named `name + "-"` and a counter; Open exactly when the unfiltered number of children is at least `size` |
| Barrier.VotingBarrier.CheckEnter | projeto_base/src/votacao/VotingBarrier.java:64-76 | Open exactly when the root has at least `size` children, whatever their names |
| Barrier.VotingBarrier.Leave | projeto_base/src/votacao/VotingBarrier.java:82-104 | deletes at most one child, the first listed one starting with `name`, and nothing else; Open exactly when the root is then empty |
| Barrier.VotingBarrier.LeaveOwn | projeto_base/src/votacao/VotingBarrier.java:82-104 | as `leave`, but deletes only a node of this participant's own shape |
| Barrier.VotingBarrier.CheckLeave | projeto_base/src/votacao/VotingBarrier.java:94-103 | Open exactly when the root has no children at all |
| Tally.AddVote | projeto_base/src/votacao/SistemaVotacao.java:149 | one more vote raises that candidate's count by exactly one and leaves every other count and key as it was |
| Tally.AddVotesCount | projeto_base/VotacaoDistribuida.java:96-102 | counting a list of votes raises each count by that candidate's number of votes; a key is present afterwards exactly when it was before or received a vote |
| Tally.TotalRemove | projeto_base/VotacaoDistribuida.java:122-126 | the sum of the counts does not depend on the order in which entries are added up |
| Tally.TotalAddVotes | projeto_base/src/votacao/SistemaVotacao.java:141-158 | every counted vote adds exactly one to the total |
| Tally.TotalMerged | projeto_base/src/votacao/SistemaVotacao.java:204-208 | merging two tallies adds their totals |
| Tally.MergedMeaning | projeto_base/src/votacao/SistemaVotacao.java:204-208 | the merged tally is exactly the one in which each count of `inc` is added to `base`'s count (0 if missing) and keys only in `base` keep theirs |
| Tally.WinnerStep | projeto_base/src/votacao/SistemaVotacao.java:220-223 | visiting one more entry either keeps the winner or, on a strictly larger count, makes that entry the winner |
| Tally.Split | projeto_base/src/votacao/SistemaVotacao.java:249 | the pieces join back to the text, and no piece holds the separator |
| Tally.SplitJoin | projeto_base/src/votacao/SistemaVotacao.java:238-249 | splitting a `;`-joined text gives back the parts when none holds `;` |
| Tally.KeyValue | projeto_base/src/votacao/SistemaVotacao.java:251-252 | `split("=", 2)` gives two pieces exactly when the part holds `=`, the key before the first `=` and the rest after it |
| Tally.KeyValueAt | projeto_base/src/votacao/SistemaVotacao.java:251-252 | a part whose key holds no `=` splits at the `=` right after the key |
| Tally.EntryPair | projeto_base/src/votacao/SistemaVotacao.java:239 | an entry `k=v` holds no `;` and parses back to `(k, v)` |
| Tally.PartSkipped | projeto_base/src/votacao/SistemaVotacao.java:249-255 | empty parts, parts without `=` and parts whose count does not parse are skipped and leave the tally as it is |
| Tally.ParsePartsAbsent | projeto_base/src/votacao/SistemaVotacao.java:249-257 | a key that no part gives is absent from the parsed tally |
| Tally.ParsePartsLast | projeto_base/src/votacao/SistemaVotacao.java:249-257 | for a repeated key, the last part that gives it decides its count |
| Tally.ParsePartsPrefix | projeto_base/src/votacao/SistemaVotacao.java:249-257 | one more part puts its pair, if it has one, over the tally read so far, and otherwise leaves that tally as it is |
| Tally.ParsePairs | projeto_base/src/votacao/SistemaVotacao.java:249-257 | parts that each give a key of the tally and its count parse to exactly those keys, with those counts |
| Tally.RenderNonEmpty | projeto_base/src/votacao/SistemaVotacao.java:236-241 | a tally with an entry serialises to a non-empty text |
| Tally.RoundTrip | projeto_base/src/votacao/SistemaVotacao.java:235-258 | `deserializeContagem(serializeContagem(m)) == m` for every tally whose keys hold neither `;` nor `=`, in whatever order the map is iterated |
| Sistema.RenderSnoc | projeto_base/src/votacao/SistemaVotacao.java:237-240 | each further entry is written after a `;`, the first without one |
| Sistema.SerializeContagem | projeto_base/src/votacao/SistemaVotacao.java:235-242 | the text is the entries `k=v` in iteration order joined by `;`, with no leading or trailing separator, and empty exactly for the empty map |
| Sistema.DeserializeContagem | projeto_base/src/votacao/SistemaVotacao.java:245-259 | the parsed tally of the text; null or empty data gives the empty map |
| Sistema.Somar | projeto_base/src/votacao/SistemaVotacao.java:204-208 | each key of `inc` gets `base`'s count (0 if missing) plus its own; keys only in `base` keep their counts; no other key appears |
| Sistema.ImprimirResultado | projeto_base/src/votacao/SistemaVotacao.java:210-232 | the total is the sum of all counts; the winner is null exactly when no count is above 0, and otherwise has a count at least every count and above every count met before it |
| Sistema.SistemaVotacao.TakeLock | projeto_base/src/votacao/SistemaVotacao.java:142 | with no other contender, `acquire` is granted at once and the namespace gains exactly this node's lock node under the lock root |
| Sistema.SistemaVotacao.CountOne | projeto_base/src/votacao/SistemaVotacao.java:144-149 | a null vote ends the loop and changes no node; otherwise the oldest queued vote is counted once, and its node is the only node deleted |
| Sistema.SistemaVotacao.DropLock | projeto_base/src/votacao/SistemaVotacao.java:152-154 | the `finally` release deletes exactly this node's lock node, which leaves the lock root empty again |
| Sistema.SistemaVotacao.Turn | projeto_base/src/votacao/SistemaVotacao.java:141-158 | one turn consumes and counts the oldest vote, or reports that the queue is empty; the lock root ends as it began except for its counter, the queue root loses at most that vote node, and no other node changes |
| Sistema.SistemaVotacao.TurnFrame | projeto_base/src/votacao/SistemaVotacao.java:141-158 | creating and deleting the lock node, with at most one vote node deleted in between, changes only the lock root's counter and the queue's vote nodes |
| Sistema.SistemaVotacao.DrainStep | projeto_base/src/votacao/SistemaVotacao.java:141-158 | one pass of the loop either finds the queue empty with every queued vote counted, or counts exactly one more queued vote; either way, only the lock root's counter and the queue's vote nodes change |
| Sistema.SistemaVotacao.ProcessarVotos | projeto_base/src/votacao/SistemaVotacao.java:138-162 | the loop ends only when the queue is empty, and every queued vote has then been counted exactly once; the lock root ends empty with its counter raised by one per turn, the queue root keeps its payload and its non-vote children, and every other node (the election and barrier roots among them) is unchanged |
| Demo.VotacaoDistribuida.ProcessarVotos | projeto_base/VotacaoDistribuida.java:93-112 | each count grows by the number of occurrences of its candidate in the array; keys without votes are unchanged |
| Demo.VotacaoDistribuida.CompilarResultadoFinal | projeto_base/VotacaoDistribuida.java:117-147 | `totalVotos` is the sum of all counts; `vencedor` is null exactly when no count is above 0, and otherwise has a count at least every count and above every count met before it |

## Left out

- The ZooKeeper client itself is replaced by the in-memory `Namespace`. Left out with it:
  - connecting and sessions, including `connectZk` and its latch;
  - ACLs;
  - the automatic deletion of ephemeral nodes when a session ends.
- Watches and `wait`/`notifyAll` are concurrency. Each wait is modelled by the check it repeats: the status results `Waiting`/`Blocked`. No interleaving with other clients is modelled.
- Each service call is an atomic step. So the race handled by the retry in `consume` (another consumer deletes the chosen node first) cannot arise, and that retry branch is not modelled.
- The `else` branch of `processarVotos`, where `acquire` answers false and the node sleeps, is not modelled.
- Sistema.SistemaVotacao.ProcessarVotos: requires this node to be the only actor on the lock root, which starts empty, so every `acquire` is granted at once. Several contenders interleaving are not modelled.
- Sistema.SistemaVotacao.ProcessarVotos: requires that the lock root's counter can still number one lock node per queued vote, plus one (it stays below 2^31).
- `VotingLock.tryAcquire` is left out: it depends on the wall clock and on `Thread.sleep`.
- Left out, as input/output, timing and randomness:
  - all console output;
  - `Thread.sleep`;
  - both `main` methods;
  - `Random` and `Math.random`, which choose node ids and roles.
- The role logic of `executarComoLider`, `executarComoParticipante` and `executarVotacao` in both programs is left out.
- `publicarContagemLocal`, `compilarResultadoFinal` and `ensurePath` of SistemaVotacao are left out. They only read and write nodes around the modelled serialiser, parser and merge.
- The barrier's `name` (the current time and thread id) is a parameter: any string, though the source's names never contain `/`. A `name` with `/` would make the service's `create` fail with `NoNode` (the nested parent does not exist); in the flat model it makes an ordinary child, so that failure is not modelled.
- Byte and charset conversion (`getBytes`, `new String(data)`, UTF-8) is not modelled. Payloads are strings.
- Tally.Split: Java's `split(";")` also drops trailing empty pieces. The parser skips empty pieces, so the parsed tally is the same.
- Tally.AddVote: counts are unbounded integers. Java's `int` wrap-around after 2^31 - 1 votes for one candidate is not modelled.
- Sistema.ImprimirResultado: the total is an unbounded sum. Java's `int` overflow of `total` is not modelled.
- Demo.VotacaoDistribuida.CompilarResultadoFinal: `totalVotos` is an unbounded sum. The two passes over the entries may meet the entries in different orders in the model, whereas Java's `HashMap` gives the same order twice. The winner is stated relative to the order of the second pass.
- Coordination.Namespace.CreateSequential: requires the parent's counter to be at most 2^31 - 1. Wrap-around of the service's counter to negative values is not modelled.
- Queue.VotingQueue.constructor: requires every `voto-` child already under an existing root to be as long as a sequential vote name. This is an assumption that only the queue creates such children.
- Election.VotingLeaderElection.BecomeLeader: the `KeeperException` it catches could come only from a race with another client, so it cannot arise here.
- Decimal.ParseInt: accepts ASCII digits only. Java's `Integer.parseInt` also accepts other Unicode decimal digits (`Character.digit`).
- JavaStrings.Less: orders Unicode scalar values, whereas Java's `compareTo` orders UTF-16 code units. The orders differ when a character above U+FFFF meets one in U+E000..U+FFFF at the first difference: `Less("\uFFFF", "\U{10000}")` holds, the reverse of Java's order. The node names compared here are ASCII.
- Sistema.Somar: the sums are unbounded integers. Java's `int` overflow of `base.getOrDefault(...) + e.getValue()` (projeto_base/src/votacao/SistemaVotacao.java:206) is not modelled.
- The namespace is flat: top-level paths, each with one level of children. ZooKeeper would list a leader node nested under the election root among the candidates; the model cannot express that placement, so the leader node is a top-level path and never one of the candidates.
- Lock.VotingLock.WaitForLock: when the predecessor is present, the model answers `Waiting(pred)` instead of blocking and checking again after the watch fires.

## Findings

| source | as written | input that shows it | evidently intended | confidence | as-written member | corrected member |
|---|---|---|---|---|---|---|
| projeto_base/src/votacao/VotingBarrier.java:86-88 | `leave` deletes the first child whose name starts with the bare participant name | participants named `1700000000000-1` and `1700000000000-12` (same millisecond, threads 1 and 12); the second's node `1700000000000-12-0000000000` is listed first and is deleted by the first participant's `leave` | delete only this participant's own node: its name, `-`, and the ten-digit counter | medium, not executed | Barrier.PrefixMatchesOther, Barrier.VotingBarrier.Leave | Barrier.VotingBarrier.LeaveOwn, Barrier.OwnNodeExact |
