/**
 * Vote counts (`Map<String, Integer>` keyed by candidate) and what the
 * voting programs compute from them: one more vote, a merge of two tallies,
 * the total and the winner, and the "A=3;B=1" text that carries a tally
 * through a node payload. HashMap iteration order is not specified, so every
 * definition that depends on it takes the order as a parameter.
 */
module Tally {
  import opened Wrappers
  import opened JavaStrings
  import opened Decimal

  type Counts = map<string, int>

  /** `getOrDefault(k, 0)` */
  function Get(m: Counts, k: string): int
  {
    if k in m then m[k] else 0
  }

  /** `put(v, getOrDefault(v, 0) + 1)`: one more vote for `v`. */
  function AddVote(m: Counts, v: string): (r: Counts)
    ensures r.Keys == m.Keys + {v}
    ensures forall k :: Get(r, k) == Get(m, k) + (if k == v then 1 else 0)
  {
    m[v := Get(m, v) + 1]
  }

  /** The tally after counting the votes `vs` one after another. */
  function AddVotes(m: Counts, vs: seq<string>): Counts
  {
    if vs == [] then m else AddVote(AddVotes(m, vs[..|vs| - 1]), vs[|vs| - 1])
  }

  /** Counting one more vote after `vs`. */
  lemma AddVotesSnoc(m: Counts, vs: seq<string>, v: string)
    ensures AddVotes(m, vs + [v]) == AddVote(AddVotes(m, vs), v)
  {
    assert (vs + [v])[..|vs|] == vs;
  }

  /** Counting `vs` raises each candidate's count by its number of votes in
      `vs`; a candidate without votes keeps its entry, or its absence. */
  lemma {:induction false} AddVotesCount(m: Counts, vs: seq<string>, k: string)
    ensures Get(AddVotes(m, vs), k) == Get(m, k) + multiset(vs)[k]
    ensures k in AddVotes(m, vs) <==> k in m || k in vs
  {
    if vs != [] {
      var init := vs[..|vs| - 1];
      AddVotesCount(m, init, k);
      assert vs == init + [vs[|vs| - 1]];
    }
  }

  /** The sum of all counts; it does not depend on the order of the entries. */
  ghost function Total(m: Counts): int
    decreases |m|
  {
    if m == map[] then 0
    else
      var k :| k in m;
      m[k] + Total(m - {k})
  }

  /** Any entry can be taken out of the sum first. */
  lemma {:induction false} TotalRemove(m: Counts, k: string)
    requires k in m
    ensures Total(m) == m[k] + Total(m - {k})
    decreases |m|
  {
    var j :| j in m && Total(m) == m[j] + Total(m - {j});
    if j != k {
      TotalRemove(m - {j}, k);
      TotalRemove(m - {k}, j);
      assert m - {j} - {k} == m - {k} - {j};
    }
  }

  /** Setting one count changes the sum by the difference. */
  lemma TotalUpdate(m: Counts, k: string, x: int)
    ensures Total(m[k := x]) == Total(m) - Get(m, k) + x
  {
    TotalRemove(m[k := x], k);
    if k in m {
      TotalRemove(m, k);
      assert m[k := x] - {k} == m - {k};
    } else {
      assert m[k := x] - {k} == m;
    }
  }

  /** Every counted vote adds exactly one to the total. */
  lemma {:induction false} TotalAddVotes(m: Counts, vs: seq<string>)
    ensures Total(AddVotes(m, vs)) == Total(m) + |vs|
  {
    if vs != [] {
      var init := vs[..|vs| - 1];
      TotalAddVotes(m, init);
      var before := AddVotes(m, init);
      TotalUpdate(before, vs[|vs| - 1], Get(before, vs[|vs| - 1]) + 1);
    }
  }

  /** What `somar(base, inc)` leaves in `base`: each count of `inc` is added
      to the count in `base`, missing counts being 0. */
  function Merged(base: Counts, inc: Counts): Counts
  {
    map k | k in base.Keys + inc.Keys :: Get(base, k) + Get(inc, k)
  }

  /** Merging tallies adds their totals. */
  lemma {:induction false} TotalMerged(base: Counts, inc: Counts)
    ensures Total(Merged(base, inc)) == Total(base) + Total(inc)
    decreases |inc|
  {
    if inc == map[] {
      MergedNone(base);
    } else {
      var k :| k in inc;
      TotalMerged(base, inc - {k});
      TotalMergedStep(base, inc, k);
      TotalRemove(inc, k);
    }
  }

  /** One more entry of `inc` adds its count to the merged total. */
  lemma TotalMergedStep(base: Counts, inc: Counts, k: string)
    requires k in inc
    ensures Total(Merged(base, inc)) == Total(Merged(base, inc - {k})) + inc[k]
  {
    var before, x := Merged(base, inc - {k}), Get(base, k) + inc[k];
    MergedStep(base, inc, k);
    TotalUpdate(before, k, x);
  }

  lemma MergedNone(base: Counts)
    ensures Merged(base, map[]) == base
  {
    assert forall k :: k in base ==> Merged(base, map[])[k] == base[k];
  }

  lemma MergedStep(base: Counts, inc: Counts, k: string)
    requires k in inc
    ensures Get(Merged(base, inc - {k}), k) == Get(base, k)
    ensures Merged(base, inc) == Merged(base, inc - {k})[k := Get(base, k) + inc[k]]
  {
    var rest := inc - {k};
    var left, right := Merged(base, inc), Merged(base, rest)[k := Get(base, k) + inc[k]];
    assert left.Keys == right.Keys;
    forall j | j in left.Keys ensures left[j] == right[j] {
      if j != k {
        assert Get(inc, j) == Get(rest, j);
      }
    }
  }

  /** `Merged` is the one tally that adds every count of `inc` to the
      count of `base` and keeps the counts of keys only in `base`. */
  lemma MergedMeaning(base: Counts, inc: Counts, r: Counts)
    ensures r == Merged(base, inc) <==>
      && r.Keys == base.Keys + inc.Keys
      && (forall k :: k in inc ==> r[k] == Get(base, k) + inc[k])
      && (forall k :: k in base && k !in inc ==> r[k] == base[k])
  {
    var merged := Merged(base, inc);
    if r.Keys == base.Keys + inc.Keys
      && (forall k :: k in inc ==> r[k] == Get(base, k) + inc[k])
      && (forall k :: k in base && k !in inc ==> r[k] == base[k])
    {
      assert forall k :: k in r ==> r[k] == merged[k];
    }
  }

  /** The loop of the summary has visited the keys `order`: `winner` is the
      first of them with a count above every count before it and above 0,
      and `max` its count (0 when there is none). */
  ghost predicate IsWinner(m: Counts, order: seq<string>, winner: Option<string>, max: int, at: nat)
  {
    && (winner.None? <==> forall k :: k in order ==> Get(m, k) <= 0)
    && (winner.None? ==> max == 0)
    && (winner.Some? ==>
         && at < |order| && order[at] == winner.value && Get(m, winner.value) == max && max > 0
         && (forall k :: k in order ==> Get(m, k) <= max)
         && (forall i :: 0 <= i < at ==> Get(m, order[i]) < max))
  }

  /** Visiting one more key keeps the winner or makes that key the winner. */
  lemma WinnerStep(m: Counts, order: seq<string>, winner: Option<string>, max: int, at: nat, k: string)
    requires IsWinner(m, order, winner, max, at)
    ensures Get(m, k) > max ==> IsWinner(m, order + [k], Some(k), Get(m, k), |order|)
    ensures Get(m, k) <= max ==> IsWinner(m, order + [k], winner, max, at)
  {
    var next := order + [k];
    assert forall c :: c in next <==> c in order || c == k;
    if Get(m, k) > max {
      forall i | 0 <= i < |order| ensures Get(m, next[i]) < Get(m, k) {
        assert next[i] in order;
      }
    } else if winner.Some? {
      forall i | 0 <= i < at ensures Get(m, next[i]) < max {
        assert next[i] == order[i];
      }
    }
  }

  /** One entry of the serialised tally: key, '=', decimal count. */
  function Entry(k: string, v: int): string
  {
    k + "=" + IntToString(v)
  }

  /** The entries of `m`, in the order `order`. */
  function Entries(m: Counts, order: seq<string>): (r: seq<string>)
    requires forall k :: k in order ==> k in m
    ensures |r| == |order|
    ensures forall i :: 0 <= i < |order| ==> r[i] == Entry(order[i], m[order[i]])
  {
    seq(|order|, i requires 0 <= i < |order| => Entry(order[i], m[order[i]]))
  }

  /** The parts with `sep` between consecutive ones, none before the first
      and none after the last. */
  function Join(parts: seq<string>, sep: char): string
  {
    if parts == [] then ""
    else if |parts| == 1 then parts[0]
    else Join(parts[..|parts| - 1], sep) + [sep] + parts[|parts| - 1]
  }

  /** The text serializeContagem builds for `m` when the HashMap gives its
      keys in the order `order`. */
  function Render(m: Counts, order: seq<string>): string
    requires forall k :: k in order ==> k in m
  {
    Join(Entries(m, order), ';')
  }

  /** The position of the first `c` in `s`. */
  function FirstIndex(s: string, c: char): (i: nat)
    requires c in s
    ensures i < |s| && s[i] == c && c !in s[..i]
  {
    if s[0] == c then 0
    else
      var i := FirstIndex(s[1..], c);
      assert s[..i + 1] == [s[0]] + s[1..][..i];
      i + 1
  }

  /** The position of the last `c` in `s`. */
  function LastIndex(s: string, c: char): (i: nat)
    requires c in s
    ensures i < |s| && s[i] == c && c !in s[i + 1..]
  {
    if s[|s| - 1] == c then |s| - 1
    else
      var init := s[..|s| - 1];
      var i := LastIndex(init, c);
      assert s[i + 1..] == init[i + 1..] + [s[|s| - 1]];
      i
  }

  /** The pieces of `s` between occurrences of `sep`, empty pieces included.
      Java's `split` also drops trailing empty pieces; the parse below skips
      empty pieces, so the parsed tally is the same. */
  function Split(s: string, sep: char): (parts: seq<string>)
    ensures |parts| > 0 && Join(parts, sep) == s
    ensures forall i :: 0 <= i < |parts| ==> sep !in parts[i]
    decreases |s|
  {
    if sep !in s then [s]
    else
      var i := LastIndex(s, sep);
      var init := Split(s[..i], sep);
      var parts := init + [s[i + 1..]];
      assert parts[..|parts| - 1] == init;
      assert s == s[..i] + [sep] + s[i + 1..];
      parts
  }

  /** Splitting a joined text gives the parts back when no part holds the separator. */
  lemma {:induction false} SplitJoin(parts: seq<string>, sep: char)
    requires |parts| > 0 && forall i :: 0 <= i < |parts| ==> sep !in parts[i]
    ensures Split(Join(parts, sep), sep) == parts
  {
    if |parts| > 1 {
      var init := parts[..|parts| - 1];
      var last := parts[|parts| - 1];
      var s := Join(parts, sep);
      SplitJoin(init, sep);
      assert s == Join(init, sep) + [sep] + last;
      assert s[|Join(init, sep)|] == sep;
      var i := LastIndex(s, sep);
      assert i == |Join(init, sep)|;
      assert s[..i] == Join(init, sep);
      assert s[i + 1..] == last;
    }
  }

  /** `part.split("=", 2)` when it gives two pieces: the text before the first
      '=' and everything after it; None when there is no '='. */
  function KeyValue(part: string): (r: Option<(string, string)>)
    ensures r.None? <==> '=' !in part
    ensures r.Some? ==> '=' !in r.value.0 && part == r.value.0 + "=" + r.value.1
  {
    if '=' !in part then None
    else
      var i := FirstIndex(part, '=');
      assert part == part[..i] + "=" + part[i + 1..];
      Some((part[..i], part[i + 1..]))
  }

  /** The pair one part contributes: none for an empty part, a part without
      '=', or a count that `Integer.parseInt` rejects. */
  function PartPair(part: string): Option<(string, int)>
  {
    if part == "" then None
    else match KeyValue(part)
      case None => None
      case Some((k, v)) =>
        match ParseInt(v)
        case None => None
        case Some(n) => Some((k, n))
  }

  /** The tally read from `parts`, front to back, a later count for a key
      replacing an earlier one. */
  function ParseParts(parts: seq<string>): Counts
  {
    if parts == [] then map[]
    else
      var m := ParseParts(parts[..|parts| - 1]);
      match PartPair(parts[|parts| - 1])
      case None => m
      case Some((k, n)) => m[k := n]
  }

  /** The tally read from one more part of `parts`: that part's pair, if
      any, is put over the tally read so far. */
  lemma ParsePartsPrefix(parts: seq<string>, i: nat)
    requires i < |parts|
    ensures ParseParts(parts[..i + 1]) ==
      if PartPair(parts[i]).Some? then ParseParts(parts[..i])[PartPair(parts[i]).value.0 := PartPair(parts[i]).value.1]
      else ParseParts(parts[..i])
  {
    assert parts[..i + 1][..i] == parts[..i];
  }

  /** What deserializeContagem returns for a payload (None for null). */
  function ParseCounts(data: Option<string>): Counts
  {
    if data.None? || data.value == "" then map[] else ParseParts(Split(data.value, ';'))
  }

  /** An empty part, a part without '=', and a part whose count does not
      parse are skipped: the tally read so far stays as it is. */
  lemma PartSkipped(parts: seq<string>, part: string)
    requires part == "" || '=' !in part || ParseInt(part[FirstIndex(part, '=') + 1..]).None?
    ensures PartPair(part).None?
    ensures ParseParts(parts + [part]) == ParseParts(parts)
  {
    assert (parts + [part])[..|parts|] == parts;
  }

  /** A key that no part gives is absent from the parsed tally. */
  lemma {:induction false} ParsePartsAbsent(parts: seq<string>, k: string)
    requires forall j :: 0 <= j < |parts| ==> PartPair(parts[j]).None? || PartPair(parts[j]).value.0 != k
    ensures k !in ParseParts(parts)
  {
    if parts != [] {
      ParsePartsAbsent(parts[..|parts| - 1], k);
    }
  }

  /** The last part that gives a key decides its count. */
  lemma {:induction false} ParsePartsLast(parts: seq<string>, i: nat, k: string, n: int)
    requires i < |parts| && PartPair(parts[i]) == Some((k, n))
    requires forall j :: i < j < |parts| ==> PartPair(parts[j]).None? || PartPair(parts[j]).value.0 != k
    ensures k in ParseParts(parts) && ParseParts(parts)[k] == n
  {
    if i < |parts| - 1 {
      ParsePartsLast(parts[..|parts| - 1], i, k, n);
    }
  }

  /** The keys a round trip can carry. */
  ghost predicate Serialisable(m: Counts)
  {
    forall k :: k in m ==> ';' !in k && '=' !in k && IsInt32(m[k])
  }

  /** A part whose key holds no '=' splits at the '=' after the key. */
  lemma KeyValueAt(k: string, v: string)
    requires '=' !in k
    ensures KeyValue(k + "=" + v) == Some((k, v))
  {
    var e := k + "=" + v;
    assert e[|k|] == '=';
    assert e[..|k|] == k && e[|k| + 1..] == v;
  }

  /** An entry holds no ';' and parses back to its key and count. */
  lemma EntryPair(k: string, v: int)
    requires ';' !in k && '=' !in k && IsInt32(v)
    ensures ';' !in Entry(k, v)
    ensures PartPair(Entry(k, v)) == Some((k, v))
  {
    KeyValueAt(k, IntToString(v));
    ParseIntToString(v);
    assert forall c :: c in IntToString(v) ==> c != ';';
  }

  /** Parsing parts that each give a key of `m` and its count gives exactly
      those keys, with their counts. */
  lemma {:induction false} ParsePairs(parts: seq<string>, m: Counts, order: seq<string>)
    requires |parts| == |order| && (forall k :: k in order ==> k in m)
    requires forall i :: 0 <= i < |parts| ==> PartPair(parts[i]) == Some((order[i], m[order[i]]))
    ensures ParseParts(parts).Keys == Elements(order)
    ensures forall k :: k in order ==> ParseParts(parts)[k] == m[k]
  {
    if order != [] {
      var n := |order| - 1;
      var front, init := parts[..n], order[..n];
      assert forall i :: 0 <= i < n ==> front[i] == parts[i] && init[i] == order[i];
      ParsePairs(front, m, init);
      ParsePartsSnoc(parts, order[n], m[order[n]]);
      ExtendPairs(ParseParts(front), m, order);
    }
  }

  /** A tally holding the counts of `m` for all keys of `order` but the last
      one, extended by that last key and its count. */
  lemma ExtendPairs(before: Counts, m: Counts, order: seq<string>)
    requires |order| > 0 && (forall k :: k in order ==> k in m)
    requires before.Keys == Elements(order[..|order| - 1])
    requires forall k :: k in order[..|order| - 1] ==> before[k] == m[k]
    ensures var last := order[|order| - 1];
      && before[last := m[last]].Keys == Elements(order)
      && forall k :: k in order ==> before[last := m[last]][k] == m[k]
  {
    var n := |order| - 1;
    var init := order[..n];
    assert Elements(order) == Elements(init) + {order[n]} by {
      assert order == init + [order[n]];
    }
    forall k | k in order && k != order[n] ensures k in init {
      var j :| 0 <= j < |order| && order[j] == k;
      assert init[j] == k;
    }
  }

  /** The last part that gives a pair decides the count of its key. */
  lemma ParsePartsSnoc(parts: seq<string>, k: string, n: int)
    requires parts != [] && PartPair(parts[|parts| - 1]) == Some((k, n))
    ensures ParseParts(parts) == ParseParts(parts[..|parts| - 1])[k := n]
  {
  }

  /** deserializeContagem reads back what serializeContagem wrote, for every
      tally whose keys hold neither ';' nor '=', whatever the order. */
  lemma RoundTrip(m: Counts, order: seq<string>)
    requires IsListing(order, m.Keys) && Serialisable(m)
    ensures ParseCounts(Some(Render(m, order))) == m
  {
    if order == [] {
      assert m.Keys == {};
    } else {
      var entries := Entries(m, order);
      EntriesParse(m, order);
      SplitJoin(entries, ';');
      RenderNonEmpty(m, order);
      ParsePairs(entries, m, order);
    }
  }

  /** Each entry is free of ';' and parses back to its key and count. */
  lemma EntriesParse(m: Counts, order: seq<string>)
    requires (forall k :: k in order ==> k in m) && Serialisable(m)
    ensures forall i :: 0 <= i < |order| ==> ';' !in Entries(m, order)[i]
    ensures forall i :: 0 <= i < |order| ==> PartPair(Entries(m, order)[i]) == Some((order[i], m[order[i]]))
  {
    forall i | 0 <= i < |order|
      ensures ';' !in Entries(m, order)[i]
      ensures PartPair(Entries(m, order)[i]) == Some((order[i], m[order[i]]))
    {
      assert order[i] in order;
      EntryPair(order[i], m[order[i]]);
    }
  }

  /** A tally with at least one entry renders to a non-empty text. */
  lemma RenderNonEmpty(m: Counts, order: seq<string>)
    requires order != [] && forall k :: k in order ==> k in m
    ensures Render(m, order) != ""
  {
    var entries := Entries(m, order);
    var last := order[|order| - 1];
    assert entries[|entries| - 1][|last|] == '=';
  }
}
