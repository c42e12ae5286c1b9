/**
 * VotacaoDistribuida, the stand-alone demonstration: it counts an array of
 * votes into its local tally, then sums the tally and picks the winner in
 * two passes over the tally's entries.
 */
module Demo {
  import opened Wrappers
  import opened JavaStrings
  import opened Tally

  class VotacaoDistribuida {
    var contadorLocal: Counts

    constructor ()
      ensures contadorLocal == map[]
    {
      contadorLocal := map[];
    }

    /** `processarVotos(votos)`: one more vote per element, in array order;
        every count grows by its candidate's number of votes, and a
        candidate without votes keeps its entry, or its absence. */
    method ProcessarVotos(votos: seq<string>)
      modifies this
      ensures contadorLocal == AddVotes(old(contadorLocal), votos)
      ensures forall k :: Get(contadorLocal, k) == Get(old(contadorLocal), k) + multiset(votos)[k]
      ensures forall k :: k !in votos ==> (k in contadorLocal <==> k in old(contadorLocal))
    {
      for i := 0 to |votos|
        invariant contadorLocal == AddVotes(old(contadorLocal), votos[..i])
      {
        AddVotesSnoc(old(contadorLocal), votos[..i], votos[i]);
        assert votos[..i + 1] == votos[..i] + [votos[i]];
        contadorLocal := AddVote(contadorLocal, votos[i]);
      }
      assert votos[..|votos|] == votos;
      forall k | true
        ensures Get(contadorLocal, k) == Get(old(contadorLocal), k) + multiset(votos)[k]
        ensures k !in votos ==> (k in contadorLocal <==> k in old(contadorLocal))
      {
        AddVotesCount(old(contadorLocal), votos, k);
      }
    }

    /** `compilarResultadoFinal`: the first pass sums the counts; the second,
        over the entries in the order `order`, keeps the first entry whose
        count beats 0 and every count before it. */
    method CompilarResultadoFinal() returns (totalVotos: int, vencedor: Option<string>, maxVotos: int, ghost order: seq<string>, ghost at: nat)
      ensures totalVotos == Total(contadorLocal)
      ensures IsListing(order, contadorLocal.Keys)
      ensures IsWinner(contadorLocal, order, vencedor, maxVotos, at)
      ensures vencedor.None? <==> forall k :: k in contadorLocal ==> contadorLocal[k] <= 0
      ensures vencedor.Some? ==> vencedor.value in contadorLocal && contadorLocal[vencedor.value] == maxVotos
      ensures vencedor.Some? ==> forall k :: k in contadorLocal ==> contadorLocal[k] <= maxVotos
    {
      var m := contadorLocal;
      totalVotos := 0;
      var rest := m;
      while rest != map[]
        invariant forall j :: j in rest ==> j in m && rest[j] == m[j]
        invariant totalVotos + Total(rest) == Total(m)
        decreases |rest|
      {
        var k :| k in rest;
        TotalRemove(rest, k);
        totalVotos := totalVotos + rest[k];
        rest := rest - {k};
      }

      vencedor := None;
      maxVotos := 0;
      order := [];
      at := 0;
      var keys := m.Keys;
      while keys != {}
        invariant Distinct(order)
        invariant forall j :: j in order ==> j in m
        invariant forall j :: j in m ==> (j in keys <==> j !in order)
        invariant keys <= m.Keys
        invariant IsWinner(m, order, vencedor, maxVotos, at)
        decreases keys
      {
        var k :| k in keys;
        WinnerStep(m, order, vencedor, maxVotos, at, k);
        if m[k] > maxVotos {
          maxVotos := m[k];
          vencedor := Some(k);
          at := |order|;
        }
        order := order + [k];
        keys := keys - {k};
      }
      assert Elements(order) == m.Keys;
      assert forall k :: k in m <==> k in order;
    }
  }
}
