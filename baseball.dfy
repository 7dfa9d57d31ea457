/** Baseball elimination (Baseball/BaseballElimination.java): the standings
    of a division, the queries on them, and the elimination test, worked
    out at most once per team and kept. The maximum flow library is not
    part of this model: each query that may run the test takes the source
    side of the smallest minimum cut, which is what `FordFulkerson.inCut`
    answers, as a parameter. */
module BaseballElimination {
  import opened Wrappers
  import opened BaseballNetwork

  /** `createFlowNetwork(id, s, t)`: the edges of the network, in the order
      the source adds them. A negative capacity is refused by the flow
      edge, as `FlowEdge` does, with IllegalArgumentException. */
  method CreateFlowNetwork(st: Standings, id: int, s: int, t: int) returns (r: Result<seq<FlowEdge>>)
    requires WellFormed(st) && IsTeam(st, id)
    requires s == 0 && t == SinkNode(st)
    ensures r.Success? <==> NoNegativeGames(st, id) && TrivialPasses(st, id)
    ensures r.Failure? ==> r.error == IllegalArgument
    ensures r.Success? ==> r.value == Network(st, id)
  {
    var m := t - st.n;
    var network := AddGames(st, id, s, m);
    if network.None? {
      return Failure(IllegalArgument);
    }
    var sinks := AddSinkEdges(st, id, m, t, network.value);
    if sinks.None? {
      return Failure(IllegalArgument);
    }
    return Success(sinks.value);
  }

  /** The first loop of createFlowNetwork: the edges of the games between
      the other teams, or None when one of them has a negative count. */
  method AddGames(st: Standings, id: int, s: int, m: int) returns (r: Option<seq<FlowEdge>>)
    requires WellFormed(st) && IsTeam(st, id)
    ensures r.None? <==> !NoNegativeGames(st, id)
    ensures r.Some? ==> r.value == GameEdges(st, Pairs(st.n, id), s, m, Infinity(st, id))
  {
    var n := st.n;
    var inf := Infinity(st, id);
    var network: seq<FlowEdge> := [];
    var count := 0;
    for i := 0 to n
      invariant GamesNonNegative(st, PairsBefore(n, id, i))
      invariant count == |PairsBefore(n, id, i)|
      invariant network == GameEdges(st, PairsBefore(n, id, i), s, m, inf)
    {
      if i == id {
        SkipCandidate(n, id);
        continue;
      }
      var row := AddRowGames(st, id, i, s, m, inf, network, count);
      if row.None? {
        NegativeRow(st, id, i);
        return None;
      }
      network, count := row.value.0, row.value.1;
    }
    return Some(network);
  }

  /** No game left between team i and a team after it, before jEnd, is
      negative. */
  ghost predicate RowGamesNonNegative(st: Standings, id: int, i: int, jEnd: int)
    requires WellFormed(st) && IsTeam(st, i) && jEnd <= st.n
  {
    forall j :: i < j < jEnd && j != id ==> st.games[i][j] >= 0
  }

  lemma RowGamesStep(st: Standings, id: int, i: int, j: int)
    requires WellFormed(st) && IsTeam(st, i) && i < j < st.n && RowGamesNonNegative(st, id, i, j)
    requires j == id || st.games[i][j] >= 0
    ensures RowGamesNonNegative(st, id, i, j + 1)
  {
  }

  /** The inner loop of createFlowNetwork: the games of team i against the
      teams after it, or None when one of them is negative. */
  method AddRowGames(st: Standings, id: int, i: int, s: int, m: int, inf: int, network0: seq<FlowEdge>, count0: int)
    returns (r: Option<(seq<FlowEdge>, int)>)
    requires WellFormed(st) && IsTeam(st, id) && IsTeam(st, i) && i != id
    requires GamesNonNegative(st, PairsBefore(st.n, id, i))
    requires count0 == |PairsBefore(st.n, id, i)| && network0 == GameEdges(st, PairsBefore(st.n, id, i), s, m, inf)
    ensures r.None? <==> !RowGamesNonNegative(st, id, i, st.n)
    ensures r.Some? ==>
              && GamesNonNegative(st, PairsBefore(st.n, id, i + 1))
              && r.value.1 == |PairsBefore(st.n, id, i + 1)|
              && r.value.0 == GameEdges(st, PairsBefore(st.n, id, i + 1), s, m, inf)
  {
    var n := st.n;
    var network, count := network0, count0;
    ghost var before := PairsBefore(n, id, i);
    ghost var row: seq<(int, int)> := [];
    assert before + row == before;
    for j := i + 1 to n
      invariant row == RowPairs(n, id, i, j)
      invariant GamesNonNegative(st, before + row)
      invariant count == |before + row|
      invariant network == GameEdges(st, before + row, s, m, inf)
      invariant RowGamesNonNegative(st, id, i, j)
    {
      RowStep(n, id, i, j, before, row);
      if j == id {
        RowGamesStep(st, id, i, j);
        continue;
      }
      if st.games[i][j] < 0 {
        return None;
      }
      RowGamesStep(st, id, i, j);
      count := count + 1;
      network := network + GameTriple(st, (i, j), count, s, m, inf);
      GameEdgesSnoc(st, before + row, (i, j), s, m, inf);
      row := row + [(i, j)];
    }
    RowDone(n, id, i, before, row);
    return Some((network, count));
  }

  /** The second loop of createFlowNetwork: the edges to the sink, or None
      when a team has more wins than `id` can reach. */
  method AddSinkEdges(st: Standings, id: int, m: int, t: int, network0: seq<FlowEdge>) returns (r: Option<seq<FlowEdge>>)
    requires WellFormed(st) && IsTeam(st, id)
    ensures r.None? <==> !TrivialPasses(st, id)
    ensures r.Some? ==> r.value == network0 + SinkEdges(st, id, m, t, st.n)
  {
    var network := network0;
    for i := 0 to st.n
      invariant network == network0 + SinkEdges(st, id, m, t, i)
      invariant forall i' :: 0 <= i' < i && i' != id ==> st.wins[i'] <= MaxWins(st, id)
    {
      if i == id {
        continue;
      }
      var maxWin := st.wins[id] + st.remaining[id] - st.wins[i];
      if maxWin < 0 {
        return None;
      }
      network := network + [FlowEdge(m + i, t, maxWin)];
    }
    return Some(network);
  }

  lemma SkipCandidate(n: int, id: int)
    requires 0 <= id < n
    ensures PairsBefore(n, id, id + 1) == PairsBefore(n, id, id)
  {
    assert PairsBefore(n, id, id + 1) == PairsBefore(n, id, id) + [];
  }

  lemma RowStep(n: int, id: int, i: int, j: int, before: seq<(int, int)>, row: seq<(int, int)>)
    requires 0 <= i < j < n && row == RowPairs(n, id, i, j)
    ensures j == id ==> RowPairs(n, id, i, j + 1) == row
    ensures j != id ==> RowPairs(n, id, i, j + 1) == row + [(i, j)]
    ensures before + row + [(i, j)] == before + (row + [(i, j)])
  {
    assert RowPairs(n, id, i, j + 1) == row + (if j == id then [] else [(i, j)]);
  }

  lemma RowDone(n: int, id: int, i: int, before: seq<(int, int)>, row: seq<(int, int)>)
    requires 0 <= i < n && i != id && before == PairsBefore(n, id, i) && row == RowPairs(n, id, i, n)
    ensures before + row == PairsBefore(n, id, i + 1)
  {
  }

  lemma NegativeRow(st: Standings, id: int, i: int)
    requires WellFormed(st) && IsTeam(st, id) && IsTeam(st, i) && i != id
    requires !RowGamesNonNegative(st, id, i, st.n)
    ensures !NoNegativeGames(st, id)
  {
    var j :| i < j < st.n && j != id && st.games[i][j] < 0;
    NegativeGame(st, id, i, j);
  }

  lemma NegativeGame(st: Standings, id: int, i: int, j: int)
    requires WellFormed(st) && IsTeam(st, id) && 0 <= i < j < st.n && i != id && j != id
    requires st.games[i][j] < 0
    ensures !NoNegativeGames(st, id)
  {
    PairsMembers(st.n, id, (i, j));
    var k :| 0 <= k < |Pairs(st.n, id)| && Pairs(st.n, id)[k] == (i, j);
  }

  /** i is the first other team with more wins than `id` can reach. */
  ghost predicate FirstAbove(st: Standings, id: int, i: int)
    requires WellFormed(st) && IsTeam(st, id)
  {
    && IsTeam(st, i) && i != id && st.wins[i] > MaxWins(st, id)
    && forall i' :: 0 <= i' < i && i' != id ==> st.wins[i'] <= MaxWins(st, id)
  }

  /** The trivial test of `maxflow`: the first other team with more wins
      than `id` can reach, if any. */
  method TrivialElimination(st: Standings, id: int) returns (r: Option<int>)
    requires WellFormed(st) && IsTeam(st, id)
    ensures r.None? <==> TrivialPasses(st, id)
    ensures r.Some? ==> FirstAbove(st, id, r.value)
  {
    var maxWin := st.wins[id] + st.remaining[id];
    for i := 0 to st.n
      invariant forall i' :: 0 <= i' < i && i' != id ==> st.wins[i'] <= maxWin
    {
      if i == id {
        continue;
      }
      if st.wins[i] > maxWin {
        return Some(i);
      }
    }
    return None;
  }

  /** Whether some game node 1 .. m - 1 is on the source side of the cut. */
  method CutHasGame(m: int, inCut: set<int>) returns (r: bool)
    ensures r <==> exists v :: 1 <= v < m && v in inCut
  {
    var v := 1;
    while v < m
      invariant forall v' :: 1 <= v' < v ==> v' !in inCut
    {
      if v in inCut {
        return true;
      }
      v := v + 1;
    }
    return false;
  }

  /** The names of the teams in R. */
  function NamesOf(teamNames: map<int, string>, R: set<int>): set<string>
    requires forall i :: i in R ==> i in teamNames
  {
    set i | i in R :: teamNames[i]
  }

  /** What the cache holds, as values: a team is eliminated only once
      worked out, and then has a certificate; every certificate proves its
      team eliminated and names its teams; a team worked out and not
      eliminated, with no negative games left, is not eliminated. */
  ghost predicate Cache(st: Standings, teamNames: map<int, string>, cached: seq<bool>, eliminated: seq<bool>,
                        certificates: map<int, set<string>>, certificateTeams: map<int, set<int>>)
    requires WellFormed(st)
  {
    && |cached| == st.n && |eliminated| == st.n
    && certificates.Keys == certificateTeams.Keys
    && (forall id :: id in certificates ==>
          && 0 <= id < st.n && eliminated[id]
          && Certifies(st, id, certificateTeams[id])
          && (forall i :: i in certificateTeams[id] ==> i in teamNames)
          && certificates[id] == NamesOf(teamNames, certificateTeams[id]))
    && (forall id :: 0 <= id < st.n && eliminated[id] ==> cached[id] && id in certificates)
    && (forall id :: 0 <= id < st.n && cached[id] && !eliminated[id] && NoNegativeGames(st, id) ==>
          NotEliminated(st, id))
  }

  /** Storing a valid certificate for a team not yet worked out keeps the
      cache consistent. */
  lemma CacheEliminate(st: Standings, teamNames: map<int, string>, cached: seq<bool>, eliminated: seq<bool>,
                       certificates: map<int, set<string>>, certificateTeams: map<int, set<int>>, id: int, R: set<int>)
    requires WellFormed(st) && Cache(st, teamNames, cached, eliminated, certificates, certificateTeams)
    requires IsTeam(st, id) && !cached[id] && Certifies(st, id, R) && forall i :: i in R ==> i in teamNames
    ensures Cache(st, teamNames, cached[id := true], eliminated[id := true],
                  certificates[id := NamesOf(teamNames, R)], certificateTeams[id := R])
  {
  }

  /** Marking a team not yet worked out as not eliminated keeps the cache
      consistent, provided the flow says so or a negative game count left
      the network unbuilt. */
  lemma CacheKeep(st: Standings, teamNames: map<int, string>, cached: seq<bool>, eliminated: seq<bool>,
                  certificates: map<int, set<string>>, certificateTeams: map<int, set<int>>, id: int)
    requires WellFormed(st) && Cache(st, teamNames, cached, eliminated, certificates, certificateTeams)
    requires IsTeam(st, id) && !cached[id]
    requires NoNegativeGames(st, id) ==> NotEliminated(st, id)
    ensures Cache(st, teamNames, cached[id := true], eliminated[id := false], certificates, certificateTeams)
  {
  }

  class BaseballElimination {
    const n: int
    const wins: seq<int>
    const losses: seq<int>
    const remaining: seq<int>
    const games: seq<seq<int>>
    const teamIDs: map<string, int>
    const teamNames: map<int, string>
    const cached: array<bool>
    const eliminated: array<bool>
    var certificates: map<int, set<string>>
    /** The teams each stored certificate names. */
    ghost var certificateTeams: map<int, set<int>>

    function Table(): Standings {
      Standings(n, wins, losses, remaining, games)
    }

    /** The standings are an n by n table, every name maps to a team, and
        the cache is consistent. */
    ghost predicate Valid()
      reads this, cached, eliminated
    {
      && WellFormed(Table())
      && cached.Length == n && eliminated.Length == n && cached != eliminated
      && (forall name :: name in teamIDs ==> 0 <= teamIDs[name] < n)
      && (forall i :: i in teamNames <==> 0 <= i < n)
      && Cache(Table(), teamNames, cached[..], eliminated[..], certificates, certificateTeams)
    }

    /** The constructor over the standings as read from the input: a team
        read later under the same name takes the name over. */
    constructor (names: seq<string>, w: seq<int>, l: seq<int>, r: seq<int>, g: seq<seq<int>>)
      requires |w| == |names| && |l| == |names| && |r| == |names| && |g| == |names|
      requires forall i :: 0 <= i < |g| ==> |g[i]| == |names|
      ensures Valid()
      ensures n == |names| && wins == w && losses == l && remaining == r && games == g
      ensures forall i :: 0 <= i < n ==> teamNames[i] == names[i]
      ensures forall name :: name in teamIDs <==> name in names
      ensures forall name :: name in teamIDs ==>
                names[teamIDs[name]] == name && forall j :: teamIDs[name] < j < n ==> names[j] != name
      ensures forall i :: 0 <= i < n ==> !cached[i] && !eliminated[i]
      ensures certificates == map[]
    {
      n := |names|;
      wins, losses, remaining, games := w, l, r, g;
      var ids: map<string, int> := map[];
      var nameOf: map<int, string> := map[];
      for i := 0 to |names|
        invariant forall i' :: i' in nameOf <==> 0 <= i' < i
        invariant forall i' :: 0 <= i' < i ==> nameOf[i'] == names[i']
        invariant forall name :: name in ids <==> name in names[..i]
        invariant forall name :: name in ids ==>
                    0 <= ids[name] < i && names[ids[name]] == name
                    && forall j :: ids[name] < j < i ==> names[j] != name
      {
        ids := ids[names[i] := i];
        nameOf := nameOf[i := names[i]];
      }
      assert names[..|names|] == names;
      teamIDs, teamNames := ids, nameOf;
      cached := new bool[|names|](_ => false);
      eliminated := new bool[|names|](_ => false);
      certificates := map[];
      certificateTeams := map[];
    }

    function NumberOfTeams(): (r: int)
      requires Valid()
      reads this, cached, eliminated
      ensures r == |wins|
    {
      n
    }

    /** `teams()`: the names read. */
    function Teams(): (r: set<string>)
      ensures forall name :: name in r <==> name in teamIDs
    {
      teamIDs.Keys
    }

    function Wins(team: string): (r: Result<int>)
      requires Valid()
      reads this, cached, eliminated
      ensures r.Failure? <==> team !in teamIDs
      ensures r.Failure? ==> r.error == IllegalArgument
      ensures r.Success? ==> r.value == wins[teamIDs[team]]
    {
      if team !in teamIDs then Failure(IllegalArgument) else Success(wins[teamIDs[team]])
    }

    function Losses(team: string): (r: Result<int>)
      requires Valid()
      reads this, cached, eliminated
      ensures r.Failure? <==> team !in teamIDs
      ensures r.Failure? ==> r.error == IllegalArgument
      ensures r.Success? ==> r.value == losses[teamIDs[team]]
    {
      if team !in teamIDs then Failure(IllegalArgument) else Success(losses[teamIDs[team]])
    }

    function Remaining(team: string): (r: Result<int>)
      requires Valid()
      reads this, cached, eliminated
      ensures r.Failure? <==> team !in teamIDs
      ensures r.Failure? ==> r.error == IllegalArgument
      ensures r.Success? ==> r.value == remaining[teamIDs[team]]
    {
      if team !in teamIDs then Failure(IllegalArgument) else Success(remaining[teamIDs[team]])
    }

    function Against(team1: string, team2: string): (r: Result<int>)
      requires Valid()
      reads this, cached, eliminated
      ensures r.Failure? <==> team1 !in teamIDs || team2 !in teamIDs
      ensures r.Failure? ==> r.error == IllegalArgument
      ensures r.Success? ==> r.value == games[teamIDs[team1]][teamIDs[team2]]
    {
      if team1 !in teamIDs || team2 !in teamIDs then Failure(IllegalArgument)
      else Success(games[teamIDs[team1]][teamIDs[team2]])
    }

    /** The names of the teams on the source side of the cut. */
    method CutNames(inCut: set<int>) returns (teams: set<string>)
      requires n >= 0 && forall i :: 0 <= i < n ==> i in teamNames
      ensures teams == NamesOf(teamNames, CutTeams(Table(), inCut))
    {
      var m := TeamBase(Table());
      teams := {};
      for i := 0 to n
        invariant teams == NamesOf(teamNames, set i' | 0 <= i' < i && TeamNode(Table(), i') in inCut)
      {
        if m + i in inCut {
          teams := teams + {teamNames[i]};
        }
        assert (set i' | 0 <= i' < i + 1 && TeamNode(Table(), i') in inCut)
            == (set i' | 0 <= i' < i && TeamNode(Table(), i') in inCut) + (if m + i in inCut then {i} else {});
      }
    }

    /** `maxflow(teamID)`: marks the team as worked out, then eliminates it
        by the first team above its reach, or else by the cut, keeping the
        certificate. */
    method MaxFlow(teamID: int, inCut: set<int>) returns (r: Outcome)
      requires Valid() && 0 <= teamID < n && !cached[teamID]
      requires Flowable(Table(), teamID) ==> SmallestMinCut(Network(Table(), teamID), 0, SinkNode(Table()), inCut)
      modifies this, cached, eliminated
      ensures Valid()
      ensures cached[teamID]
      ensures forall i :: 0 <= i < n && i != teamID ==> cached[i] == old(cached[i]) && eliminated[i] == old(eliminated[i])
      ensures r.Fail? <==> TrivialPasses(Table(), teamID) && !NoNegativeGames(Table(), teamID)
      ensures r.Fail? ==> r.error == IllegalArgument && !eliminated[teamID] && certificates == old(certificates)
      ensures !TrivialPasses(Table(), teamID) ==>
                eliminated[teamID]
                && exists i :: FirstAbove(Table(), teamID, i) && certificates == old(certificates)[teamID := {teamNames[i]}]
      ensures Flowable(Table(), teamID) && (exists v :: 1 <= v < TeamBase(Table()) && v in inCut) ==>
                eliminated[teamID] && certificates == old(certificates)[teamID := NamesOf(teamNames, CutTeams(Table(), inCut))]
      ensures Flowable(Table(), teamID) && !(exists v :: 1 <= v < TeamBase(Table()) && v in inCut) ==>
                !eliminated[teamID] && certificates == old(certificates)
    {
      ghost var c0, e0 := cached[..], eliminated[..];
      cached[teamID] := true;
      var st := Table();
      var above := TrivialElimination(st, teamID);
      if above.Some? {
        var i := above.value;
        TrivialCertificateValid(st, teamID, i);
        CacheEliminate(st, teamNames, c0, e0, certificates, certificateTeams, teamID, {i});
        eliminated[teamID] := true;
        assert NamesOf(teamNames, {i}) == {teamNames[i]};
        certificates := certificates[teamID := {teamNames[i]}];
        certificateTeams := certificateTeams[teamID := {i}];
        assert cached[..] == c0[teamID := true] && eliminated[..] == e0[teamID := true];
        return Pass;
      }
      var numTeams := n - 1;
      var numGames := numTeams * (numTeams - 1) / 2;
      var s := 0;
      var t := numGames + n + 1;
      var m := numGames + 1;
      var network := CreateFlowNetwork(st, teamID, s, t);
      if network.Failure? {
        CacheKeep(st, teamNames, c0, e0, certificates, certificateTeams, teamID);
        assert cached[..] == c0[teamID := true] && eliminated[..] == e0[teamID := false];
        return Fail(network.error);
      }
      var found := CutHasGame(m, inCut);
      EliminationIff(st, teamID, inCut);
      if found {
        var v :| 1 <= v < m && v in inCut;
        CertificateValid(st, teamID, inCut, v);
        CacheEliminate(st, teamNames, c0, e0, certificates, certificateTeams, teamID, CutTeams(st, inCut));
        var teams := CutNames(inCut);
        eliminated[teamID] := true;
        certificates := certificates[teamID := teams];
        certificateTeams := certificateTeams[teamID := CutTeams(st, inCut)];
        assert cached[..] == c0[teamID := true] && eliminated[..] == e0[teamID := true];
        return Pass;
      }
      CacheKeep(st, teamNames, c0, e0, certificates, certificateTeams, teamID);
      eliminated[teamID] := false;
      assert cached[..] == c0[teamID := true] && eliminated[..] == e0[teamID := false];
      return Pass;
    }

    /** `isEliminated(team)`: IllegalArgumentException for an unknown
        name; otherwise the stored answer, worked out first if the team
        has not been. */
    method IsEliminated(team: string, inCut: set<int>) returns (r: Result<bool>)
      requires Valid()
      requires team in teamIDs && Flowable(Table(), teamIDs[team]) ==>
                 SmallestMinCut(Network(Table(), teamIDs[team]), 0, SinkNode(Table()), inCut)
      modifies this, cached, eliminated
      ensures Valid()
      ensures team !in teamIDs ==> r == Failure(IllegalArgument)
      ensures team !in teamIDs || old(cached[teamIDs[team]]) ==>
                unchanged(this, cached, eliminated) && (team in teamIDs ==> r == Success(eliminated[teamIDs[team]]))
      ensures team in teamIDs ==> cached[teamIDs[team]]
      ensures team in teamIDs && r.Success? ==> r.value == eliminated[teamIDs[team]]
      ensures team in teamIDs && r.Failure? ==>
                r.error == IllegalArgument && !old(cached[teamIDs[team]]) && !NoNegativeGames(Table(), teamIDs[team])
      ensures forall i :: 0 <= i < n && (team !in teamIDs || i != teamIDs[team]) ==>
                cached[i] == old(cached[i]) && eliminated[i] == old(eliminated[i])
    {
      if team !in teamIDs {
        return Failure(IllegalArgument);
      }
      var teamID := teamIDs[team];
      if !cached[teamID] {
        var outcome := MaxFlow(teamID, inCut);
        if outcome.Fail? {
          return Failure(outcome.error);
        }
      }
      return Success(eliminated[teamID]);
    }

    /** `certificateOfElimination(team)`: IllegalArgumentException for an
        unknown name; otherwise the stored certificate, null when the
        team is not eliminated. */
    method CertificateOfElimination(team: string, inCut: set<int>) returns (r: Result<Option<set<string>>>)
      requires Valid()
      requires team in teamIDs && Flowable(Table(), teamIDs[team]) ==>
                 SmallestMinCut(Network(Table(), teamIDs[team]), 0, SinkNode(Table()), inCut)
      modifies this, cached, eliminated
      ensures Valid()
      ensures team !in teamIDs ==> r == Failure(IllegalArgument)
      ensures team !in teamIDs || old(cached[teamIDs[team]]) ==> unchanged(this, cached, eliminated)
      ensures team in teamIDs ==> cached[teamIDs[team]]
      ensures team in teamIDs && r.Success? ==>
                (r.value.None? <==> !eliminated[teamIDs[team]])
                && (r.value.Some? ==> r.value.value == certificates[teamIDs[team]])
      ensures team in teamIDs && r.Failure? ==>
                r.error == IllegalArgument && !old(cached[teamIDs[team]]) && !NoNegativeGames(Table(), teamIDs[team])
      ensures forall i :: 0 <= i < n && (team !in teamIDs || i != teamIDs[team]) ==>
                cached[i] == old(cached[i]) && eliminated[i] == old(eliminated[i])
    {
      if team !in teamIDs {
        return Failure(IllegalArgument);
      }
      var teamID := teamIDs[team];
      if !cached[teamID] {
        var outcome := MaxFlow(teamID, inCut);
        if outcome.Fail? {
          return Failure(outcome.error);
        }
      }
      if teamID in certificates {
        return Success(Some(certificates[teamID]));
      }
      return Success(None);
    }
  }
}
