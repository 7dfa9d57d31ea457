/** The flow network of baseball elimination
    (Baseball/BaseballElimination.java, `createFlowNetwork` and the
    numbering in `maxflow`), its cuts, and what a cut says about the
    standings. Node 0 is the source, nodes 1 .. numGames one per pair of
    other teams, node m + i team i, and node t = m + n the sink. The
    infinite capacity of the game-to-team edges is the total of the source
    capacities plus one, more than any cut worth taking can cost. */
module BaseballNetwork {

  datatype FlowEdge = FlowEdge(from: int, to: int, capacity: int)

  /** The standings: n teams, their wins, losses and remaining games, and
      the games left between each two teams. */
  datatype Standings = Standings(n: int, wins: seq<int>, losses: seq<int>, remaining: seq<int>, games: seq<seq<int>>)

  predicate WellFormed(st: Standings) {
    && st.n >= 0 && |st.wins| == st.n && |st.losses| == st.n && |st.remaining| == st.n
    && |st.games| == st.n && forall i :: 0 <= i < st.n ==> |st.games[i]| == st.n
  }

  predicate IsTeam(st: Standings, i: int) {
    0 <= i < st.n
  }

  /** The most games team `id` can end with. */
  function MaxWins(st: Standings, id: int): int
    requires WellFormed(st) && IsTeam(st, id)
  {
    st.wins[id] + st.remaining[id]
  }

  /** No other team has more wins than `id` can reach: the trivial test
      does not eliminate `id`. */
  ghost predicate TrivialPasses(st: Standings, id: int)
    requires WellFormed(st) && IsTeam(st, id)
  {
    forall i :: IsTeam(st, i) && i != id ==> st.wins[i] <= MaxWins(st, id)
  }

  // The pairs of other teams, in the order of the loops of createFlowNetwork

  /** The pairs (i, j) with i < j < jEnd and j other than `id`. */
  function RowPairs(n: int, id: int, i: int, jEnd: int): seq<(int, int)>
    requires 0 <= i < jEnd <= n
    decreases jEnd
  {
    if jEnd == i + 1 then []
    else RowPairs(n, id, i, jEnd - 1) + (if jEnd - 1 == id then [] else [(i, jEnd - 1)])
  }

  /** The pairs whose first team comes before `iEnd`, skipping `id`. */
  function PairsBefore(n: int, id: int, iEnd: int): seq<(int, int)>
    requires 0 <= iEnd <= n
  {
    if iEnd == 0 then []
    else PairsBefore(n, id, iEnd - 1) + (if iEnd - 1 == id then [] else RowPairs(n, id, iEnd - 1, n))
  }

  function Pairs(n: int, id: int): seq<(int, int)>
    requires n >= 0
  {
    PairsBefore(n, id, n)
  }

  lemma {:induction false} RowPairsMembers(n: int, id: int, i: int, jEnd: int, p: (int, int))
    requires 0 <= i < jEnd <= n
    ensures p in RowPairs(n, id, i, jEnd) <==> p.0 == i && i < p.1 < jEnd && p.1 != id
    decreases jEnd
  {
    if jEnd > i + 1 {
      RowPairsMembers(n, id, i, jEnd - 1, p);
    }
  }

  lemma {:induction false} PairsBeforeMembers(n: int, id: int, iEnd: int, p: (int, int))
    requires 0 <= iEnd <= n
    ensures p in PairsBefore(n, id, iEnd) <==> 0 <= p.0 < iEnd && p.0 < p.1 < n && p.0 != id && p.1 != id
  {
    if iEnd > 0 {
      var i := iEnd - 1;
      PairsBeforeMembers(n, id, i, p);
      var row := if i == id then [] else RowPairs(n, id, i, n);
      assert PairsBefore(n, id, iEnd) == PairsBefore(n, id, i) + row;
      assert p in PairsBefore(n, id, iEnd) <==> p in PairsBefore(n, id, i) || p in row;
      if i != id {
        RowPairsMembers(n, id, i, n, p);
      }
    }
  }

  /** The pairs are exactly the pairs i < j of teams other than `id`. */
  lemma PairsMembers(n: int, id: int, p: (int, int))
    requires n >= 0
    ensures p in Pairs(n, id) <==> 0 <= p.0 < p.1 < n && p.0 != id && p.1 != id
  {
    PairsBeforeMembers(n, id, n, p);
  }

  lemma {:induction false} RowPairsCount(n: int, id: int, i: int, jEnd: int)
    requires 0 <= i < jEnd <= n
    ensures |RowPairs(n, id, i, jEnd)| == jEnd - i - 1 - (if i < id < jEnd then 1 else 0)
    decreases jEnd
  {
    if jEnd > i + 1 {
      RowPairsCount(n, id, i, jEnd - 1);
    }
  }

  lemma {:induction false} PairsBeforeCount(n: int, id: int, iEnd: int)
    requires 0 <= id < n && 0 <= iEnd <= n
    ensures 2 * |PairsBefore(n, id, iEnd)| == if iEnd <= id then iEnd * (2 * n - 3 - iEnd) else (iEnd - 1) * (2 * n - 2 - iEnd)
  {
    if iEnd > 0 {
      var i := iEnd - 1;
      PairsBeforeCount(n, id, i);
      var row := if i == id then [] else RowPairs(n, id, i, n);
      assert PairsBefore(n, id, iEnd) == PairsBefore(n, id, i) + row;
      if i != id {
        RowPairsCount(n, id, i, n);
      }
      if iEnd <= id {
        StepBefore(n, i);
      } else if i != id {
        StepAfter(n, i);
      }
    }
  }

  lemma StepBefore(n: int, i: int)
    ensures (i + 1) * (2 * n - 4 - i) == i * (2 * n - 3 - i) + 2 * (n - i - 2)
  {
  }

  lemma StepAfter(n: int, i: int)
    ensures i * (2 * n - 3 - i) == (i - 1) * (2 * n - 2 - i) + 2 * (n - i - 1)
  {
  }

  /** `numGames`: the pairs among the n - 1 other teams. */
  function NumGames(n: int): int {
    (n - 1) * (n - 2) / 2
  }

  /** One game node per pair of other teams. */
  lemma PairsCount(n: int, id: int)
    requires 0 <= id < n
    ensures |Pairs(n, id)| == NumGames(n)
  {
    PairsBeforeCount(n, id, n);
  }

  /** `m`, the node of team 0, and `t`, the sink. */
  function TeamBase(st: Standings): int {
    NumGames(st.n) + 1
  }

  function SinkNode(st: Standings): int {
    NumGames(st.n) + st.n + 1
  }

  // Capacities and edges

  /** The games left between the two teams of p; a pair outside the
      table has none. */
  function Games(st: Standings, p: (int, int)): int {
    if 0 <= p.0 < |st.games| && 0 <= p.1 < |st.games[p.0]| then st.games[p.0][p.1] else 0
  }

  /** Every pair is a pair of teams. */
  ghost predicate PairsIn(st: Standings, ps: seq<(int, int)>) {
    forall k :: 0 <= k < |ps| ==> IsTeam(st, ps[k].0) && IsTeam(st, ps[k].1)
  }

  lemma PairsAreTeams(st: Standings, id: int)
    requires WellFormed(st)
    ensures PairsIn(st, Pairs(st.n, id))
  {
    forall k | 0 <= k < |Pairs(st.n, id)|
      ensures IsTeam(st, Pairs(st.n, id)[k].0) && IsTeam(st, Pairs(st.n, id)[k].1)
    {
      PairsMembers(st.n, id, Pairs(st.n, id)[k]);
    }
  }

  /** The games left over the pairs ps. */
  function GamesOf(st: Standings, ps: seq<(int, int)>): int
  {
    if ps == [] then 0
    else
      var p := ps[|ps| - 1];
      GamesOf(st, ps[..|ps| - 1]) + Games(st, p)
  }

  /** The games left over the pairs ps whose teams are both in R. */
  function GamesWithin(st: Standings, ps: seq<(int, int)>, R: set<int>): int
  {
    if ps == [] then 0
    else
      var p := ps[|ps| - 1];
      GamesWithin(st, ps[..|ps| - 1], R) + (if p.0 in R && p.1 in R then Games(st, p) else 0)
  }

  /** No pair has a negative number of games left, as a flow edge needs. */
  ghost predicate GamesNonNegative(st: Standings, ps: seq<(int, int)>)
  {
    forall k :: 0 <= k < |ps| ==> Games(st, ps[k]) >= 0
  }

  /** The stand-in for infinity: the total of the source capacities plus
      one. */
  function Infinity(st: Standings, id: int): int
    requires WellFormed(st)
  {
    GamesOf(st, Pairs(st.n, id)) + 1
  }

  /** The edges of game node k, the game of pair p. */
  function GameTriple(st: Standings, p: (int, int), k: int, s: int, m: int, inf: int): seq<FlowEdge>
  {
    [FlowEdge(s, k, Games(st, p)), FlowEdge(k, m + p.0, inf), FlowEdge(k, m + p.1, inf)]
  }

  /** The edges of the first |ps| game nodes: from the source s to game
      node k with the games left, and from k to the nodes of its two
      teams with infinite capacity. */
  function GameEdges(st: Standings, ps: seq<(int, int)>, s: int, m: int, inf: int): (E: seq<FlowEdge>)
    ensures |E| == 3 * |ps|
  {
    if ps == [] then []
    else
      var k, p := |ps|, ps[|ps| - 1];
      GameEdges(st, ps[..k - 1], s, m, inf) + GameTriple(st, p, k, s, m, inf)
  }

  lemma GameEdgesSnoc(st: Standings, ps: seq<(int, int)>, p: (int, int), s: int, m: int, inf: int)
    ensures GamesNonNegative(st, ps) && Games(st, p) >= 0 ==> GamesNonNegative(st, ps + [p])
    ensures GameEdges(st, ps + [p], s, m, inf) == GameEdges(st, ps, s, m, inf) + GameTriple(st, p, |ps| + 1, s, m, inf)
  {
    assert (ps + [p])[..|ps|] == ps;
  }

  /** The edges from the nodes of the teams before iEnd, other than `id`,
      to the sink t, with the wins each may still get without passing
      `id`. */
  function SinkEdges(st: Standings, id: int, m: int, t: int, iEnd: int): (E: seq<FlowEdge>)
    requires WellFormed(st) && IsTeam(st, id) && 0 <= iEnd <= st.n
  {
    if iEnd == 0 then []
    else
      var i := iEnd - 1;
      SinkEdges(st, id, m, t, i) + (if i == id then [] else [FlowEdge(m + i, t, MaxWins(st, id) - st.wins[i])])
  }

  /** The network `maxflow` builds for team `id`. */
  function Network(st: Standings, id: int): seq<FlowEdge>
    requires WellFormed(st) && IsTeam(st, id)
  {
    GameEdges(st, Pairs(st.n, id), 0, TeamBase(st), Infinity(st, id))
    + SinkEdges(st, id, TeamBase(st), SinkNode(st), st.n)
  }

  lemma {:induction false} GameEdgesLayout(st: Standings, ps: seq<(int, int)>, m: int, inf: int, e: FlowEdge)
    requires e in GameEdges(st, ps, 0, m, inf)
    ensures (e.from == 0 && 1 <= e.to <= |ps|)
            || (1 <= e.from <= |ps| && e.capacity == inf
                && exists k :: 0 <= k < |ps| && (e.to == m + ps[k].0 || e.to == m + ps[k].1))
  {
    var k := |ps|;
    if e !in GameEdges(st, ps[..k - 1], 0, m, inf) {
      assert e.to == m + ps[k - 1].0 || e.to == m + ps[k - 1].1 || e.from == 0;
    } else {
      GameEdgesLayout(st, ps[..k - 1], m, inf, e);
      if !(e.from == 0) {
        var k' :| 0 <= k' < k - 1 && (e.to == m + ps[..k - 1][k'].0 || e.to == m + ps[..k - 1][k'].1);
        assert ps[..k - 1][k'] == ps[k'];
      }
    }
  }

  lemma {:induction false} SinkEdgesLayout(st: Standings, id: int, m: int, t: int, iEnd: int, e: FlowEdge)
    requires WellFormed(st) && IsTeam(st, id) && 0 <= iEnd <= st.n && e in SinkEdges(st, id, m, t, iEnd)
    ensures m <= e.from < m + iEnd && e.from != m + id && e.to == t
  {
    if e !in SinkEdges(st, id, m, t, iEnd - 1) {
    } else {
      SinkEdgesLayout(st, id, m, t, iEnd - 1, e);
    }
  }

  /** The layout of the network: numGames game nodes 1 .. numGames fed by
      the source 0, team nodes m .. m + n - 1 fed by the game nodes with
      infinite capacity and feeding the sink t = m + n, and no edge at the
      node of team `id`. Every node is in 0 .. t, and the game nodes and
      the team nodes are apart. */
  lemma NetworkLayout(st: Standings, id: int, e: FlowEdge)
    requires WellFormed(st) && IsTeam(st, id) && e in Network(st, id)
    ensures TeamBase(st) == NumGames(st.n) + 1 && SinkNode(st) == TeamBase(st) + st.n && NumGames(st.n) >= 0
    ensures var m, t, g := TeamBase(st), SinkNode(st), NumGames(st.n);
            || (e.from == 0 && 1 <= e.to <= g)
            || (1 <= e.from <= g && m <= e.to < m + st.n && e.to != m + id && e.capacity == Infinity(st, id))
            || (m <= e.from < m + st.n && e.from != m + id && e.to == t)
    ensures 0 <= e.from <= SinkNode(st) && 0 <= e.to <= SinkNode(st)
  {
    PairsCount(st.n, id);
    var ps, m, t := Pairs(st.n, id), TeamBase(st), SinkNode(st);
    var n := st.n;
    assert n >= 1;
    assert (n - 1) * (n - 2) >= 0 by {
      if n >= 2 {
        assert (n - 1) * (n - 2) == (n - 1) * (n - 2);
      }
    }
    if e in GameEdges(st, ps, 0, m, Infinity(st, id)) {
      GameEdgesLayout(st, ps, m, Infinity(st, id), e);
      if e.from != 0 {
        var k :| 0 <= k < |ps| && (e.to == m + ps[k].0 || e.to == m + ps[k].1);
        PairsMembers(n, id, ps[k]);
      }
    } else {
      SinkEdgesLayout(st, id, m, t, n, e);
    }
  }

  // Cuts

  /** What an edge adds to the capacity of the cut with source side S. */
  function Crossing(e: FlowEdge, S: set<int>): int {
    if e.from in S && e.to !in S then e.capacity else 0
  }

  /** The capacity of the cut with source side S. */
  function Cap(E: seq<FlowEdge>, S: set<int>): int {
    if E == [] then 0 else Cap(E[..|E| - 1], S) + Crossing(E[|E| - 1], S)
  }

  lemma {:induction false} CapAppend(A: seq<FlowEdge>, B: seq<FlowEdge>, S: set<int>)
    ensures Cap(A + B, S) == Cap(A, S) + Cap(B, S)
    decreases |B|
  {
    if B != [] {
      var B' := B[..|B| - 1];
      assert (A + B)[..|A + B| - 1] == A + B';
      assert (A + B)[|A + B| - 1] == B[|B| - 1];
      CapAppend(A, B', S);
    } else {
      assert A + B == A;
    }
  }

  lemma CapThree(E: seq<FlowEdge>, S: set<int>)
    requires |E| == 3
    ensures Cap(E, S) == Crossing(E[0], S) + Crossing(E[1], S) + Crossing(E[2], S)
  {
    var E2, E1 := E[..2], E[..1];
    assert E2[..1] == E1 && E1[..0] == [] && E2[1] == E[1] && E1[0] == E[0];
    assert Cap(E1, S) == Crossing(E[0], S);
    assert Cap(E2, S) == Cap(E1, S) + Crossing(E[1], S);
  }

  /** A node no edge touches does not change the capacity of a cut. */
  lemma {:induction false} CapUntouched(E: seq<FlowEdge>, S: set<int>, v: int)
    requires forall e :: e in E ==> e.from != v && e.to != v
    ensures Cap(E, S - {v}) == Cap(E, S)
  {
    if E != [] {
      assert forall e :: e in E[..|E| - 1] ==> e in E;
      CapUntouched(E[..|E| - 1], S, v);
      assert E[|E| - 1] in E;
    }
  }

  ghost predicate IsCut(S: set<int>, s: int, t: int) {
    s in S && t !in S
  }

  /** What `FordFulkerson.inCut` answers: the nodes left reachable from the
      source in the residual network of a maximum flow. They form the
      source side of a cut of least capacity, and the smallest such side:
      it lies inside every source side of a cut of least capacity. */
  ghost predicate SmallestMinCut(E: seq<FlowEdge>, s: int, t: int, S: set<int>) {
    && IsCut(S, s, t)
    && (forall C :: IsCut(C, s, t) ==> Cap(E, S) <= Cap(E, C))
    && (forall C :: IsCut(C, s, t) && Cap(E, C) == Cap(E, S) ==> S <= C)
  }

  /** The teams whose nodes the cut keeps on the source side. */
  function CutTeams(st: Standings, S: set<int>): set<int> {
    set i | 0 <= i < st.n && TeamNode(st, i) in S
  }

  /** The node of team i. */
  function TeamNode(st: Standings, i: int): int {
    TeamBase(st) + i
  }

  /** What the teams in R may still win without passing `id`. */
  function Slack(st: Standings, id: int, R: set<int>, iEnd: int): int
    requires WellFormed(st) && IsTeam(st, id) && 0 <= iEnd <= st.n
  {
    if iEnd == 0 then 0
    else Slack(st, id, R, iEnd - 1) + (if iEnd - 1 in R then MaxWins(st, id) - st.wins[iEnd - 1] else 0)
  }

  /** The games left among the teams of R other than `id`. */
  function GamesAmong(st: Standings, id: int, R: set<int>): int
    requires WellFormed(st)
  {
    GamesWithin(st, Pairs(st.n, id), R)
  }

  /** R proves that `id` is eliminated: its teams are other teams, and
      the games left among them are more than they can win without passing
      the most `id` can reach, so one of them ends above it. */
  ghost predicate Certifies(st: Standings, id: int, R: set<int>)
    requires WellFormed(st) && IsTeam(st, id)
  {
    && R != {} && id !in R && (forall i :: i in R ==> IsTeam(st, i))
    && Slack(st, id, R, st.n) < GamesAmong(st, id, R)
  }

  // Capacity bounds

  lemma {:induction false} GamesOfAtLeastEach(st: Standings, ps: seq<(int, int)>, k: int)
    requires GamesNonNegative(st, ps) && 0 <= k < |ps|
    ensures Games(st, ps[k]) <= GamesOf(st, ps)
    ensures GamesOf(st, ps) >= 0
  {
    var n := |ps|;
    var ps' := ps[..n - 1];
    assert GamesNonNegative(st, ps');
    if n > 1 {
      GamesOfAtLeastEach(st, ps', if k < n - 1 then k else 0);
    }
    if k < n - 1 {
      assert ps'[k] == ps[k];
    }
  }

  /** The game edges cost a cut at least the games left, less the games
      between teams both on the source side. */
  lemma {:induction false} GameCapLower(st: Standings, ps: seq<(int, int)>, m: int, inf: int, S: set<int>, R: set<int>)
    requires PairsIn(st, ps) && GamesNonNegative(st, ps) && 0 in S
    requires forall k :: 0 <= k < |ps| ==> Games(st, ps[k]) <= inf
    requires forall i :: IsTeam(st, i) ==> (i in R <==> m + i in S)
    ensures Cap(GameEdges(st, ps, 0, m, inf), S) >= GamesOf(st, ps) - GamesWithin(st, ps, R)
  {
    if ps != [] {
      var k, p := |ps|, ps[|ps| - 1];
      var ps' := ps[..k - 1];
      assert PairsIn(st, ps') && GamesNonNegative(st, ps');
      GameCapLower(st, ps', m, inf, S, R);
      var tail := GameTriple(st, p, k, 0, m, inf);
      CapAppend(GameEdges(st, ps', 0, m, inf), tail, S);
      CapThree(tail, S);
    }
  }

  /** A cut with no game node on the source side pays for every game
      edge from the source and for nothing else among the game edges. */
  lemma {:induction false} GameCapNoGames(st: Standings, ps: seq<(int, int)>, m: int, inf: int, S: set<int>)
    requires 0 in S
    requires forall k :: 1 <= k <= |ps| ==> k !in S
    ensures Cap(GameEdges(st, ps, 0, m, inf), S) == GamesOf(st, ps)
  {
    if ps != [] {
      var k, p := |ps|, ps[|ps| - 1];
      var ps' := ps[..k - 1];
      GameCapNoGames(st, ps', m, inf, S);
      var tail := GameTriple(st, p, k, 0, m, inf);
      CapAppend(GameEdges(st, ps', 0, m, inf), tail, S);
      CapThree(tail, S);
    }
  }

  /** With the sink outside the cut, the sink edges cost it what the teams
      on the source side may still win. */
  lemma {:induction false} SinkCap(st: Standings, id: int, m: int, t: int, iEnd: int, S: set<int>, R: set<int>)
    requires WellFormed(st) && IsTeam(st, id) && 0 <= iEnd <= st.n && t !in S && id !in R
    requires forall i :: IsTeam(st, i) ==> (i in R <==> m + i in S)
    ensures Cap(SinkEdges(st, id, m, t, iEnd), S) == Slack(st, id, R, iEnd)
  {
    if iEnd > 0 {
      var i := iEnd - 1;
      SinkCap(st, id, m, t, i, S, R);
      if i != id {
        var e := FlowEdge(m + i, t, MaxWins(st, id) - st.wins[i]);
        CapAppend(SinkEdges(st, id, m, t, i), [e], S);
        CapOne(e, S);
      } else {
        SinkEdgesSkip(st, id, m, t, iEnd);
      }
    }
  }

  lemma CapOne(e: FlowEdge, S: set<int>)
    ensures Cap([e], S) == Crossing(e, S)
  {
    assert [e][..0] == [];
  }

  lemma SinkEdgesSkip(st: Standings, id: int, m: int, t: int, iEnd: int)
    requires WellFormed(st) && IsTeam(st, id) && 0 < iEnd <= st.n && iEnd - 1 == id
    ensures SinkEdges(st, id, m, t, iEnd) == SinkEdges(st, id, m, t, iEnd - 1)
  {
    assert SinkEdges(st, id, m, t, iEnd) == SinkEdges(st, id, m, t, iEnd - 1) + [];
  }

  /** When the trivial test passes the sink edges cost any cut something
      non-negative. */
  lemma {:induction false} SinkCapNonNegative(st: Standings, id: int, m: int, t: int, iEnd: int, S: set<int>)
    requires WellFormed(st) && IsTeam(st, id) && 0 <= iEnd <= st.n && TrivialPasses(st, id)
    ensures Cap(SinkEdges(st, id, m, t, iEnd), S) >= 0
  {
    if iEnd > 0 {
      var i := iEnd - 1;
      SinkCapNonNegative(st, id, m, t, i, S);
      if i != id {
        var e := FlowEdge(m + i, t, MaxWins(st, id) - st.wins[i]);
        CapAppend(SinkEdges(st, id, m, t, i), [e], S);
        CapOne(e, S);
      } else {
        SinkEdgesSkip(st, id, m, t, iEnd);
      }
    }
  }

  /** If the trivial test passes, every team-to-sink capacity is
      non-negative. */
  lemma SinkCapacitiesNonNegative(st: Standings, id: int, m: int, t: int, e: FlowEdge)
    requires WellFormed(st) && IsTeam(st, id) && TrivialPasses(st, id)
    requires e in SinkEdges(st, id, m, t, st.n)
    ensures e.capacity >= 0
  {
    SinkCapacityAt(st, id, m, t, st.n, e);
  }

  lemma {:induction false} SinkCapacityAt(st: Standings, id: int, m: int, t: int, iEnd: int, e: FlowEdge)
    requires WellFormed(st) && IsTeam(st, id) && TrivialPasses(st, id) && 0 <= iEnd <= st.n
    requires e in SinkEdges(st, id, m, t, iEnd)
    ensures e.capacity >= 0
  {
    if e in SinkEdges(st, id, m, t, iEnd - 1) {
      SinkCapacityAt(st, id, m, t, iEnd - 1, e);
    }
  }

  /** The total of the games left among the other teams. */
  function TotalGames(st: Standings, id: int): int
    requires WellFormed(st)
  {
    GamesOf(st, Pairs(st.n, id))
  }

  /** No two other teams have a negative number of games left. */
  ghost predicate NoNegativeGames(st: Standings, id: int)
    requires WellFormed(st)
  {
    GamesNonNegative(st, Pairs(st.n, id))
  }

  /** A team that passes the trivial test, where no two other teams have
      a negative number of games left: the network can be built. */
  ghost predicate Flowable(st: Standings, id: int)
  {
    WellFormed(st) && IsTeam(st, id) && TrivialPasses(st, id) && NoNegativeGames(st, id)
  }

  /** `id` is not eliminated: it passes the trivial test and no cut costs
      less than the games left among the other teams, so a maximum flow
      plays all of them out without any team passing `id`. */
  ghost predicate NotEliminated(st: Standings, id: int)
    requires WellFormed(st) && IsTeam(st, id)
  {
    TrivialPasses(st, id)
    && forall C :: IsCut(C, 0, SinkNode(st)) ==> Cap(Network(st, id), C) >= TotalGames(st, id)
  }

  /** The cut {source} costs exactly the games left. */
  lemma SourceCut(st: Standings, id: int)
    requires Flowable(st, id)
    ensures IsCut({0}, 0, SinkNode(st))
    ensures Cap(Network(st, id), {0}) == TotalGames(st, id)
  {
    PairsCount(st.n, id);
    var ps, m, t := Pairs(st.n, id), TeamBase(st), SinkNode(st);
    GameCapNoGames(st, ps, m, Infinity(st, id), {0});
    SinkCap(st, id, m, t, st.n, {0}, {});
    assert Slack(st, id, {}, st.n) == 0 by {
      SlackEmpty(st, id, st.n);
    }
    CapAppend(GameEdges(st, ps, 0, m, Infinity(st, id)), SinkEdges(st, id, m, t, st.n), {0});
    NumGamesNonNegative(st.n);
  }

  lemma {:induction false} SlackEmpty(st: Standings, id: int, iEnd: int)
    requires WellFormed(st) && IsTeam(st, id) && 0 <= iEnd <= st.n
    ensures Slack(st, id, {}, iEnd) == 0
  {
    if iEnd > 0 {
      SlackEmpty(st, id, iEnd - 1);
    }
  }

  lemma NumGamesNonNegative(n: int)
    requires n >= 1
    ensures NumGames(n) >= 0
  {
    if n >= 2 {
      assert (n - 1) * (n - 2) >= 0;
    }
  }

  /** A cut of less capacity than the games left has a game node on its
      source side. */
  lemma SmallCutHasGame(st: Standings, id: int, S: set<int>)
    requires Flowable(st, id) && IsCut(S, 0, SinkNode(st))
    requires Cap(Network(st, id), S) < TotalGames(st, id)
    ensures exists v :: 1 <= v < TeamBase(st) && v in S
  {
    PairsCount(st.n, id);
    var ps, m, t := Pairs(st.n, id), TeamBase(st), SinkNode(st);
    if forall k :: 1 <= k <= |ps| ==> k !in S {
      GameCapNoGames(st, ps, m, Infinity(st, id), S);
      SinkCapNonNegative(st, id, m, t, st.n, S);
      CapAppend(GameEdges(st, ps, 0, m, Infinity(st, id)), SinkEdges(st, id, m, t, st.n), S);
      assert false;
    }
    var k :| 1 <= k <= |ps| && k in S;
  }

  /** The node of team `id` is on no edge. */
  lemma CandidateUntouched(st: Standings, id: int)
    requires WellFormed(st) && IsTeam(st, id)
    ensures forall e :: e in Network(st, id) ==> e.from != TeamBase(st) + id && e.to != TeamBase(st) + id
  {
    forall e | e in Network(st, id)
      ensures e.from != TeamBase(st) + id && e.to != TeamBase(st) + id
    {
      NetworkLayout(st, id, e);
    }
  }

  /** The smallest minimum cut costs less than the games left when it has
      a game node on its source side. */
  lemma MinCutBelowTotal(st: Standings, id: int, S: set<int>, v: int)
    requires Flowable(st, id) && SmallestMinCut(Network(st, id), 0, SinkNode(st), S)
    requires 1 <= v < TeamBase(st) && v in S
    ensures Cap(Network(st, id), S) < TotalGames(st, id)
  {
    SourceCut(st, id);
    if Cap(Network(st, id), S) >= TotalGames(st, id) {
      assert false;
    }
  }

  /** The smallest minimum cut leaves team `id` out. */
  lemma MinCutSkipsCandidate(st: Standings, id: int, S: set<int>)
    requires Flowable(st, id) && SmallestMinCut(Network(st, id), 0, SinkNode(st), S)
    ensures TeamBase(st) + id !in S
  {
    var v := TeamBase(st) + id;
    NumGamesNonNegative(st.n);
    CandidateUntouched(st, id);
    CapUntouched(Network(st, id), S, v);
    assert IsCut(S - {v}, 0, SinkNode(st));
    assert S <= S - {v};
  }

  /** Elimination read off the cut: the smallest minimum cut has a game
      node on its source side exactly when some cut costs less than the
      games left among the other teams, that is, when the maximum flow
      cannot play them all out without a team passing `id`. */
  lemma EliminationIff(st: Standings, id: int, S: set<int>)
    requires Flowable(st, id) && SmallestMinCut(Network(st, id), 0, SinkNode(st), S)
    ensures (exists v :: 1 <= v < TeamBase(st) && v in S) <==>
            (exists C :: IsCut(C, 0, SinkNode(st)) && Cap(Network(st, id), C) < TotalGames(st, id))
  {
    if exists v :: 1 <= v < TeamBase(st) && v in S {
      var v :| 1 <= v < TeamBase(st) && v in S;
      MinCutBelowTotal(st, id, S, v);
    }
    if exists C :: IsCut(C, 0, SinkNode(st)) && Cap(Network(st, id), C) < TotalGames(st, id) {
      var C :| IsCut(C, 0, SinkNode(st)) && Cap(Network(st, id), C) < TotalGames(st, id);
      SmallCutHasGame(st, id, S);
    }
  }

  /** The certificate read off the cut is valid: when the smallest
      minimum cut has a game node on its source side, the teams on its
      source side prove that `id` is eliminated. */
  lemma CertificateValid(st: Standings, id: int, S: set<int>, v: int)
    requires Flowable(st, id) && SmallestMinCut(Network(st, id), 0, SinkNode(st), S)
    requires 1 <= v < TeamBase(st) && v in S
    ensures Certifies(st, id, CutTeams(st, S))
  {
    var ps, m, t := Pairs(st.n, id), TeamBase(st), SinkNode(st);
    var R := CutTeams(st, S);
    var inf := Infinity(st, id);
    MinCutBelowTotal(st, id, S, v);
    MinCutSkipsCandidate(st, id, S);
    PairsAreTeams(st, id);
    forall k | 0 <= k < |ps|
      ensures Games(st, ps[k]) <= inf
    {
      GamesOfAtLeastEach(st, ps, k);
    }
    GameCapLower(st, ps, m, inf, S, R);
    SinkCap(st, id, m, t, st.n, S, R);
    CapAppend(GameEdges(st, ps, 0, m, inf), SinkEdges(st, id, m, t, st.n), S);
    SlackNonNegative(st, id, R, st.n);
    if R == {} {
      GamesWithinEmpty(st, ps);
      assert false;
    }
  }

  lemma {:induction false} SlackNonNegative(st: Standings, id: int, R: set<int>, iEnd: int)
    requires WellFormed(st) && IsTeam(st, id) && TrivialPasses(st, id) && 0 <= iEnd <= st.n && id !in R
    ensures Slack(st, id, R, iEnd) >= 0
  {
    if iEnd > 0 {
      SlackNonNegative(st, id, R, iEnd - 1);
    }
  }

  lemma {:induction false} GamesWithinEmpty(st: Standings, ps: seq<(int, int)>)
    ensures GamesWithin(st, ps, {}) == 0
  {
    if ps != [] {
      GamesWithinEmpty(st, ps[..|ps| - 1]);
    }
  }

  lemma {:induction false} SlackSingle(st: Standings, id: int, i: int, iEnd: int)
    requires WellFormed(st) && IsTeam(st, id) && IsTeam(st, i) && 0 <= iEnd <= st.n
    ensures Slack(st, id, {i}, iEnd) == if i < iEnd then MaxWins(st, id) - st.wins[i] else 0
  {
    if iEnd > 0 {
      SlackSingle(st, id, i, iEnd - 1);
    }
  }

  lemma {:induction false} GamesWithinSingle(st: Standings, ps: seq<(int, int)>, i: int)
    requires forall k :: 0 <= k < |ps| ==> ps[k].0 < ps[k].1
    ensures GamesWithin(st, ps, {i}) == 0
  {
    if ps != [] {
      GamesWithinSingle(st, ps[..|ps| - 1], i);
    }
  }

  /** The trivial certificate is valid: a single other team with more
      wins than `id` can reach. */
  lemma TrivialCertificateValid(st: Standings, id: int, i: int)
    requires WellFormed(st) && IsTeam(st, id) && IsTeam(st, i) && i != id
    requires st.wins[i] > MaxWins(st, id)
    ensures Certifies(st, id, {i})
  {
    SlackSingle(st, id, i, st.n);
    forall k | 0 <= k < |Pairs(st.n, id)|
      ensures Pairs(st.n, id)[k].0 < Pairs(st.n, id)[k].1
    {
      PairsMembers(st.n, id, Pairs(st.n, id)[k]);
    }
    GamesWithinSingle(st, Pairs(st.n, id), i);
  }
}
