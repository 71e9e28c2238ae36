/** The world's registry of active players: one list of every active player,
    one list per team, and per team the list of the players of the other
    teams (its opponents). */
module ActivePlayers {
  import opened Lists
  import opened Common

  datatype PlayerLists<P> = PlayerLists(all: seq<P>, team: seq<seq<P>>, opposing: seq<seq<P>>)

  predicate IsTeam(team: int) {
    0 <= team < TeamCount
  }

  predicate WellFormed<P>(l: PlayerLists<P>) {
    |l.team| == TeamCount && |l.opposing| == TeamCount
  }

  /** What Awake creates: every list empty. */
  function Empty<P>(): (l: PlayerLists<P>)
    ensures WellFormed(l)
  {
    PlayerLists([], seq(TeamCount, _ => []), seq(TeamCount, _ => []))
  }

  /** AddActivePlayer: appended to the list of all players, to its team's
      list, and to the opponents list of every other team. */
  function AddPlayer<P>(l: PlayerLists<P>, player: P, team: int): (r: PlayerLists<P>)
    requires WellFormed(l) && IsTeam(team)
    ensures WellFormed(r)
  {
    PlayerLists(
      l.all + [player],
      l.team[team := l.team[team] + [player]],
      seq(TeamCount, t requires 0 <= t < TeamCount => if t != team then l.opposing[t] + [player] else l.opposing[t]))
  }

  /** RemoveActivePlayer: the first occurrence is removed from the same lists. */
  function RemovePlayer<P(==)>(l: PlayerLists<P>, player: P, team: int): (r: PlayerLists<P>)
    requires WellFormed(l) && IsTeam(team)
    ensures WellFormed(r)
  {
    PlayerLists(
      RemoveFirst(l.all, player),
      l.team[team := RemoveFirst(l.team[team], player)],
      seq(TeamCount, t requires 0 <= t < TeamCount => if t != team then RemoveFirst(l.opposing[t], player) else l.opposing[t]))
  }

  /** GetActivePlayers: every player for TeamNone, otherwise the team's own
      list or its opponents. */
  function Query<P>(l: PlayerLists<P>, team: int, opposing: bool): seq<P>
    requires WellFormed(l) && (team == TeamNone || IsTeam(team))
  {
    if team == TeamNone then l.all
    else if opposing then l.opposing[team]
    else l.team[team]
  }

  /** The invariant the three lists keep: every active player is on exactly
      one team, and a team's opponents are everyone not on it (as multisets,
      so a player added twice counts twice). */
  ghost predicate Agree<P>(l: PlayerLists<P>) {
    && WellFormed(l)
    && multiset(l.all) == multiset(l.team[0]) + multiset(l.team[1])
    && (forall t :: 0 <= t < TeamCount ==> multiset(l.opposing[t]) + multiset(l.team[t]) == multiset(l.all))
  }

  lemma EmptyAgrees<P>()
    ensures Agree(Empty<P>())
  {
  }

  lemma {:induction false} AddPlayerAgrees<P>(l: PlayerLists<P>, player: P, team: int)
    requires Agree(l) && IsTeam(team)
    ensures Agree(AddPlayer(l, player, team))
  {
    var r := AddPlayer(l, player, team);
    assert multiset(r.all) == multiset(l.all) + multiset{player};
    assert multiset(r.team[0]) + multiset(r.team[1]) == multiset(l.team[0]) + multiset(l.team[1]) + multiset{player} by {
      if team == 0 {
        assert multiset(r.team[0]) == multiset(l.team[0]) + multiset{player} && r.team[1] == l.team[1];
      } else {
        assert multiset(r.team[1]) == multiset(l.team[1]) + multiset{player} && r.team[0] == l.team[0];
      }
    }
    forall t | 0 <= t < TeamCount
      ensures multiset(r.opposing[t]) + multiset(r.team[t]) == multiset(r.all)
    {
      AddKeepsOpponents(l, player, team, t);
    }
  }

  lemma AddKeepsOpponents<P>(l: PlayerLists<P>, player: P, team: int, t: int)
    requires Agree(l) && IsTeam(team) && IsTeam(t)
    ensures var r := AddPlayer(l, player, team);
      multiset(r.opposing[t]) + multiset(r.team[t]) == multiset(l.all) + multiset{player}
  {
    var r := AddPlayer(l, player, team);
    if t == team {
      assert r.opposing[t] == l.opposing[t];
      assert multiset(r.team[t]) == multiset(l.team[t]) + multiset{player};
    } else {
      assert r.team[t] == l.team[t];
      assert multiset(r.opposing[t]) == multiset(l.opposing[t]) + multiset{player};
    }
  }

  /** Removing a player with the team it was added with keeps the lists in
      agreement. */
  lemma {:induction false} RemovePlayerAgrees<P>(l: PlayerLists<P>, player: P, team: int)
    requires Agree(l) && IsTeam(team) && player in l.team[team]
    ensures Agree(RemovePlayer(l, player, team))
  {
    var r := RemovePlayer(l, player, team);
    RemoveKeepsTeams(l, player, team);
    forall t | 0 <= t < TeamCount
      ensures multiset(r.opposing[t]) + multiset(r.team[t]) == multiset(r.all)
    {
      RemoveKeepsOpponents(l, player, team, t);
    }
  }

  lemma {:induction false} RemoveKeepsTeams<P>(l: PlayerLists<P>, player: P, team: int)
    requires Agree(l) && IsTeam(team) && player in l.team[team]
    ensures var r := RemovePlayer(l, player, team);
      multiset(r.all) == multiset(r.team[0]) + multiset(r.team[1])
  {
    var r := RemovePlayer(l, player, team);
    var other := 1 - team;
    var own, theirs := multiset(l.team[team]), multiset(l.team[other]);
    RemoveFirstMultiset(l.all, player);
    RemoveFirstMultiset(l.team[team], player);
    assert multiset(l.all) == own + theirs by {
      if team == 1 {
        assert other == 0;
      }
    }
    RemoveFromSum(own, theirs, player);
    assert multiset(r.all) == (own - multiset{player}) + theirs;
    assert multiset(r.team[team]) == own - multiset{player} && r.team[other] == l.team[other];
    if team == 1 {
      assert other == 0;
    }
  }

  lemma {:induction false} RemoveKeepsOpponents<P>(l: PlayerLists<P>, player: P, team: int, t: int)
    requires Agree(l) && IsTeam(team) && IsTeam(t) && player in l.team[team]
    ensures var r := RemovePlayer(l, player, team);
      multiset(r.opposing[t]) + multiset(r.team[t]) == multiset(r.all)
  {
    RemoveFirstMultiset(l.all, player);
    if t == team {
      RemoveKeepsOwnOpponents(l, player, team);
    } else {
      RemoveKeepsOtherOpponents(l, player, team, t);
    }
  }

  lemma {:induction false} RemoveKeepsOwnOpponents<P>(l: PlayerLists<P>, player: P, team: int)
    requires Agree(l) && IsTeam(team) && player in l.team[team]
    ensures var r := RemovePlayer(l, player, team);
      multiset(r.opposing[team]) + multiset(r.team[team]) == multiset(l.all) - multiset{player}
  {
    var r := RemovePlayer(l, player, team);
    var own, opponents := multiset(l.team[team]), multiset(l.opposing[team]);
    RemoveFirstMultiset(l.team[team], player);
    assert r.opposing[team] == l.opposing[team];
    assert multiset(r.team[team]) == own - multiset{player};
    RemoveFromSum(own, opponents, player);
  }

  lemma {:induction false} RemoveKeepsOtherOpponents<P>(l: PlayerLists<P>, player: P, team: int, t: int)
    requires Agree(l) && IsTeam(team) && IsTeam(t) && t != team && player in l.team[team]
    ensures var r := RemovePlayer(l, player, team);
      multiset(r.opposing[t]) + multiset(r.team[t]) == multiset(l.all) - multiset{player}
  {
    var r := RemovePlayer(l, player, team);
    var own, theirs, opponents := multiset(l.team[team]), multiset(l.team[t]), multiset(l.opposing[t]);
    RemoveFirstMultiset(l.opposing[t], player);
    assert r.team[t] == l.team[t];
    assert multiset(r.opposing[t]) == opponents - multiset{player};
    assert multiset(l.all) == own + theirs by {
      if team == 1 {
        assert t == 0;
      }
    }
    assert opponents + theirs == own + theirs;
    MultisetCancel(opponents, theirs, own);
    RemoveFromSum(opponents, theirs, player);
  }

  lemma RemoveFromSum<P>(x: multiset<P>, y: multiset<P>, p: P)
    requires p in x
    ensures (x + y) - multiset{p} == (x - multiset{p}) + y
    ensures (x + y) - multiset{p} == y + (x - multiset{p})
  {
  }

  /** After AddActivePlayer the player is the last of every list that shows
      it: all players, its own team, and the opponents of each other team;
      its team's opponents list is untouched. */
  lemma AddedPlayerIsVisible<P>(l: PlayerLists<P>, player: P, team: int, other: int)
    requires WellFormed(l) && IsTeam(team) && IsTeam(other) && other != team
    ensures var r := AddPlayer(l, player, team);
      && Query(r, TeamNone, false) == Query(l, TeamNone, false) + [player]
      && Query(r, team, false) == Query(l, team, false) + [player]
      && Query(r, other, true) == Query(l, other, true) + [player]
      && Query(r, team, true) == Query(l, team, true)
      && Query(r, other, false) == Query(l, other, false)
  {
  }

  /** Remove undoes Add for a player that was not registered anywhere. */
  lemma {:induction false} RemoveUndoesAdd<P>(l: PlayerLists<P>, player: P, team: int)
    requires WellFormed(l) && IsTeam(team)
    requires player !in l.all && player !in l.team[team]
    requires forall t :: 0 <= t < TeamCount && t != team ==> player !in l.opposing[t]
    ensures RemovePlayer(AddPlayer(l, player, team), player, team) == l
  {
    var a := AddPlayer(l, player, team);
    var r := RemovePlayer(a, player, team);
    RemoveFirstAfterAppend(l.all, player);
    RemoveFirstAfterAppend(l.team[team], player);
    forall t | 0 <= t < TeamCount
      ensures r.opposing[t] == l.opposing[t]
    {
      if t != team {
        RemoveFirstAfterAppend(l.opposing[t], player);
      }
    }
    assert r.team == l.team;
  }

  /** With the lists in agreement, a team's opponents are the other team. */
  lemma OpponentsAreTheOtherTeam<P>(l: PlayerLists<P>, team: int)
    requires Agree(l) && IsTeam(team)
    ensures multiset(Query(l, team, true)) == multiset(Query(l, 1 - team, false))
  {
    var other := 1 - team;
    assert multiset(l.opposing[team]) + multiset(l.team[team]) == multiset(l.team[other]) + multiset(l.team[team]);
    MultisetCancel(multiset(l.opposing[team]), multiset(l.team[team]), multiset(l.team[other]));
  }

  lemma MultisetCancel<P>(a: multiset<P>, b: multiset<P>, c: multiset<P>)
    requires a + b == c + b
    ensures a == c
  {
    assert forall x :: a[x] == (a + b)[x] - b[x] && c[x] == (c + b)[x] - b[x];
  }
}
