/** The local (in-memory) command handlers of the tournament context, as functions from the
    current snapshot to the new one. Each handler looks a tournament up with `find` (the
    first with that id) and then rewrites, with `map`, every tournament carrying that id. */
module Snapshots {
  import opened Tournaments
  import opened BracketGen

  // ---------------------------------------------------------------------------
  // Lookup

  /** Index of the first tournament with the given id. */
  function FindIndex(ts: seq<Tournament>, id: string): (r: Option<nat>)
    ensures r.None? <==> forall i :: 0 <= i < |ts| ==> ts[i].id != id
    ensures r.Some? ==> r.value < |ts| && ts[r.value].id == id
    ensures r.Some? ==> forall j :: 0 <= j < r.value ==> ts[j].id != id
  {
    if ts == [] then None
    else if ts[0].id == id then Some(0)
    else match FindIndex(ts[1..], id)
      case None => None
      case Some(i) => Some(i + 1)
  }

  /** getTournamentByIdSync: the first tournament with that id, if any. */
  function GetTournamentById(ts: seq<Tournament>, id: string): (r: Option<Tournament>)
    ensures r.None? <==> forall i :: 0 <= i < |ts| ==> ts[i].id != id
    ensures r.Some? ==> r.value in ts && r.value.id == id
  {
    match FindIndex(ts, id)
    case None => None
    case Some(i) => Some(ts[i])
  }

  /** The list with `f` applied to every tournament carrying the id, in place and in order. */
  function UpdateWhere(ts: seq<Tournament>, id: string, f: Tournament -> Tournament): (r: seq<Tournament>)
    ensures |r| == |ts|
    ensures forall i :: 0 <= i < |ts| ==> r[i] == if ts[i].id == id then f(ts[i]) else ts[i]
  {
    seq(|ts|, i requires 0 <= i < |ts| => if ts[i].id == id then f(ts[i]) else ts[i])
  }

  /** The lookup is unaffected by a rewrite that keeps ids, and then finds the rewritten tournament. */
  lemma FindAfterUpdate(ts: seq<Tournament>, id: string, f: Tournament -> Tournament)
    requires forall t :: f(t).id == t.id
    ensures FindIndex(UpdateWhere(ts, id, f), id) == FindIndex(ts, id)
    ensures GetTournamentById(ts, id).Some? ==>
              GetTournamentById(UpdateWhere(ts, id, f), id) == Some(f(GetTournamentById(ts, id).value))
  {
    var us := UpdateWhere(ts, id, f);
    assert forall i :: 0 <= i < |ts| ==> (us[i].id == id <==> ts[i].id == id);
  }

  // ---------------------------------------------------------------------------
  // createTournament

  /** A new tournament from the caller's draft: no participants, no matches, upcoming,
      appended at the end of the list. */
  function CreateTournament(ts: seq<Tournament>, d: TournamentDraft, id: string): (r: (Tournament, seq<Tournament>))
    ensures r.1 == ts + [r.0]
    ensures r.0.id == id && r.0.participants == [] && r.0.matches == [] && r.0.status == Upcoming
    ensures r.0.name == d.name && r.0.description == d.description && r.0.date == d.date
    ensures r.0.maxParticipants == d.maxParticipants && r.0.clubId == d.clubId && r.0.winner == d.winner
  {
    var t := Tournament(id, d.name, d.description, d.date, d.maxParticipants, [], [], Upcoming, d.clubId, d.winner);
    (t, ts + [t])
  }

  // ---------------------------------------------------------------------------
  // joinTournament

  /** The three guards of joinTournament, on the tournament `find` returned. */
  predicate AcceptsJoin(t: Tournament) {
    t.status == Upcoming && |t.participants| < t.maxParticipants
  }

  function AddParticipant(name: string): Tournament -> Tournament {
    (t: Tournament) => t.(participants := t.participants + [name])
  }

  /** joinTournament: false and no change for an unknown id, a tournament that is not
      upcoming, or a full one; otherwise the name is appended to the participants of every
      tournament with that id and nothing else changes. There is no duplicate-name check. */
  function JoinTournament(ts: seq<Tournament>, id: string, name: string): (r: (bool, seq<Tournament>))
    ensures r.0 <==> GetTournamentById(ts, id).Some? && AcceptsJoin(GetTournamentById(ts, id).value)
    ensures !r.0 ==> r.1 == ts
    ensures |r.1| == |ts|
    ensures r.0 ==> forall i :: 0 <= i < |ts| ==>
      r.1[i] == if ts[i].id == id then ts[i].(participants := ts[i].participants + [name]) else ts[i]
  {
    var found := GetTournamentById(ts, id);
    if found.Some? && AcceptsJoin(found.value) then (true, UpdateWhere(ts, id, AddParticipant(name)))
    else (false, ts)
  }

  // ---------------------------------------------------------------------------
  // startTournament

  function Begin(ids: nat -> string): Tournament -> Tournament {
    (t: Tournament) => t.(matches := Bracket(t.participants, ids), status := Ongoing)
  }

  /** startTournament: false and no change for an unknown id or fewer than two participants;
      otherwise every tournament with that id gets the generated bracket and becomes ongoing.
      The status is not checked, so an ongoing tournament is started again. */
  function StartTournament(ts: seq<Tournament>, id: string, ids: nat -> string): (r: (bool, seq<Tournament>))
    ensures r.0 <==> GetTournamentById(ts, id).Some? && |GetTournamentById(ts, id).value.participants| >= 2
    ensures !r.0 ==> r.1 == ts
    ensures |r.1| == |ts|
    ensures r.0 ==> forall i :: 0 <= i < |ts| ==>
      r.1[i] == if ts[i].id == id then ts[i].(matches := Bracket(ts[i].participants, ids), status := Ongoing) else ts[i]
  {
    var found := GetTournamentById(ts, id);
    if found.Some? && |found.value.participants| >= 2 then (true, UpdateWhere(ts, id, Begin(ids)))
    else (false, ts)
  }

  // ---------------------------------------------------------------------------
  // updateMatch

  /** The match list with `winner` recorded on every match carrying the id. */
  function RecordWinner(ms: seq<Match>, matchId: string, winner: string): (r: seq<Match>)
    ensures |r| == |ms|
    ensures forall i :: 0 <= i < |ms| ==> r[i].winner == if ms[i].id == matchId then Some(winner) else ms[i].winner
    ensures forall i :: 0 <= i < |ms| ==> r[i] == ms[i].(winner := r[i].winner)
  {
    seq(|ms|, i requires 0 <= i < |ms| => if ms[i].id == matchId then ms[i].(winner := Some(winner)) else ms[i])
  }

  function SetWinner(matchId: string, winner: string): Tournament -> Tournament {
    (t: Tournament) => t.(matches := RecordWinner(t.matches, matchId, winner))
  }

  /** updateMatch: stamps `winner` on every match with that id in every tournament with that
      id. Nothing else changes: no check that the winner is a player of the match, no
      advancement into the next round, no change of status or of the tournament's winner. */
  function UpdateMatch(ts: seq<Tournament>, id: string, matchId: string, winner: string): (r: seq<Tournament>)
    ensures |r| == |ts|
    ensures forall i :: 0 <= i < |ts| ==>
      r[i] == if ts[i].id == id then ts[i].(matches := RecordWinner(ts[i].matches, matchId, winner)) else ts[i]
  {
    UpdateWhere(ts, id, SetWinner(matchId, winner))
  }

  // ---------------------------------------------------------------------------
  // registerClub, loginClub

  /** registerClub: refused when some club already has the phone; otherwise the new club. */
  function RegisterClub(clubs: seq<Club>, d: ClubDraft, id: string): (r: Option<Club>)
    ensures r.None? <==> exists i :: 0 <= i < |clubs| && clubs[i].phone == d.phone
    ensures r.Some? ==> r.value == Club(id, d.name, d.phone, d.password)
  {
    if exists i :: 0 <= i < |clubs| && clubs[i].phone == d.phone then None
    else Some(Club(id, d.name, d.phone, d.password))
  }

  /** loginClub: the first club whose phone and password both match. */
  function LoginClub(clubs: seq<Club>, phone: string, password: string): (r: Option<Club>)
    ensures r.None? <==> forall i :: 0 <= i < |clubs| ==> !(clubs[i].phone == phone && clubs[i].password == password)
    ensures r.Some? ==> r.value in clubs && r.value.phone == phone && r.value.password == password
  {
    if clubs == [] then None
    else if clubs[0].phone == phone && clubs[0].password == password then Some(clubs[0])
    else LoginClub(clubs[1..], phone, password)
  }

  // ---------------------------------------------------------------------------
  // Invariants kept by the handlers

  predicate UniqueIds(ts: seq<Tournament>) {
    forall i, j :: 0 <= i < j < |ts| ==> ts[i].id != ts[j].id
  }

  function NoIds(k: nat): string { "" }

  /** What holds of every tournament the local handlers produce: it never completes; it has
      no matches while upcoming; while ongoing it has at least two participants and the
      bracket generated from them, up to ids and recorded winners; joins never take it past
      its capacity. */
  ghost predicate Consistent(t: Tournament) {
    && t.status != Completed
    && (t.status == Upcoming ==> t.matches == [])
    && (t.status == Ongoing ==>
          |t.participants| >= 2 && Skeletons(t.matches) == Skeletons(Bracket(t.participants, NoIds)))
    && (t.participants == [] || |t.participants| <= t.maxParticipants)
  }

  ghost predicate AllConsistent(ts: seq<Tournament>) {
    UniqueIds(ts) && forall i :: 0 <= i < |ts| ==> Consistent(ts[i])
  }

  lemma CreatePreserves(ts: seq<Tournament>, d: TournamentDraft, id: string)
    requires AllConsistent(ts) && GetTournamentById(ts, id).None?
    ensures AllConsistent(CreateTournament(ts, d, id).1)
  {
  }

  lemma JoinPreserves(ts: seq<Tournament>, id: string, name: string)
    requires AllConsistent(ts)
    ensures AllConsistent(JoinTournament(ts, id, name).1)
  {
    var r := JoinTournament(ts, id, name);
    if r.0 {
      var k := FindIndex(ts, id).value;
      forall i | 0 <= i < |ts|
        ensures Consistent(r.1[i])
      {
        if ts[i].id == id {
          assert i == k;
        }
      }
    }
  }

  lemma StartPreserves(ts: seq<Tournament>, id: string, ids: nat -> string)
    requires AllConsistent(ts)
    ensures AllConsistent(StartTournament(ts, id, ids).1)
  {
    var r := StartTournament(ts, id, ids);
    if r.0 {
      var k := FindIndex(ts, id).value;
      forall i | 0 <= i < |ts|
        ensures Consistent(r.1[i])
      {
        if ts[i].id == id {
          assert i == k;
          BracketSkeletonDeterministic(ts[i].participants, ids, NoIds);
        }
      }
    }
  }

  lemma RecordWinnerSkeleton(ms: seq<Match>, matchId: string, winner: string)
    ensures Skeletons(RecordWinner(ms, matchId, winner)) == Skeletons(ms)
  {
    var r := RecordWinner(ms, matchId, winner);
    assert forall i :: 0 <= i < |ms| ==> Skeleton(r[i]) == Skeleton(ms[i]);
  }

  lemma UpdatePreserves(ts: seq<Tournament>, id: string, matchId: string, winner: string)
    requires AllConsistent(ts)
    ensures AllConsistent(UpdateMatch(ts, id, matchId, winner))
  {
    var r := UpdateMatch(ts, id, matchId, winner);
    forall i | 0 <= i < |ts|
      ensures Consistent(r[i])
    {
      RecordWinnerSkeleton(ts[i].matches, matchId, winner);
    }
  }

  // ---------------------------------------------------------------------------
  // Properties of the individual handlers

  /** Once started, a tournament takes no more players: the participant list is frozen. */
  lemma StartFreezesParticipants(ts: seq<Tournament>, id: string, ids: nat -> string, name: string)
    requires StartTournament(ts, id, ids).0
    ensures !JoinTournament(StartTournament(ts, id, ids).1, id, name).0
  {
    FindAfterUpdate(ts, id, Begin(ids));
  }

  /** joinTournament does not look for the name among the participants: a name already
      present is accepted again and then occurs at least twice. */
  lemma JoinAcceptsDuplicateName(ts: seq<Tournament>, id: string, name: string)
    requires GetTournamentById(ts, id).Some?
    requires AcceptsJoin(GetTournamentById(ts, id).value)
    requires name in GetTournamentById(ts, id).value.participants
    ensures JoinTournament(ts, id, name).0
    ensures GetTournamentById(JoinTournament(ts, id, name).1, id).Some?
    ensures multiset(GetTournamentById(JoinTournament(ts, id, name).1, id).value.participants)[name] >= 2
  {
    var t := GetTournamentById(ts, id).value;
    FindAfterUpdate(ts, id, AddParticipant(name));
    assert multiset(t.participants)[name] >= 1;
    assert multiset(t.participants + [name]) == multiset(t.participants) + multiset{name};
  }

  /** Recording the same result twice is the same as recording it once. */
  lemma UpdateMatchIdempotent(ts: seq<Tournament>, id: string, matchId: string, winner: string)
    ensures UpdateMatch(UpdateMatch(ts, id, matchId, winner), id, matchId, winner) == UpdateMatch(ts, id, matchId, winner)
  {
    var once := UpdateMatch(ts, id, matchId, winner);
    var twice := UpdateMatch(once, id, matchId, winner);
    forall i | 0 <= i < |ts|
      ensures twice[i] == once[i]
    {
      if ts[i].id == id {
        var a := RecordWinner(ts[i].matches, matchId, winner);
        assert RecordWinner(a, matchId, winner) == a;
      }
    }
  }

  /** updateMatch never advances a winner and never finishes a tournament: players, rounds,
      match numbers, ids, participants, status and the tournament's winner all stay as they were. */
  lemma UpdateMatchNoAdvance(ts: seq<Tournament>, id: string, matchId: string, winner: string, i: nat, j: nat)
    requires i < |ts| && j < |ts[i].matches|
    ensures var u := UpdateMatch(ts, id, matchId, winner)[i];
      && u.status == ts[i].status && u.winner == ts[i].winner && u.participants == ts[i].participants
      && |u.matches| == |ts[i].matches|
      && u.matches[j].player1 == ts[i].matches[j].player1
      && u.matches[j].player2 == ts[i].matches[j].player2
      && u.matches[j].round == ts[i].matches[j].round
      && u.matches[j].matchNumber == ts[i].matches[j].matchNumber
      && u.matches[j].id == ts[i].matches[j].id
  {
  }

  /** Every recorded winner is one of the match's players. */
  predicate WinnersArePlayers(ms: seq<Match>) {
    forall i :: 0 <= i < |ms| && ms[i].winner.Some? ==>
      ms[i].winner == ms[i].player1 || ms[i].winner == ms[i].player2
  }

  /** updateMatch keeps winners among the players if and only if the caller passes a player
      of every match carrying that id; it does not check this itself. */
  lemma RecordWinnerKeepsWinnersPlayers(ms: seq<Match>, matchId: string, winner: string)
    requires WinnersArePlayers(ms)
    ensures WinnersArePlayers(RecordWinner(ms, matchId, winner)) <==>
              forall i :: 0 <= i < |ms| && ms[i].id == matchId ==>
                Some(winner) == ms[i].player1 || Some(winner) == ms[i].player2
  {
    var r := RecordWinner(ms, matchId, winner);
    if WinnersArePlayers(r) {
      forall i | 0 <= i < |ms| && ms[i].id == matchId
        ensures Some(winner) == ms[i].player1 || Some(winner) == ms[i].player2
      {
        assert r[i].winner == Some(winner);
      }
    }
  }

  lemma RecordWinnerUnchecked()
    ensures !WinnersArePlayers(RecordWinner([Match("m", Some("A"), Some("B"), None, 1, 1)], "m", "Z"))
  {
    var r := RecordWinner([Match("m", Some("A"), Some("B"), None, 1, 1)], "m", "Z");
    assert r[0].winner == Some("Z");
  }

  predicate UniquePhones(clubs: seq<Club>) {
    forall i, j :: 0 <= i < j < |clubs| ==> clubs[i].phone != clubs[j].phone
  }

  lemma RegisterKeepsPhonesUnique(clubs: seq<Club>, d: ClubDraft, id: string)
    requires UniquePhones(clubs)
    requires RegisterClub(clubs, d, id).Some?
    ensures UniquePhones(clubs + [RegisterClub(clubs, d, id).value])
  {
  }

  /** A club that has just registered can log in with its phone and password. */
  lemma {:induction false} RegisterThenLogin(clubs: seq<Club>, d: ClubDraft, id: string)
    requires RegisterClub(clubs, d, id).Some?
    ensures LoginClub(clubs + [RegisterClub(clubs, d, id).value], d.phone, d.password) == RegisterClub(clubs, d, id)
  {
    var c := RegisterClub(clubs, d, id).value;
    if clubs == [] {
      assert clubs + [c] == [c];
    } else {
      assert (clubs + [c])[1..] == clubs[1..] + [c];
      assert RegisterClub(clubs[1..], d, id) == Some(c) by {
        assert forall i :: 0 <= i < |clubs[1..]| ==> clubs[1..][i] == clubs[i + 1];
      }
      RegisterThenLogin(clubs[1..], d, id);
    }
  }

  /** With unique phones, logging in succeeds exactly for a club's own phone and password. */
  lemma LoginExact(clubs: seq<Club>, phone: string, password: string, c: Club)
    requires UniquePhones(clubs) && c in clubs
    ensures LoginClub(clubs, phone, password) == Some(c) <==> c.phone == phone && c.password == password
  {
    var r := LoginClub(clubs, phone, password);
    if r.Some? && r.value != c {
      var i, j :| 0 <= i < |clubs| && 0 <= j < |clubs| && clubs[i] == r.value && clubs[j] == c;
      assert i != j;
    }
  }
}
