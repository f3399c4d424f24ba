/** The tournament context provider in its in-memory mode: three state fields that the
    command handlers replace with the snapshot computed by the functions of Snapshots. */
module Provider {
  import opened Tournaments
  import Snapshots

  class TournamentProvider {
    var tournaments: seq<Tournament>
    var clubs: seq<Club>
    var currentClub: Option<Club>

    /** The invariant the local handlers keep: consistent tournaments with distinct ids,
        clubs with distinct phones, and a signed-in club that is one of the clubs. */
    ghost predicate Valid()
      reads this
    {
      && Snapshots.AllConsistent(tournaments)
      && Snapshots.UniquePhones(clubs)
      && (currentClub.Some? ==> currentClub.value in clubs)
    }

    constructor ()
      ensures tournaments == [] && clubs == [] && currentClub == None
      ensures Valid()
    {
      tournaments, clubs, currentClub := [], [], None;
    }

    /** `id` stands for the random id the source draws. Ids are not checked for
        uniqueness; the invariant survives only when the id is new. */
    method CreateTournament(draft: TournamentDraft, id: string) returns (t: Tournament)
      modifies this`tournaments
      ensures tournaments == old(tournaments) + [t]
      ensures t == Snapshots.CreateTournament(old(tournaments), draft, id).0
      ensures old(Valid()) && Snapshots.GetTournamentById(old(tournaments), id).None? ==> Valid()
    {
      ghost var before := tournaments;
      var r := Snapshots.CreateTournament(tournaments, draft, id);
      t, tournaments := r.0, r.1;
      if Snapshots.AllConsistent(before) && Snapshots.GetTournamentById(before, id).None? {
        Snapshots.CreatePreserves(before, draft, id);
      }
    }

    method JoinTournament(tournamentId: string, playerName: string) returns (ok: bool)
      modifies this`tournaments
      ensures (ok, tournaments) == Snapshots.JoinTournament(old(tournaments), tournamentId, playerName)
      ensures !ok ==> tournaments == old(tournaments)
      ensures old(Valid()) ==> Valid()
    {
      ghost var before := tournaments;
      var r := Snapshots.JoinTournament(tournaments, tournamentId, playerName);
      ok, tournaments := r.0, r.1;
      if Snapshots.AllConsistent(before) {
        Snapshots.JoinPreserves(before, tournamentId, playerName);
      }
    }

    /** `ids` stands for the random ids generateBracket draws, one per match, in order. */
    method StartTournament(tournamentId: string, ids: nat -> string) returns (ok: bool)
      modifies this`tournaments
      ensures (ok, tournaments) == Snapshots.StartTournament(old(tournaments), tournamentId, ids)
      ensures !ok ==> tournaments == old(tournaments)
      ensures old(Valid()) ==> Valid()
    {
      ghost var before := tournaments;
      var r := Snapshots.StartTournament(tournaments, tournamentId, ids);
      ok, tournaments := r.0, r.1;
      if Snapshots.AllConsistent(before) {
        Snapshots.StartPreserves(before, tournamentId, ids);
      }
    }

    method UpdateMatch(tournamentId: string, matchId: string, winner: string)
      modifies this`tournaments
      ensures tournaments == Snapshots.UpdateMatch(old(tournaments), tournamentId, matchId, winner)
      ensures old(Valid()) ==> Valid()
    {
      ghost var before := tournaments;
      tournaments := Snapshots.UpdateMatch(tournaments, tournamentId, matchId, winner);
      if Snapshots.AllConsistent(before) {
        Snapshots.UpdatePreserves(before, tournamentId, matchId, winner);
      }
    }

    /** `id` stands for the random id the source draws for the club. */
    method RegisterClub(draft: ClubDraft, id: string) returns (ok: bool)
      modifies this`clubs, this`currentClub
      ensures ok == Snapshots.RegisterClub(old(clubs), draft, id).Some?
      ensures ok ==> var c := Snapshots.RegisterClub(old(clubs), draft, id).value;
                     clubs == old(clubs) + [c] && currentClub == Some(c)
      ensures !ok ==> clubs == old(clubs) && currentClub == old(currentClub)
      ensures old(Valid()) ==> Valid()
    {
      var r := Snapshots.RegisterClub(clubs, draft, id);
      ok := r.Some?;
      if ok {
        if Snapshots.UniquePhones(clubs) {
          Snapshots.RegisterKeepsPhonesUnique(clubs, draft, id);
        }
        clubs := clubs + [r.value];
        currentClub := r;
      }
    }

    method LoginClub(phone: string, password: string) returns (ok: bool)
      modifies this`currentClub
      ensures ok == Snapshots.LoginClub(clubs, phone, password).Some?
      ensures currentClub == if ok then Snapshots.LoginClub(clubs, phone, password) else old(currentClub)
      ensures old(Valid()) ==> Valid()
    {
      var r := Snapshots.LoginClub(clubs, phone, password);
      ok := r.Some?;
      if ok {
        currentClub := r;
      }
    }

    method LogoutClub()
      modifies this`currentClub
      ensures currentClub == None
      ensures old(Valid()) ==> Valid()
    {
      currentClub := None;
    }

    function GetTournamentByIdSync(id: string): Option<Tournament>
      reads this
    {
      Snapshots.GetTournamentById(tournaments, id)
    }
  }
}
