/** The join page: the guard chain of handleJoin, the only duplicate-nickname check in the
    application, and the enabled state and text of its join button. */
module JoinPage {
  import opened Tournaments
  import Snapshots
  import Provider

  // ---------------------------------------------------------------------------
  // String.prototype.trim

  /** The characters `trim` removes: WhiteSpace (tab, vertical tab, form feed, space, no-break
      space, the byte order mark and the space separators) and LineTerminator (line feed,
      carriage return, line and paragraph separators). */
  predicate IsJsWhitespace(c: char) {
    var x := c as int;
    x == 0x09 || x == 0x0A || x == 0x0B || x == 0x0C || x == 0x0D || x == 0x20 ||
    x == 0xA0 || x == 0x1680 || (0x2000 <= x <= 0x200A) || x == 0x2028 || x == 0x2029 ||
    x == 0x202F || x == 0x205F || x == 0x3000 || x == 0xFEFF
  }

  /** Drops the leading whitespace: the result is a suffix of `s` that does not start with
      whitespace, and everything dropped is whitespace. */
  function TrimStart(s: string): (r: string)
    ensures |r| <= |s| && r == s[|s| - |r|..]
    ensures r == [] || !IsJsWhitespace(r[0])
    ensures forall i :: 0 <= i < |s| - |r| ==> IsJsWhitespace(s[i])
  {
    if s != [] && IsJsWhitespace(s[0]) then TrimStart(s[1..]) else s
  }

  /** Drops the trailing whitespace: the result is a prefix of `s` that does not end with
      whitespace, and everything dropped is whitespace. */
  function TrimEnd(s: string): (r: string)
    ensures |r| <= |s| && r == s[..|r|]
    ensures r == [] || !IsJsWhitespace(r[|r| - 1])
    ensures forall i :: |r| <= i < |s| ==> IsJsWhitespace(s[i])
  {
    if s != [] && IsJsWhitespace(s[|s| - 1]) then TrimEnd(s[..|s| - 1]) else s
  }

  function Trim(s: string): string {
    TrimEnd(TrimStart(s))
  }

  predicate IsBlank(s: string) {
    forall i :: 0 <= i < |s| ==> IsJsWhitespace(s[i])
  }

  /** Trimming leaves nothing exactly for strings made of whitespace only. */
  lemma TrimEmptyIffBlank(s: string)
    ensures Trim(s) == [] <==> IsBlank(s)
  {
    var t := TrimStart(s);
    if Trim(s) == [] {
      forall i | 0 <= i < |s|
        ensures IsJsWhitespace(s[i])
      {
        if i >= |s| - |t| {
          assert s[i] == t[i - (|s| - |t|)];
        }
      }
    }
  }

  // ---------------------------------------------------------------------------
  // handleJoin

  datatype JoinError = BlankNickname | AlreadyStarted | TournamentFull | NicknameTaken

  /** The guards of handleJoin in their order; the first that fails is reported. The
      duplicate check compares the untrimmed nickname exactly. */
  function CheckJoin(nickname: string, t: Tournament): (r: Option<JoinError>)
    ensures r == Some(BlankNickname) <==> IsBlank(nickname)
    ensures r == Some(AlreadyStarted) <==> !IsBlank(nickname) && t.status != Upcoming
    ensures r == Some(TournamentFull) <==>
              !IsBlank(nickname) && t.status == Upcoming && |t.participants| >= t.maxParticipants
    ensures r == Some(NicknameTaken) <==>
              !IsBlank(nickname) && Snapshots.AcceptsJoin(t) && nickname in t.participants
    ensures r.None? <==> !IsBlank(nickname) && Snapshots.AcceptsJoin(t) && nickname !in t.participants
  {
    TrimEmptyIffBlank(nickname);
    if Trim(nickname) == "" then Some(BlankNickname)
    else if t.status != Upcoming then Some(AlreadyStarted)
    else if |t.participants| >= t.maxParticipants then Some(TournamentFull)
    else if nickname in t.participants then Some(NicknameTaken)
    else None
  }

  predicate Distinct(names: seq<string>) {
    forall i, j :: 0 <= i < j < |names| ==> names[i] != names[j]
  }

  /** When the page's copy of the tournament is the context's, a nickname the page lets
      through is accepted by joinTournament, and the participant list stays free of
      duplicates: the page's check is what keeps names unique. */
  lemma PageJoinKeepsNamesDistinct(ts: seq<Tournament>, id: string, nickname: string)
    requires Snapshots.GetTournamentById(ts, id).Some?
    requires CheckJoin(nickname, Snapshots.GetTournamentById(ts, id).value).None?
    requires Distinct(Snapshots.GetTournamentById(ts, id).value.participants)
    ensures Snapshots.JoinTournament(ts, id, nickname).0
    ensures var after := Snapshots.GetTournamentById(Snapshots.JoinTournament(ts, id, nickname).1, id);
      && after.Some?
      && after.value.participants == Snapshots.GetTournamentById(ts, id).value.participants + [nickname]
      && Distinct(after.value.participants)
  {
    Snapshots.FindAfterUpdate(ts, id, Snapshots.AddParticipant(nickname));
  }

  /** The duplicate check does not trim: with "A" registered, "A " passes every guard (and
      is stored untrimmed), although it trims to "A". */
  lemma UntrimmedNicknameAccepted()
    ensures var t := Tournament("t", "", "", "", 8, ["A"], [], Upcoming, "c", None);
      && Trim("A ") == "A"
      && CheckJoin("A ", t) == None
  {
    assert TrimStart("A ") == "A ";
    assert "A "[..1] == "A";
    assert TrimEnd("A ") == TrimEnd("A") == "A";
    assert !IsBlank("A ") by { assert !IsJsWhitespace("A "[0]); }
  }

  // ---------------------------------------------------------------------------
  // The join button

  predicate JoinButtonDisabled(t: Tournament) {
    |t.participants| >= t.maxParticipants || t.status != Upcoming
  }

  /** The button's text; "Tournament Started" wins over "Tournament Full". */
  function JoinButtonText(t: Tournament): (text: string)
    ensures t.status != Upcoming ==> text == "Tournament Started"
    ensures t.status == Upcoming && |t.participants| >= t.maxParticipants ==> text == "Tournament Full"
    ensures text == "Join Tournament" <==> !JoinButtonDisabled(t)
  {
    if t.status != Upcoming then "Tournament Started"
    else if |t.participants| >= t.maxParticipants then "Tournament Full"
    else "Join Tournament"
  }

  /** With the button enabled, only a blank or taken nickname can still stop the join:
      the started and full guards of handleJoin are reached only through a disabled button. */
  lemma EnabledButtonPassesStateGuards(nickname: string, t: Tournament)
    requires !JoinButtonDisabled(t)
    ensures CheckJoin(nickname, t) != Some(AlreadyStarted)
    ensures CheckJoin(nickname, t) != Some(TournamentFull)
    ensures CheckJoin(nickname, t).None? <==> !IsBlank(nickname) && nickname !in t.participants
  {
  }

  // ---------------------------------------------------------------------------
  // Page state

  datatype JoinOutcome = Rejected(error: JoinError) | Joined | JoinFailed

  class JoinTournamentPage {
    const tournamentId: string
    var nickname: string
    var joined: bool
    var tournament: Option<Tournament>

    /** The page starts from the context's synchronous lookup of the id in its route. */
    constructor (tournamentId: string, ctx: Provider.TournamentProvider)
      ensures this.tournamentId == tournamentId && nickname == "" && !joined
      ensures tournament == Snapshots.GetTournamentById(ctx.tournaments, tournamentId)
    {
      this.tournamentId := tournamentId;
      nickname, joined := "", false;
      tournament := ctx.GetTournamentByIdSync(tournamentId);
    }

    method ChangeNickname(value: string)
      modifies this`nickname
      ensures nickname == value
    {
      nickname := value;
    }

    /** handleJoin. The form exists only once the tournament is loaded. joinTournament is
        called exactly when every guard passes; on success the page is marked joined and
        takes the tournament getTournamentById returns. In memory that lookup reads the
        context's list as it was when the page last rendered, so the page gets the copy from
        before the join, without the new nickname. */
    method HandleJoin(ctx: Provider.TournamentProvider) returns (outcome: JoinOutcome)
      requires tournament.Some?
      modifies this`joined, this`tournament, ctx`tournaments
      ensures var check := CheckJoin(old(nickname), old(tournament).value);
        check.Some? ==>
          outcome == Rejected(check.value) && ctx.tournaments == old(ctx.tournaments) &&
          joined == old(joined) && tournament == old(tournament)
      ensures var check := CheckJoin(old(nickname), old(tournament).value);
        check.None? ==>
          var r := Snapshots.JoinTournament(old(ctx.tournaments), tournamentId, nickname);
          && ctx.tournaments == r.1
          && outcome == (if r.0 then Joined else JoinFailed)
          && joined == (r.0 || old(joined))
          && tournament == (if r.0 then Snapshots.GetTournamentById(old(ctx.tournaments), tournamentId) else old(tournament))
      ensures outcome == Joined && old(tournament) == Snapshots.GetTournamentById(old(ctx.tournaments), tournamentId) ==>
                tournament.Some? && nickname !in tournament.value.participants
    {
      var check := CheckJoin(nickname, tournament.value);
      if check.Some? {
        return Rejected(check.value);
      }
      var snapshot := ctx.GetTournamentByIdSync(tournamentId);
      var success := ctx.JoinTournament(tournamentId, nickname);
      if success {
        joined := true;
        if snapshot.Some? {
          tournament := snapshot;
        }
        outcome := Joined;
      } else {
        outcome := JoinFailed;
      }
    }
  }
}
