/** The records shared by the tournament context, the bracket view and the join page:
    Match, Tournament and Club, with an optional-value wrapper for the fields that
    TypeScript marks `?` (or leaves `undefined`). */
module Tournaments {

  datatype Option<+T> = None | Some(value: T)

  /** A tournament's lifecycle state; the source stores it as the strings
      'upcoming' | 'ongoing' | 'completed'. */
  datatype Status = Upcoming | Ongoing | Completed

  /** One match of a bracket. `round` and `matchNumber` are JavaScript numbers in the
      source; every value the model produces is a positive integer. */
  datatype Match = Match(
    id: string,
    player1: Option<string>,
    player2: Option<string>,
    winner: Option<string>,
    round: int,
    matchNumber: int)

  datatype Tournament = Tournament(
    id: string,
    name: string,
    description: string,
    date: string,
    maxParticipants: int,
    participants: seq<string>,
    matches: seq<Match>,
    status: Status,
    clubId: string,
    winner: Option<string>)

  /** What the caller of createTournament supplies: a tournament without
      id, participants, matches and status. */
  datatype TournamentDraft = TournamentDraft(
    name: string,
    description: string,
    date: string,
    maxParticipants: int,
    clubId: string,
    winner: Option<string>)

  datatype Club = Club(id: string, name: string, phone: string, password: string)

  /** What the caller of registerClub supplies: a club without its id. */
  datatype ClubDraft = ClubDraft(name: string, phone: string, password: string)

  /** JavaScript truthiness of an optional string: `undefined` and "" are falsy. */
  predicate Present(s: Option<string>) {
    s.Some? && s.value != ""
  }

  /** A match with its id and winner erased: what a bracket looks like
      independently of the random ids and of the results recorded so far. */
  function Skeleton(m: Match): Match {
    m.(id := "", winner := None)
  }

  function Skeletons(ms: seq<Match>): (r: seq<Match>)
    ensures |r| == |ms|
    ensures forall i :: 0 <= i < |ms| ==> r[i] == Skeleton(ms[i])
  {
    seq(|ms|, i requires 0 <= i < |ms| => Skeleton(ms[i]))
  }

  /** The matches of round `r`, in their original order. */
  function MatchesInRound(ms: seq<Match>, r: int): (rs: seq<Match>)
    ensures |rs| <= |ms|
    ensures forall m :: m in rs <==> m in ms && m.round == r
  {
    if ms == [] then []
    else if ms[0].round == r then [ms[0]] + MatchesInRound(ms[1..], r)
    else MatchesInRound(ms[1..], r)
  }

  lemma {:induction false} MatchesInRoundConcat(a: seq<Match>, b: seq<Match>, r: int)
    ensures MatchesInRound(a + b, r) == MatchesInRound(a, r) + MatchesInRound(b, r)
  {
    if a != [] {
      assert (a + b)[1..] == a[1..] + b;
      MatchesInRoundConcat(a[1..], b, r);
    } else {
      assert a + b == b;
    }
  }

  /** Filtering a list whose matches all belong to round `q`. */
  lemma {:induction false} MatchesInRoundUniform(ms: seq<Match>, q: int, r: int)
    requires forall i :: 0 <= i < |ms| ==> ms[i].round == q
    ensures MatchesInRound(ms, r) == if r == q then ms else []
  {
    if ms != [] {
      MatchesInRoundUniform(ms[1..], q, r);
      if r == q {
        assert [ms[0]] + ms[1..] == ms;
      }
    }
  }
}
