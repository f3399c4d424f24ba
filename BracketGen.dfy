/** The bracket generator of the tournament context: an ordered participant list becomes a
    flat, round-major list of matches. Round 1 pairs consecutive participants; every later
    round, up to round ceil(log2 n), is a list of empty placeholder matches holding half
    (rounded up) as many matches as the round before it. Match ids come from a random source
    in the original; here the k-th match pushed takes the id `ids(k)`. */
module BracketGen {
  import opened Tournaments

  function Pow2(k: nat): (p: nat)
    ensures p >= 1
  {
    if k == 0 then 1 else 2 * Pow2(k - 1)
  }

  /** ceil(log2 n): the least k with 2^k >= n (0 for n <= 1). */
  function CeilLog2(n: nat): (k: nat)
    ensures Pow2(k) >= n
    ensures k > 0 ==> Pow2(k - 1) < n
  {
    if n <= 1 then 0 else 1 + CeilLog2((n + 1) / 2)
  }

  /** Math.ceil(m / 2) for a non-negative count. */
  function CeilHalf(m: nat): nat {
    (m + 1) / 2
  }

  /** Number of matches generated for round r >= 1 from n participants. */
  function RoundSize(n: nat, r: nat): nat
    requires r >= 1
  {
    if r == 1 then CeilHalf(n) else CeilHalf(RoundSize(n, r - 1))
  }

  /** Number of matches generated before round r, i.e. the flat index where round r starts. */
  function Offset(n: nat, r: nat): nat
    requires r >= 1
  {
    if r == 1 then 0 else Offset(n, r - 1) + RoundSize(n, r - 1)
  }

  /** The highest round present in the output. Round 1 is always generated, so for a
      single participant the output has one round although ceil(log2 1) = 0. */
  function LastRound(n: nat): (r: nat)
    ensures r >= 1
  {
    if CeilLog2(n) <= 1 then 1 else CeilLog2(n)
  }

  /** Match k (0-based) of round 1: participants 2k and 2k+1; a missing or empty second
      name leaves `player2` unset. */
  function FirstRoundMatch(ps: seq<string>, k: nat, id: string): Match
    requires 2 * k < |ps|
  {
    Match(id, Some(ps[2 * k]),
          if 2 * k + 1 < |ps| && ps[2 * k + 1] != "" then Some(ps[2 * k + 1]) else None,
          None, 1, k + 1)
  }

  /** Match k (0-based) of round r: a round-1 pairing, or an empty placeholder for r >= 2. */
  function GeneratedMatch(ps: seq<string>, ids: nat -> string, r: nat, k: nat): Match
    requires r >= 1 && k < RoundSize(|ps|, r)
  {
    if r == 1 then FirstRoundMatch(ps, k, ids(k))
    else Match(ids(Offset(|ps|, r) + k), None, None, None, r, k + 1)
  }

  function RoundMatches(ps: seq<string>, ids: nat -> string, r: nat): (rs: seq<Match>)
    requires r >= 1
    ensures |rs| == RoundSize(|ps|, r)
  {
    seq(RoundSize(|ps|, r), k requires 0 <= k < RoundSize(|ps|, r) => GeneratedMatch(ps, ids, r, k))
  }

  /** Rounds 1..r, concatenated in order. */
  function Rounds(ps: seq<string>, ids: nat -> string, r: nat): seq<Match>
    requires r >= 1
  {
    if r == 1 then RoundMatches(ps, ids, 1) else Rounds(ps, ids, r - 1) + RoundMatches(ps, ids, r)
  }

  /** The bracket generateBracket returns for `ps` when the id source yields `ids`. */
  function Bracket(ps: seq<string>, ids: nat -> string): seq<Match> {
    Rounds(ps, ids, LastRound(|ps|))
  }

  /** generateBracket: the first loop pushes the round-1 pairings, the second loop pushes
      the placeholder rounds while halving `previousRoundMatches`. */
  method GenerateBracket(participants: seq<string>, ids: nat -> string) returns (matches: seq<Match>)
    ensures matches == Bracket(participants, ids)
  {
    matches := [];
    var n := |participants|;
    var numRounds := CeilLog2(n);

    var i := 0;
    while i < n
      invariant 0 <= i <= n + 1 && i % 2 == 0
      invariant |matches| == i / 2 <= RoundSize(n, 1)
      invariant matches == RoundMatches(participants, ids, 1)[..i / 2]
    {
      var player2 := if i + 1 < n && participants[i + 1] != "" then Some(participants[i + 1]) else None;
      matches := matches + [Match(ids(|matches|), Some(participants[i]), player2, None, 1, i / 2 + 1)];
      i := i + 2;
    }
    assert matches == Rounds(participants, ids, 1);

    var previousRoundMatches := |matches|;
    var round := 2;
    while round <= numRounds
      invariant 2 <= round <= LastRound(n) + 1
      invariant matches == Rounds(participants, ids, round - 1)
      invariant |matches| == Offset(n, round)
      invariant previousRoundMatches == RoundSize(n, round - 1)
    {
      var matchesInRound := CeilHalf(previousRoundMatches);
      ghost var before := matches;
      var k := 0;
      while k < matchesInRound
        invariant 0 <= k <= matchesInRound
        invariant matches == before + RoundMatches(participants, ids, round)[..k]
      {
        matches := matches + [Match(ids(|matches|), None, None, None, round, k + 1)];
        k := k + 1;
      }
      assert RoundMatches(participants, ids, round)[..k] == RoundMatches(participants, ids, round);
      previousRoundMatches := matchesInRound;
      round := round + 1;
    }
  }

  // ---------------------------------------------------------------------------
  // Shape of the rounds

  lemma {:induction false} RoundSizeShift(n: nat, r: nat)
    requires r >= 1
    ensures RoundSize(n, r + 1) == RoundSize(CeilHalf(n), r)
  {
    if r > 1 {
      RoundSizeShift(n, r - 1);
    }
  }

  /** For n >= 2 the generated rounds are exactly 1..ceil(log2 n); the last one holds a
      single match and every earlier one at least two. */
  lemma {:induction false} RoundsNarrowToFinal(n: nat, r: nat)
    requires n >= 2 && 1 <= r <= CeilLog2(n)
    ensures LastRound(n) == CeilLog2(n)
    ensures r == CeilLog2(n) ==> RoundSize(n, r) == 1
    ensures r < CeilLog2(n) ==> RoundSize(n, r) >= 2
  {
    var h := CeilHalf(n);
    if r > 1 {
      RoundSizeShift(n, r - 1);
      RoundsNarrowToFinal(h, r - 1);
    }
  }

  lemma {:induction false} RoundsLength(ps: seq<string>, ids: nat -> string, r: nat)
    requires r >= 1
    ensures |Rounds(ps, ids, r)| == Offset(|ps|, r + 1)
  {
    if r > 1 {
      RoundsLength(ps, ids, r - 1);
    }
  }

  lemma {:induction false} OffsetMonotone(n: nat, a: nat, b: nat)
    requires 1 <= a <= b
    ensures Offset(n, a) <= Offset(n, b)
  {
    if a < b {
      OffsetMonotone(n, a, b - 1);
    }
  }

  lemma {:induction false} RoundsAt(ps: seq<string>, ids: nat -> string, last: nat, r: nat, k: nat)
    requires 1 <= r <= last && k < RoundSize(|ps|, r)
    ensures Offset(|ps|, r) + k < |Rounds(ps, ids, last)|
    ensures Rounds(ps, ids, last)[Offset(|ps|, r) + k] == GeneratedMatch(ps, ids, r, k)
  {
    RoundsLength(ps, ids, last);
    if last > 1 {
      RoundsLength(ps, ids, last - 1);
      if r < last {
        RoundsAt(ps, ids, last - 1, r, k);
      }
    }
  }

  lemma {:induction false} RoundsIndex(ps: seq<string>, ids: nat -> string, last: nat, j: nat)
    requires last >= 1 && j < |Rounds(ps, ids, last)|
    ensures var m := Rounds(ps, ids, last)[j];
      && 1 <= m.round <= last
      && 1 <= m.matchNumber <= RoundSize(|ps|, m.round)
      && j == Offset(|ps|, m.round) + m.matchNumber - 1
      && m == GeneratedMatch(ps, ids, m.round, m.matchNumber - 1)
  {
    var rs := Rounds(ps, ids, last);
    if last > 1 {
      RoundsLength(ps, ids, last - 1);
      var before := Rounds(ps, ids, last - 1);
      if j < |before| {
        assert rs[j] == before[j];
        RoundsIndex(ps, ids, last - 1, j);
      } else {
        var k := j - |before|;
        assert rs[j] == RoundMatches(ps, ids, last)[k];
      }
    }
  }

  /** Every position of the bracket: a match of some round 1..LastRound(n) whose
      matchNumber lies in that round's range, whose index is the round's offset plus
      matchNumber - 1, and which carries the id drawn for that position. Round-1 matches
      are the pairings, every later match an empty placeholder, and no match has a winner. */
  lemma BracketIndex(ps: seq<string>, ids: nat -> string, j: nat)
    requires j < |Bracket(ps, ids)|
    ensures var m := Bracket(ps, ids)[j];
      && 1 <= m.round <= LastRound(|ps|)
      && 1 <= m.matchNumber <= RoundSize(|ps|, m.round)
      && j == Offset(|ps|, m.round) + m.matchNumber - 1
      && m.id == ids(j)
      && m.winner == None
      && (m.round == 1 ==> m == FirstRoundMatch(ps, m.matchNumber - 1, ids(j)))
      && (m.round > 1 ==> m.player1 == None && m.player2 == None)
  {
    RoundsIndex(ps, ids, LastRound(|ps|), j);
  }

  /** The converse: every round 1..LastRound(n) and every matchNumber in its range has its
      match at the round's offset. Together with BracketIndex, the bracket lists the rounds
      in order and, inside each round, the matches by ascending matchNumber. */
  lemma BracketAt(ps: seq<string>, ids: nat -> string, r: nat, k: nat)
    requires 1 <= r <= LastRound(|ps|) && k < RoundSize(|ps|, r)
    ensures Offset(|ps|, r) + k < |Bracket(ps, ids)|
    ensures Bracket(ps, ids)[Offset(|ps|, r) + k].round == r
    ensures Bracket(ps, ids)[Offset(|ps|, r) + k].matchNumber == k + 1
  {
    RoundsAt(ps, ids, LastRound(|ps|), r, k);
  }

  lemma BracketLength(ps: seq<string>, ids: nat -> string)
    ensures |Bracket(ps, ids)| == Offset(|ps|, LastRound(|ps|) + 1)
    ensures |Bracket(ps, ids)| == 0 <==> |ps| == 0
  {
    var n := |ps|;
    RoundsLength(ps, ids, LastRound(n));
    OffsetMonotone(n, 2, LastRound(n) + 1);
    assert Offset(n, 2) == CeilHalf(n);
    if n == 0 {
      ZeroOffset(LastRound(n));
    }
  }

  lemma {:induction false} ZeroOffset(r: nat)
    requires r >= 1
    ensures Offset(0, r + 1) == 0
  {
    ZeroRoundSize(r);
    if r > 1 {
      ZeroOffset(r - 1);
    }
  }

  lemma {:induction false} ZeroRoundSize(r: nat)
    requires r >= 1
    ensures RoundSize(0, r) == 0
  {
    if r > 1 {
      ZeroRoundSize(r - 1);
    }
  }

  /** Round-major order: along the bracket the round never decreases, and inside a round
      the matchNumber strictly increases. */
  lemma BracketOrdered(ps: seq<string>, ids: nat -> string, i: nat, j: nat)
    requires i < j < |Bracket(ps, ids)|
    ensures Bracket(ps, ids)[i].round <= Bracket(ps, ids)[j].round
    ensures Bracket(ps, ids)[i].round == Bracket(ps, ids)[j].round ==>
              Bracket(ps, ids)[i].matchNumber < Bracket(ps, ids)[j].matchNumber
  {
    var b := Bracket(ps, ids);
    var n := |ps|;
    BracketIndex(ps, ids, i);
    BracketIndex(ps, ids, j);
    if b[i].round > b[j].round {
      OffsetMonotone(n, b[j].round + 1, b[i].round);
      assert false;
    }
  }

  /** Round 1 has ceil(n/2) matches; match k (1-based) pairs participants 2k-2 and 2k-1,
      and `player2` is unset exactly when participant 2k-1 is absent or the empty string. */
  lemma FirstRoundPairs(ps: seq<string>, ids: nat -> string, k: nat)
    requires k < (|ps| + 1) / 2
    ensures k < |Bracket(ps, ids)|
    ensures var m := Bracket(ps, ids)[k];
      && m.round == 1 && m.matchNumber == k + 1 && m.winner == None
      && m.player1 == Some(ps[2 * k])
      && (m.player2 == None <==> 2 * k + 1 >= |ps| || ps[2 * k + 1] == "")
      && (m.player2 != None ==> m.player2 == Some(ps[2 * k + 1]))
  {
    RoundsAt(ps, ids, LastRound(|ps|), 1, k);
  }

  /** With non-empty names, the only bye is the last round-1 match, and only for odd n. */
  lemma ByeOnlyInLastFirstRoundMatch(ps: seq<string>, ids: nat -> string, k: nat)
    requires forall i :: 0 <= i < |ps| ==> ps[i] != ""
    requires k < (|ps| + 1) / 2
    ensures k < |Bracket(ps, ids)|
    ensures Bracket(ps, ids)[k].player2 == None <==> |ps| % 2 == 1 && k == (|ps| + 1) / 2 - 1
  {
    FirstRoundPairs(ps, ids, k);
  }

  /** Rounds 2..LastRound(n) hold ceil(previous/2) placeholder matches each. */
  lemma PlaceholderRounds(ps: seq<string>, ids: nat -> string, r: nat, k: nat)
    requires 2 <= r <= LastRound(|ps|) && k < RoundSize(|ps|, r)
    ensures RoundSize(|ps|, r) == (RoundSize(|ps|, r - 1) + 1) / 2
    ensures Offset(|ps|, r) + k < |Bracket(ps, ids)|
    ensures var m := Bracket(ps, ids)[Offset(|ps|, r) + k];
      m.round == r && m.matchNumber == k + 1 &&
      m.player1 == None && m.player2 == None && m.winner == None
  {
    RoundsAt(ps, ids, LastRound(|ps|), r, k);
  }

  /** For n >= 2 the final (highest) round of the bracket is round ceil(log2 n) and holds
      exactly one match. */
  lemma SingleFinal(ps: seq<string>, ids: nat -> string)
    requires |ps| >= 2
    ensures LastRound(|ps|) == CeilLog2(|ps|)
    ensures RoundSize(|ps|, LastRound(|ps|)) == 1
    ensures |Bracket(ps, ids)| == Offset(|ps|, LastRound(|ps|)) + 1
    ensures Bracket(ps, ids)[|Bracket(ps, ids)| - 1].round == LastRound(|ps|)
  {
    RoundsNarrowToFinal(|ps|, CeilLog2(|ps|));
    BracketLength(ps, ids);
    BracketAt(ps, ids, LastRound(|ps|), 0);
  }

  lemma RoundMatchesInRound(ps: seq<string>, ids: nat -> string, q: nat, r: int)
    requires q >= 1
    ensures MatchesInRound(RoundMatches(ps, ids, q), r) == if r == q then RoundMatches(ps, ids, q) else []
  {
    var rm := RoundMatches(ps, ids, q);
    forall i | 0 <= i < |rm|
      ensures rm[i].round == q
    {
    }
    MatchesInRoundUniform(rm, q, r);
  }

  /** Selecting round r from rounds 1..last gives round r's matches, or nothing when r
      lies outside 1..last. */
  lemma {:induction false} RoundsByRound(ps: seq<string>, ids: nat -> string, last: nat, r: int)
    requires last >= 1
    ensures 1 <= r <= last ==> MatchesInRound(Rounds(ps, ids, last), r) == RoundMatches(ps, ids, r)
    ensures !(1 <= r <= last) ==> MatchesInRound(Rounds(ps, ids, last), r) == []
  {
    RoundMatchesInRound(ps, ids, last, r);
    if last > 1 {
      MatchesInRoundConcat(Rounds(ps, ids, last - 1), RoundMatches(ps, ids, last), r);
      RoundsByRound(ps, ids, last - 1, r);
    }
  }

  lemma RoundsSlice(ps: seq<string>, ids: nat -> string, last: nat, r: nat)
    requires 1 <= r <= last
    ensures Offset(|ps|, r) + RoundSize(|ps|, r) <= |Rounds(ps, ids, last)|
    ensures Rounds(ps, ids, last)[Offset(|ps|, r) .. Offset(|ps|, r) + RoundSize(|ps|, r)]
              == RoundMatches(ps, ids, r)
  {
    var n := |ps|;
    var b := Rounds(ps, ids, last);
    var rm := RoundMatches(ps, ids, r);
    RoundsLength(ps, ids, last);
    assert Offset(n, r + 1) == Offset(n, r) + RoundSize(n, r);
    OffsetMonotone(n, r + 1, last + 1);
    var lo, hi := Offset(n, r), Offset(n, r) + RoundSize(n, r);
    forall k | 0 <= k < RoundSize(n, r)
      ensures b[lo..hi][k] == rm[k]
    {
      RoundsAt(ps, ids, last, r, k);
    }
    assert b[lo..hi] == rm;
  }

  /** Each round r of the bracket, as selected by `round == r`, has exactly RoundSize(n, r)
      matches and is the contiguous slice of the bracket that starts at Offset(n, r). */
  lemma BracketRoundSlice(ps: seq<string>, ids: nat -> string, r: nat)
    requires 1 <= r <= LastRound(|ps|)
    ensures Offset(|ps|, r) + RoundSize(|ps|, r) <= |Bracket(ps, ids)|
    ensures MatchesInRound(Bracket(ps, ids), r) ==
              Bracket(ps, ids)[Offset(|ps|, r) .. Offset(|ps|, r) + RoundSize(|ps|, r)]
    ensures |MatchesInRound(Bracket(ps, ids), r)| == RoundSize(|ps|, r)
  {
    RoundsSlice(ps, ids, LastRound(|ps|), r);
    RoundsByRound(ps, ids, LastRound(|ps|), r);
  }

  /** Round numbers outside 1..LastRound(n) select no match of the bracket. */
  lemma BracketNoOtherRounds(ps: seq<string>, ids: nat -> string, r: int)
    requires !(1 <= r <= LastRound(|ps|))
    ensures MatchesInRound(Bracket(ps, ids), r) == []
  {
    RoundsByRound(ps, ids, LastRound(|ps|), r);
  }

  /** The bracket's shape (rounds, matchNumbers and round-1 pairings) does not depend on
      the ids drawn: equal participant lists give equal skeletons. */
  lemma {:induction false} RoundsSkeleton(ps: seq<string>, ids1: nat -> string, ids2: nat -> string, r: nat)
    requires r >= 1
    ensures Skeletons(Rounds(ps, ids1, r)) == Skeletons(Rounds(ps, ids2, r))
  {
    var a, b := Rounds(ps, ids1, r), Rounds(ps, ids2, r);
    RoundsLength(ps, ids1, r);
    RoundsLength(ps, ids2, r);
    forall j | 0 <= j < |a|
      ensures Skeleton(a[j]) == Skeleton(b[j])
    {
      RoundsIndex(ps, ids1, r, j);
      RoundsIndex(ps, ids2, r, j);
      RoundsAt(ps, ids2, r, a[j].round, a[j].matchNumber - 1);
    }
  }

  lemma BracketSkeletonDeterministic(ps: seq<string>, ids1: nat -> string, ids2: nat -> string)
    ensures Skeletons(Bracket(ps, ids1)) == Skeletons(Bracket(ps, ids2))
  {
    RoundsSkeleton(ps, ids1, ids2, LastRound(|ps|));
  }
}
