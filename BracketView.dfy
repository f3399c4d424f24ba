/** The decision logic of the bracket view: the label of a round column, the grouping of
    the matches into columns by round, and the dialog that records a winner for a match. */
module BracketView {
  import opened Tournaments
  import BracketGen
  import Snapshots

  // ---------------------------------------------------------------------------
  // Decimal rendering of a number, as a template literal does for an integer

  function DigitChar(d: nat): (c: char)
    requires d < 10
    ensures '0' <= c <= '9'
  {
    "0123456789"[d]
  }

  function NatToString(n: nat): (s: string)
    ensures |s| >= 1
    ensures forall i :: 0 <= i < |s| ==> '0' <= s[i] <= '9'
  {
    if n < 10 then [DigitChar(n)] else NatToString(n / 10) + [DigitChar(n % 10)]
  }

  function IntToString(x: int): string {
    if x < 0 then "-" + NatToString(-x) else NatToString(x)
  }

  predicate IsDigits(s: string) {
    forall i :: 0 <= i < |s| ==> '0' <= s[i] <= '9'
  }

  /** The value of a string of decimal digits. */
  function DigitsValue(s: string): nat
    requires IsDigits(s)
  {
    if s == [] then 0 else 10 * DigitsValue(s[..|s| - 1]) + (s[|s| - 1] as int - '0' as int)
  }

  /** The value of an optionally negative decimal numeral. */
  function ParseInt(s: string): int
    requires s != [] && (IsDigits(s) || (s[0] == '-' && IsDigits(s[1..])))
  {
    if s[0] == '-' then -(DigitsValue(s[1..]) as int) else DigitsValue(s)
  }

  lemma {:induction false} NatToStringRoundTrip(n: nat)
    ensures DigitsValue(NatToString(n)) == n
  {
    var s := NatToString(n);
    if n >= 10 {
      assert s[..|s| - 1] == NatToString(n / 10);
      NatToStringRoundTrip(n / 10);
    }
  }

  /** Reading the rendered number back gives the number. */
  lemma IntToStringRoundTrip(x: int)
    ensures var s := IntToString(x);
      s != [] && (IsDigits(s) || (s[0] == '-' && IsDigits(s[1..]))) && ParseInt(s) == x
  {
    var s := IntToString(x);
    if x < 0 {
      assert s[1..] == NatToString(-x);
      NatToStringRoundTrip(-x);
    } else {
      NatToStringRoundTrip(x);
    }
  }

  // ---------------------------------------------------------------------------
  // formatRoundLabel

  /** Label of a round column, by how many rounds remain after it. Any pair of integers is
      accepted; a difference other than 0, 1 or 2 (negative ones included) gives
      "Round {roundNumber}". */
  function FormatRoundLabel(roundNumber: int, totalRounds: int): (title: string)
    ensures totalRounds - roundNumber == 0 ==> title == "Final"
    ensures totalRounds - roundNumber == 1 ==> title == "Semifinal"
    ensures totalRounds - roundNumber == 2 ==> title == "Quarterfinal"
    ensures !(0 <= totalRounds - roundNumber <= 2) ==>
              |title| > 6 && title[..6] == "Round " && title[6..] == IntToString(roundNumber)
  {
    var diff := totalRounds - roundNumber;
    if diff == 0 then "Final"
    else if diff == 1 then "Semifinal"
    else if diff == 2 then "Quarterfinal"
    else "Round " + IntToString(roundNumber)
  }

  /** Within one bracket every column gets its own label: different round numbers never
      share a label, because the numbered labels carry the round number itself. */
  lemma FormatRoundLabelInjective(a: int, b: int, totalRounds: int)
    requires a != b
    ensures FormatRoundLabel(a, totalRounds) != FormatRoundLabel(b, totalRounds)
  {
    var la, lb := FormatRoundLabel(a, totalRounds), FormatRoundLabel(b, totalRounds);
    IntToStringRoundTrip(a);
    IntToStringRoundTrip(b);
    if !(0 <= totalRounds - a <= 2) && !(0 <= totalRounds - b <= 2) {
      assert IntToString(a) != IntToString(b);
      assert la[6..] != lb[6..];
    } else if !(0 <= totalRounds - a <= 2) {
      assert la[..6] == "Round ";
    } else if !(0 <= totalRounds - b <= 2) {
      assert lb[..6] == "Round ";
    }
  }

  // ---------------------------------------------------------------------------
  // Grouping matches into columns

  /** The largest round number among the matches. */
  function MaxRound(ms: seq<Match>): (r: int)
    requires ms != []
    ensures forall i :: 0 <= i < |ms| ==> ms[i].round <= r
    ensures exists i :: 0 <= i < |ms| && ms[i].round == r
  {
    if |ms| == 1 then ms[0].round
    else
      var rest := MaxRound(ms[1..]);
      assert forall i :: 1 <= i < |ms| ==> ms[i] == ms[1..][i - 1];
      if ms[0].round >= rest then ms[0].round else rest
  }

  datatype Grouping = Grouping(rounds: int, byRound: map<int, seq<Match>>)

  /** An empty match list shows "No bracket available yet" and builds no grouping.
      Otherwise `rounds` is the largest round number, and `matchesByRound[i]`, for each
      i in 1..rounds, holds exactly the matches of round i in their original order. */
  method GroupByRound(matches: seq<Match>) returns (g: Option<Grouping>)
    ensures g.None? <==> matches == []
    ensures g.Some? ==> g.value.rounds == MaxRound(matches)
    ensures g.Some? ==> forall i :: i in g.value.byRound <==> 1 <= i <= g.value.rounds
    ensures g.Some? ==> forall i :: 1 <= i <= g.value.rounds ==> g.value.byRound[i] == MatchesInRound(matches, i)
  {
    if matches == [] {
      return None;
    }
    var rounds := MaxRound(matches);
    var matchesByRound: map<int, seq<Match>> := map[];
    var i := 1;
    while i <= rounds
      invariant 1 <= i <= if rounds >= 1 then rounds + 1 else 1
      invariant forall j :: j in matchesByRound <==> 1 <= j < i
      invariant forall j :: 1 <= j < i ==> matchesByRound[j] == MatchesInRound(matches, j)
    {
      matchesByRound := matchesByRound[i := MatchesInRound(matches, i)];
      i := i + 1;
    }
    return Some(Grouping(rounds, matchesByRound));
  }

  /** For a bracket generated from n >= 2 participants the view shows rounds 1..ceil(log2 n):
      the last column is the Final and holds one match, and column r holds the RoundSize(n, r)
      matches of round r. */
  lemma GeneratedBracketColumns(ps: seq<string>, ids: nat -> string, r: nat)
    requires |ps| >= 2
    requires 1 <= r <= BracketGen.CeilLog2(|ps|)
    ensures var b := BracketGen.Bracket(ps, ids);
      && b != []
      && MaxRound(b) == BracketGen.CeilLog2(|ps|)
      && FormatRoundLabel(MaxRound(b), MaxRound(b)) == "Final"
      && |MatchesInRound(b, MaxRound(b))| == 1
      && |MatchesInRound(b, r)| == BracketGen.RoundSize(|ps|, r)
  {
    var b := BracketGen.Bracket(ps, ids);
    var last := BracketGen.LastRound(|ps|);
    BracketGen.SingleFinal(ps, ids);
    var m := MaxRound(b);
    var i :| 0 <= i < |b| && b[i].round == m;
    BracketGen.BracketIndex(ps, ids, i);
    BracketGen.BracketIndex(ps, ids, |b| - 1);
    BracketGen.BracketRoundSlice(ps, ids, last);
    BracketGen.BracketRoundSlice(ps, ids, r);
  }

  // ---------------------------------------------------------------------------
  // The winner dialog

  datatype Slot = Player1 | Player2

  function PlayerIn(m: Match, slot: Slot): Option<string> {
    match slot
    case Player1 => m.player1
    case Player2 => m.player2
  }

  /** A "Give Win" button is enabled only when its slot of the selected match holds a
      non-empty name. */
  predicate WinButtonEnabled(selected: Option<Match>, slot: Slot) {
    selected.Some? && Present(PlayerIn(selected.value, slot))
  }

  /** The report (match id, winner) that a click on a "Give Win" button passes to
      onWinnerSelect, or None when the button is disabled. */
  function WinButtonReport(selected: Option<Match>, slot: Slot): (r: Option<(string, string)>)
    ensures r.Some? <==> WinButtonEnabled(selected, slot)
    ensures r.Some? ==> r.value.0 == selected.value.id
    ensures r.Some? ==> Some(r.value.1) == PlayerIn(selected.value, slot)
    ensures r.Some? ==> r.value.1 != ""
    ensures r.Some? ==> Some(r.value.1) == selected.value.player1 || Some(r.value.1) == selected.value.player2
  {
    if WinButtonEnabled(selected, slot) then Some((selected.value.id, PlayerIn(selected.value, slot).value))
    else None
  }

  /** A winner reported by the dialog and recorded by updateMatch's rewrite of a match list
      with distinct ids keeps every recorded winner among its match's players. The dialog is
      the only place that guarantees this; the context's updateMatch does not check it. */
  lemma DialogWinnerIsPlayer(ms: seq<Match>, k: nat, slot: Slot, rebuilt: seq<Match>)
    requires k < |ms|
    requires forall i, j :: 0 <= i < j < |ms| ==> ms[i].id != ms[j].id
    requires Snapshots.WinnersArePlayers(ms)
    requires WinButtonEnabled(Some(ms[k]), slot)
    requires rebuilt == Snapshots.RecordWinner(ms, WinButtonReport(Some(ms[k]), slot).value.0,
                                               WinButtonReport(Some(ms[k]), slot).value.1)
    ensures Snapshots.WinnersArePlayers(rebuilt)
  {
    var report := WinButtonReport(Some(ms[k]), slot).value;
    forall i | 0 <= i < |ms| && ms[i].id == report.0
      ensures Some(report.1) == ms[i].player1 || Some(report.1) == ms[i].player2
    {
      assert ms[i].id == ms[k].id;
    }
    Snapshots.RecordWinnerKeepsWinnersPlayers(ms, report.0, report.1);
  }

  /** The selection state of the bracket view: the match whose dialog is shown, and
      whether the dialog is open. */
  class WinnerDialog {
    var selectedMatch: Option<Match>
    var open: bool

    constructor ()
      ensures selectedMatch == None && !open
    {
      selectedMatch, open := None, false;
    }

    /** openMatch: clicking a match card selects it and opens the dialog. */
    method OpenMatch(m: Match)
      modifies this
      ensures selectedMatch == Some(m) && open
    {
      selectedMatch := Some(m);
      open := true;
    }

    /** Cancel (or dismissing the dialog): closes it and keeps the selection. */
    method Close()
      modifies this`open
      ensures !open
    {
      open := false;
    }

    /** handleWin: nothing without a selected match; otherwise it reports (selected id,
        winner) once, then closes the dialog and clears the selection. */
    method HandleWin(winner: string) returns (report: Option<(string, string)>)
      modifies this
      ensures old(selectedMatch).None? ==> report == None && selectedMatch == old(selectedMatch) && open == old(open)
      ensures old(selectedMatch).Some? ==>
                report == Some((old(selectedMatch).value.id, winner)) && selectedMatch == None && !open
    {
      if selectedMatch.None? {
        return None;
      }
      report := Some((selectedMatch.value.id, winner));
      open := false;
      selectedMatch := None;
    }

    /** A click on a "Give Win" button. The buttons exist only while the dialog is open and
        ignore clicks while disabled; an enabled one calls handleWin with its player. */
    method ClickWinButton(slot: Slot) returns (report: Option<(string, string)>)
      modifies this
      ensures report == (if old(open) then WinButtonReport(old(selectedMatch), slot) else None)
      ensures report.Some? ==> selectedMatch == None && !open
      ensures report.None? ==> selectedMatch == old(selectedMatch) && open == old(open)
    {
      if !open || !WinButtonEnabled(selectedMatch, slot) {
        return None;
      }
      report := HandleWin(PlayerIn(selectedMatch.value, slot).value);
    }
  }
}
