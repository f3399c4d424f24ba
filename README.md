# Tournament bracket engine — a Dafny model

This project models the core of a single-elimination tournament front end: the bracket
generator and the in-memory command handlers of its tournament context, the decision logic
of the bracket view, and the guard chain of the join page.

- **Bracket generation** (`BracketGen`). The participant list becomes a flat, round-major list
  of matches. Round 1 pairs consecutive participants. An odd count, or an empty name in the
  second slot, leaves `player2` unset. Each later round, up to round ceil(log2 n), holds
  ceil(previous/2) empty placeholder matches. `GenerateBracket` is the two nested loops of
  the original, and it is proved equal to the specification function `Bracket`. The lemmas
  characterise every position of the result: its round, its matchNumber, its players, its id
  and the order of the rounds.
- **Command handlers** (`Snapshots`, `Provider`). createTournament, joinTournament,
  startTournament, updateMatch, registerClub, loginClub and logoutClub in their local mode.
  Each is a pure function from the old snapshot to the new one, and the provider class stores
  the result in its fields `tournaments`, `clubs` and `currentClub`. The lookup is `find`, so
  it takes the first tournament with the id. The rewrite is `map`, so it changes every
  tournament with that id. Lemmas prove the invariant the handlers keep (`Consistent`, for
  tournaments with distinct ids). They also prove what the handlers do not do: joinTournament
  has no duplicate check, updateMatch does not validate or advance, and no tournament is ever
  completed.
- **Bracket view** (`BracketView`). The round label, the grouping of matches by round, and
  the winner dialog, whose buttons only offer a present player of the selected match.
- **Join page** (`JoinPage`). handleJoin's ordered guards: blank nickname after `trim`, not
  upcoming, full, nickname taken. joinTournament is called only when all four pass. The page
  also has the join button's enabled state and text.

What the code does, and the model with it: there is no winner advancement, no tournament completion and no winner
validation in updateMatch. Its labels are "Semifinal" and "Quarterfinal". The generator
accepts any participant count: 0 participants give no matches, and 1 participant gives a
single round-1 match with a bye. Duplicate names are rejected only by the join page, never
by the context.

## Model

| member | source | states |
|---|---|---|
| `BracketGen.CeilLog2` | src/contexts/TournamentContext.tsx:118 | the number of rounds ceil(log2 n) is the least k with 2^k >= n |
| `BracketGen.GenerateBracket` | src/contexts/TournamentContext.tsx:116-146 | the two loops push exactly the matches of `Bracket(participants, ids)`, in order |
| `BracketGen.BracketIndex` | src/contexts/TournamentContext.tsx:121-143 | every match lies in a round 1..LastRound(n) and has a matchNumber in that round's range. It sits at the round's offset plus matchNumber-1 and carries the k-th id drawn. It has no winner. Round-1 matches are the pairings; later matches have no players |
| `BracketGen.BracketAt` | src/contexts/TournamentContext.tsx:121-143 | conversely, each (round, matchNumber) in range occurs at its offset |
| `BracketGen.BracketLength` | src/contexts/TournamentContext.tsx:116-145 | the bracket's length is the sum of the round sizes; the bracket is empty iff there are no participants |
| `BracketGen.BracketOrdered` | src/contexts/TournamentContext.tsx:121-145 | the output is round-major, with strictly ascending matchNumber inside a round |
| `BracketGen.FirstRoundPairs` | src/contexts/TournamentContext.tsx:121-129 | round 1 has ceil(n/2) matches. Match k pairs participants 2k-2 and 2k-1. `player2` is unset iff the second participant is absent or "" |
| `BracketGen.ByeOnlyInLastFirstRoundMatch` | src/contexts/TournamentContext.tsx:125 | with non-empty names, the only unset `player2` is in the last round-1 match, and only for odd n |
| `BracketGen.PlaceholderRounds` | src/contexts/TournamentContext.tsx:132-143 | rounds 2..LastRound hold ceil(previous/2) matches, with no players or winner and matchNumbers 1..count |
| `BracketGen.RoundsNarrowToFinal` | src/contexts/TournamentContext.tsx:118-142 | for n >= 2 the rounds are 1..ceil(log2 n). The last holds one match and every earlier one at least two |
| `BracketGen.SingleFinal` | src/contexts/TournamentContext.tsx:118-145 | for n >= 2 the final round is ceil(log2 n), holds exactly one match, and that match ends the list |
| `BracketGen.BracketRoundSlice` | src/contexts/TournamentContext.tsx:132-143 | the matches with `round == r` are the contiguous slice starting at r's offset, with RoundSize(n, r) matches |
| `BracketGen.BracketNoOtherRounds` | src/contexts/TournamentContext.tsx:126-138 | no generated match has a round outside 1..LastRound(n) |
| `BracketGen.BracketSkeletonDeterministic` | src/contexts/TournamentContext.tsx:116-146 | apart from ids, the bracket depends on the participant list alone |
| `Tournaments.MatchesInRound` | src/components/Bracket.tsx:59 | the filter keeps exactly the matches of round r |
| `Snapshots.FindIndex` | src/contexts/TournamentContext.tsx:150 | `find` gives the first tournament with the id, or none when no tournament has it |
| `Snapshots.GetTournamentById` | src/contexts/TournamentContext.tsx:287-289 | the synchronous lookup returns a tournament of the list with that id, or none iff there is none |
| `Snapshots.UpdateWhere` | src/contexts/TournamentContext.tsx:154-159 | the `map` rewrites every tournament with the id and leaves the others |
| `Snapshots.FindAfterUpdate` | src/contexts/TournamentContext.tsx:150-159 | after an id-preserving rewrite, the lookup finds the rewritten tournament at the same index |
| `Snapshots.CreateTournament` | src/contexts/TournamentContext.tsx:91-100 | the new tournament takes the draft's fields and the id. It has no participants, no matches and status upcoming, and it is appended at the end |
| `Snapshots.JoinTournament` | src/contexts/TournamentContext.tsx:148-161 | false and no change for an unknown id, a tournament that is not upcoming, or a full one. Otherwise the name is appended to the participants of each tournament with that id, and nothing else changes |
| `Snapshots.StartTournament` | src/contexts/TournamentContext.tsx:180-192 | false and no change for an unknown id or fewer than 2 participants. Otherwise matches become the generated bracket and the status becomes ongoing. The status is not checked |
| `Snapshots.RecordWinner` | src/contexts/TournamentContext.tsx:210 | only the winner of the matches with that id changes; every other field stays |
| `Snapshots.UpdateMatch` | src/contexts/TournamentContext.tsx:206-217 | only the matches of the tournaments with that id change, by RecordWinner |
| `Snapshots.RegisterClub` | src/contexts/TournamentContext.tsx:233-240 | refused iff some club has the phone; otherwise the club built from the draft and the id |
| `Snapshots.LoginClub` | src/contexts/TournamentContext.tsx:253-258 | succeeds iff some club matches both the phone and the password, and returns such a club |
| `Snapshots.CreatePreserves` | src/contexts/TournamentContext.tsx:91-100 | creating with a new id keeps ids distinct and every tournament consistent |
| `Snapshots.JoinPreserves` | src/contexts/TournamentContext.tsx:149-160 | joining keeps the invariant, so capacity is never exceeded |
| `Snapshots.StartPreserves` | src/contexts/TournamentContext.tsx:181-191 | starting keeps the invariant: an ongoing tournament has at least 2 participants and its generated bracket |
| `Snapshots.UpdatePreserves` | src/contexts/TournamentContext.tsx:207-216 | recording a winner keeps the invariant. No tournament becomes completed |
| `Snapshots.StartFreezesParticipants` | src/contexts/TournamentContext.tsx:152-187 | after a successful start, joining that tournament fails |
| `Snapshots.JoinAcceptsDuplicateName` | src/contexts/TournamentContext.tsx:149-160 | a name already present is accepted and then occurs at least twice |
| `Snapshots.UpdateMatchIdempotent` | src/contexts/TournamentContext.tsx:207-216 | recording the same winner twice equals recording it once |
| `Snapshots.UpdateMatchNoAdvance` | src/contexts/TournamentContext.tsx:210-212 | players, rounds, matchNumbers, match ids, participants, status and the tournament's winner are unchanged, so no winner advances |
| `Snapshots.RecordWinnerKeepsWinnersPlayers` | src/contexts/TournamentContext.tsx:210 | given winners among the players, they stay so if and only if the caller passes a player of each match with that id |
| `Snapshots.RecordWinnerUnchecked` | src/contexts/TournamentContext.tsx:210 | a name that is neither player is recorded anyway |
| `Snapshots.RegisterKeepsPhonesUnique` | src/contexts/TournamentContext.tsx:235-237 | registration keeps club phones distinct |
| `Snapshots.RegisterThenLogin` | src/contexts/TournamentContext.tsx:234-257 | a club that has just registered logs in with its phone and password and gets itself back |
| `Snapshots.LoginExact` | src/contexts/TournamentContext.tsx:255 | with distinct phones, login returns club c iff c's phone and password are given |
| `Provider.TournamentProvider.constructor` | src/contexts/TournamentContext.tsx:50-52 | the state starts with no tournaments, no clubs and no signed-in club, and it is valid |
| `Provider.TournamentProvider.CreateTournament` | src/contexts/TournamentContext.tsx:90-101 | stores the appended list and returns the new tournament; validity is kept when the id is new |
| `Provider.TournamentProvider.JoinTournament` | src/contexts/TournamentContext.tsx:148-161 | stores the join's snapshot and returns its verdict; validity is kept |
| `Provider.TournamentProvider.StartTournament` | src/contexts/TournamentContext.tsx:180-192 | stores the start's snapshot and returns its verdict; validity is kept |
| `Provider.TournamentProvider.UpdateMatch` | src/contexts/TournamentContext.tsx:206-217 | stores the updated snapshot; validity is kept |
| `Provider.TournamentProvider.RegisterClub` | src/contexts/TournamentContext.tsx:233-240 | on success, appends the club and signs it in. On refusal, nothing changes |
| `Provider.TournamentProvider.LoginClub` | src/contexts/TournamentContext.tsx:253-258 | on success, signs in the first matching club. Otherwise nothing changes |
| `Provider.TournamentProvider.LogoutClub` | src/contexts/TournamentContext.tsx:269-271 | clears the signed-in club |
| `BracketView.FormatRoundLabel` | src/components/Bracket.tsx:16-22 | differences 0, 1 and 2 give "Final", "Semifinal" and "Quarterfinal". Any other difference, negative ones included, gives "Round " and the round number |
| `BracketView.IntToStringRoundTrip` | src/components/Bracket.tsx:21 | the number in "Round {roundNumber}" reads back as roundNumber |
| `BracketView.FormatRoundLabelInjective` | src/components/Bracket.tsx:16-22 | different rounds of one bracket never get the same label |
| `BracketView.MaxRound` | src/components/Bracket.tsx:57 | `rounds` is the largest round number and is attained by some match |
| `BracketView.GroupByRound` | src/components/Bracket.tsx:55-59 | no grouping for an empty list. Otherwise the keys are 1..rounds and each entry is exactly the round's matches, in order |
| `BracketView.GeneratedBracketColumns` | src/components/Bracket.tsx:57-59 | for a generated bracket, the columns are rounds 1..ceil(log2 n). The last column is labelled "Final" and holds one match, and column r holds RoundSize(n, r) matches |
| `BracketView.WinButtonReport` | src/components/Bracket.tsx:124-125 | a button reports iff its slot holds a non-empty name; the id reported is the selected match's, and the winner is the player in the clicked button's own slot (player1 for the first button, player2 for the second) |
| `BracketView.DialogWinnerIsPlayer` | src/components/Bracket.tsx:124-125 | when match ids are distinct, a winner chosen in the dialog and recorded by updateMatch's `RecordWinner` keeps every recorded winner among its match's players |
| `BracketView.WinnerDialog.constructor` | src/components/Bracket.tsx:52-53 | no selection, dialog closed |
| `BracketView.WinnerDialog.OpenMatch` | src/components/Bracket.tsx:61-64 | selects the match and opens the dialog |
| `BracketView.WinnerDialog.Close` | src/components/Bracket.tsx:123 | closes the dialog and keeps the selection |
| `BracketView.WinnerDialog.HandleWin` | src/components/Bracket.tsx:66-71 | with no selection, nothing happens. Otherwise it produces the report (selected id, winner) once, closes the dialog and clears the selection. The report is what is passed to `onWinnerSelect` when the caller supplies it; without one (the player view) the click only closes the dialog |
| `BracketView.WinnerDialog.ClickWinButton` | src/components/Bracket.tsx:124-125 | an open dialog's enabled button reports its own player. A disabled button, or a closed dialog, changes nothing |
| `JoinPage.TrimEmptyIffBlank` | src/pages/JoinTournament.tsx:53 | `trim()` gives "" exactly for strings made only of JavaScript whitespace |
| `JoinPage.CheckJoin` | src/pages/JoinTournament.tsx:53-71 | the guards apply in order and the first failure is reported; nothing is reported iff the nickname is not blank, the tournament is upcoming and not full, and the nickname is not taken |
| `JoinPage.PageJoinKeepsNamesDistinct` | src/pages/JoinTournament.tsx:68-73 | a nickname the page lets through is accepted by the context, appended, and keeps the participants distinct |
| `JoinPage.UntrimmedNicknameAccepted` | src/pages/JoinTournament.tsx:53-73 | the duplicate check does not trim: "A " passes when "A" is registered |
| `JoinPage.JoinButtonText` | src/pages/JoinTournament.tsx:159-165 | the text is "Join Tournament" iff the button is enabled. "Tournament Started" takes precedence over "Tournament Full" |
| `JoinPage.EnabledButtonPassesStateGuards` | src/pages/JoinTournament.tsx:58-66 | with the button enabled, the started and full guards cannot fail |
| `JoinPage.JoinTournamentPage.constructor` | src/pages/JoinTournament.tsx:19-20 | the page starts from the context's synchronous lookup |
| `JoinPage.JoinTournamentPage.ChangeNickname` | src/pages/JoinTournament.tsx:149 | the input replaces the nickname |
| `JoinPage.JoinTournamentPage.HandleJoin` | src/pages/JoinTournament.tsx:50-83 | a failed guard is reported and changes nothing. Otherwise joinTournament runs. On success the page is marked joined and takes getTournamentById's result, which in memory is the context's copy from before the join, without the new nickname |

## Left out

- The remote branches (`fetch` against the API base), the loading effect and `mapTournament`: these are network I/O and date parsing. The model is the in-memory mode only, where the asynchronous `getTournamentById` is the same `find` over the render-time list as `getTournamentByIdSync`.
- `Math.random()` ids for tournaments, matches and clubs: these are parameters. Match ids are a function `ids` whose k-th value is the id of the k-th match pushed. No uniqueness is assumed. When several tournaments share an id, start gives them the same ids, where the original would draw new ones for each.
- `Math.log2` works in floating point. The model uses the exact integer `CeilLog2`.
- Winner advancement into the next round, the tournament's `winner`, and the `completed` status: the original omits them in the in-memory mode, so the model has none.
- The handlers are `async`, and they read the render-time `tournaments` for their guards while they update `prev`. The model runs commands one at a time on a single snapshot.
- `maxParticipants` comes from `parseInt` and can be NaN. Every comparison with NaN is false, so such a tournament would never count as full. The model's capacity is an integer.
- The nickname input's `maxLength={20}` is enforced by the browser and is not modelled.
- Rendering, zoom and pan, toasts, QR codes, the clipboard and routing are not modelled. The other pages and their status colours are left out too, and so are the credential forms of the sign-in page.
- The dialog's buttons are modelled as reachable only while it is open, since the dialog content is not rendered when it is closed.
- Provider.TournamentProvider.CreateTournament: validity is promised only when the new id is not already taken, because the original never checks it.
