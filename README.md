# among-cubes: the match core in Dafny

among-cubes is a social-deduction multiplayer game. Players are seated in
matches ("games") of at most eight players. Each player wears one of eight
colours, and a once-a-second heartbeat drives each game through its phases:
- waiting for players;
- minimum players reached;
- countdown;
- in progress;
- emergency meeting, with its poll;
- ending.

This project models that core:
- The colour palette.
- The translated messages.
- Player sessions and their registry.
- The poll of an emergency meeting.
- The phase state machine.
- A game's roster, colour pool and phase, and the matchmaking and heartbeat fan-out of the game manager.
- The experience and level rules.
- The periodic chat broadcaster.
- The spectator mode.
- The teleport stations.

Modules, one per source area:

| module | file | models |
|---|---|---|
| `Wrappers` | wrappers.dfy | `Option`, `Result`, `Outcome`: `null` and thrown errors |
| `Config` | config.dfy | the constants of `src/utils/config.ts` |
| `Colors` | colors.dfy | `Color` as a value, `ColorFactory.createColors` |
| `Messages` | message.dfy | `Message.t`, the English table, the `{key}` substitution |
| `Sessions` | session.dfy | `PlayerSession` (class), `PlayerSessionManager` (class) |
| `Polls` | poll.dfy | `Poll` (class) and the tally as functions over ballots |
| `Phases` | phase.dfy | the phases as one datatype, their timers and transitions |
| `Games` | game.dfy | `Game` (class): join, leave, restart, the phases' handlers, the meeting's kick |
| `Matchmaking` | manager.dfy | `GameManager` (class): most suitable game, assignment, heartbeat fan-out, rotation after a match |
| `Experience` | experience.dfy | `PlayerExperienceManager` (class) and the level formula |
| `Broadcasting` | broadcast.dfy | `Broadcaster` (class) and its timer |
| `Spectating` | spectator.dfy | `PlayerSpectatorModeManager` (class) |
| `Teleports` | teleport.dfy | `TeleportStation` and `TeleportStationManager` (classes) |

## How the source is read

**Objects are classes; phases are values.**
- Objects whose fields the source updates in place are classes whose methods carry `modifies` clauses and state the new state outright.
- A phase belongs to one game and is replaced on every transition. It is a value (the datatype `Phases.Phase`) held in `Game.phase`.
- A phase's timers are fields of that value. Its `handleX`/`onX` hooks are pure step functions (`AfterHeartbeat`, `AfterJoin`, `AfterLeave`) that the `Game` methods install.

**Calls to members that `Game` does not define.** The phases call `addPlayer`, `removePlayer` and `canBeJoined`, and name hooks such as `onHeartbeat`; `Game.ts` does not define these. The model reads them as follows:
- `addPlayer` is `handlePlayerSessionJoin` (`Games.Game.Join`).
- `removePlayer` is `handlePlayerSessionLeave` (`Games.Game.Leave`).
- `canBeJoined` is "the colour pool is not empty".
- `onX` is `handleX`.

**Class invariants are stated against a ghost seat list.**
- The invariant of `Game` is that every roster member is seated in the game, wearing the colour at its position of a ghost `seats` list.
- Seats plus pool are exactly the eight factory colours, as a multiset.
- The phase's timers agree with the roster size.
- Every method that changes a game keeps this invariant. From it follows that nobody is seated twice and no colour is handed out twice.

**Randomness and the engine become parameters.** Randomness, the engine and the clock are parameters of the operation that uses them:
- the broadcast pick;
- the shuffled roster of the spectator mode;
- whether a coin charge succeeded;
- whether a game is being played;
- whether a player is online.

**Where the code behaves differently from what its names suggest, the model follows the code:**
- Matchmaking picks only among games that wait for players. It does not look at free colours.
- The in-progress phase has an empty heartbeat and no join or leave reaction, so no role assignment and no win check happen there.
- A join appends the session to the roster before it looks at the colour pool. A join on an empty pool therefore throws with the session listed but not seated (`Games.Game.Join`).
- A returned colour goes to the end of the pool, so a join followed by a leave restores the pool as a multiset, not in order (`Games.PaletteTake`, `Games.PaletteGive`).

**Message ids missing from the English table.** The English table (`src/messages/languages/en_en.ts`) holds thirteen messages. Every other id makes `Message.t` throw (`Messages.PhaseIdsMissing`). The model keeps each such throw where the code reaches it:
- every spectator-mode message (`Spectating.HeartbeatAlwaysThrows`);
- the teleport station's no-coins popup (`Teleports.NoCoinsMissing`);
- the first feedback message of a meeting or ending heartbeat with somebody on the roster. The throw ends that heartbeat after its timers have moved, and it ends the game manager's fan-out, so the games after it get no heartbeat (`Phases.FeedbackThrowsExactly`, `Games.Game.Heartbeat`, `Matchmaking.GameManager.Tick`);
- the voted-out message of a meeting's kick. It throws before anybody leaves, so the meeting is not set back to in progress. Each later heartbeat resolves the same poll again (`Games.Game.EndMeeting`, `Phases.ResolutionRetried`). It keeps throwing while a wearer of the winning colour stays in the game, assuming the process survives the uncaught error. Once that wearer leaves, the next resolution passes and the match resumes.

The other missing ids (the second message of each meeting heartbeat, the kick's titles, the ending's achievements) are never looked up, because an earlier message of the same heartbeat has already thrown.

## Model

| member | source | states |
|---|---|---|
| Colors.CreateColors | src/game/color/ColorFactory.ts:6-17 | the factory yields eight colours, no two equal |
| Colors.CreateColorsOrder | src/game/color/ColorFactory.ts:8-15 | the factory order is black, blue, green, pink, purple, red, white, yellow |
| Colors.CreateColorsCoversAllTypes | src/game/color/ColorFactory.ts:6-17 | every colour type is in the factory list |
| Colors.ColorNames | src/game/phase/phases/EmergencyMeetingPhase.ts:210-214 | the colour values listed by the meeting, one per factory colour and in factory order |
| Colors.SkinPathShape | src/game/color/Color.ts:15-17 | a skin path is `models/players/`, the colour value, then `.gltf` |
| Colors.SkinPathInjective | src/game/color/Color.ts:15-17 | two colours with the same skin path are the same colour |
| Messages.Message.ToString | src/messages/Message.ts:21-31 | fails with a missing-translation error exactly when the table has no text or an empty one for the id; otherwise yields the template after placeholder substitution |
| Messages.WordRun | src/messages/Message.ts:28 | the length of the longest prefix of word characters (`\w+`) |
| Messages.PlaceholderAt | src/messages/Message.ts:28 | a match is `{`, a non-empty word-character key, then `}` |
| Messages.NoPlaceholderUnchanged | src/messages/Message.ts:28-30 | a template without `{` comes back unchanged |
| Messages.NoArgumentsUnchanged | src/messages/Message.ts:28-30 | when no argument is a non-empty string, the template comes back unchanged (for keys that are own entries of `args`; see Left out) |
| Messages.PlaceholderKept | src/messages/Message.ts:29 | a leading placeholder whose own argument is missing or empty is put back as it stood, whatever the other arguments (`args[key] \|\| match`; for keys that are own entries of `args`, see Left out) |
| Messages.PlaceholderReplaced | src/messages/Message.ts:28-30 | a leading `{key}` is replaced by its argument and scanning resumes after the closing brace |
| Messages.PlainCharCopied | src/messages/Message.ts:28-30 | a character that opens no placeholder is copied and scanning resumes after it, a `{` without a key and `}` behind it (`{}`, `{ x}`) included |
| Messages.ArgumentNotRescanned | src/messages/Message.ts:28-30 | inserted text is not scanned again: `{key}` becomes exactly its argument |
| Messages.MissingIdFails | src/messages/Message.ts:22-26 | an id absent from the table makes `t` throw, whatever the arguments |
| Messages.WithoutArgumentsIsTemplate | src/messages/Message.ts:12-14 | `t` without arguments returns the table text as it is |
| Messages.PhaseIdsMissing | src/messages/languages/en_en.ts:1-15 | none of the meeting, kick and ending message ids is in the English table |
| Messages.MeetingIdsMissing | src/messages/languages/en_en.ts:1-15 | the meeting's starting, running and kick message ids are not in the English table |
| Messages.EndingIdsMissing | src/messages/languages/en_en.ts:1-15 | the kick's titles and the ending's countdown and achievement ids are not in the English table |
| Sessions.PlayerSession.constructor | src/player/PlayerSession.ts:11-15 | a new session has its player, no game and no colour |
| Sessions.PlayerSession.SetGame | src/player/PlayerSession.ts:25-27 | the game becomes the argument; nothing else changes |
| Sessions.PlayerSession.SetColor | src/player/PlayerSession.ts:33-35 | the colour becomes the argument; nothing else changes |
| Sessions.PlayerSession.SetRole | src/game/phase/Phase.ts:58-61 | the role becomes the argument; nothing else changes |
| Sessions.PlayerSession.Reset | src/player/PlayerSession.ts:37-40 | game and colour are cleared; player and role stay |
| Sessions.PlayerSessionManager.constructor | src/player/PlayerSessionManager.ts:6 | the registry starts empty |
| Sessions.PlayerSessionManager.GetSession | src/player/PlayerSessionManager.ts:8-10 | null exactly when the username has no session, else that session |
| Sessions.PlayerSessionManager.GetSessionOrThrow | src/player/PlayerSessionManager.ts:12-20 | an error exactly when the username has no session, else that session |
| Sessions.PlayerSessionManager.OpenSession | src/player/PlayerSessionManager.ts:22-26 | a fresh session is stored under the username, replacing an earlier one in its place in the iteration order; lookups then return it |
| Sessions.PlayerSessionManager.CloseSession | src/player/PlayerSessionManager.ts:28-30 | exactly the username's entry is removed; the iteration order of the others is kept |
| Sessions.PlayerSessionManager.Values | src/game/phase/phases/WaitingForPlayersPhase.ts:24 | the sessions in the registry's iteration order |
| Sessions.PlayerSessionManager.ValuesDistinct | src/player/PlayerSessionManager.ts:22-26 | the registry never yields one session twice |
| Sessions.RemoveKey | src/player/PlayerSessionManager.ts:29 | deleting a key keeps exactly the other keys, without introducing repeats |
| Polls.Poll.constructor | src/utils/Poll.ts:14-17 | a new poll has its options and no ballots |
| Polls.Poll.HasVoted | src/utils/Poll.ts:55-57 | true exactly when the session's username has a ballot |
| Polls.Poll.GetVotedOption | src/game/phase/phases/EmergencyMeetingPhase.ts:122-123 | present exactly when the session has voted, and then it is the option of its ballot |
| Polls.Poll.Vote | src/utils/Poll.ts:60-66 | an option outside the poll is refused and nothing changes; otherwise the voter's ballot is set, overwriting a previous one in place; one ballot per voter, all for poll options |
| Polls.Poll.OptionsWithNumberOfVotes | src/utils/Poll.ts:43-52 | the tally lists each voted option once, in order of its first ballot, with its number of ballots; the counts add up to the number of ballots |
| Polls.Poll.MostVotedOptions | src/utils/Poll.ts:20-40 | without repeats, exactly the options with a ballot and no fewer ballots than any other option; empty exactly when nobody voted; only poll options |
| Polls.HighestCount | src/utils/Poll.ts:24-29 | the result is at least every count in the tally and is one of them (or 0 for an empty tally) |
| Polls.KeysWithCount | src/utils/Poll.ts:32-37 | the tally's keys whose count equals the maximum, in tally order |
| Polls.VoteOf | src/utils/Poll.ts:11 | a voter's option is present exactly when the voter has a ballot, and it is that ballot's option |
| Polls.MostVoted | src/utils/Poll.ts:20-40 | the keys with the highest tally count are exactly the most-voted options, without repeats, empty exactly when there are no ballots |
| Polls.MostVotedIsMax | src/utils/Poll.ts:32-37 | a most-voted option appears in the tally with the highest count |
| Polls.TallySum | src/utils/Poll.ts:43-52 | the counts of any exact tally add up to the number of ballots; with one ballot per voter, that is the number of distinct voters |
| Polls.TallyExact | src/utils/Poll.ts:43-52 | counting the ballots one by one gives exactly their tally, whose counts add up to the number of ballots |
| Polls.BumpTotal | src/utils/Poll.ts:48-49 | each counting step adds one to the sum of the counts |
| Polls.TallyBounds | src/utils/Poll.ts:24-29 | the highest tally count bounds the ballots of every option, tallied or not |
| Polls.TallyPositive | src/utils/Poll.ts:47-49 | every tallied option has at least one ballot |
| Polls.BumpKeys | src/utils/Poll.ts:47-49 | one more counted ballot keeps the tally keys in first-ballot order |
| Polls.BumpCounts | src/utils/Poll.ts:47-49 | one more counted ballot keeps every tally count equal to that option's ballots |
| Polls.MaxKeysMembers | src/utils/Poll.ts:32-37 | a key is collected exactly when the tally holds it with the maximum count; distinct keys give a list without repeats |
| Polls.OptionsListed | src/utils/Poll.ts:61-65 | ballots accepted by `vote` name only poll options |
| Polls.DedupMembers | src/utils/Poll.ts:44-49 | the keys of a map filled from a list are exactly the list's elements |
| Polls.DedupDistinct | src/utils/Poll.ts:44-49 | the keys of a map filled from a list have no repeats |
| Polls.CountAbsent | src/utils/Poll.ts:48 | an option nobody chose has no ballots |
| Polls.CountPresent | src/utils/Poll.ts:48 | an option someone chose has at least one ballot |
| Polls.SetBallotVoters | src/utils/Poll.ts:65 | after setting a ballot, the voters are the old ones plus this voter |
| Polls.SetBallotDistinct | src/utils/Poll.ts:65 | setting a ballot keeps one ballot per voter |
| Polls.SetBallotOptions | src/utils/Poll.ts:61-65 | setting a ballot for a poll option keeps every ballot on a poll option |
| Polls.SetBallotVoteOf | src/utils/Poll.ts:65 | after setting a ballot the voter's option is the new one and every other voter's is unchanged |
| Polls.SetBallotLength | src/utils/Poll.ts:65 | setting a ballot adds one exactly when the voter had none |
| Polls.SetBallotIdempotent | src/utils/Poll.ts:65 | voting twice for the same option is voting once |
| Phases.Phase.GetPhaseType | src/game/phase/Phase.ts:17 | each of the seven phase types is reported exactly for its own phase |
| Phases.NewEnding | src/game/phase/phases/EndingPhase.ts:15-19 | a new ending phase has the full ending timer and the given crew-win flag |
| Phases.MeetingPollOptions | src/game/phase/phases/EmergencyMeetingPhase.ts:209-220 | the meeting poll lists every colour value in factory order, then `skip` |
| Phases.SkipIsNoColor | src/game/phase/phases/EmergencyMeetingPhase.ts:31 | `skip` is no colour value |
| Phases.NewEmergencyMeeting | src/game/phase/phases/EmergencyMeetingPhase.ts:33-50 | both timers at their start values, a fresh empty poll over the meeting options, the requester's colour and name and whether a cadaver was reported captured |
| Phases.AfterHeartbeat | src/game/phase/phases/EmergencyMeetingPhase.ts:72-160 | the phase after a heartbeat that does not throw: a meeting heartbeat that resolves returns to the match in progress, any other counts the meeting down; an ending heartbeat that runs out returns to waiting, any other lowers its timer by one |
| Phases.StaticPhasesStay | src/game/phase/Phase.ts:19-21 | heartbeats never change the waiting, in-progress or voting phase value |
| Phases.MinimumPlayersCounts | src/game/phase/phases/MinimumPlayersReachedPhase.ts:24-27 | each heartbeat before the transition lowers the counter by one |
| Phases.MinimumPlayersTransition | src/game/phase/phases/MinimumPlayersReachedPhase.ts:24-36 | four heartbeats count down; the fifth starts the countdown phase |
| Phases.CountdownCounts | src/game/phase/phases/CountdownPhase.ts:22-24 | each heartbeat with a positive counter lowers it by one |
| Phases.CountdownTransition | src/game/phase/phases/CountdownPhase.ts:22-31 | ten heartbeats take the counter from 10 to 0; the eleventh starts the match |
| Phases.CountdownNeverNegative | src/game/phase/phases/CountdownPhase.ts:23-24 | the countdown counter never goes below zero |
| Phases.MeetingHides | src/game/phase/phases/EmergencyMeetingPhase.ts:72-82 | while the hide timer lasts, heartbeats only lower it |
| Phases.MeetingRuns | src/game/phase/phases/EmergencyMeetingPhase.ts:114-119 | once the hide timer is spent, heartbeats lower both timers until the end |
| Phases.MeetingAt | src/game/phase/phases/EmergencyMeetingPhase.ts:72-119 | the timers of a fresh meeting before each of its fifteen heartbeats |
| Phases.MeetingSchedule | src/game/phase/phases/EmergencyMeetingPhase.ts:72-160 | heartbeats 1-4 show the starting messages, heartbeat 5 sets up the vote, heartbeats 6-15 run it, and heartbeat 15 alone resolves it; a resolution that goes through returns to the match, and one that throws leaves the meeting counted down with the same poll, resolving again on heartbeat 16 |
| Phases.EndingCounts | src/game/phase/phases/EndingPhase.ts:31-34 | each heartbeat before the last lowers the ending timer by one |
| Phases.EndingSchedule | src/game/phase/phases/EndingPhase.ts:31-42 | heartbeats 1-9 only count down, keeping the winner flag; heartbeat 10 rotates the players and waits again |
| Phases.ShownNumbersContiguous | src/game/phase/phases/MinimumPlayersReachedPhase.ts:24-36 | from minimum players reached to the match, the shown numbers run 13 to 10, then 9 to 0, with no gap |
| Phases.AfterJoin | src/game/phase/phases/WaitingForPlayersPhase.ts:31-39 | waiting moves on at quorum; minimum players reached starts the countdown when the pool is empty; other phases ignore joins |
| Phases.AfterLeave | src/game/phase/phases/MinimumPlayersReachedPhase.ts:47-52 | minimum players reached and countdown return to waiting below quorum; other phases ignore leaves |
| Phases.WaitingFills | src/game/phase/phases/WaitingForPlayersPhase.ts:35-38 | joins into a waiting game keep it waiting below quorum, move it to minimum players reached at quorum, and to the countdown when the pool empties |
| Phases.MinimumPlayersFills | src/game/phase/phases/MinimumPlayersReachedPhase.ts:42-44 | joins keep minimum players reached until the pool is empty, then the countdown starts |
| Phases.JoinsKeepEnding | src/game/phase/Phase.ts:27-29 | joins never start or end the ending phase |
| Phases.FreshPhasesConsistent | src/game/phase/phases/EmergencyMeetingPhase.ts:36-37 | new waiting, meeting and ending phases satisfy the phase invariant |
| Phases.HeartbeatConsistent | src/game/phase/phases/CountdownPhase.ts:22-31 | a heartbeat keeps the phase invariant (timers in range, quorum for the starting phases), including a meeting left counted down by a resolution that threw |
| Phases.JoinConsistent | src/game/phase/phases/WaitingForPlayersPhase.ts:35-38 | a join keeps the phase invariant |
| Phases.LeaveConsistent | src/game/phase/phases/CountdownPhase.ts:34-38 | a leave keeps the phase invariant |
| Phases.MeetingIgnoresRoster | src/game/phase/phases/EmergencyMeetingPhase.ts:189 | a kick during a meeting keeps the phase invariant whatever the roster size |
| Phases.JoinAnnouncementRecipients | src/game/phase/Phase.ts:39-56 | the join announcement reaches exactly the roster members with another username |
| Phases.PlayersLeftCount | src/game/phase/Phase.ts:50 | the announced number plus the roster size is the quorum; it is at most zero exactly at quorum |
| Phases.IsWinner | src/game/phase/phases/EndingPhase.ts:51 | a player wins exactly when the crew won and they are crew, or the crew lost and they are the impostor |
| Phases.OneSideWins | src/game/phase/phases/EndingPhase.ts:51 | crew and impostor never both win or both lose |
| Phases.KickTarget | src/game/phase/phases/EmergencyMeetingPhase.ts:144-158 | a kick happens exactly when one option is most voted and it is not `skip` |
| Phases.ResolutionRetried | src/game/phase/phases/EmergencyMeetingPhase.ts:114-119 | a meeting whose resolution threw keeps its poll and resolves again on its next heartbeat, with a lower end timer |
| Phases.FeedbackThrowsExactly | src/game/phase/phases/EmergencyMeetingPhase.ts:93-135 | a heartbeat's first message is missing from the table exactly on the meeting's starting and running heartbeats short of the resolution and on the ending's heartbeats short of the rotation, whatever the first member voted; waiting and minimum-players feedback translate |
| Phases.FeedbackTranslation | src/messages/Message.ts:22-26 | `Message.t` on a heartbeat's first message fails, whatever the arguments, exactly when that message is missing, and then with that id |
| Phases.KickIsStrictWinner | src/game/phase/phases/EmergencyMeetingPhase.ts:144-158 | a kick happens exactly when one non-skip option has strictly more ballots than every other; a tie or an empty poll kicks nobody |
| Games.WithoutMembers | src/game/Game.ts:76 | filtering keeps exactly the other members |
| Games.WithoutMember | src/game/Game.ts:76 | filtering a member out of a roster without repeats removes one entry and keeps it without repeats |
| Games.WithoutAt | src/game/Game.ts:76 | filtering out the member at a position cuts exactly that position out |
| Games.WithoutHead | src/game/Game.ts:44-46 | the first member leaving leaves the rest of the roster |
| Games.PaletteTake | src/game/Game.ts:66 | taking the pool's first colour for a seat keeps seats plus pool equal to the eight colours |
| Games.PaletteGive | src/game/Game.ts:84 | returning a seat's colour to the end of the pool keeps seats plus pool equal to the eight colours |
| Games.PaletteSize | src/game/Game.ts:49 | seats plus pool always number eight |
| Games.PaletteDisjoint | src/game/Game.ts:61-66 | a colour is never both worn and in the pool |
| Games.PaletteSeatsDistinct | src/game/Game.ts:61-66 | no two seated players wear the same colour |
| Games.GameLess | src/game/phase/phases/WaitingForPlayersPhase.ts:25 | flags exactly the candidates that have no game |
| Games.Admitted | src/game/phase/phases/WaitingForPlayersPhase.ts:24-28 | a waiting heartbeat admits at most as many players as there are free colours |
| Games.AdmittedIsPrefix | src/game/phase/phases/WaitingForPlayersPhase.ts:24-28 | the admitted players are the first game-less candidates, as many as fit |
| Games.FreeOnesMembers | src/game/phase/phases/WaitingForPlayersPhase.ts:24-25 | exactly the candidates flagged free are listed |
| Games.AdmittedFree | src/game/phase/phases/WaitingForPlayersPhase.ts:24-26 | only candidates without a game are admitted |
| Games.KeptSeats | src/game/phase/phases/EmergencyMeetingPhase.ts:169 | no remaining seat has the voted-out colour |
| Games.KeptMembers | src/game/phase/phases/EmergencyMeetingPhase.ts:167-191 | the kick keeps a member exactly when its colour is not the voted-out one |
| Games.KeptWithin | src/game/phase/phases/EmergencyMeetingPhase.ts:189 | the kick only removes members |
| Games.KeptNoneCalled | src/game/phase/phases/EmergencyMeetingPhase.ts:168-169 | a kick by a colour nobody wears removes nobody |
| Games.KeptRemovesAtMostOne | src/game/phase/phases/EmergencyMeetingPhase.ts:167-191 | with distinct colours a kick removes at most one member |
| Games.Winner | src/game/phase/phases/EmergencyMeetingPhase.ts:144-158 | the voted-out colour is the single non-skip option with strictly the most ballots, if there is one |
| Games.KickTargetIsWinner | src/game/phase/phases/EmergencyMeetingPhase.ts:144-158 | the target read off the most-voted list is that strict winner |
| Games.StrictWinnerUnique | src/game/phase/phases/EmergencyMeetingPhase.ts:147 | at most one option wins strictly |
| Games.Game.ValidSeated | src/game/Game.ts:59-66 | in a valid game nobody is on the roster twice |
| Games.Game.constructor | src/game/Game.ts:15-20 | a new game has an empty roster, the full pool in factory order, the waiting phase, and is valid |
| Games.Game.SetPhase | src/game/Game.ts:38-41 | the phase becomes the argument |
| Games.Game.MakeSurePlayersHaveNoKnife | src/game/phase/Phase.ts:58-63 | every roster member is crew afterwards |
| Games.Game.HandleJoin | src/game/phase/phases/WaitingForPlayersPhase.ts:31-39 | the phase after a join is `AfterJoin` of the old one; the reacting phases make everybody crew and the others change no role |
| Games.Game.HandleLeave | src/game/phase/phases/MinimumPlayersReachedPhase.ts:47-52 | the phase after a leave is `AfterLeave` of the old one |
| Games.Game.Join | src/game/Game.ts:54-69 | a session with a game is refused and nothing changes; with an empty pool the session is listed but the join fails unseated; otherwise it is seated with the pool's first colour and the phase reacts; a seated join keeps the game valid |
| Games.Game.Seat | src/game/Game.ts:65-66 | the session takes this game and the pool's first colour, which leaves the pool |
| Games.Game.JoinKeepsValid | src/game/Game.ts:59-68 | a seated join keeps the game invariant |
| Games.Game.Leave | src/game/Game.ts:71-88 | a session of another game is refused and nothing changes; otherwise it is filtered out; a colourless one then fails; a seated one returns its colour to the end of the pool, is reset and the phase reacts; a seated member always leaves successfully and keeps the game valid |
| Games.Game.GiveBackColor | src/game/Game.ts:78-87 | a colourless session fails; otherwise its colour goes to the end of the pool, it is reset, and the phase reacts |
| Games.Game.LeaveFirst | src/game/Game.ts:44-46 | the first member leaves and is reset; the others keep their seats |
| Games.Game.Restart | src/game/Game.ts:43-52 | every player present leaves and is reset, the roster empties, the pool is refilled in factory order, the game waits, and it is valid |
| Games.Game.PullPlayers | src/game/phase/phases/WaitingForPlayersPhase.ts:24-28 | the roster grows by exactly the admitted candidates, in order; each takes the next pool colour; the phase is that of as many joins; the game stays valid |
| Games.Game.PullCandidate | src/game/phase/phases/WaitingForPlayersPhase.ts:25-27 | a candidate without a game joins while a colour remains, otherwise nothing changes |
| Games.Game.KickIfCalled | src/game/phase/phases/EmergencyMeetingPhase.ts:169-190 | corrected kick: a member wearing the voted-out colour leaves; any other is passed over |
| Games.Game.KickMember | src/game/phase/phases/EmergencyMeetingPhase.ts:189 | corrected kick: the voted-out member's position is cut out of roster and seats; the meeting phase stays; the game stays valid |
| Games.Game.KickVotedOut | src/game/phase/phases/EmergencyMeetingPhase.ts:167-192 | corrected kick: the roster keeps exactly the members not wearing the voted-out colour, in order; the game stays valid |
| Games.Game.EndMeeting | src/game/phase/phases/EmergencyMeetingPhase.ts:144-171 | as the code runs it: when the poll has a strict winner that some member wears, the kick throws the missing `YOU_WERE_VOTED_OUT` before anybody leaves, and roster, seats, pool and meeting stay as they were; otherwise nobody is kicked and the match is in progress again; the game stays valid |
| Games.Game.Wears | src/game/phase/phases/EmergencyMeetingPhase.ts:168-169 | the walk over the roster finds a member exactly when some seat's colour is called `name` |
| Games.Game.EndMeetingAsIntended | src/game/phase/phases/EmergencyMeetingPhase.ts:144-192 | corrected resolution: the strict poll winner, if any, is kicked, otherwise nobody is; then the match is in progress again; the game stays valid |
| Games.Game.KickIfVotedOut | src/game/phase/phases/EmergencyMeetingPhase.ts:147-158 | corrected kick: with a voted-out colour the roster keeps exactly the members not wearing it; without one nothing changes; the game stays valid and nobody joins |
| Games.Game.MeetingTarget | src/game/phase/phases/EmergencyMeetingPhase.ts:145-158 | the target computed from the most-voted list is the strict poll winner |
| Games.Game.Heartbeat | src/game/phase/phases/EmergencyMeetingPhase.ts:72-135 | waiting pulls in the admitted candidates and does not throw; a resolving meeting throws exactly when a member wears the strict winner's colour, and then stays counted down with roster, seats and pool unchanged, otherwise it returns to the match; every other phase steps its timers and then throws exactly when the roster is not empty and its first feedback id is missing, with that id; a throw leaves a meeting or an ending with a roster; the game stays valid; no heartbeat enters the ending phase |
| Games.Game.FinishEnding | src/game/phase/phases/EndingPhase.ts:40-41 | after the players are gone, the ending game waits for players again |
| Matchmaking.GameManager.MostSuitableUnique | src/game/GameManager.ts:25-31 | at most one game is the most suitable |
| Matchmaking.GameManager.constructor | src/game/GameManager.ts:9-12 | the registry starts empty |
| Matchmaking.GameManager.GetMostSuitableGame | src/game/GameManager.ts:18-34 | null exactly when no game waits; otherwise the waiting game with the most players, the earliest registered on ties |
| Matchmaking.GameManager.CreateGame | src/game/GameManager.ts:36-40 | a fresh waiting game is registered under the next id; the others stay |
| Matchmaking.GameManager.Choose | src/game/GameManager.ts:43-47 | the most suitable game, or a new one when none waits; it waits and has a free colour |
| Matchmaking.GameManager.Assign | src/game/GameManager.ts:42-52 | the session joins the most suitable or a new game; a session that already has a game is refused after the choice; other games are untouched |
| Matchmaking.GameManager.Enter | src/game/GameManager.ts:49 | the session joins the chosen game; the registry stays valid |
| Matchmaking.GameManager.Tick | src/game/GameManager.ts:54-60 | games get one heartbeat each in id order, including those registered during the tick, until one throws: the games below `visited` got one and the others none; without a throw every game got one; rosters only gain open sessions |
| Matchmaking.GameManager.TickStep | src/game/GameManager.ts:56-58 | visiting the next game advances the fan-out's bookkeeping by one id; a throw comes from a meeting or an ending with a roster |
| Matchmaking.GameManager.BeatGame | src/game/GameManager.ts:57 | one game's heartbeat; the ending's last heartbeat sends all its players to other registered games, empties it and does not throw; no other game takes a heartbeat or starts ending; a throw leaves a meeting or an ending with a roster |
| Matchmaking.GameManager.Beat | src/game/GameManager.ts:57 | a heartbeat that is the game's own leaves the registry and the other games unchanged; a throw leaves the game a meeting or an ending with a roster |
| Matchmaking.GameManager.Rotate | src/game/phase/phases/EndingPhase.ts:34-42 | every player of the ending game is assigned to another registered game, and the game then waits, empty; at most one game is registered per player moved |
| Matchmaking.GameManager.RotateAll | src/game/phase/phases/EndingPhase.ts:35-38 | each player of the ending game, in roster order, leaves it for another game |
| Matchmaking.GameManager.Conclude | src/game/phase/phases/EndingPhase.ts:40-41 | once emptied, the ending game waits for players again and the registry stays valid |
| Matchmaking.GameManager.RotateStep | src/game/phase/phases/EndingPhase.ts:36-37 | one more player of the ending game has moved to another game |
| Matchmaking.GameManager.Move | src/game/phase/phases/EndingPhase.ts:36-37 | the first player of the ending game leaves and is placed in another registered game |
| Matchmaking.GameManager.Place | src/game/phase/phases/EndingPhase.ts:37 | a game-less player lands in a registered game that is not ending; the ending game is untouched |
| Matchmaking.GameManager.Vacate | src/game/phase/phases/EndingPhase.ts:36 | the first player leaves the ending game; the registry is unchanged |
| Experience.NecessaryStrict | src/player/PlayerExperienceManager.ts:40-42 | a higher level needs strictly more experience |
| Experience.NecessaryMonotone | src/player/PlayerExperienceManager.ts:40-42 | the experience a level needs never decreases |
| Experience.RootLevel | src/player/PlayerExperienceManager.ts:62 | `floor(0.1 * sqrt(xp))` is the level whose requirement `xp` meets and whose successor's it does not |
| Experience.RootAtLeast | src/player/PlayerExperienceManager.ts:62 | every level reached by `xp` is at most that root |
| Experience.RootLevelUnique | src/player/PlayerExperienceManager.ts:62 | the root is the only such level |
| Experience.LevelFor | src/player/PlayerExperienceManager.ts:61-70 | the level is at least 1, within the maximum, reached by the experience (or 1), and the next level is not reached (or the cap stops it) |
| Experience.LevelMonotone | src/player/PlayerExperienceManager.ts:61-70 | more experience never gives a lower level |
| Experience.CappedExperience | src/player/PlayerExperienceManager.ts:28-30 | the stored experience is the given one or the maximum level's requirement, never more than either |
| Experience.CappedKeepsLevel | src/player/PlayerExperienceManager.ts:26-34 | capping the experience does not change the level |
| Experience.CappedIdempotent | src/player/PlayerExperienceManager.ts:28-30 | capping twice is capping once |
| Experience.MaximumLevelReached | src/utils/config.ts:17 | with level cap 100 experience stops at 1,000,000, which gives level 100 |
| Experience.FirstLevels | src/player/PlayerExperienceManager.ts:62 | level 1 runs up to 399 experience, level 2 starts at 400 |
| Experience.PlayerExperienceManager.constructor | src/player/PlayerExperienceManager.ts:15-20 | a new manager has no experience, level 1, the configured cap, and is not loaded |
| Experience.PlayerExperienceManager.CalculateLevel | src/player/PlayerExperienceManager.ts:61-70 | the stored level becomes the level the experience gives |
| Experience.PlayerExperienceManager.SetExperience | src/player/PlayerExperienceManager.ts:26-34 | the experience is stored capped, and the level is that of the given amount |
| Experience.PlayerExperienceManager.AddExperience | src/player/PlayerExperienceManager.ts:56-59 | adding is setting the sum; the level never drops |
| Experience.PlayerExperienceManager.NecessaryExperienceForNextLevel | src/player/PlayerExperienceManager.ts:36-38 | the next level needs more than the player has |
| Experience.PlayerExperienceManager.Load | src/player/PlayerExperienceManager.ts:76-83 | the persisted experience (0 when absent) is set and the manager is loaded |
| Experience.PlayerExperienceManager.Save | src/player/PlayerExperienceManager.ts:85-93 | nothing is written before loading; afterwards the current experience |
| Broadcasting.Collect | src/utils/Broadcaster.ts:14-23 | the list exists exactly when every element does, and then holds them in order |
| Broadcasting.Translated | src/utils/Broadcaster.ts:14-23 | the broadcast list is the translations in order; it throws exactly when one is missing |
| Broadcasting.BroadcastIdTranslated | src/messages/languages/en_en.ts:6-11 | each broadcast id has a non-empty English text, which comes back unchanged |
| Broadcasting.BroadcastSendsTemplate | src/utils/Broadcaster.ts:34-42 | every pick broadcasts that entry's English text |
| Broadcasting.SendBroadcast | src/utils/Broadcaster.ts:34-42 | the picked entry's text goes out |
| Broadcasting.TimerInRound | src/utils/Broadcaster.ts:25-32 | `r` heartbeats into a round, the countdown is `interval - r` |
| Broadcasting.TimerPeriodic | src/utils/Broadcaster.ts:25-32 | after `k` heartbeats the countdown is `interval - k % interval`, always within 1 and the interval |
| Broadcasting.BroadcastEveryInterval | src/utils/Broadcaster.ts:25-32 | exactly the heartbeats that are multiples of the interval broadcast |
| Broadcasting.ShortIntervalAlwaysBroadcasts | src/utils/Broadcaster.ts:25-32 | an interval below one broadcasts on every heartbeat |
| Broadcasting.Broadcaster.constructor | src/utils/Broadcaster.ts:9-12 | the countdown starts at the interval |
| Broadcasting.Broadcaster.HandleHeartbeat | src/utils/Broadcaster.ts:25-32 | a heartbeat broadcasts the picked text exactly on the heartbeats the timer schedules, and sends nothing otherwise; the countdown then restarts or drops by one |
| Spectating.Delivered | src/player/PlayerSpectatorModeManager.ts:93 | sending succeeds exactly when the message exists, and otherwise carries its error |
| Spectating.Popup | src/player/PlayerSpectatorModeManager.ts:103-106 | the popup goes out exactly when both texts exist; a missing title is the error thrown |
| Spectating.SpectatorMessagesMissing | src/player/PlayerSpectatorModeManager.ts:93-106 | the game-ended, disconnected and title messages all throw |
| Spectating.HeartbeatAlwaysThrows | src/player/PlayerSpectatorModeManager.ts:84-107 | a heartbeat with someone followed always ends in the missing-translation error |
| Spectating.PlayerSpectatorModeManager.constructor | src/player/PlayerSpectatorModeManager.ts:20-23 | a new manager follows nobody |
| Spectating.PlayerSpectatorModeManager.IsSpectating | src/player/PlayerSpectatorModeManager.ts:37-39 | true exactly when someone is followed |
| Spectating.PlayerSpectatorModeManager.Spectate | src/player/PlayerSpectatorModeManager.ts:53-58 | the given session is followed |
| Spectating.PlayerSpectatorModeManager.StopSpectating | src/player/PlayerSpectatorModeManager.ts:63-66 | nobody is followed |
| Spectating.PlayerSpectatorModeManager.SpectateRandomPlayer | src/player/PlayerSpectatorModeManager.ts:71-82 | the first eligible player of the shuffled roster (another username, another colour) is followed; with none, nothing changes |
| Spectating.PlayerSpectatorModeManager.Heartbeat | src/player/PlayerSpectatorModeManager.ts:84-107 | with nobody followed nothing happens; a game not being played, or then an offline target, stops following and sends a message; otherwise the popup is sent |
| Teleports.DecimalText | src/npc/TeleportStation.ts:42 | a cost's text is one or more decimal digits |
| Teleports.NoCoinsMissing | src/npc/TeleportStation.ts:41-43 | the no-coins popup throws whatever the cost |
| Teleports.TeleportStation.constructor | src/npc/TeleportStation.ts:15-18 | a new station has its id and target and is not linked |
| Teleports.TeleportStation.GetStationLinked | src/npc/TeleportStation.ts:24-26 | the linked station, or null |
| Teleports.TeleportStation.SetStationLinked | src/npc/TeleportStation.ts:28-30 | the station reads back as linked to the argument |
| Teleports.TeleportStation.Use | src/npc/TeleportStation.ts:32-45 | an unlinked station does nothing; a linked one charges the cost once, then moves the player to its own target when paid and shows the no-coins popup otherwise |
| Teleports.UseChargesOnce | src/npc/TeleportStation.ts:38-43 | a use charges exactly once when linked and never otherwise; a refused charge never moves the player |
| Teleports.RegistrySize | src/npc/TeleportStationManager.ts:23-24 | a registry keyed by exactly the ids below `n` holds `n` stations |
| Teleports.TeleportStationManager.constructor | src/npc/TeleportStationManager.ts:10-12 | the registry holds two stations per pair under ids 0 to 2n-1; pair `k` is stations `2k` and `2k+1`, with their targets and linked to each other |
| Teleports.TeleportStationManager.GetStation | src/npc/TeleportStationManager.ts:14-16 | null exactly when the id is not registered, else that station |
| Teleports.TeleportStationManager.SetupStations | src/npc/TeleportStationManager.ts:18-29 | each pair gets the next two ids, with the stations linked to each other; earlier entries stay |
| Teleports.TeleportStationManager.AddPair | src/npc/TeleportStationManager.ts:20-27 | two fresh stations under the next two ids, each with its target and linked to the other; nothing else changes |

## Left out

- Notifications are not modelled: popups, titles, achievements, status bars, chat broadcasts, sounds, camera set-up, teleports to rooms, knife visibility, `sendLevelInfo` and `console.log`. Where such a message's id is missing from the English table, the throw is kept (see "Message ids missing from the English table" above); the texts themselves are computed, with `Messages.T`, only for the broadcaster, the spectator popups and the teleport popup.
- `TeleportStation.spawn`, the maps, the cadavers and `VoteEntitiesManager` are not modelled; they only place engine entities. Of a cadaver, a meeting keeps only whether one was reported (`cadaverFound`), which picks its first message.
- `TELEPORT_STATION_COST` is not defined in `src/utils/config.ts`, so the cost is a parameter of `Teleports.TeleportStation.Use`. `useCoins` becomes its `paid` parameter.
- Several members are called but not defined in the modelled files:
  - `Poll.getVotedOption` is modelled as the option of the session's ballot.
  - `PlayerSessionManager.getSessions` is modelled as the map's values in insertion order.
  - `Game.canBeJoined` is modelled as "the pool has a colour".
  - `PlayerSession.getRole`/`setRole` are modelled as a role field that starts as crew.
  - `isBeingPlayed`, `isOnline` and the game manager's `getGame` are parameters.
- `Math.random` is a parameter: the broadcast pick, and the shuffled roster given to `SpectateRandomPlayer`.
- `setInterval` is left out. The once-a-second timers are `Matchmaking.GameManager.Tick` and `Broadcasting.Broadcaster.HandleHeartbeat`, which the caller invokes. The ghost `beats` counters exist only to state what a heartbeat does.
- `createUniqueId` becomes a counter per owner (game manager, station manager), so ids are natural numbers rather than strings.
- Colours are compared by value, not by object identity. Within a game each colour object is handed out once (`Games.PaletteSeatsDistinct`), so the two agree there.
- Experience is a natural number. `Math.pow` and `Math.sqrt` become exact integer arithmetic (`Experience.RootLevel`), which agrees with the floating-point formula wherever that formula is exact.
- `load` and `save` are asynchronous in the source. `Experience.PlayerExperienceManager.Load` takes the data that arrived, and `Save` returns the record it would write.
- `Message.t` called with one argument is modelled with an empty argument map. None of the templates used that way has a placeholder.
- Matchmaking.GameManager.Tick: the heartbeat fan-out follows the registry's ids in order. Its termination measure relies on a rotation registering at most one game per player moved, which `Matchmaking.GameManager.BeatGame` proves.
- Games.Game.Heartbeat: does not run the ending phase's last heartbeat. That heartbeat needs matchmaking and is run by `Matchmaking.GameManager.BeatGame` through `Rotate` and `Games.Game.FinishEnding`.
- Games.Game.PullPlayers: requires the candidates to be free of repeats. The session registry never yields one session twice (`Sessions.PlayerSessionManager.ValuesDistinct`).
- Teleports.TeleportStationManager.SetupStations: the entry count of two per pair is proved for the constructor's initially empty registry (`Teleports.TeleportStationManager.constructor`), not as an ensures of `SetupStations` itself.
- Teleports.TeleportStationManager.SetupStations: the links are stated per pair (`LinkedPair`), not as a registry-wide invariant that every station is linked.
- The in-progress phase has no behaviour in the source, so there is nothing to model there: no role assignment, no kill, no win check.
- Spectating.PlayerSpectatorModeManager.SpectateRandomPlayer: the shuffle itself is not modelled. The method follows the first eligible player of the order it is given. `sort` also reorders the game's own roster in place (src/player/PlayerSpectatorModeManager.ts:74); the model leaves the roster's order unchanged.
- Colors.Name: src/game/color/ColorType.ts is not part of this model. Its string values are taken to be the lower-case colour names, and `Object.values(ColorType)` (src/game/phase/phases/EmergencyMeetingPhase.ts:212) is taken to list them in the factory order. `Colors.ColorNames` and `Phases.MeetingPollOptions` rest on both assumptions.
- Games.Game.KickVotedOut: states the removal the meeting's kick evidently intends. As written, the first wearer's `YOU_WERE_VOTED_OUT` throws before `removePlayer` (src/game/phase/phases/EmergencyMeetingPhase.ts:171), so the game's heartbeat runs `Games.Game.EndMeeting`, which removes nobody (see Findings).
- Games.Game.KickIfCalled: part of the corrected kick, like `Games.Game.KickVotedOut`; the code as written never reaches the removal.
- Games.Game.KickMember: part of the corrected kick, like `Games.Game.KickVotedOut`; the code as written never reaches `removePlayer`.
- Games.Game.KickIfVotedOut: part of the corrected kick, like `Games.Game.KickVotedOut`.
- Messages.NoArgumentsUnchanged: holds only for keys that are own entries of `args`. The model treats `args` as a plain map. In the source, `this.args[key]` (src/messages/Message.ts:29) also finds the names `Object.prototype` supplies, such as `toString` or `constructor`, and substitutes that function's text even when no arguments are given. No template of the English table uses such a key, so the program's own texts are unaffected.
- Messages.PlaceholderKept: holds only for keys that are own entries of `args`, for the reason given on the `Messages.NoArgumentsUnchanged` line.
- Phases.ResolutionRetried: states the next heartbeat after a resolution that threw. The error escapes the `setInterval` callback (src/game/GameManager.ts:55-59) uncaught. Whether a later heartbeat runs at all depends on the runtime, which the model does not capture. The retry throws again only while a wearer of the winning colour stays in the game: once that session leaves (`Games.Game.Leave`), `Games.Game.EndMeeting` passes.
- Games.Game.EndMeetingAsIntended: the corrected resolution; the game's heartbeat uses `Games.Game.EndMeeting`, as the code does.
- Games.Game.Heartbeat: the thrown error is the first failing lookup; what the heartbeat would have shown after it is not modelled.

## Findings

| source | as written | input that shows it | evidently intended | confidence | as-written member | corrected member |
|---|---|---|---|---|---|---|
| src/game/phase/phases/EmergencyMeetingPhase.ts:171 | the voted-out member's `Message.t('YOU_WERE_VOTED_OUT')` runs before `removePlayer`, and the English table lacks that id, so the kick throws before anybody leaves; the phase is never set back to in progress, and every later heartbeat of the game resolves the same poll and throws again, as long as a wearer of the winning colour stays in the game and the process survives the uncaught error | a meeting on its fifteenth heartbeat whose poll has one strict non-skip winner worn by a roster member | the member wearing the voted-out colour leaves the game and the match resumes | not executed | Games.Game.EndMeeting | Games.Game.EndMeetingAsIntended |
