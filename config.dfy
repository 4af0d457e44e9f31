/** The game's tunable constants (src/utils/config.ts). Times are in heartbeats of one second. */
module Config {

  const MinimumPlayersToStartGame: nat := 3
  const CountdownToStartWithMinimumPlayers: nat := 5
  const CountdownStartGame: nat := 10
  const BroadcasterFrequency: nat := 60
  const EndingGameDuration: nat := 10
  const KnifeUseCooldown: nat := 30
  const TimeToHideEmergencyMeetingMessage: nat := 5
  const TimeToEndEmergencyMeeting: nat := 10
  const MaxLevel: nat := 100
  const XpPerCoin: nat := 50
  const XpPerKill: nat := 100
  const EnableBroadcaster: bool := false
}
