/**
 * Translated messages (src/messages/Message.ts): a lookup in the English table
 * followed by one left-to-right pass that replaces each `{name}` placeholder.
 */
module Messages {

  import opened Wrappers

  /**
   * The message ids the code uses: the thirteen of the English table and the
   * ones the phases, the spectator mode and the teleport stations ask for.
   */
  datatype MessageId =
    | PLAYER_JOINED_GAME | WAITING_FOR_PLAYERS | JOINED_GAME | JOINED_GAME_SUBTITLE
    | BROADCAST_1 | BROADCAST_2 | BROADCAST_3 | BROADCAST_4 | BROADCAST_5 | BROADCAST_6
    | MINIMUM_PLAYERS_REACHED_COUNTDOWN | COULD_NOT_START_WITH_MINIMUM_PLAYERS | MINIMUM_PLAYERS_REACHED
    | EMERGENCY_MEETING_MESSAGE | EMERGENCY_MEETING_REQUESTED_BY | DEAD_BODY_FOUND | DEAD_BODY_FOUND_BY
    | VOTE_SKIPPED | IMPOSTER_VOTED | DISCUSS_IMPOSTOR | YOU_WERE_VOTED_OUT | WAS_THE_IMPOSTOR
    | NOT_THE_IMPOSTOR | NEXT_GAME_STARTING_COUNTDOWN | CREW_WON | IMPOSTOR_WON
    | CONGRATULATIONS_ON_WIN | TRY_HARDER_NEXT_TIME | SPECTATOR_MODE_GAME_ENDED
    | SPECTATOR_MODE_DISCONNECTED | SPECTATOR_MODE_TITLE | SPECTATOR_MODE_SUBTITLE | TELEPORT_STATION_NO_COINS

  datatype MessageError = TranslationNotFound(id: MessageId)

  /** The texts of the English translation table (src/messages/languages/en_en.ts). */
  const PlayerJoinedGameText: string := "{player} joined the game ({playerCount}/{maxPlayerCount})"
  const WaitingForPlayersText: string := "Waiting for players ({playerCount}/{maxPlayers})"
  const JoinedGameText: string := "» {player} joined the game"
  const JoinedGameSubtitleText: string := "{playersLeftCount} players left to start the game"
  const Broadcast1Text: string := "» Do you want to hear about the latest features before anyone else? Follow us on X: @dresnite"
  const Broadcast2Text: string := "» Among Cubes is funnier with friends! Invite them and play together!"
  const Broadcast3Text: string := "» Did you know that you can play Among Cubes on your phone?"
  const Broadcast4Text: string := "» If you are the Impostor, don't forget to hide your knife! Others can see it too!"
  const Broadcast5Text: string := "» Saying GG at the end of the match gets you extra XP points!"
  const Broadcast6Text: string := "» If the game ends before the impostor is found, the crew loses!"
  const MinimumPlayersReachedCountdownText: string := "The game will start in {countdown} seconds"
  const CouldNotStartWithMinimumPlayersText: string := "» A player left the game. The game could not start with minimum players, so waiting for players again..."
  const MinimumPlayersReachedText: string := "» We’ve got enough players — game starting soon!"

  /** The English translation table; `None` for an id it lacks. */
  function EnEn(id: MessageId): Option<string>
  {
    match id
    case PLAYER_JOINED_GAME => Some(PlayerJoinedGameText)
    case WAITING_FOR_PLAYERS => Some(WaitingForPlayersText)
    case JOINED_GAME => Some(JoinedGameText)
    case JOINED_GAME_SUBTITLE => Some(JoinedGameSubtitleText)
    case BROADCAST_1 => Some(Broadcast1Text)
    case BROADCAST_2 => Some(Broadcast2Text)
    case BROADCAST_3 => Some(Broadcast3Text)
    case BROADCAST_4 => Some(Broadcast4Text)
    case BROADCAST_5 => Some(Broadcast5Text)
    case BROADCAST_6 => Some(Broadcast6Text)
    case MINIMUM_PLAYERS_REACHED_COUNTDOWN => Some(MinimumPlayersReachedCountdownText)
    case COULD_NOT_START_WITH_MINIMUM_PLAYERS => Some(CouldNotStartWithMinimumPlayersText)
    case MINIMUM_PLAYERS_REACHED => Some(MinimumPlayersReachedText)
    case _ => None
  }

  /** A message id with its placeholder arguments. */
  datatype Message = Message(id: MessageId, args: map<string, string>) {

    /** The translation of `id` with its placeholders filled in; a missing or empty translation fails. */
    function ToString(): (r: Result<string, MessageError>)
      ensures r.Err? <==> EnEn(id).None? || EnEn(id).value == ""
      ensures r.Ok? ==> r.value == Substitute(EnEn(id).value, args)
    {
      match EnEn(id)
      case None => Err(TranslationNotFound(id))
      case Some(translation) =>
        if translation == "" then Err(TranslationNotFound(id)) else Ok(Substitute(translation, args))
    }
  }

  /** `Message.t`: build a message and render it. */
  function T(id: MessageId, args: map<string, string>): Result<string, MessageError>
  {
    Message(id, args).ToString()
  }

  /** The regular-expression class `\w`. */
  predicate IsWordChar(c: char)
  {
    ('a' <= c <= 'z') || ('A' <= c <= 'Z') || ('0' <= c <= '9') || c == '_'
  }

  /** A placeholder name: one or more `\w` characters. */
  predicate IsKey(k: string)
  {
    |k| >= 1 && forall i :: 0 <= i < |k| ==> IsWordChar(k[i])
  }

  /** The length of the longest run of word characters at the start of `s`. */
  function WordRun(s: string): (n: nat)
    ensures n <= |s|
    ensures forall i :: 0 <= i < n ==> IsWordChar(s[i])
    ensures n < |s| ==> !IsWordChar(s[n])
  {
    if s != [] && IsWordChar(s[0]) then 1 + WordRun(s[1..]) else 0
  }

  /**
   * When `t` starts with a match of `{(\w+)}`, the length of the name inside the braces.
   * `}` is not a word character, so the greedy `\w+` never has to give characters back.
   */
  function PlaceholderAt(t: string): (r: Option<nat>)
    ensures r.Some? ==> r.value + 2 <= |t| && t[0] == '{' && IsKey(t[1..1 + r.value]) && t[1 + r.value] == '}'
  {
    if t == [] || t[0] != '{' then None
    else
      var n := WordRun(t[1..]);
      if n >= 1 && 1 + n < |t| && t[1 + n] == '}' then Some(n) else None
  }

  /** What a placeholder `{k}` becomes: its argument when that is a non-empty string, else itself. */
  function Replacement(k: string, args: map<string, string>): string
  {
    if k in args && args[k] != "" then args[k] else "{" + k + "}"
  }

  /** The `replace(/{(\w+)}/g, ...)` pass: one scan from left to right; inserted text is not rescanned. */
  function Substitute(t: string, args: map<string, string>): string
    decreases |t|
  {
    if t == [] then []
    else
      match PlaceholderAt(t)
      case Some(n) => Replacement(t[1..1 + n], args) + Substitute(t[n + 2..], args)
      case None => [t[0]] + Substitute(t[1..], args)
  }

  /** A template without `{` comes back unchanged. */
  lemma {:induction false} NoPlaceholderUnchanged(t: string, args: map<string, string>)
    requires '{' !in t
    ensures Substitute(t, args) == t
  {
    if t != [] {
      assert t[0] != '{';
      assert '{' !in t[1..];
      NoPlaceholderUnchanged(t[1..], args);
    }
  }

  /** With no usable argument every placeholder is left verbatim, so the template comes back unchanged. */
  lemma {:induction false} NoArgumentsUnchanged(t: string, args: map<string, string>)
    requires forall k :: k in args ==> args[k] == ""
    ensures Substitute(t, args) == t
  {
    if t != [] {
      match PlaceholderAt(t)
      case Some(n) =>
        NoArgumentsUnchanged(t[n + 2..], args);
        PlaceholderKept(t, n, args);
      case None =>
        NoArgumentsUnchanged(t[1..], args);
        assert t == [t[0]] + t[1..];
    }
  }

  /**
   * A leading placeholder without a usable argument is put back as it stood.
   * `args` is a plain map here: keys that a JavaScript object inherits from its
   * prototype are not modelled.
   */
  lemma PlaceholderKept(t: string, n: nat, args: map<string, string>)
    requires PlaceholderAt(t) == Some(n)
    requires t[1..1 + n] !in args || args[t[1..1 + n]] == ""
    ensures Replacement(t[1..1 + n], args) + t[n + 2..] == t
  {
    var k := t[1..1 + n];
    assert Replacement(k, args) == "{" + k + "}";
    assert t[..n + 2] == [t[0]] + k + [t[1 + n]];
    assert t == t[..n + 2] + t[n + 2..];
  }

  /** A leading placeholder `{k}` is replaced by its argument (or kept), and scanning resumes after it. */
  lemma PlaceholderReplaced(k: string, rest: string, args: map<string, string>)
    requires IsKey(k)
    ensures Substitute("{" + k + "}" + rest, args) == Replacement(k, args) + Substitute(rest, args)
  {
    var t := "{" + k + "}" + rest;
    var n := |k|;
    assert t[0] == '{';
    assert t[1..] == k + ("}" + rest);
    WordRunOfKey(k, "}" + rest);
    assert t[1 + n] == '}';
    assert PlaceholderAt(t) == Some(n);
    assert t[1..1 + n] == k;
    assert t[n + 2..] == rest;
  }

  lemma {:induction false} WordRunOfKey(k: string, s: string)
    requires forall i :: 0 <= i < |k| ==> IsWordChar(k[i])
    requires s != [] && !IsWordChar(s[0])
    ensures WordRun(k + s) == |k|
  {
    if k != [] {
      assert (k + s)[1..] == k[1..] + s;
      WordRunOfKey(k[1..], s);
    } else {
      assert k + s == s;
    }
  }

  /**
   * A character that does not open a placeholder is copied, and scanning resumes
   * after it. This includes a `{` with no key and `}` behind it, as in `{}` or `{ x}`.
   */
  lemma PlainCharCopied(c: char, rest: string, args: map<string, string>)
    requires PlaceholderAt([c] + rest).None?
    ensures Substitute([c] + rest, args) == [c] + Substitute(rest, args)
  {
    assert ([c] + rest)[1..] == rest;
  }

  /** Substituted text is not scanned again: `{k}` becomes exactly its argument, braces and all. */
  lemma ArgumentNotRescanned(k: string, args: map<string, string>)
    requires IsKey(k) && k in args && args[k] != ""
    ensures Substitute("{" + k + "}", args) == args[k]
  {
    PlaceholderReplaced(k, "", args);
    assert "{" + k + "}" + "" == "{" + k + "}";
  }

  /** An id that the table does not hold makes `t` fail. */
  lemma MissingIdFails(id: MessageId, args: map<string, string>)
    requires EnEn(id).None?
    ensures T(id, args) == Err(TranslationNotFound(id))
  {
  }

  /** A message sent without arguments is its template as it is, placeholders included. */
  lemma WithoutArgumentsIsTemplate(id: MessageId)
    requires EnEn(id).Some? && EnEn(id).value != ""
    ensures T(id, map[]) == Ok(EnEn(id).value)
  {
    NoArgumentsUnchanged(EnEn(id).value, map[]);
  }

  /** The ids the phases use for meeting, kick and ending feedback are absent from the table. */
  lemma PhaseIdsMissing()
    ensures EnEn(EMERGENCY_MEETING_MESSAGE) == None && EnEn(EMERGENCY_MEETING_REQUESTED_BY) == None
    ensures EnEn(DEAD_BODY_FOUND) == None && EnEn(DEAD_BODY_FOUND_BY) == None
    ensures EnEn(VOTE_SKIPPED) == None && EnEn(IMPOSTER_VOTED) == None
    ensures EnEn(DISCUSS_IMPOSTOR) == None && EnEn(YOU_WERE_VOTED_OUT) == None
    ensures EnEn(WAS_THE_IMPOSTOR) == None && EnEn(NOT_THE_IMPOSTOR) == None
    ensures EnEn(NEXT_GAME_STARTING_COUNTDOWN) == None && EnEn(CREW_WON) == None && EnEn(IMPOSTOR_WON) == None
    ensures EnEn(CONGRATULATIONS_ON_WIN) == None && EnEn(TRY_HARDER_NEXT_TIME) == None
  {
    MeetingIdsMissing();
    EndingIdsMissing();
  }

  lemma MeetingIdsMissing()
    ensures EnEn(EMERGENCY_MEETING_MESSAGE) == None && EnEn(EMERGENCY_MEETING_REQUESTED_BY) == None
    ensures EnEn(DEAD_BODY_FOUND) == None && EnEn(DEAD_BODY_FOUND_BY) == None
    ensures EnEn(VOTE_SKIPPED) == None && EnEn(IMPOSTER_VOTED) == None
    ensures EnEn(DISCUSS_IMPOSTOR) == None && EnEn(YOU_WERE_VOTED_OUT) == None
  {
  }

  lemma EndingIdsMissing()
    ensures EnEn(WAS_THE_IMPOSTOR) == None && EnEn(NOT_THE_IMPOSTOR) == None
    ensures EnEn(NEXT_GAME_STARTING_COUNTDOWN) == None && EnEn(CREW_WON) == None && EnEn(IMPOSTOR_WON) == None
    ensures EnEn(CONGRATULATIONS_ON_WIN) == None && EnEn(TRY_HARDER_NEXT_TIME) == None
  {
  }

}
