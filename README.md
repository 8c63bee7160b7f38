# Werewolf game master, modelled in Dafny

This project models the engine of a text-mode Werewolf ("Loup-Garou") game and
proves properties of it. The engine lives in `game_master.py` (class
`GameMaster`) and `player.py` (`Camp`, `Player`, `Wolf`, `Villager`).

**The roster.** Ten participants sit at the table: one human at id 0 and nine
non-player participants (NPCs). A shuffled role list deals them eight
villagers and two wolves. Each participant is then rebuilt as the class that
fits its camp. The wolves driven by the language-model provider are told their
mates' names.

**A turn.** Each turn has a night and a day.
- At night everyone alive falls asleep. The first alive wolf then kills at most
  one alive villager, and the survivors wake up.
- By day, every NPC that has something to say speaks to everyone else alive,
  then the human may speak. Then the game holds a plurality vote. The human
  votes first, then the NPCs in roster order. The most common target dies;
  ties go to the target voted for first.

**The end.** The game goes on while a wolf is alive and the wolves are
outnumbered by the villagers.

**Two layers.**
- `game_rules.dfy` (module `GameRules`) states the rules on values. A roster is
  a `seq<Seat>` indexed by id, and night, discussion, vote, day and turn are
  functions of the roster before them and the choices made during them. The
  choices are the victim, the ballots, the human's message and vote, and the
  provider's replies. `game_properties.dfy` (module `GameProperties`) proves
  what those functions guarantee for every choice chance can make.
- `player.dfy` (class `Players.Player`) and `game_master.dfy` (class
  `GameEngine.GameMaster`) are the imperative engine. Participants are objects
  that share their `alive` flag and `history` log between `players`,
  `villagers` and `wolves`, exactly as the Python lists alias them. Every phase
  method is proved to leave the roster equal to the rule function applied to
  the roster before it: `Registry() == NightSpec(old(Registry()), victim)`.

**Other modules.**
- `tally.dfy` models `Counter(votes).most_common(1)`.
- `names.dfy` models the name padding of `_generate_ia_names`.
- `shuffle.dfy` models `random.shuffle`.
- `wrappers.dfy` holds `Option`.

**Modelling choices.**
- Randomness is nondeterministic choice. Each `random.choice` is an arbitrary
  element of the candidates. The ghost out-parameters `victim` and `ballots`
  name what was chosen, and contracts hold for every choice.
- The five Python classes (`Player`, `Villager`, `Wolf`, `LLMVillager`,
  `LLMWolf`) become one Dafny class with a constant `kind` and one named
  constructor per class.
- The optional `mate_names` attribute becomes `mateNames: Option<seq<string>>`.
  It is `Some` only for a language-model wolf, and `hasattr` tests for `Some`.
- Input and provider answers are parameters.
  - The human's message is a string; empty means "pass".
  - The human's vote is an `Option<int>`: the final answer of the retry loop.
  - The provider's reply to participant `i` is `reply(i)`.
  - The provider's list of names is `Option<seq<string>>`; `None` means the
    call failed.

Two behaviours of the code worth stating:
- **Tie-break.** The tally breaks ties by first insertion, that is, by the
  target voted for first, not by the lowest id. `Tally.TieGoesToFirstVoted`
  shows a tie between ids 5 and 2 going to 5.
- **Pending slots.** `pending_human_message` and `pending_human_vote` are only
  stored. The engine never reads or clears them.

## Model

| member | source | states |
|---|---|---|
| Tally.MostCommon | game_master.py:397-398 | the condemned id is one of the votes, no id has more votes, and among the ids with the top count it is the one whose first vote came earliest |
| Tally.MostCommonUnique | game_master.py:397-398 | the three properties above pin the tally's winner down: any id with them is `MostCommon(votes)` |
| Tally.TieGoesToFirstVoted | game_master.py:397-398 | with votes [5, 2, 5, 2, 1] the tie between 5 and 2 goes to 5, the first voted, and not to the lowest id |
| Tally.Keys | game_master.py:397 | the counter's keys are exactly the distinct voted ids, each once |
| Tally.KeysOrdered | game_master.py:397 | the counter's keys are in first-insertion order |
| Tally.LeaderIsMostCommon | game_master.py:398 | the first key with the maximal count has the top count and the earliest first vote among the tied keys |
| Tally.LeaderIndex | game_master.py:398 | the chosen key is one of the keys, no key has more votes, and every key before it has strictly fewer, so among tied keys it is the first inserted |
| Tally.FirstIndex | game_master.py:397 | the first position of a voted id holds it, and no earlier position does |
| Players.Player.constructor | player.py:18-25 | a new participant has the given id, name, npc flag and camp, is alive, and has an empty log |
| Players.Player.Villager | player.py:80-84 | a `Villager` always has camp Villager, is alive and has an empty log |
| Players.Player.Wolf | player.py:62-66 | a `Wolf` always has camp Wolf, is alive, has an empty log and no mate list |
| Players.Player.LlmVillager | llm_player.py:39-50 | a language-model villager has camp Villager, is alive and has an empty log |
| Players.Player.LlmWolf | llm_player.py:109-124 | a language-model wolf has camp Wolf, is alive, has an empty log and an empty mate list |
| Players.Player.Sleep | player.py:29-30 | appends exactly "Dors." to the log and changes nothing else |
| Players.Player.WakeUp | player.py:32-33 | appends exactly "Se réveille." to the log and changes nothing else |
| Players.Player.NightReset | player.py:35-37 | changes nothing |
| Players.Player.Listen | player.py:39-40 | appends exactly "Entendu: " + message to the log and changes nothing else |
| Players.Player.Talk | player.py:44-47 | an NPC with the default strategy says "Je suis <name>, je suis innocent !"; the human says nothing (the empty string); a language-model participant says the provider's reply |
| Players.Player.Vote | player.py:49-59 | the human votes for nobody; an NPC returns a vote exactly when an alive participant other than itself is in the list, and the vote is always such a participant |
| Players.Player.NightAction | player.py:68-77 | a plain wolf returns a target exactly when an alive villager is offered, the target is one, and the wolf logs "Cible la victime <name>." only then; a language-model wolf returns a target exactly when the list is non-empty and logs nothing |
| Players.AliveIn | game_master.py:194-195 | the filtered list holds exactly the alive participants of the list |
| Players.AliveInIncreasing | game_master.py:194-195 | filtering out the dead keeps ids increasing |
| Players.Eligible | player.py:53 | the candidates are exactly the alive participants of the list other than the voter |
| Players.SeatsOf | player.py:18-25 | a list of participant objects read as values: one value per object, in order, each holding the object's current id, name, npc flag, camp, class, alive flag, log and mate list |
| GameRules.FirstAlive | game_master.py:259-267 | `wolves[0]` of `alive_wolves()`: an alive participant of the camp, with none before it |
| GameRules.KindFor | game_master.py:141-174 | the class `distribute_roles` gives a participant: a provider-backed one exactly for non-player participants, a wolf class exactly for camp Wolf, and never the bare `Player` class |
| GameRules.Continues | game_master.py:203-211 | definition of `game_state()` on values: at least one wolf alive and fewer alive wolves than alive villagers; `GameMaster.GameState` proves the object version agrees |
| GameRules.NightSpec | game_master.py:255-277 | definition of the night: every alive participant logs "Dors."; unless no wolf or no villager is alive, the first alive wolf picks the victim (a plain wolf logs "Cible la victime <name>."), the victim dies; every participant still alive logs "Se réveille."; its consequences are proved by `NightDeaths`, `NightHistories` and `NightEvolves` |
| GameRules.NightReport | game_master.py:262-283 | definition of the night's record: the quiet-night text when no wolf or no villager is alive, else the victim's name and the "Pendant la nuit, <name> a été tué(e)." text; `NightReportNamesVictim` proves it names exactly the participant who died |
| GameRules.NpcLines | game_master.py:313-319 | definition of the NPC lines of a discussion: in roster order, "<name>: <utterance>" for each non-player participant whose utterance is not empty; `NpcLinesMembers` characterises its members |
| GameRules.HumanLines | game_master.py:324-332 | definition of the human's line: "<name>: <message>" when the human is alive and typed a non-empty message, else nothing |
| GameRules.Discuss | game_master.py:301-337 | definition of the discussion: every alive participant logs "Entendu: <line>" for each line of the others, NPC lines first, then the human's; proved by `DiscussHistory`, `HeardWasSaid`, `SaidIsHeard` and `DiscussStatus` |
| GameRules.HumanBallot | game_master.py:358-383 | definition of the human's counted vote: present only when the human is alive and names an alive participant other than itself; `HumanBallotCounted` proves both directions |
| GameRules.NpcBallots | game_master.py:385-391 | definition of the NPC votes: in roster order, each non-player voter with a candidate votes once for an alive participant other than itself, and the others do not vote; proved by `NpcBallotsLegal`, `NpcBallotsOrdered` and `NpcBallotsCover` |
| GameRules.ValidBallots | game_master.py:358-391 | definition of the possible votes of one day: the human's counted vote first, then the NPC votes; proved by `BallotsLegal`, `BallotsOrdered`, `BallotsCover` and `SplitBallots` |
| GameRules.Condemn | game_master.py:393-400 | definition of the tally's outcome: with no votes nothing changes, otherwise the most common target dies; proved by `CondemnOutcome` |
| GameRules.DaySpec | game_master.py:287-294 | definition of the day: the discussion, then the vote on the discussed roster; proved by `DayOutcome` and `DayEvolves` |
| GameRules.DayReport | game_master.py:293-299 | definition of the day's record: the lynched name and "<name> est lynché(e) par le village." when votes were cast, else "Personne n'a été lynché."; `DayReportNamesLynched` proves it |
| GameRules.TurnSpec | game_master.py:231-243 | definition of a turn: the night, then the day only if the game still goes on; proved by `TurnOutcome` |
| GameRules.MatesLinked | game_master.py:176-180 | definition of linked mate lists: each language-model wolf lists the other wolves' names, and no one else has a mate list; `GameMaster.LinkedRoster` proves the engine reaches it |
| GameRules.Others | game_master.py:180 | a mate list holds exactly the wolf names other than the wolf's own, and never its own |
| GameRules.Repeat | game_master.py:137 | `[x] * n` has n entries, all x |
| GameRules.Targets | game_master.py:382-391 | the `votes` list has one entry per ballot, the ballot's target, in ballot order |
| GameProperties.KillCount | game_master.py:272 | killing an alive participant lowers the alive count of its camp by exactly one and leaves the other camp's count alone |
| GameProperties.QuietNightStatus | game_master.py:262-265 | when no wolf or no villager is alive, the night kills nobody and changes nothing but logs |
| GameProperties.DeadlyNightStatus | game_master.py:267-276 | when the wolf strikes, exactly the victim dies, and the counts drop only in the victim's camp |
| GameProperties.NightDeaths | game_master.py:255-283 | a night keeps who is who, kills exactly its victim and no one else, never kills a wolf, and kills one villager unless the night is quiet |
| GameProperties.NightHistories | game_master.py:255-277 | each alive participant logs "Dors."; the victim logs nothing more; each survivor logs "Se réveille."; a plain-wolf killer also logs its target line between the two; the dead log nothing |
| GameProperties.NightReportNamesVictim | game_master.py:262-283 | the night's record names a victim exactly when the night is not quiet, exactly when someone died, and the name is that of a participant who died; otherwise its text is the quiet-night or the no-death text |
| GameProperties.HeardByAppend | game_master.py:313-335 | what a participant hears of two batches of lines is what it hears of the first, then of the second |
| GameProperties.HeardByMembers | game_master.py:320-322 | a participant hears exactly the lines said by others, each as "Entendu: <line>", and never its own |
| GameProperties.NpcLinesMembers | game_master.py:314-318 | the NPC lines are exactly "<name>: <text>" for each NPC whose utterance is not empty |
| GameProperties.AliveSeatsMembers | game_master.py:194-195 | the alive participants are exactly the roster members whose flag is set |
| GameProperties.AliveSeatsIncreasing | game_master.py:194-195 | filtering out the dead keeps ids increasing |
| GameProperties.DiscussStatus | game_master.py:301-337 | a discussion kills nobody, only extends logs, and leaves the dead participants' logs unchanged |
| GameProperties.HeardWasSaid | game_master.py:313-335 | everything a participant logs in a discussion was said by another alive participant |
| GameProperties.SaidIsHeard | game_master.py:313-335 | everything another alive participant says in a discussion reaches the listener's log |
| GameProperties.DiscussHistory | game_master.py:301-337 | an alive participant's log only grows, and its new entries are exactly "Entendu: " + the lines the other alive participants said |
| GameProperties.ListenAllTwice | game_master.py:313-335 | hearing the NPC lines and then the human's line is the same as hearing all lines at once |
| GameProperties.NpcBallotsLegal | game_master.py:385-391 | every NPC vote comes from an NPC among the voters and names an alive participant other than the voter |
| GameProperties.NpcBallotsOrdered | game_master.py:386 | NPC votes are cast in increasing voter id, so each NPC votes at most once |
| GameProperties.NpcBallotsCover | game_master.py:386-391 | every NPC that has someone to vote for casts a vote |
| GameProperties.SplitBallots | game_master.py:358-391 | the ballots of a day are the human's ballot (when counted) followed by the NPC ballots |
| GameProperties.BallotsLegal | game_master.py:358-391 | every counted vote is cast by an alive participant and names an alive participant other than the voter |
| GameProperties.NpcVotersNotHuman | game_master.py:385-387 | the human never casts an NPC ballot |
| GameProperties.BallotsOrdered | game_master.py:358-391 | voters vote in increasing id, the human first, so nobody votes twice |
| GameProperties.BallotsCover | game_master.py:385-391 | every alive NPC votes when another participant is alive |
| GameProperties.HumanBallotCounted | game_master.py:358-383 | the human's vote is counted if and only if the human is alive and names an alive participant other than itself |
| GameProperties.TargetsLegal | game_master.py:358-391 | every entry of the `votes` list is the id of an alive participant |
| GameProperties.CondemnOutcome | game_master.py:393-400 | with no votes nothing changes; otherwise exactly the most common target dies, it was alive, and its camp's alive count drops by one; logs are untouched |
| GameProperties.DayReportNamesLynched | game_master.py:293-299 | the day's record names someone exactly when a vote was cast, and that participant was alive and died; otherwise its text is "Personne n'a été lynché." |
| GameProperties.DayOutcome | game_master.py:287-299 | a day keeps who is who and only extends logs; with no votes nobody dies, otherwise exactly one previously alive participant dies |
| GameProperties.VoteAfterDiscussion | game_master.py:292-293 | the vote that follows a discussion kills at most one previously alive participant, and no one else changes state |
| GameProperties.NoRevivalCount | game_master.py:272 | when nobody revives, no alive count grows |
| GameProperties.SameRosterWolfNames | game_master.py:177 | the wolf names depend only on who is who, not on flags or logs |
| GameProperties.EvolvesTrans | game_master.py:221-222 | "logs only grow and nobody revives" composes over successive turns |
| GameProperties.EvolvesKeeps | game_master.py:221-222 | such a step keeps the roster well formed, keeps the mate lists linked, and never raises an alive count |
| GameProperties.NightEvolves | game_master.py:247-283 | a night only extends logs and revives nobody |
| GameProperties.DayEvolves | game_master.py:287-299 | a day only extends logs and revives nobody |
| GameProperties.TurnOutcome | game_master.py:231-243 | over a turn, who is who is kept, the roster stays well formed, logs only grow, the mate lists stay linked, nobody revives, the wolves never grow, and while the game goes on each turn costs at least one villager |
| GameProperties.AllAliveCount | game_master.py:203-211 | on a roster where all are alive, a camp's alive count is its number of role entries |
| GameProperties.RepeatCount | game_master.py:137 | `[x] * n` holds n copies of x and nothing else |
| GameProperties.InitialRolesCount | game_master.py:136-137 | the role list before shuffling has ten entries: eight Villager and two Wolf |
| GameProperties.FirstAliveSameStatus | game_master.py:255-267 | falling asleep does not change which wolf strikes |
| GameProperties.BallotsJoin | game_master.py:358-391 | the human's ballot followed by legal NPC ballots is a legal day's vote |
| Naming.DecimalString | game_master.py:106 | `str(n)` is a non-empty string of decimal digits |
| Naming.DecimalRoundTrip | game_master.py:106 | reading back `str(n)` gives n |
| Naming.DecimalInjective | game_master.py:106 | different numbers get different decimal strings |
| Naming.PaddingNamesDistinct | game_master.py:105-106 | different padding positions get different "IA_<k>" names |
| Naming.NameSource | game_master.py:90-103 | definition of the list the padding starts from: the provider's parsed answer, or the fallback list when the call failed |
| Naming.IaName | game_master.py:105-108 | definition of the name at position k: the source list's entry when it has one, else the padding name "IA_<k+1>" |
| Shuffling.Shuffle | game_master.py:138 | the shuffled list is a permutation of the list |
| GameEngine.FindById | game_master.py:374-377 | the lookup returns a participant of the list with the id, and nothing when no participant has it |
| GameEngine.HumanName | game_master.py:59-60 | definition of the human's name: the name given, else the typed text, else "Humain" when nothing was typed |
| GameEngine.SetupName | game_master.py:59-78 | definition of the name at position k after setup: the human's at 0, the generated name k-1 at position k > 0 |
| GameEngine.NamesOf | game_master.py:177 | `wolf_names` has one name per wolf, in order |
| GameEngine.CampMembersIn | game_master.py:141-174 | the camp view holds exactly the roster members of the camp |
| GameEngine.CampMembersCount | game_master.py:124-131 | a camp view has as many members as the role list has entries for the camp |
| GameEngine.AliveCampCount | game_master.py:197-201 | `alive_villagers()` and `alive_wolves()` are as long as the camp's alive count on the roster |
| GameEngine.FirstAliveOfCamp | game_master.py:259-267 | `alive_wolves()[0]` is the roster's first alive wolf |
| GameEngine.AliveInSeats | game_master.py:194-195 | `alive_players()` read as values is the roster's alive participants |
| GameEngine.WolfNamesOf | game_master.py:177 | the names of the `wolves` view are the wolf names of the roster |
| GameEngine.SeatIds | game_master.py:374-377 | a participant with a given id is in the list exactly when it is in the list's values |
| GameEngine.NpcVote | game_master.py:386-391 | an alive NPC that has a candidate casts exactly one ballot for a candidate; anyone else casts none |
| GameEngine.GameMaster.ValidRoster | game_master.py:110-133 | once roles are dealt, the roster is well formed and ids increase |
| GameEngine.GameMaster.AlivePlayers | game_master.py:194-195 | holds exactly the alive participants, in roster order, as the roster's alive values |
| GameEngine.GameMaster.AliveVillagers | game_master.py:197-198 | holds exactly the alive villagers, and is as long as their count |
| GameEngine.GameMaster.AliveWolves | game_master.py:200-201 | holds exactly the alive wolves, and is as long as their count |
| GameEngine.GameMaster.GameState | game_master.py:203-211 | true if and only if a wolf is alive and the alive wolves are fewer than the alive villagers |
| GameEngine.GameMaster.constructor | game_master.py:35-48 | a new game has day 0, empty pending slots, ten fresh, alive participants with empty logs and the setup names, a valid roster with linked mate lists, and a game that can start |
| GameEngine.GameMaster.StartGame | game_master.py:47-48 | setup then role distribution leave ten fresh, alive participants with empty logs, the setup names, a valid roster and linked mate lists |
| GameEngine.GameMaster.SetupPlayers | game_master.py:52-78 | creates ten participants with ids 0..9 in order; only id 0 is not an NPC, and it is `human_player`; the human gets the given or typed name, else "Humain"; the others get the generated names; the camp views are empty |
| GameEngine.GameMaster.AddNpcs | game_master.py:75-78 | appends one NPC per name, with ids 1, 2, ... in order |
| GameEngine.GameMaster.AddParticipant | game_master.py:76-78 | appends one new participant and keeps the others |
| GameEngine.GameMaster.GenerateIaNames | game_master.py:80-108 | returns exactly `count` names: the provider's (or the fallback list) in order, padded with "IA_<k+1>" at position k; the padding names differ from each other |
| GameEngine.GameMaster.BuildRolesList | game_master.py:135-139 | the role list has ten entries, eight Villager and two Wolf |
| GameEngine.GameMaster.CreateHumanWithRole | game_master.py:141-150 | the human is rebuilt with the same id and name in the class of its camp, joins that camp's view only, and becomes `human_player` |
| GameEngine.GameMaster.CreateNpcWithRole | game_master.py:152-174 | an NPC is rebuilt with the same id and name as a language-model participant of its camp, a wolf with an empty mate list, and joins that camp's view only |
| GameEngine.GameMaster.RebuildPlayers | game_master.py:120-131 | position k is rebuilt with the same id, name and npc flag in camp `roles_list[k]`; the camp views are the rebuilt roster filtered by camp; `human_player` is the rebuilt human |
| GameEngine.GameMaster.InstallRoster | game_master.py:132 | the rebuilt roster replaces the old one and the game master is well formed |
| GameEngine.GameMaster.DistributeRoles | game_master.py:110-133 | keeps every id, name and npc flag in order, deals two wolves and eight villagers, the camp views match the camps, every participant is alive with an empty log, and the mate lists are linked |
| GameEngine.GameMaster.LinkWolvesTogether | game_master.py:176-180 | every wolf with a mate list gets exactly the other wolves' names; wolves without one are untouched |
| GameEngine.GameMaster.LinkRoster | game_master.py:133 | after linking, each language-model wolf lists exactly the other wolves, and no one else has a mate list |
| GameEngine.GameMaster.MateListsLinked | game_master.py:176-180 | the linked mate lists, read on the whole roster, are the other wolves' names for a language-model wolf and absent otherwise |
| GameEngine.GameMaster.LinkedRoster | game_master.py:176-180 | the linked mate lists satisfy the rule-level `MatesLinked` on the roster |
| GameEngine.GameMaster.RosterValid | game_master.py:110-133 | ten participants with ids in order, classes fitting their camps, and views of eight villagers and two wolves make a valid game master |
| GameEngine.GameMaster.AllAliveContinues | game_master.py:203-211 | a valid roster where all are alive lets the game go on |
| GameEngine.GameMaster.SleepAlive | game_master.py:255-257 | every alive participant logs "Dors." and nothing else changes |
| GameEngine.GameMaster.WakeAlive | game_master.py:275-276 | every alive participant logs "Se réveille." and nothing else changes |
| GameEngine.GameMaster.NightPhase | game_master.py:247-283 | the roster becomes the night rule applied to it, for a victim that is none on a quiet night and otherwise an alive villager, and the record returned is the night's record |
| GameEngine.GameMaster.Strike | game_master.py:267-283 | the first alive wolf picks an alive villager, who dies; the survivors wake; the record names the victim |
| GameEngine.GameMaster.Pick | game_master.py:267-268 | the killer's target is an alive villager; a plain wolf logs the target line, a language-model wolf logs nothing |
| GameEngine.GameMaster.Slay | game_master.py:272 | exactly the target dies, seen through every view sharing it |
| GameEngine.GameMaster.Broadcast | game_master.py:320-322 | every alive participant but the speaker logs the line once |
| GameEngine.GameMaster.Discussion | game_master.py:301-337 | the roster becomes the discussion rule applied to it: each alive participant logs, in order, the non-empty lines of the other NPCs, then the human's line when the human is alive and typed one; nobody logs their own line |
| GameEngine.GameMaster.SpeakUp | game_master.py:314-322 | an alive NPC with a non-empty utterance says it to the others; anyone else says nothing |
| GameEngine.GameMaster.Vote | game_master.py:339-403 | the ballots are the human's (when valid) then one per NPC with a candidate, all legal; no ballots means no one is condemned; otherwise the most common target, ties to the first voted, is condemned and dies |
| GameEngine.GameMaster.CastVotes | game_master.py:358-391 | the `votes` list is the targets of a legal day's ballots and names only alive participants |
| GameEngine.GameMaster.HumanVote | game_master.py:358-383 | the human's vote is counted exactly when the human is alive and names an alive participant other than itself |
| GameEngine.GameMaster.NpcVotes | game_master.py:385-391 | each alive NPC that has someone to vote for votes once, in roster order, for an alive participant other than itself |
| GameEngine.GameMaster.Lynch | game_master.py:397-400 | the condemned is the most common target, and exactly that participant dies |
| GameEngine.GameMaster.DayPhase | game_master.py:287-299 | the roster becomes the day rule (discussion, then vote) applied to it, and the record names the lynched participant |
| GameEngine.GameMaster.VoteAndReport | game_master.py:293-299 | the vote's outcome and the day's record agree on who was lynched |
| GameEngine.GameMaster.Turn | game_master.py:231-243 | the day counter goes up by one; the night runs; the day runs only if the game still goes on after the night, and otherwise there is no day record; the roster becomes the turn rule applied to it |
| GameEngine.GameMaster.Phases | game_master.py:235-243 | the night, then the day unless the night ended the game |
| GameEngine.GameMaster.DayUnlessOver | game_master.py:238-243 | when the game is over the day is skipped and nothing changes; otherwise the day rule applies |
| GameEngine.GameMaster.RunGame | game_master.py:215-227 | the loop ends with the game over; the villagers win exactly when no wolf is alive; one day is counted per turn; logs only grew and nobody revived |
| GameEngine.GameMaster.NextTurn | game_master.py:221-222 | one turn keeps the roster valid, only extends logs, revives nobody, and kills at least one villager, so the loop ends |
| GameEngine.GameMaster.ReceiveHumanMessage | game_master.py:184-186 | the message is stored in the pending slot |
| GameEngine.GameMaster.RegisterHumanVote | game_master.py:188-190 | the target id is stored in the pending slot |

## Left out

- Language-model prompting (`ask_llm`, the talk and vote prompts, personas): the provider's replies are parameters. A language-model vote is modelled by the contract both vote strategies share: an alive candidate other than the voter, or none.
- Players.Player.Vote: does not model a language-model wolf's preference for non-mates, because that choice is still an element of the candidate list, which is all the engine relies on.
- Probabilities of the `random.random()` branches: randomness is nondeterministic choice, not a distribution.
- The language-model name request inside `_generate_ia_names`, including the parsing of its comma-separated answer: the model takes the parsed list, or `None` for a failed call, and models the fallback and padding.
- `input()`, `print()`, `.strip()` of the typed text, and `load_dotenv`: the human's text and choices are parameters, and the printed lines are the returned records.
- The retry loop of the human vote (game_master.py:361-383): the vote parameter is the loop's final answer, and an id that names no alive participant other than the human is dropped.
- The listing of alive players before the vote (game_master.py:351-356) only prints, so it is not modelled.
- personalities.py and frontend.py are not part of this model. They hold persona selection, file reads, and the arcade interface with its float timers.
- In `night_phase`, the `if target:` test cannot fail, because a wolf always finds a target when an alive villager exists (`GameRules.ValidNightVictim` states this), so the model has no branch for a missing target.
- The `alive_players()` copies iterated in `night_phase` and `discussion` are modelled as loops over the roster that skip the dead. Nobody dies during those loops, so both visit the same participants.
