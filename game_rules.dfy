/**
 * The rules the game master (game_master.py) applies, stated on values: a
 * roster is the sequence of the participants' `Seat`s, indexed by id, and
 * every phase is a function from the roster before it to the roster after
 * it, given the choices made by chance, by the strategies and by the human.
 */
module GameRules {
  import opened Wrappers
  import opened Players
  import Tally

  const NB_PLAYERS: nat := 10
  const NB_WOLVES: nat := 2

  /** The class `distribute_roles` gives a participant: a language-model one for a non-player participant. */
  function KindFor(npc: bool, camp: Camp): (k: Kind)
    ensures ProviderBacked(k) == npc
    ensures (k == PlainWolf || k == Kind.LlmWolf) == (camp == Wolf)
    ensures k != BasePlayer
  {
    match camp
    case Villager => if npc then Kind.LlmVillager else PlainVillager
    case Wolf => if npc then Kind.LlmWolf else PlainWolf
  }

  /**
   * A roster as the game master keeps it once roles are distributed: the
   * participant at position i has id i, only position 0 (the human) is not
   * a non-player participant, and each participant's class fits its camp.
   */
  predicate WellFormed(reg: seq<Seat>)
  {
    |reg| > 0 &&
    forall i :: 0 <= i < |reg| ==>
      reg[i].id == i && reg[i].npc == (i != 0) && reg[i].kind == KindFor(reg[i].npc, reg[i].camp)
  }

  /** Number of alive participants of camp `c`. */
  function AliveCount(reg: seq<Seat>, c: Camp): nat
  {
    if reg == [] then 0
    else (if reg[0].alive && reg[0].camp == c then 1 else 0) + AliveCount(reg[1..], c)
  }

  /** The alive participants, in roster order. */
  function AliveSeats(reg: seq<Seat>): seq<Seat>
  {
    if reg == [] then []
    else (if reg[0].alive then [reg[0]] else []) + AliveSeats(reg[1..])
  }

  /** `game_state()`: the game goes on while a wolf lives and wolves are outnumbered. */
  predicate Continues(reg: seq<Seat>)
  {
    AliveCount(reg, Wolf) > 0 && AliveCount(reg, Wolf) < AliveCount(reg, Villager)
  }

  /** The night passes without a kill: no wolf or no villager is alive. */
  predicate Quiet(reg: seq<Seat>)
  {
    AliveCount(reg, Wolf) == 0 || AliveCount(reg, Villager) == 0
  }

  /** Every alive participant logs `line`. */
  function AppendToAlive(reg: seq<Seat>, line: string): seq<Seat>
  {
    seq(|reg|, i requires 0 <= i < |reg| =>
      if reg[i].alive then reg[i].(history := reg[i].history + [line]) else reg[i])
  }

  /** Participant `k` logs `line`. */
  function Note(reg: seq<Seat>, k: nat, line: string): seq<Seat>
    requires k < |reg|
  {
    reg[k := reg[k].(history := reg[k].history + [line])]
  }

  /** Participant `k` dies. */
  function Kill(reg: seq<Seat>, k: nat): seq<Seat>
    requires k < |reg|
  {
    reg[k := reg[k].(alive := false)]
  }

  /** Position of the first alive participant of camp `c`. */
  function FirstAlive(reg: seq<Seat>, c: Camp): (k: nat)
    requires AliveCount(reg, c) > 0
    ensures k < |reg| && reg[k].alive && reg[k].camp == c
    ensures forall j :: 0 <= j < k ==> !(reg[j].alive && reg[j].camp == c)
  {
    if reg[0].alive && reg[0].camp == c then 0 else 1 + FirstAlive(reg[1..], c)
  }

  // ------------------------------------------------------------------ night

  /**
   * The choices a night can make: none on a quiet night, otherwise one alive
   * villager (a wolf always finds a target when a villager is alive).
   */
  predicate ValidNightVictim(reg: seq<Seat>, victim: Option<nat>)
  {
    if Quiet(reg) then victim == None
    else victim.Some? && victim.value < |reg| && reg[victim.value].alive && reg[victim.value].camp == Villager
  }

  /**
   * `night_phase`: everyone alive falls asleep; unless the night is quiet,
   * the first alive wolf picks `victim` (a plain wolf logs its pick), the
   * victim dies, and everyone still alive wakes up.
   */
  function NightSpec(reg: seq<Seat>, victim: Option<nat>): seq<Seat>
  {
    var slept := AppendToAlive(reg, SLEEP_LINE);
    if Quiet(reg) || victim.None? || victim.value >= |reg| then AppendToAlive(slept, WAKE_LINE)
    else
      var v := victim.value;
      var k := FirstAlive(reg, Wolf);
      var marked := if reg[k].kind == PlainWolf then Note(slept, k, TargetLine(reg[v].name)) else slept;
      AppendToAlive(Kill(marked, v), WAKE_LINE)
  }

  datatype NightResult = NightResult(victimName: Option<string>, text: string)

  /** The record `night_phase` returns. */
  function NightReport(reg: seq<Seat>, victim: Option<nat>): NightResult
  {
    if Quiet(reg) then NightResult(None, "Nuit calme, personne n'est mort.")
    else if victim.Some? && victim.value < |reg| then
      var name := reg[victim.value].name;
      NightResult(Some(name),
        if name != "" then "Pendant la nuit, " + name + " a été tué(e)."
        else "Nuit passée, personne n'est mort.")
    else NightResult(None, "Nuit passée, personne n'est mort.")
  }

  // ------------------------------------------------------------- discussion

  /** A line said aloud during the discussion, with the id of its speaker. */
  datatype Line = Line(speaker: int, text: string)

  /**
   * What the non-player participants of `seats` say, in order: each one whose
   * utterance (its provider's answer being `reply(id)`) is not empty says
   * "<name>: <utterance>".
   */
  function NpcLines(seats: seq<Seat>, reply: int -> string): seq<Line>
  {
    if seats == [] then []
    else
      var s := seats[|seats| - 1];
      NpcLines(seats[..|seats| - 1], reply) + (if Speaks(s, reply) then [SpokenLine(s, reply)] else [])
  }

  /** What participant `s` says when asked to talk. */
  function Utterance(s: Seat, reply: int -> string): string
  {
    Speech(s.kind, s.npc, s.name, reply(s.id))
  }

  /** A non-player participant speaks up when its utterance is not empty. */
  predicate Speaks(s: Seat, reply: int -> string)
  {
    s.npc && Utterance(s, reply) != ""
  }

  /** The line a non-player participant says aloud. */
  function SpokenLine(s: Seat, reply: int -> string): Line
  {
    Line(s.id, s.name + ": " + Utterance(s, reply))
  }

  /** The human's line, when the human is alive and typed a message. */
  function HumanLines(reg: seq<Seat>, message: string): seq<Line>
  {
    if reg != [] && reg[0].alive && message != "" then [Line(reg[0].id, reg[0].name + ": " + message)]
    else []
  }

  /** All lines of a discussion, in the order they are said. */
  function DayLines(reg: seq<Seat>, reply: int -> string, message: string): seq<Line>
  {
    NpcLines(AliveSeats(reg), reply) + HumanLines(reg, message)
  }

  /** The log entries participant `listener` gets from `lines`: all lines but its own. */
  function HeardBy(lines: seq<Line>, listener: int): seq<string>
  {
    if lines == [] then []
    else
      var l := lines[|lines| - 1];
      HeardBy(lines[..|lines| - 1], listener) +
        (if l.speaker != listener then [HeardLine(l.text)] else [])
  }

  /** Every alive participant hears the lines of the others. */
  function ListenAll(reg: seq<Seat>, lines: seq<Line>): seq<Seat>
  {
    seq(|reg|, i requires 0 <= i < |reg| =>
      if reg[i].alive then reg[i].(history := reg[i].history + HeardBy(lines, reg[i].id)) else reg[i])
  }

  /** `discussion`. */
  function Discuss(reg: seq<Seat>, reply: int -> string, message: string): seq<Seat>
  {
    ListenAll(reg, DayLines(reg, reply, message))
  }

  // ------------------------------------------------------------------- vote

  /** One vote: who cast it, for whom. */
  datatype Ballot = Ballot(voter: int, target: int)

  /** `target` is the id of a participant of `pool` other than `voter`. */
  predicate IsCandidate(pool: seq<Seat>, voter: int, target: int)
  {
    target != voter && exists q :: q in pool && q.id == target
  }

  /** `voter` has someone to vote for in `pool`. */
  predicate HasCandidate(pool: seq<Seat>, voter: int)
  {
    exists q :: q in pool && q.id != voter
  }

  /**
   * The human's vote: counted when the human is alive and names an alive
   * participant other than itself, dropped otherwise.
   */
  function HumanBallot(reg: seq<Seat>, humanVote: Option<int>): Option<Ballot>
  {
    if reg != [] && reg[0].alive && humanVote.Some? && IsCandidate(AliveSeats(reg), reg[0].id, humanVote.value)
    then Some(Ballot(reg[0].id, humanVote.value))
    else None
  }

  /** The human's vote as a list of at most one ballot. */
  function HumanBallots(reg: seq<Seat>, humanVote: Option<int>): seq<Ballot>
  {
    match HumanBallot(reg, humanVote)
    case Some(b) => [b]
    case None => []
  }

  /**
   * The votes of the non-player participants among `voters`, in order: each
   * one that has a candidate in `pool` votes exactly once, for a candidate.
   */
  predicate NpcBallots(voters: seq<Seat>, pool: seq<Seat>, ballots: seq<Ballot>)
  {
    if voters == [] then ballots == []
    else
      var v := voters[|voters| - 1];
      if v.npc && HasCandidate(pool, v.id) then
        ballots != [] &&
        ballots[|ballots| - 1].voter == v.id &&
        IsCandidate(pool, v.id, ballots[|ballots| - 1].target) &&
        NpcBallots(voters[..|voters| - 1], pool, ballots[..|ballots| - 1])
      else
        NpcBallots(voters[..|voters| - 1], pool, ballots)
  }

  /** The possible votes of one day: the human's first, then the others' in roster order. */
  predicate ValidBallots(reg: seq<Seat>, humanVote: Option<int>, ballots: seq<Ballot>)
  {
    var pool := AliveSeats(reg);
    match HumanBallot(reg, humanVote)
    case Some(b) => ballots != [] && ballots[0] == b && NpcBallots(pool, pool, ballots[1..])
    case None => NpcBallots(pool, pool, ballots)
  }

  /** The `votes` list: the targets of the ballots. */
  function Targets(ballots: seq<Ballot>): (votes: seq<int>)
    ensures |votes| == |ballots| && forall k :: 0 <= k < |ballots| ==> votes[k] == ballots[k].target
  {
    if ballots == [] then [] else [ballots[0].target] + Targets(ballots[1..])
  }

  /** The outcome of the tally: the most common vote, if any vote was cast. */
  function Condemn(reg: seq<Seat>, votes: seq<int>): seq<Seat>
  {
    if votes == [] then reg
    else
      var t := Tally.MostCommon(votes);
      if 0 <= t < |reg| then Kill(reg, t) else reg
  }

  datatype DayResult = DayResult(lynchedName: Option<string>, text: string)

  /** What the human and the providers supply for one day. */
  datatype DayInput = DayInput(humanMessage: string, humanVote: Option<int>, reply: int -> string)

  /** `day_phase`: the discussion, then the vote. */
  function DaySpec(reg: seq<Seat>, input: DayInput, ballots: seq<Ballot>): seq<Seat>
  {
    Condemn(Discuss(reg, input.reply, input.humanMessage), Targets(ballots))
  }

  /** The record `day_phase` returns. */
  function DayReport(reg: seq<Seat>, votes: seq<int>): DayResult
  {
    if votes == [] then DayResult(None, "Personne n'a été lynché.")
    else
      var t := Tally.MostCommon(votes);
      if 0 <= t < |reg| then DayResult(Some(reg[t].name), reg[t].name + " est lynché(e) par le village.")
      else DayResult(None, "Personne n'a été lynché.")
  }

  // ------------------------------------------------------------------- turn

  /** `turn`: a night, then a day unless the night ended the game. */
  function TurnSpec(reg: seq<Seat>, victim: Option<nat>, input: DayInput, ballots: seq<Ballot>): seq<Seat>
  {
    var n := NightSpec(reg, victim);
    if Continues(n) then DaySpec(n, input, ballots) else n
  }

  // ------------------------------------------------------------------- mates

  /** `[name for name in wolf_names if name != wolf.name]`. */
  function Others(names: seq<string>, own: string): (r: seq<string>)
    ensures forall x :: x in r <==> x in names && x != own
    ensures own !in r
    ensures |r| <= |names|
  {
    if names == [] then []
    else (if names[0] != own then [names[0]] else []) + Others(names[1..], own)
  }

  /** The names of the wolves, in roster order. */
  function WolfNames(reg: seq<Seat>): seq<string>
  {
    if reg == [] then []
    else (if reg[0].camp == Wolf then [reg[0].name] else []) + WolfNames(reg[1..])
  }

  /**
   * The mate lists as `_link_wolves_together` leaves them: a participant with
   * a mate list (a language-model wolf) lists the other wolves' names; no one
   * else has a mate list.
   */
  predicate MatesLinked(reg: seq<Seat>)
  {
    forall i :: 0 <= i < |reg| ==>
      reg[i].mates == if reg[i].kind == Kind.LlmWolf then Some(Others(WolfNames(reg), reg[i].name)) else None
  }

  /** The camps of the roster, in order. */
  function Camps(reg: seq<Seat>): (cs: seq<Camp>)
    ensures |cs| == |reg| && forall i :: 0 <= i < |reg| ==> cs[i] == reg[i].camp
  {
    if reg == [] then [] else [reg[0].camp] + Camps(reg[1..])
  }

  /** `[x] * n`. */
  function Repeat<T>(x: T, n: nat): (r: seq<T>)
    ensures |r| == n && forall i :: 0 <= i < n ==> r[i] == x
  {
    if n == 0 then [] else [x] + Repeat(x, n - 1)
  }

  /** The role list before shuffling: the villagers, then the wolves. */
  function InitialRoles(): seq<Camp>
  {
    Repeat(Camp.Villager, NB_PLAYERS - NB_WOLVES) + Repeat(Camp.Wolf, NB_WOLVES)
  }
}
