/**
 * A participant of the game (player.py): its identity, its camp, whether it
 * is alive, and the append-only log of what it did and heard.
 *
 * Python's class hierarchy Player / Villager / Wolf and the language-model
 * subclasses LLMVillager / LLMWolf become one class whose constant `kind`
 * records which of them an object is an instance of; each Python constructor
 * is a named constructor here.
 */
module Players {
  import opened Wrappers

  /** `Camp`: the side a participant plays for. */
  datatype Camp = Villager | Wolf

  /** The class a participant object is an instance of. */
  datatype Kind = BasePlayer | PlainVillager | PlainWolf | LlmVillager | LlmWolf

  /** Whether talk and vote of this kind are answered by the language-model provider. */
  predicate ProviderBacked(kind: Kind)
  {
    kind == LlmVillager || kind == LlmWolf
  }

  const SLEEP_LINE: string := "Dors."
  const WAKE_LINE: string := "Se réveille."

  /** The log entry of a message a participant heard. */
  function HeardLine(message: string): string
  {
    "Entendu: " + message
  }

  /** The log entry a plain wolf writes when it picks its night target. */
  function TargetLine(name: string): string
  {
    "Cible la victime " + name + "."
  }

  /** What a non-player participant with the default strategy says. */
  function InnocenceClaim(name: string): string
  {
    "Je suis " + name + ", je suis innocent !"
  }

  /**
   * The utterance of a participant asked to talk.  For a provider-backed kind
   * it is the provider's answer `reply` (possibly empty); otherwise the
   * default strategy: the innocence claim for a non-player participant, and
   * silence for the human.
   */
  function Speech(kind: Kind, npc: bool, name: string, reply: string): string
  {
    if ProviderBacked(kind) then reply
    else if npc then InnocenceClaim(name)
    else ""
  }

  /** The state of one participant as a value. */
  datatype Seat = Seat(id: int, name: string, npc: bool, camp: Camp, kind: Kind,
                       alive: bool, history: seq<string>, mates: Option<seq<string>>)

  class Player {
    const id: int
    const name: string
    const npc: bool
    const camp: Camp
    const kind: Kind
    var alive: bool
    var history: seq<string>
    /** `mate_names`: present (Some) only on a language-model wolf. */
    var mateNames: Option<seq<string>>

    /** The participant as a value. */
    ghost function State(): Seat
      reads this
    {
      Seat(id, name, npc, camp, kind, alive, history, mateNames)
    }

    /** `Player(player_id, name, npc, camp)`: alive, with an empty history. */
    constructor (playerId: int, name: string, npc: bool, camp: Camp)
      ensures State() == Seat(playerId, name, npc, camp, BasePlayer, true, [], None)
    {
      this.id := playerId;
      this.name := name;
      this.npc := npc;
      this.camp := camp;
      this.kind := BasePlayer;
      this.alive := true;
      this.history := [];
      this.mateNames := None;
    }

    /** `Villager(player_id, name, npc)`: always of camp Villager. */
    constructor Villager(playerId: int, name: string, npc: bool)
      ensures State() == Seat(playerId, name, npc, Camp.Villager, PlainVillager, true, [], None)
    {
      this.id := playerId;
      this.name := name;
      this.npc := npc;
      this.camp := Camp.Villager;
      this.kind := PlainVillager;
      this.alive := true;
      this.history := [];
      this.mateNames := None;
    }

    /** `Wolf(player_id, name, npc)`: always of camp Wolf; it has no mate list. */
    constructor Wolf(playerId: int, name: string, npc: bool)
      ensures State() == Seat(playerId, name, npc, Camp.Wolf, PlainWolf, true, [], None)
    {
      this.id := playerId;
      this.name := name;
      this.npc := npc;
      this.camp := Camp.Wolf;
      this.kind := PlainWolf;
      this.alive := true;
      this.history := [];
      this.mateNames := None;
    }

    /** `LLMVillager(player_id, name, npc, persona_text)`, without the persona text. */
    constructor LlmVillager(playerId: int, name: string, npc: bool)
      ensures State() == Seat(playerId, name, npc, Camp.Villager, Kind.LlmVillager, true, [], None)
    {
      this.id := playerId;
      this.name := name;
      this.npc := npc;
      this.camp := Camp.Villager;
      this.kind := Kind.LlmVillager;
      this.alive := true;
      this.history := [];
      this.mateNames := None;
    }

    /** `LLMWolf(player_id, name, npc, persona_text)`: a wolf whose mate list starts empty. */
    constructor LlmWolf(playerId: int, name: string, npc: bool)
      ensures State() == Seat(playerId, name, npc, Camp.Wolf, Kind.LlmWolf, true, [], Some([]))
    {
      this.id := playerId;
      this.name := name;
      this.npc := npc;
      this.camp := Camp.Wolf;
      this.kind := Kind.LlmWolf;
      this.alive := true;
      this.history := [];
      this.mateNames := Some([]);
    }

    /** `sleep`: logs that the participant falls asleep. */
    method Sleep()
      modifies this`history
      ensures history == old(history) + [SLEEP_LINE]
    {
      history := history + [SLEEP_LINE];
    }

    /** `wake_up`: logs that the participant wakes up. */
    method WakeUp()
      modifies this`history
      ensures history == old(history) + [WAKE_LINE]
    {
      history := history + [WAKE_LINE];
    }

    /** `night_reset`: an empty hook. */
    method NightReset()
      ensures unchanged(this)
    {
    }

    /** `listen`: logs a message heard. */
    method Listen(message: string)
      modifies this`history
      ensures history == old(history) + [HeardLine(message)]
    {
      history := history + [HeardLine(message)];
    }

    /**
     * `talk`.  A provider-backed participant says the provider's answer;
     * with the default strategy a participant speaks exactly when it is not
     * the human, and then it claims its innocence by name.
     */
    function Talk(reply: string): (s: string)
      ensures ProviderBacked(kind) ==> s == reply
      ensures !ProviderBacked(kind) ==> (s != "" <==> npc)
      ensures !ProviderBacked(kind) && npc ==> s == InnocenceClaim(name)
    {
      Speech(kind, npc, name, reply)
    }

    /**
     * `vote`: the human never votes through this method; a non-player
     * participant picks any alive participant of the list other than itself,
     * and abstains only when there is none.
     */
    method Vote(alivePlayers: seq<Player>) returns (r: Option<Player>)
      ensures !npc ==> r == None
      ensures npc ==> (r.Some? <==> exists p :: p in alivePlayers && p.alive && p.id != id)
      ensures r.Some? ==> r.value in alivePlayers && r.value.alive && r.value.id != id
    {
      if !npc {
        return None;
      }
      var possibles := Eligible(alivePlayers, id);
      if possibles == [] {
        return None;
      }
      assert possibles[0] in possibles;
      var target :| target in possibles;
      return Some(target);
    }

    /**
     * `night_action`, which only wolves have.  A plain wolf picks any alive
     * villager of the list and logs its pick; a language-model wolf picks any
     * member of the list and logs nothing.  Neither holds back when it has a
     * possible target.
     */
    method NightAction(villagers: seq<Player>) returns (r: Option<Player>)
      requires kind == PlainWolf || kind == Kind.LlmWolf
      modifies this`history
      ensures r.Some? ==> r.value in villagers
      ensures kind == PlainWolf ==> (r.Some? <==> exists v :: v in villagers && v.alive)
      ensures kind == PlainWolf && r.Some? ==>
        r.value.alive && history == old(history) + [TargetLine(r.value.name)]
      ensures kind == Kind.LlmWolf ==> (r.Some? <==> villagers != [])
      ensures kind == Kind.LlmWolf || r.None? ==> history == old(history)
    {
      if kind == Kind.LlmWolf {
        if villagers == [] {
          return None;
        }
        assert villagers[0] in villagers;
        var target :| target in villagers;
        return Some(target);
      }
      var possibles := AliveIn(villagers);
      if possibles == [] {
        return None;
      }
      assert possibles[0] in possibles;
      var target :| target in possibles;
      history := history + [TargetLine(target.name)];
      return Some(target);
    }
  }

  /** Ids strictly increase along the list (so its members are distinct). */
  predicate IncreasingIds(ps: seq<Player>)
  {
    forall i, j :: 0 <= i < j < |ps| ==> ps[i].id < ps[j].id
  }

  /** The alive members of a list, in list order. */
  function AliveIn(ps: seq<Player>): (r: seq<Player>)
    reads ps
    ensures forall p :: p in r ==> p in ps && p.alive
    ensures forall p :: p in ps && p.alive ==> p in r
    ensures |r| <= |ps|
  {
    if ps == [] then []
    else (if ps[0].alive then [ps[0]] else []) + AliveIn(ps[1..])
  }

  /** Filtering keeps the list order, so increasing ids stay increasing. */
  lemma {:induction false} AliveInIncreasing(ps: seq<Player>)
    requires IncreasingIds(ps)
    ensures IncreasingIds(AliveIn(ps))
  {
    if ps != [] {
      AliveInIncreasing(ps[1..]);
      var rest := AliveIn(ps[1..]);
      forall q | q in rest ensures ps[0].id < q.id {
        var j :| 0 <= j < |ps[1..]| && ps[1..][j] == q;
        assert ps[j + 1] == q;
      }
      var head: seq<Player> := if ps[0].alive then [ps[0]] else [];
      assert AliveIn(ps) == head + rest;
      forall i, j | 0 <= i < j < |head + rest|
        ensures (head + rest)[i].id < (head + rest)[j].id
      {
        if i < |head| {
          assert (head + rest)[j] in rest;
        }
      }
    }
  }

  /** `[p for p in alive_players if p.alive and p.id != self.id]`. */
  function Eligible(ps: seq<Player>, selfId: int): (r: seq<Player>)
    reads ps
    ensures forall p :: p in r ==> p in ps && p.alive && p.id != selfId
    ensures forall p :: p in ps && p.alive && p.id != selfId ==> p in r
  {
    if ps == [] then []
    else (if ps[0].alive && ps[0].id != selfId then [ps[0]] else []) + Eligible(ps[1..], selfId)
  }

  /** The participants as values, in list order. */
  ghost function SeatsOf(ps: seq<Player>): (r: seq<Seat>)
    reads ps
    ensures |r| == |ps| && forall i :: 0 <= i < |ps| ==> r[i] == ps[i].State()
  {
    if ps == [] then [] else [ps[0].State()] + SeatsOf(ps[1..])
  }
}
