/**
 * The game master (game_master.py, class GameMaster): it owns the roster
 * `players` and the two camp views `villagers` and `wolves`, which hold the
 * very same participant objects, and it runs the game turn by turn.
 *
 * Every phase is proved to change the participants exactly as the matching
 * function of GameRules says, given the choices chance and the strategies
 * made (ghost out-parameters), so the lemmas of GameProperties apply to it.
 */
module GameEngine {
  import opened Wrappers
  import opened Players
  import opened GameRules
  import opened GameProperties
  import Tally
  import Naming
  import Shuffling

  /** The members of `ps` of camp `c`, in order: a camp view of the roster. */
  function CampMembers(ps: seq<Player>, c: Camp): seq<Player>
  {
    if ps == [] then [] else (if ps[0].camp == c then [ps[0]] else []) + CampMembers(ps[1..], c)
  }

  /** A camp view holds exactly the roster's members of that camp. */
  lemma {:induction false} CampMembersIn(ps: seq<Player>, c: Camp)
    ensures forall p :: p in CampMembers(ps, c) ==> p in ps && p.camp == c
    ensures forall p :: p in ps && p.camp == c ==> p in CampMembers(ps, c)
  {
    if ps != [] {
      CampMembersIn(ps[1..], c);
      assert ps == [ps[0]] + ps[1..];
    }
  }

  /** `[player.name for player in ps]`. */
  function NamesOf(ps: seq<Player>): (r: seq<string>)
    ensures |r| == |ps| && forall i :: 0 <= i < |ps| ==> r[i] == ps[i].name
  {
    if ps == [] then [] else [ps[0].name] + NamesOf(ps[1..])
  }

  /** `next((p for p in ps if p.id == id), None)`. */
  function FindById(ps: seq<Player>, id: int): (r: Option<Player>)
    ensures r.Some? ==> r.value in ps && r.value.id == id
    ensures r.None? ==> forall p :: p in ps ==> p.id != id
  {
    if ps == [] then None else if ps[0].id == id then Some(ps[0]) else FindById(ps[1..], id)
  }

  /** The mate list `_link_wolves_together` leaves: the other wolves' names, if there was a list. */
  function Linked(mates: Option<seq<string>>, wolfNames: seq<string>, own: string): Option<seq<string>>
  {
    if mates.Some? then Some(Others(wolfNames, own)) else None
  }

  /**
   * A participant as `distribute_roles` rebuilds it at position k with camp
   * c: same id and name, the class fitting its camp, alive, an empty log, and
   * an empty mate list on a language-model wolf only.
   */
  predicate Rebuilt(p: Player, k: int, name: string, c: Camp)
    reads p
  {
    p.id == k && p.name == name && p.npc == (k != 0) && p.camp == c && p.kind == KindFor(k != 0, c) &&
    p.alive && p.history == [] && p.mateNames == (if p.kind == Kind.LlmWolf then Some([]) else None)
  }

  /** The roster after every alive participant logged `line`. */
  lemma LoggedAll(ps: seq<Player>, before: seq<Seat>, line: string)
    requires |ps| == |before|
    requires forall i :: 0 <= i < |ps| ==>
      ps[i].State() == if before[i].alive then before[i].(history := before[i].history + [line]) else before[i]
    ensures SeatsOf(ps) == AppendToAlive(before, line)
  {
  }

  /** The roster after every alive participant but the speaker heard `line`. */
  lemma HeardAll(ps: seq<Player>, before: seq<Seat>, line: Line)
    requires |ps| == |before|
    requires forall i :: 0 <= i < |ps| ==>
      ps[i].State() ==
        if before[i].alive && before[i].id != line.speaker
        then before[i].(history := before[i].history + [HeardLine(line.text)]) else before[i]
    ensures SeatsOf(ps) == ListenAll(before, [line])
  {
    forall i | 0 <= i < |ps| ensures SeatsOf(ps)[i] == ListenAll(before, [line])[i] {
      HeardByOne(line, before[i].id);
    }
  }

  /** The ids of a list of participants are those of its values. */
  lemma SeatIds(ps: seq<Player>, id: int)
    ensures (exists q :: q in SeatsOf(ps) && q.id == id) <==> (exists p :: p in ps && p.id == id)
    ensures (exists q :: q in SeatsOf(ps) && q.id != id) <==> (exists p :: p in ps && p.id != id)
  {
    var seats := SeatsOf(ps);
    forall q | q in seats ensures exists p :: p in ps && p.id == q.id {
      var j :| 0 <= j < |seats| && seats[j] == q;
      assert ps[j] in ps && ps[j].id == q.id;
    }
    forall p | p in ps ensures exists q :: q in seats && q.id == p.id {
      var j :| 0 <= j < |ps| && ps[j] == p;
      assert seats[j] in seats && seats[j].id == p.id;
    }
  }

  /**
   * One turn of the voting loop of `vote`: participant k of the alive list,
   * when not the human, votes through its own `vote`; a vote cast is counted.
   */
  method NpcVote(alive: seq<Player>, k: nat, ghost pool: seq<Seat>) returns (votes: seq<int>, ghost b: seq<Ballot>)
    requires k < |alive| && forall p :: p in alive ==> p.alive
    requires pool == SeatsOf(alive)
    ensures if pool[k].npc && HasCandidate(pool, pool[k].id)
      then |b| == 1 && b[0].voter == pool[k].id && IsCandidate(pool, pool[k].id, b[0].target)
      else b == []
    ensures votes == Targets(b)
  {
    var p := alive[k];
    votes, b := [], [];
    if p.npc {
      var t := p.Vote(alive);
      SeatIds(alive, p.id);
      if t.Some? {
        SeatIds(alive, t.value.id);
        votes, b := [t.value.id], [Ballot(p.id, t.value.id)];
      }
    }
  }

  /** The roster after participant `k` alone logged `line`. */
  lemma NotedOne(ps: seq<Player>, before: seq<Seat>, k: nat, line: string)
    requires |ps| == |before| && k < |ps|
    requires forall i :: 0 <= i < |ps| ==>
      ps[i].State() == if i == k then before[i].(history := before[i].history + [line]) else before[i]
    ensures SeatsOf(ps) == Note(before, k, line)
  {
  }

  /** The roster after participant `k` alone died. */
  lemma KilledOne(ps: seq<Player>, before: seq<Seat>, k: nat)
    requires |ps| == |before| && k < |ps|
    requires forall i :: 0 <= i < |ps| ==>
      ps[i].State() == if i == k then before[i].(alive := false) else before[i]
    ensures SeatsOf(ps) == Kill(before, k)
  {
  }

  /** A night with a kill, unfolded: the wolf's log line, the death, the wake-up, the report. */
  lemma StrikeNight(reg: seq<Seat>, v: nat, marked: seq<Seat>)
    requires !Quiet(reg) && v < |reg|
    requires marked ==
      var k := FirstAlive(reg, Camp.Wolf);
      if reg[k].kind == PlainWolf then Note(AppendToAlive(reg, SLEEP_LINE), k, TargetLine(reg[v].name))
      else AppendToAlive(reg, SLEEP_LINE)
    ensures NightSpec(reg, Some(v)) == AppendToAlive(Kill(marked, v), WAKE_LINE)
    ensures NightReport(reg, Some(v)) == NightResult(Some(reg[v].name),
      if reg[v].name != "" then "Pendant la nuit, " + reg[v].name + " a été tué(e)."
      else "Nuit passée, personne n'est mort.")
  {
  }

  /** The night's victim is one the rules allow: an alive villager, as the wolf saw it after falling asleep. */
  lemma StrikeVictim(reg: seq<Seat>, v: nat, marked: seq<Seat>, k: nat, line: string)
    requires !Quiet(reg) && v < |reg| && k < |reg|
    requires marked == Note(AppendToAlive(reg, SLEEP_LINE), k, line) || marked == AppendToAlive(reg, SLEEP_LINE)
    requires marked[v].alive && marked[v].camp == Camp.Villager
    ensures ValidNightVictim(reg, Some(v))
  {
    var slept := AppendToAlive(reg, SLEEP_LINE);
    assert marked[v].alive == slept[v].alive && marked[v].camp == slept[v].camp;
  }

  /** The name the human plays under: the given one, else what was typed, else "Humain". */
  function HumanName(humanName: Option<string>, typed: string): string
  {
    match humanName
    case Some(n) => n
    case None => if typed == "" then "Humain" else typed
  }

  /** The name `setup_players` gives position k: the human's at 0, then the generated names. */
  function SetupName(humanName: Option<string>, typed: string, providerNames: Option<seq<string>>, k: nat): string
  {
    if k == 0 then HumanName(humanName, typed) else Naming.IaName(Naming.NameSource(providerNames), k - 1)
  }

  /**
   * A participant as `setup_players` creates it at position k: a plain
   * participant of camp Villager named `name`, alive, with an empty log and
   * no mate list, a non-player one unless k is 0.
   */
  predicate Created(p: Player, k: int, name: string)
    reads p
  {
    p.id == k && p.name == name && p.npc == (k != 0) && p.camp == Camp.Villager && p.kind == BasePlayer &&
    p.alive && p.history == [] && p.mateNames == None
  }

  // --------------------------------------------------- views and values

  lemma {:induction false} CampMembersAppend(ps: seq<Player>, p: Player, c: Camp)
    ensures CampMembers(ps + [p], c) == CampMembers(ps, c) + (if p.camp == c then [p] else [])
  {
    var tail: seq<Player> := if p.camp == c then [p] else [];
    if ps == [] {
      assert ps + [p] == [p] && [p][1..] == [];
      assert CampMembers([p], c) == tail + CampMembers([], c);
    } else {
      var head: seq<Player> := if ps[0].camp == c then [ps[0]] else [];
      assert (ps + [p])[0] == ps[0] && (ps + [p])[1..] == ps[1..] + [p];
      CampMembersAppend(ps[1..], p, c);
      calc {
        CampMembers(ps + [p], c);
        head + CampMembers(ps[1..] + [p], c);
        head + (CampMembers(ps[1..], c) + tail);
        (head + CampMembers(ps[1..], c)) + tail;
        CampMembers(ps, c) + tail;
      }
    }
  }

  /** A camp view holds as many participants as the roster has of that camp. */
  lemma {:induction false} CampMembersCount(ps: seq<Player>, roles: seq<Camp>, c: Camp)
    requires |ps| == |roles| && forall i :: 0 <= i < |ps| ==> ps[i].camp == roles[i]
    ensures |CampMembers(ps, c)| == multiset(roles)[c]
  {
    if ps != [] {
      CampMembersCount(ps[1..], roles[1..], c);
      assert roles == [roles[0]] + roles[1..];
    }
  }

  /** The alive filter keeps a list whose members all live. */
  lemma {:induction false} AliveInAll(ps: seq<Player>)
    requires forall i :: 0 <= i < |ps| ==> ps[i].alive
    ensures AliveIn(ps) == ps
  {
    if ps != [] {
      AliveInAll(ps[1..]);
      assert ps == [ps[0]] + ps[1..];
    }
  }

  /** When everyone is alive, a camp view loses no one to the alive filter. */
  lemma AllAliveCamp(ps: seq<Player>, c: Camp)
    requires forall i :: 0 <= i < |ps| ==> ps[i].alive
    ensures |AliveIn(CampMembers(ps, c))| == |CampMembers(ps, c)|
  {
    var m := CampMembers(ps, c);
    CampMembersIn(ps, c);
    forall i | 0 <= i < |m|
      ensures m[i].alive
    {
      assert m[i] in m;
      assert m[i] in ps;
    }
    AliveInAll(m);
  }

  lemma {:induction false} AliveCampCount(ps: seq<Player>, c: Camp)
    ensures |AliveIn(CampMembers(ps, c))| == AliveCount(SeatsOf(ps), c)
  {
    if ps != [] {
      var p := ps[0];
      var rest := CampMembers(ps[1..], c);
      var seats := SeatsOf(ps);
      AliveCampCount(ps[1..], c);
      assert seats[1..] == SeatsOf(ps[1..]);
      assert AliveCount(seats, c) == (if p.alive && p.camp == c then 1 else 0) + AliveCount(seats[1..], c);
      if p.camp == c {
        assert CampMembers(ps, c) == [p] + rest;
        assert ([p] + rest)[1..] == rest;
        assert AliveIn(CampMembers(ps, c)) == (if p.alive then [p] else []) + AliveIn(rest);
      } else {
        assert CampMembers(ps, c) == rest;
      }
    }
  }

  /** The camp view's first alive member is the roster's first alive participant of that camp. */
  lemma {:induction false} FirstAliveOfCamp(ps: seq<Player>, c: Camp)
    requires AliveCount(SeatsOf(ps), c) > 0
    ensures AliveIn(CampMembers(ps, c)) != [] && AliveIn(CampMembers(ps, c))[0] == ps[FirstAlive(SeatsOf(ps), c)]
  {
    var p := ps[0];
    var rest := CampMembers(ps[1..], c);
    var seats := SeatsOf(ps);
    assert seats[1..] == SeatsOf(ps[1..]);
    assert AliveCount(seats, c) == (if p.alive && p.camp == c then 1 else 0) + AliveCount(seats[1..], c);
    if p.camp == c && p.alive {
      assert CampMembers(ps, c) == [p] + rest;
      assert ([p] + rest)[1..] == rest;
      assert AliveIn(CampMembers(ps, c)) == [p] + AliveIn(rest);
      assert FirstAlive(seats, c) == 0;
    } else {
      FirstAliveOfCamp(ps[1..], c);
      assert FirstAlive(seats, c) == 1 + FirstAlive(seats[1..], c);
      if p.camp == c {
        assert CampMembers(ps, c) == [p] + rest;
        assert ([p] + rest)[1..] == rest;
        assert AliveIn(CampMembers(ps, c)) == AliveIn(rest);
      } else {
        assert CampMembers(ps, c) == rest;
      }
    }
  }

  lemma {:induction false} AliveInSeats(ps: seq<Player>)
    ensures SeatsOf(AliveIn(ps)) == AliveSeats(SeatsOf(ps))
  {
    if ps != [] {
      AliveInSeats(ps[1..]);
      assert SeatsOf(ps)[1..] == SeatsOf(ps[1..]);
      SeatsOfAppend(if ps[0].alive then [ps[0]] else [], AliveIn(ps[1..]));
    }
  }

  lemma {:induction false} SeatsOfAppend(a: seq<Player>, b: seq<Player>)
    ensures SeatsOf(a + b) == SeatsOf(a) + SeatsOf(b)
  {
    if a != [] {
      assert (a + b)[1..] == a[1..] + b;
      SeatsOfAppend(a[1..], b);
    } else {
      assert a + b == b;
    }
  }

  lemma {:induction false} WolfNamesOf(ps: seq<Player>)
    ensures NamesOf(CampMembers(ps, Camp.Wolf)) == WolfNames(SeatsOf(ps))
  {
    if ps != [] {
      WolfNamesOf(ps[1..]);
      assert SeatsOf(ps)[1..] == SeatsOf(ps[1..]);
      if ps[0].camp == Camp.Wolf {
        var rest := CampMembers(ps[1..], Camp.Wolf);
        assert ([ps[0]] + rest)[1..] == rest;
      }
    }
  }

  class GameMaster {
    var players: seq<Player>
    var villagers: seq<Player>
    var wolves: seq<Player>
    var humanPlayer: Option<Player>
    /** Reserved for a front end: stored, never read by the engine. */
    var pendingHumanMessage: Option<string>
    var pendingHumanVote: Option<int>
    var dayNumber: int

    /**
     * The roster once roles are distributed: ten participants with ids
     * 0..9 in order, the human at id 0 and no one else, each one's class
     * fitting its camp; `human_player` is the roster's first participant,
     * and the camp views are the roster filtered by camp, two wolves and
     * eight villagers.
     */
    ghost predicate Valid()
      reads this`players, this`villagers, this`wolves, this`humanPlayer
    {
      |players| == NB_PLAYERS &&
      (forall i :: 0 <= i < |players| ==>
        players[i].id == i && players[i].npc == (i != 0) &&
        players[i].kind == KindFor(players[i].npc, players[i].camp)) &&
      humanPlayer == Some(players[0]) &&
      villagers == CampMembers(players, Camp.Villager) &&
      wolves == CampMembers(players, Camp.Wolf) &&
      |wolves| == NB_WOLVES && |villagers| == NB_PLAYERS - NB_WOLVES
    }

    /** The mate lists as `_link_wolves_together` leaves them, read on the roster's objects. */
    ghost predicate WolvesLinked()
      reads this`players, this`wolves, players
    {
      forall k :: 0 <= k < |players| ==>
        players[k].mateNames == if players[k].kind == Kind.LlmWolf then Some(Others(NamesOf(wolves), players[k].name)) else None
    }

    /** The participants as values. */
    ghost function Registry(): seq<Seat>
      reads this`players, players
    {
      SeatsOf(players)
    }

    lemma ValidRoster()
      requires Valid()
      ensures WellFormed(Registry()) && IncreasingIds(players)
    {
    }

    /** `alive_players`. */
    function AlivePlayers(): (r: seq<Player>)
      reads this`players, players
      ensures forall p :: p in r ==> p in players && p.alive
      ensures forall p :: p in players && p.alive ==> p in r
      ensures SeatsOf(r) == AliveSeats(Registry())
      ensures IncreasingIds(players) ==> IncreasingIds(r)
    {
      AliveInSeats(players);
      if IncreasingIds(players) then AliveInIncreasing(players); AliveIn(players)
      else AliveIn(players)
    }

    /** `alive_villagers`: as many as the roster's alive villagers. */
    function AliveVillagers(): (r: seq<Player>)
      requires Valid()
      reads this`players, this`villagers, this`wolves, this`humanPlayer, villagers
      ensures forall p :: p in r ==> p in players && p.alive && p.camp == Camp.Villager
      ensures forall p :: p in players && p.alive && p.camp == Camp.Villager ==> p in r
      ensures |r| == AliveCount(Registry(), Camp.Villager)
    {
      AliveCampCount(players, Camp.Villager);
      CampMembersIn(players, Camp.Villager);
      AliveIn(villagers)
    }

    /** `alive_wolves`: as many as the roster's alive wolves. */
    function AliveWolves(): (r: seq<Player>)
      requires Valid()
      reads this`players, this`villagers, this`wolves, this`humanPlayer, wolves
      ensures forall p :: p in r ==> p in players && p.alive && p.camp == Camp.Wolf
      ensures forall p :: p in players && p.alive && p.camp == Camp.Wolf ==> p in r
      ensures |r| == AliveCount(Registry(), Camp.Wolf)
    {
      AliveCampCount(players, Camp.Wolf);
      CampMembersIn(players, Camp.Wolf);
      AliveIn(wolves)
    }

    /** `game_state`: the game goes on while a wolf lives and wolves are outnumbered. */
    function GameState(): (b: bool)
      requires Valid()
      reads this`players, this`villagers, this`wolves, this`humanPlayer, villagers, wolves
      ensures b <==> Continues(Registry())
    {
      var w := |AliveWolves()|;
      w > 0 && w < |AliveVillagers()|
    }

    // ---------------------------------------------------------------- setup

    /**
     * `GameMaster(human_name)`: the roster of `setup_players`, with roles
     * from `distribute_roles`.  `humanName` is the name given, `typedName`
     * what the human types when none is; `providerNames` the names the
     * provider answered, or None when the call failed.
     */
    constructor (humanName: Option<string>, typedName: string, providerNames: Option<seq<string>>)
      ensures dayNumber == 0 && pendingHumanMessage == None && pendingHumanVote == None
      ensures |players| == NB_PLAYERS
      ensures forall i :: 0 <= i < NB_PLAYERS ==>
        fresh(players[i]) && players[i].alive && players[i].history == [] &&
        players[i].name == SetupName(humanName, typedName, providerNames, i)
      ensures Valid() && Continues(Registry()) && MatesLinked(Registry())
    {
      players := [];
      villagers := [];
      wolves := [];
      humanPlayer := None;
      pendingHumanMessage := None;
      pendingHumanVote := None;
      dayNumber := 0;
      new;
      StartGame(humanName, typedName, providerNames);
    }

    /** The constructor's body: `setup_players`, then `distribute_roles`. */
    method StartGame(humanName: Option<string>, typedName: string, providerNames: Option<seq<string>>)
      modifies this`players, this`villagers, this`wolves, this`humanPlayer
      ensures |players| == NB_PLAYERS
      ensures forall i :: 0 <= i < NB_PLAYERS ==>
        fresh(players[i]) && players[i].alive && players[i].history == [] &&
        players[i].name == SetupName(humanName, typedName, providerNames, i)
      ensures Valid() && Continues(Registry()) && MatesLinked(Registry())
    {
      SetupPlayers(humanName, typedName, providerNames);
      DistributeRoles();
      assert Continues(Registry()) by {
        AllAliveContinues();
      }
      assert MatesLinked(Registry()) by {
        LinkedRoster();
      }
    }

    /**
     * `setup_players`: the human at id 0, then the non-player participants
     * at ids 1..9 named by `_generate_ia_names`, all plain players of camp
     * Villager for now, alive and with empty logs.
     */
    method SetupPlayers(humanName: Option<string>, typedName: string, providerNames: Option<seq<string>>)
      modifies this`players, this`villagers, this`wolves, this`humanPlayer
      ensures |players| == NB_PLAYERS
      ensures forall i :: 0 <= i < |players| ==> fresh(players[i])
      ensures forall i :: 0 <= i < |players| ==>
        Created(players[i], i, SetupName(humanName, typedName, providerNames, i))
      ensures humanPlayer == Some(players[0]) && villagers == [] && wolves == []
    {
      var name := HumanName(humanName, typedName);
      var iaNames := GenerateIaNames(NB_PLAYERS - 1, providerNames);
      players := [];
      villagers := [];
      wolves := [];
      humanPlayer := None;
      AddParticipant(0, name);
      humanPlayer := Some(players[0]);
      AddNpcs(iaNames);
    }

    /** The loop of `setup_players`: the non-player participants at ids 1, 2, ... in name order. */
    method AddNpcs(iaNames: seq<string>)
      requires |players| == 1
      modifies this`players
      ensures |players| == |iaNames| + 1 && players[0] == old(players[0])
      ensures forall i :: 1 <= i < |players| ==> fresh(players[i]) && Created(players[i], i, iaNames[i - 1])
    {
      var idx := 1;
      while idx <= |iaNames|
        invariant 1 <= idx <= |iaNames| + 1
        invariant |players| == idx && players[0] == old(players[0])
        invariant forall i :: 1 <= i < idx ==> fresh(players[i]) && Created(players[i], i, iaNames[i - 1])
      {
        AddParticipant(idx, iaNames[idx - 1]);
        idx := idx + 1;
      }
    }

    /** `self.players.append(Player(id, name, npc, Camp.VILLAGER))`, a non-player participant unless id is 0. */
    method AddParticipant(id: int, name: string)
      modifies this`players
      ensures |players| == |old(players)| + 1 && players[..|old(players)|] == old(players)
      ensures fresh(players[|old(players)|]) && Created(players[|old(players)|], id, name)
    {
      var p := new Player(id, name, id != 0, Camp.Villager);
      players := players + [p];
    }

    /**
     * `_generate_ia_names`, past the provider call: exactly `count` names,
     * the provider's (or the fallback list) first, padded with "IA_<k>" where
     * k counts from 1.
     */
    method GenerateIaNames(count: nat, providerNames: Option<seq<string>>) returns (names: seq<string>)
      ensures |names| == count
      ensures forall k :: 0 <= k < count ==> names[k] == Naming.IaName(Naming.NameSource(providerNames), k)
      ensures forall j, k :: |Naming.NameSource(providerNames)| <= j < k < count ==> names[j] != names[k]
    {
      var src := Naming.NameSource(providerNames);
      var iaNames := src;
      while |iaNames| < count
        invariant |src| <= |iaNames|
        invariant forall k :: 0 <= k < |iaNames| ==> iaNames[k] == Naming.IaName(src, k)
        decreases count - |iaNames|
      {
        iaNames := iaNames + ["IA_" + Naming.DecimalString(|iaNames| + 1)];
      }
      names := iaNames[..count];
      forall j, k | |src| <= j < k < count
        ensures names[j] != names[k]
      {
        Naming.PaddingNamesDistinct(j, k);
      }
    }

    /** `_build_roles_list`: some arrangement of eight villagers and two wolves. */
    method BuildRolesList() returns (roles: seq<Camp>)
      ensures |roles| == NB_PLAYERS
      ensures multiset(roles)[Camp.Villager] == NB_PLAYERS - NB_WOLVES
      ensures multiset(roles)[Camp.Wolf] == NB_WOLVES
    {
      var initial := InitialRoles();
      InitialRolesCount();
      var a := new Camp[|initial|](i requires 0 <= i < |initial| => initial[i]);
      assert a[..] == initial;
      Shuffling.Shuffle(a);
      roles := a[..];
    }

    /** `_create_human_with_role`: the human rebuilt in its camp, recorded in that camp's view. */
    method CreateHumanWithRole(player: Player, camp: Camp) returns (p: Player)
      modifies this`villagers, this`wolves, this`humanPlayer
      ensures fresh(p)
      ensures p.State() == Seat(player.id, player.name, false, camp, KindFor(false, camp), true, [], None)
      ensures villagers == old(villagers) + (if camp == Camp.Villager then [p] else [])
      ensures wolves == old(wolves) + (if camp == Camp.Wolf then [p] else [])
      ensures humanPlayer == Some(p)
    {
      if camp == Camp.Villager {
        p := new Player.Villager(player.id, player.name, false);
        villagers := villagers + [p];
      } else {
        p := new Player.Wolf(player.id, player.name, false);
        wolves := wolves + [p];
      }
      humanPlayer := Some(p);
    }

    /**
     * `_create_npc_with_role`: a non-player participant rebuilt as a
     * language-model villager or wolf, recorded in that camp's view.
     */
    method CreateNpcWithRole(player: Player, camp: Camp) returns (p: Player)
      modifies this`villagers, this`wolves
      ensures fresh(p)
      ensures p.State() == Seat(player.id, player.name, true, camp, KindFor(true, camp), true, [],
                                if camp == Camp.Wolf then Some([]) else None)
      ensures villagers == old(villagers) + (if camp == Camp.Villager then [p] else [])
      ensures wolves == old(wolves) + (if camp == Camp.Wolf then [p] else [])
    {
      if camp == Camp.Villager {
        p := new Player.LlmVillager(player.id, player.name, true);
        villagers := villagers + [p];
      } else {
        p := new Player.LlmWolf(player.id, player.name, true);
        wolves := wolves + [p];
      }
    }

    /**
     * `_link_wolves_together`: every wolf that has a mate list gets the
     * names of all wolves but its own; only mate lists change.
     */
    method LinkWolvesTogether()
      modifies set w | w in wolves :: w`mateNames
      ensures forall i :: 0 <= i < |wolves| ==>
        wolves[i].mateNames == Linked(old(wolves[i].mateNames), NamesOf(wolves), wolves[i].name)
    {
      var wolfNames := NamesOf(wolves);
      var k := 0;
      while k < |wolves|
        invariant 0 <= k <= |wolves|
        invariant forall i :: 0 <= i < |wolves| ==>
          wolves[i].mateNames == old(wolves[i].mateNames) ||
          wolves[i].mateNames == Linked(old(wolves[i].mateNames), wolfNames, wolves[i].name)
        invariant forall i :: 0 <= i < k ==>
          wolves[i].mateNames == Linked(old(wolves[i].mateNames), wolfNames, wolves[i].name)
      {
        var wolf := wolves[k];
        assert wolf in wolves;
        if wolf.mateNames.Some? {
          wolf.mateNames := Some(Others(wolfNames, wolf.name));
        }
        k := k + 1;
      }
    }

    /**
     * `distribute_roles`: the participant at position i is rebuilt with the
     * camp of position i of a shuffled role list, keeping its id, name and
     * whether it is the human; the camp views list the rebuilt participants
     * by camp, and the language-model wolves learn their mates' names.
     */
    method DistributeRoles()
      requires |players| == NB_PLAYERS
      requires forall i :: 0 <= i < |players| ==> players[i].id == i && players[i].npc == (i != 0)
      modifies this`players, this`villagers, this`wolves, this`humanPlayer
      ensures |players| == NB_PLAYERS
      ensures forall i :: 0 <= i < NB_PLAYERS ==>
        fresh(players[i]) && players[i].name == old(players[i].name) && players[i].alive && players[i].history == []
      ensures Valid() && WolvesLinked()
    {
      var rs := BuildRolesList();
      ghost var base := players;
      var rebuilt := RebuildPlayers(players, rs);
      InstallRoster(rebuilt, rs, base);
      LinkRoster();
    }

    /** The rebuilt roster replaces the old one, which makes the game master well formed. */
    method InstallRoster(rebuilt: seq<Player>, rs: seq<Camp>, ghost base: seq<Player>)
      requires |rebuilt| == NB_PLAYERS == |rs| == |base|
      requires multiset(rs)[Camp.Villager] == NB_PLAYERS - NB_WOLVES && multiset(rs)[Camp.Wolf] == NB_WOLVES
      requires forall k :: 0 <= k < |rebuilt| ==> Rebuilt(rebuilt[k], k, base[k].name, rs[k])
      requires humanPlayer == Some(rebuilt[0])
      requires villagers == CampMembers(rebuilt, Camp.Villager) && wolves == CampMembers(rebuilt, Camp.Wolf)
      modifies this`players
      ensures players == rebuilt && Valid()
      ensures forall k :: 0 <= k < |players| ==> Rebuilt(players[k], k, base[k].name, rs[k])
    {
      players := rebuilt;
      assert |villagers| == NB_PLAYERS - NB_WOLVES && |wolves| == NB_WOLVES by {
        CampMembersCount(rebuilt, rs, Camp.Villager);
        CampMembersCount(rebuilt, rs, Camp.Wolf);
      }
      RosterValid();
    }

    /** The end of `distribute_roles`: the wolves of the installed roster are linked. */
    method LinkRoster()
      requires Valid()
      requires forall k :: 0 <= k < |players| ==>
        players[k].mateNames == (if players[k].kind == Kind.LlmWolf then Some([]) else None)
      requires forall k :: 0 <= k < |players| ==> players[k].alive && players[k].history == []
      modifies set w | w in wolves :: w`mateNames
      ensures forall k :: 0 <= k < |players| ==> players[k].alive && players[k].history == []
      ensures Valid() && WolvesLinked()
    {
      WolvesUnlinked();
      LinkWolvesTogether();
      assert forall k :: 0 <= k < |players| && players[k].camp != Camp.Wolf ==> players[k].mateNames == None by {
        CampMembersIn(players, Camp.Wolf);
      }
      MateListsLinked();
    }

    /** After linking, the mate lists read on the whole roster are those of `WolvesLinked`. */
    lemma MateListsLinked()
      requires wolves == CampMembers(players, Camp.Wolf)
      requires forall k :: 0 <= k < |players| && players[k].camp != Camp.Wolf ==> players[k].mateNames == None
      requires forall k :: 0 <= k < |players| ==> (players[k].kind == Kind.LlmWolf ==> players[k].camp == Camp.Wolf)
      requires forall i :: 0 <= i < |wolves| ==>
        wolves[i].mateNames == Linked(if wolves[i].kind == Kind.LlmWolf then Some([]) else None, NamesOf(wolves), wolves[i].name)
      ensures WolvesLinked()
    {
      forall k | 0 <= k < |players|
        ensures players[k].mateNames == (if players[k].kind == Kind.LlmWolf then Some(Others(NamesOf(wolves), players[k].name)) else None)
      {
        if players[k].camp == Camp.Wolf {
          CampMembersIn(players, Camp.Wolf);
          var w := WolfIndex(players[k]);
        }
      }
    }

    /** The rebuilt roster, before the wolves are linked, is well formed. */
    lemma RosterValid()
      requires |players| == NB_PLAYERS
      requires forall k :: 0 <= k < |players| ==>
        players[k].id == k && players[k].npc == (k != 0) &&
        players[k].kind == KindFor(k != 0, players[k].camp)
      requires humanPlayer == Some(players[0])
      requires villagers == CampMembers(players, Camp.Villager) && wolves == CampMembers(players, Camp.Wolf)
      requires |villagers| == NB_PLAYERS - NB_WOLVES && |wolves| == NB_WOLVES
      ensures Valid()
    {
    }

    /** A roster in which everyone is alive is one where the game goes on. */
    lemma AllAliveContinues()
      requires Valid() && forall i :: 0 <= i < |players| ==> players[i].alive
      ensures Continues(Registry())
    {
      AliveCampCount(players, Camp.Wolf);
      AliveCampCount(players, Camp.Villager);
      AllAliveCamp(players, Camp.Wolf);
      AllAliveCamp(players, Camp.Villager);
    }

    /** Before linking, a wolf has an (empty) mate list exactly when it is a language-model wolf. */
    lemma WolvesUnlinked()
      requires wolves == CampMembers(players, Camp.Wolf)
      requires forall k :: 0 <= k < |players| ==>
        players[k].mateNames == (if players[k].kind == Kind.LlmWolf then Some([]) else None)
      ensures forall i :: 0 <= i < |wolves| ==>
        wolves[i].mateNames == (if wolves[i].kind == Kind.LlmWolf then Some([]) else None)
    {
      forall i | 0 <= i < |wolves|
        ensures wolves[i].mateNames == (if wolves[i].kind == Kind.LlmWolf then Some([]) else None)
      {
        CampMembersIn(players, Camp.Wolf);
        assert wolves[i] in players;
      }
    }

    /** Where a member of the wolves' view sits in it. */
    lemma WolfIndex(p: Player) returns (i: nat)
      requires p in wolves
      ensures i < |wolves| && wolves[i] == p
    {
      i :| 0 <= i < |wolves| && wolves[i] == p;
    }

    /** The loop of `distribute_roles`: one rebuilt participant per position, filed by camp. */
    method RebuildPlayers(base: seq<Player>, rs: seq<Camp>) returns (rebuilt: seq<Player>)
      requires |base| == |rs|
      requires forall i :: 0 <= i < |base| ==> base[i].id == i && base[i].npc == (i != 0)
      modifies this`villagers, this`wolves, this`humanPlayer
      ensures |rebuilt| == |base|
      ensures forall k :: 0 <= k < |base| ==> fresh(rebuilt[k]) && Rebuilt(rebuilt[k], k, base[k].name, rs[k])
      ensures villagers == CampMembers(rebuilt, Camp.Villager)
      ensures wolves == CampMembers(rebuilt, Camp.Wolf)
      ensures |base| > 0 ==> humanPlayer == Some(rebuilt[0])
      ensures forall p :: p in wolves ==> fresh(p)
    {
      rebuilt := [];
      villagers := [];
      wolves := [];
      var i := 0;
      while i < |base|
        invariant 0 <= i <= |base| && |rebuilt| == i
        invariant forall k :: 0 <= k < i ==> fresh(rebuilt[k]) && Rebuilt(rebuilt[k], k, base[k].name, rs[k])
        invariant villagers == CampMembers(rebuilt, Camp.Villager)
        invariant wolves == CampMembers(rebuilt, Camp.Wolf)
        invariant i > 0 ==> humanPlayer == Some(rebuilt[0])
        invariant forall p :: p in wolves ==> fresh(p)
      {
        var np: Player;
        if base[i].npc {
          np := CreateNpcWithRole(base[i], rs[i]);
        } else {
          np := CreateHumanWithRole(base[i], rs[i]);
        }
        assert villagers == CampMembers(rebuilt + [np], Camp.Villager) by {
          CampMembersAppend(rebuilt, np, Camp.Villager);
        }
        assert wolves == CampMembers(rebuilt + [np], Camp.Wolf) by {
          CampMembersAppend(rebuilt, np, Camp.Wolf);
        }
        rebuilt := rebuilt + [np];
        i := i + 1;
      }
    }

    /** After linking, the roster's mate lists are the ones MatesLinked describes. */
    lemma LinkedRoster()
      requires Valid() && WolvesLinked()
      ensures MatesLinked(Registry())
    {
      WolfNamesOf(players);
    }

    // ---------------------------------------------------------------- night

    /**
     * The first loop of `night_phase`: every alive participant resets and
     * falls asleep.  The loop walks the roster and skips the dead, which
     * visits `alive_players()` in its order: no one dies meanwhile.
     */
    method SleepAlive()
      requires Valid()
      modifies set p | p in players :: p`history
      ensures Registry() == AppendToAlive(old(Registry()), SLEEP_LINE)
    {
      ghost var before := Registry();
      var k := 0;
      while k < |players|
        invariant 0 <= k <= |players|
        invariant forall i :: 0 <= i < |players| ==>
          players[i].history == before[i].history + (if i < k && players[i].alive then [SLEEP_LINE] else [])
      {
        var p := players[k];
        assert p in players && forall i :: 0 <= i < |players| && i != k ==> players[i] != p;
        if p.alive {
          p.NightReset();
          p.Sleep();
        }
        k := k + 1;
      }
      LoggedAll(players, before, SLEEP_LINE);
    }

    /** The wake-up loop of `night_phase`: every participant still alive wakes up. */
    method WakeAlive()
      requires Valid()
      modifies set p | p in players :: p`history
      ensures Registry() == AppendToAlive(old(Registry()), WAKE_LINE)
    {
      ghost var before := Registry();
      var k := 0;
      while k < |players|
        invariant 0 <= k <= |players|
        invariant forall i :: 0 <= i < |players| ==>
          players[i].history == before[i].history + (if i < k && players[i].alive then [WAKE_LINE] else [])
      {
        var p := players[k];
        assert p in players && forall i :: 0 <= i < |players| && i != k ==> players[i] != p;
        if p.alive {
          p.WakeUp();
        }
        k := k + 1;
      }
      LoggedAll(players, before, WAKE_LINE);
    }

    /**
     * `night_phase`: everyone alive falls asleep; unless no wolf or no
     * villager lives, the first alive wolf picks its victim among the alive
     * villagers, who dies; everyone still alive wakes up.  The pick is the
     * ghost `victim`, and the report names it.
     */
    method NightPhase() returns (result: NightResult, ghost victim: Option<nat>)
      requires Valid()
      modifies set p | p in players :: p`history, set p | p in players :: p`alive
      ensures ValidNightVictim(old(Registry()), victim)
      ensures Registry() == NightSpec(old(Registry()), victim)
      ensures result == NightReport(old(Registry()), victim)
    {
      ghost var reg := Registry();
      SleepAlive();
      ghost var slept := Registry();
      assert SameStatus(reg, slept) by { AppendToAliveStatus(reg, SLEEP_LINE); }
      var ws := AliveWolves();
      var vs := AliveVillagers();
      assert |ws| == AliveCount(reg, Camp.Wolf) && |vs| == AliveCount(reg, Camp.Villager) by {
        SameStatusCount(reg, slept, Camp.Wolf);
        SameStatusCount(reg, slept, Camp.Villager);
      }
      if ws == [] || vs == [] {
        WakeAlive();
        return NightResult(None, "Nuit calme, personne n'est mort."), None;
      }
      var killer := ws[0];
      ghost var k := FirstAlive(reg, Camp.Wolf);
      assert killer == players[k] by {
        FirstAliveOfCamp(players, Camp.Wolf);
        FirstAliveSameStatus(reg, slept, Camp.Wolf);
      }
      result, victim := Strike(killer, vs, reg, k);
    }

    /**
     * The rest of `night_phase` once a wolf and a villager are alive and
     * everyone alive sleeps (`reg` is the roster before the night): the
     * first alive wolf `killer` picks its victim among the alive villagers
     * `vs`, the victim dies, everyone still alive wakes up.
     */
    method Strike(killer: Player, vs: seq<Player>, ghost reg: seq<Seat>, ghost k: nat)
      returns (result: NightResult, ghost victim: Option<nat>)
      requires Valid() && !Quiet(reg) && Registry() == AppendToAlive(reg, SLEEP_LINE)
      requires k == FirstAlive(reg, Camp.Wolf) && players[k] == killer
      requires vs != [] && forall p :: p in vs ==> p in players && p.alive && p.camp == Camp.Villager
      modifies set p | p in players :: p`history, set p | p in players :: p`alive
      ensures ValidNightVictim(reg, victim)
      ensures Registry() == NightSpec(reg, victim)
      ensures result == NightReport(reg, victim)
    {
      ghost var slept := Registry();
      assert SameStatus(reg, slept) by { AppendToAliveStatus(reg, SLEEP_LINE); }
      assert killer in players;
      var t := Pick(killer, vs, k);
      ghost var marked := Registry();
      assert marked == if reg[k].kind == PlainWolf then Note(slept, k, TargetLine(t.name)) else slept;
      ghost var v: nat :| v < |players| && players[v] == t;
      assert marked[v].alive && marked[v].camp == Camp.Villager;
      StrikeVictim(reg, v, marked, k, TargetLine(t.name));
      StrikeNight(reg, v, marked);
      Slay(t, v);
      WakeAlive();
      victim := Some(v);
      var name := t.name;
      result := NightResult(Some(name),
        if name != "" then "Pendant la nuit, " + name + " a été tué(e)."
        else "Nuit passée, personne n'est mort.");
    }

    /**
     * The wolf's move within `night_phase`: `killer`, at position k, picks
     * an alive villager of `vs`, and only a plain wolf logs its pick.
     */
    method Pick(killer: Player, vs: seq<Player>, ghost k: nat) returns (t: Player)
      requires k < |players| && players[k] == killer
      requires killer.kind == PlainWolf || killer.kind == Kind.LlmWolf
      requires forall i :: 0 <= i < |players| ==> players[i].id == i
      requires vs != [] && forall p :: p in vs ==> p in players && p.alive && p.camp == Camp.Villager
      modifies killer`history
      ensures players == old(players) && t in players && t.alive && t.camp == Camp.Villager
      ensures Registry() ==
        if killer.kind == PlainWolf then Note(old(Registry()), k, TargetLine(t.name)) else old(Registry())
    {
      ghost var before := Registry();
      assert vs[0] in vs;
      assert forall i :: 0 <= i < |players| && i != k ==> players[i] != killer;
      var target := killer.NightAction(vs);
      t := target.value;
      if killer.kind == PlainWolf {
        NotedOne(players, before, k, TargetLine(t.name));
      }
    }

    /** `target.alive = False`: the participant at position v dies. */
    method Slay(t: Player, ghost v: nat)
      requires Valid() && v < |players| && players[v] == t
      modifies t`alive
      ensures Valid() && players == old(players) && Registry() == Kill(old(Registry()), v)
    {
      ghost var before := Registry();
      assert forall i :: 0 <= i < |players| && i != v ==> players[i] != t;
      t.alive := false;
      KilledOne(players, before, v);
    }

    /**
     * One line said aloud in `discussion`: every alive participant other than
     * its speaker listens to it.
     */
    method Broadcast(line: Line)
      requires Valid()
      modifies set p | p in players :: p`history
      ensures Registry() == ListenAll(old(Registry()), [line])
    {
      ghost var before := Registry();
      var k := 0;
      while k < |players|
        invariant 0 <= k <= |players|
        invariant forall i :: 0 <= i < |players| ==>
          players[i].history == before[i].history +
            (if i < k && players[i].alive && players[i].id != line.speaker then [HeardLine(line.text)] else [])
      {
        var p := players[k];
        assert p in players && forall i :: 0 <= i < |players| && i != k ==> players[i] != p;
        if p.alive && p.id != line.speaker {
          p.Listen(line.text);
        }
        k := k + 1;
      }
      HeardAll(players, before, line);
    }

    /**
     * `discussion`: every alive non-player participant is asked to talk (its
     * provider answering `reply(id)`), and what is not empty is said aloud as
     * "<name>: <utterance>"; then the human, if alive, says `humanMessage`
     * unless it is empty.  Everyone alive hears every line but its own.
     */
    method Discussion(reply: int -> string, humanMessage: string)
      requires Valid()
      modifies set p | p in players :: p`history
      ensures Registry() == Discuss(old(Registry()), reply, humanMessage)
    {
      ghost var reg := Registry();
      ghost var said: seq<Line> := [];
      ListenAllNothing(reg);
      var k := 0;
      while k < |players|
        invariant 0 <= k <= |players|
        invariant said == NpcLines(AliveSeats(reg[..k]), reply)
        invariant Registry() == ListenAll(reg, said)
      {
        NpcLinesStep(reg, k, reply);
        said := SpeakUp(k, reply, reg, said);
        k := k + 1;
      }
      assert reg[..|players|] == reg;
      var human := humanPlayer.value;
      assert human.State() == Registry()[0];
      if human.alive && humanMessage != "" {
        var line := Line(human.id, human.name + ": " + humanMessage);
        Broadcast(line);
        ListenAllTwice(reg, said, [line]);
        said := said + [line];
      } else {
        assert said + [] == said;
      }
    }

    /**
     * One turn of the talking loop of `discussion`: participant k, if alive
     * and not the human, is asked to talk, and says its utterance aloud
     * unless it is empty.  `said` are the lines said so far.
     */
    method SpeakUp(k: nat, reply: int -> string, ghost reg: seq<Seat>, ghost said: seq<Line>)
      returns (ghost spoken: seq<Line>)
      requires Valid() && k < |players| && |reg| == |players|
      requires Registry() == ListenAll(reg, said)
      modifies set p | p in players :: p`history
      ensures spoken == said + (if reg[k].alive && Speaks(reg[k], reply) then [SpokenLine(reg[k], reply)] else [])
      ensures Registry() == ListenAll(reg, spoken)
    {
      var p := players[k];
      assert p.State() == Registry()[k];
      assert p.alive == reg[k].alive && p.npc == reg[k].npc && p.id == reg[k].id &&
        p.name == reg[k].name && p.kind == reg[k].kind;
      spoken := said;
      if p.alive && p.npc {
        var text := p.Talk(reply(p.id));
        if text != "" {
          var line := Line(p.id, p.name + ": " + text);
          Broadcast(line);
          ListenAllTwice(reg, said, [line]);
          spoken := said + [line];
          return;
        }
      }
      assert said + [] == said;
    }

    /**
     * `vote`: the human's vote, when alive (`humanVote` is its final answer:
     * None to abstain; an id that names no alive participant other than the
     * human is not counted), then one vote per alive non-player participant
     * that has someone to vote for, in roster order.  Unless no vote was cast,
     * the most common target (ties to the first voted) dies.
     */
    method Vote(humanVote: Option<int>) returns (condemned: Option<Player>, ghost ballots: seq<Ballot>)
      requires Valid()
      modifies set p | p in players :: p`alive
      ensures ValidBallots(old(Registry()), humanVote, ballots)
      ensures Registry() == Condemn(old(Registry()), Targets(ballots))
      ensures condemned.None? <==> ballots == []
      ensures condemned.Some? ==> condemned.value in players && condemned.value.id == Tally.MostCommon(Targets(ballots))
    {
      ghost var reg := Registry();
      var alive := AlivePlayers();
      var votes;
      votes, ballots := CastVotes(alive, humanVote, reg);
      assert Registry() == reg;
      if votes == [] {
        return None, ballots;
      }
      var c := Lynch(alive, votes);
      return Some(c), ballots;
    }

    /** The votes of `vote`: the human's first, then the others'. */
    method CastVotes(alive: seq<Player>, humanVote: Option<int>, ghost reg: seq<Seat>) returns (votes: seq<int>, ghost ballots: seq<Ballot>)
      requires Valid() && alive == AlivePlayers() && reg == Registry()
      ensures ValidBallots(reg, humanVote, ballots) && votes == Targets(ballots)
      ensures LegalVotes(reg, votes)
    {
      assert WellFormed(reg) by {
        ValidRoster();
      }
      var humanVotes, hb := HumanVote(alive, humanVote, reg);
      var npcVotes, nb := NpcVotes(alive, AliveSeats(reg));
      votes, ballots := humanVotes + npcVotes, hb + nb;
      assert votes == Targets(ballots) by {
        TargetsAppend(hb, nb);
      }
      assert ValidBallots(reg, humanVote, ballots) by {
        BallotsJoin(reg, humanVote, hb, nb);
      }
      assert LegalVotes(reg, votes) by {
        TargetsLegal(reg, humanVote, ballots);
      }
    }

    /** The end of `vote`: the most common vote is condemned and dies. */
    method Lynch(alive: seq<Player>, votes: seq<int>) returns (c: Player)
      requires Valid() && alive == AlivePlayers()
      requires votes != [] && LegalVotes(Registry(), votes)
      modifies set p | p in players :: p`alive
      ensures c in players && c.id == Tally.MostCommon(votes)
      ensures Registry() == Condemn(old(Registry()), votes)
    {
      var condemnedId := Tally.MostCommon(votes);
      assert 0 <= condemnedId < |players| && players[condemnedId].alive by {
        var j :| 0 <= j < |votes| && votes[j] == condemnedId;
      }
      assert players[condemnedId] in alive;
      var found := FindById(alive, condemnedId);
      c := found.value;
      assert c == players[condemnedId];
      Slay(c, condemnedId);
    }

    /**
     * The human's part of `vote`: a vote for `humanVote` when the human is
     * alive and it is the id of an alive participant other than the human.
     */
    method HumanVote(alive: seq<Player>, humanVote: Option<int>, ghost reg: seq<Seat>) returns (votes: seq<int>, ghost hb: seq<Ballot>)
      requires Valid() && alive == AlivePlayers() && reg == Registry()
      ensures hb == HumanBallots(reg, humanVote)
      ensures votes == Targets(hb)
    {
      votes, hb := [], [];
      var human := humanPlayer.value;
      assert human.State() == reg[0];
      if human.alive && humanVote.Some? && humanVote.value != human.id {
        var target := FindById(alive, humanVote.value);
        SeatIds(alive, humanVote.value);
        if target.Some? {
          votes, hb := [target.value.id], [Ballot(human.id, target.value.id)];
        }
      }
    }

    /**
     * The loop of `vote` over the alive participants: each non-player one
     * votes through its own `vote`, and a vote it casts is counted.
     */
    method NpcVotes(alive: seq<Player>, ghost pool: seq<Seat>) returns (votes: seq<int>, ghost nb: seq<Ballot>)
      requires forall p :: p in alive ==> p.alive
      requires pool == SeatsOf(alive)
      ensures NpcBallots(pool, pool, nb) && votes == Targets(nb)
    {
      votes, nb := [], [];
      var k := 0;
      while k < |alive|
        invariant 0 <= k <= |alive|
        invariant NpcBallots(pool[..k], pool, nb) && votes == Targets(nb)
      {
        var v, b := NpcVote(alive, k, pool);
        NpcBallotsStep(pool, pool, k, nb, b);
        TargetsAppend(nb, b);
        votes, nb := votes + v, nb + b;
        k := k + 1;
      }
      assert pool[..|alive|] == pool;
    }

    /**
     * `day_phase`: the discussion, then the vote; the record names the
     * lynched participant, if any.
     */
    method DayPhase(input: DayInput) returns (result: DayResult, ghost ballots: seq<Ballot>)
      requires Valid()
      modifies set p | p in players :: p`history, set p | p in players :: p`alive
      ensures ValidBallots(Discuss(old(Registry()), input.reply, input.humanMessage), input.humanVote, ballots)
      ensures Registry() == DaySpec(old(Registry()), input, ballots)
      ensures result == DayReport(old(Registry()), Targets(ballots))
    {
      ghost var reg := Registry();
      Discussion(input.reply, input.humanMessage);
      result, ballots := VoteAndReport(input.humanVote);
      assert DayReport(Discuss(reg, input.reply, input.humanMessage), Targets(ballots)) == DayReport(reg, Targets(ballots)) by {
        DiscussStatus(reg, input.reply, input.humanMessage);
        DayReportSameRoster(reg, Discuss(reg, input.reply, input.humanMessage), Targets(ballots));
      }
    }

    /** The vote of `day_phase` and the record naming the lynched participant, if any. */
    method VoteAndReport(humanVote: Option<int>) returns (result: DayResult, ghost ballots: seq<Ballot>)
      requires Valid()
      modifies set p | p in players :: p`alive
      ensures ValidBallots(old(Registry()), humanVote, ballots)
      ensures Registry() == Condemn(old(Registry()), Targets(ballots))
      ensures result == DayReport(old(Registry()), Targets(ballots))
    {
      ghost var reg := Registry();
      var lynched;
      lynched, ballots := Vote(humanVote);
      ghost var votes := Targets(ballots);
      if lynched.Some? {
        var l := lynched.value;
        ghost var t := Tally.MostCommon(votes);
        assert 0 <= t < |reg| && reg[t].name == l.name by {
          assert l == players[l.id];
          assert reg[t] == old(players[t].State());
        }
        result := DayResult(Some(l.name), l.name + " est lynché(e) par le village.");
      } else {
        assert votes == [];
        result := DayResult(None, "Personne n'a été lynché.");
      }
    }

    /**
     * `turn`: the day number goes up, a night passes, and unless it ended
     * the game a day follows.  The reports are returned instead of printed.
     */
    method Turn(input: DayInput)
      returns (night: NightResult, day: Option<DayResult>, ghost victim: Option<nat>, ghost ballots: seq<Ballot>)
      requires Valid()
      modifies this`dayNumber, set p | p in players :: p`history, set p | p in players :: p`alive
      ensures dayNumber == old(dayNumber) + 1
      ensures ValidNightVictim(old(Registry()), victim) && night == NightReport(old(Registry()), victim)
      ensures var n := NightSpec(old(Registry()), victim);
        (Continues(n) ==>
          ValidBallots(Discuss(n, input.reply, input.humanMessage), input.humanVote, ballots) &&
          day == Some(DayReport(n, Targets(ballots)))) &&
        (!Continues(n) ==> day == None && ballots == [])
      ensures Registry() == TurnSpec(old(Registry()), victim, input, ballots)
      ensures Valid()
    {
      ghost var reg := Registry();
      dayNumber := dayNumber + 1;
      assert Valid() && Registry() == reg;
      night, day, victim, ballots := Phases(input);
    }

    /** The phases of `turn`: a night, then a day unless the night ended the game. */
    method Phases(input: DayInput)
      returns (night: NightResult, day: Option<DayResult>, ghost victim: Option<nat>, ghost ballots: seq<Ballot>)
      requires Valid()
      modifies set p | p in players :: p`history, set p | p in players :: p`alive
      ensures ValidNightVictim(old(Registry()), victim) && night == NightReport(old(Registry()), victim)
      ensures var n := NightSpec(old(Registry()), victim);
        (Continues(n) ==>
          ValidBallots(Discuss(n, input.reply, input.humanMessage), input.humanVote, ballots) &&
          day == Some(DayReport(n, Targets(ballots)))) &&
        (!Continues(n) ==> day == None && ballots == [])
      ensures Registry() == TurnSpec(old(Registry()), victim, input, ballots)
      ensures Valid()
    {
      ghost var reg := Registry();
      night, victim := NightPhase();
      ghost var n := Registry();
      day, ballots := DayUnlessOver(input);
      assert Continues(n) ==> TurnSpec(reg, victim, input, ballots) == DaySpec(n, input, ballots);
    }

    /** The end of `turn`: a day, unless the game is over. */
    method DayUnlessOver(input: DayInput) returns (day: Option<DayResult>, ghost ballots: seq<Ballot>)
      requires Valid()
      modifies set p | p in players :: p`history, set p | p in players :: p`alive
      ensures Continues(old(Registry())) ==>
        ValidBallots(Discuss(old(Registry()), input.reply, input.humanMessage), input.humanVote, ballots) &&
        day == Some(DayReport(old(Registry()), Targets(ballots))) &&
        Registry() == DaySpec(old(Registry()), input, ballots)
      ensures !Continues(old(Registry())) ==> day == None && ballots == [] && Registry() == old(Registry())
      ensures Valid()
    {
      if !GameState() {
        return None, [];
      }
      var report;
      report, ballots := DayPhase(input);
      day := Some(report);
    }

    /**
     * `run_game`: turns follow one another while the game goes on; day n is
     * played with `days(n)`.  The game always ends, and the villagers win
     * exactly when no wolf is left.
     */
    method RunGame(days: int -> DayInput) returns (villagersWon: bool, ghost turns: nat)
      requires Valid()
      modifies this`dayNumber, set p | p in players :: p`history, set p | p in players :: p`alive
      ensures !Continues(Registry())
      ensures villagersWon <==> AliveCount(Registry(), Camp.Wolf) == 0
      ensures dayNumber == old(dayNumber) + turns
      ensures Evolves(old(Registry()), Registry())
    {
      turns := 0;
      ghost var start := Registry();
      assert Evolves(start, start);
      ValidRoster();
      while GameState()
        invariant Valid() && WellFormed(Registry())
        invariant dayNumber == old(dayNumber) + turns
        invariant Evolves(start, Registry())
        decreases AliveCount(Registry(), Camp.Villager)
      {
        NextTurn(days, start);
        turns := turns + 1;
      }
      villagersWon := |AliveWolves()| == 0;
    }

    /** One pass of the loop of `run_game`: the next turn, which kills at least one villager. */
    method NextTurn(days: int -> DayInput, ghost start: seq<Seat>)
      requires Valid() && WellFormed(Registry()) && Continues(Registry()) && Evolves(start, Registry())
      modifies this`dayNumber, set p | p in players :: p`history, set p | p in players :: p`alive
      ensures Valid() && WellFormed(Registry()) && Evolves(start, Registry())
      ensures dayNumber == old(dayNumber) + 1
      ensures AliveCount(Registry(), Camp.Villager) < old(AliveCount(Registry(), Camp.Villager))
    {
      ghost var before := Registry();
      var input := days(dayNumber + 1);
      var night, day, victim, ballots := Turn(input);
      ghost var after := Registry();
      assert WellFormed(after) && Evolves(start, after) &&
        AliveCount(after, Camp.Villager) < AliveCount(before, Camp.Villager) by {
        TurnOutcome(before, victim, input, ballots);
        EvolvesTrans(start, before, after);
      }
    }

    /** `receive_human_message`. */
    method ReceiveHumanMessage(message: string)
      modifies this`pendingHumanMessage
      ensures pendingHumanMessage == Some(message)
    {
      pendingHumanMessage := Some(message);
    }

    /** `register_human_vote`. */
    method RegisterHumanVote(targetId: int)
      modifies this`pendingHumanVote
      ensures pendingHumanVote == Some(targetId)
    {
      pendingHumanVote := Some(targetId);
    }
  }
}
