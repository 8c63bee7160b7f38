/**
 * Properties of the rules in GameRules: what a night, a discussion, a vote
 * and a whole turn do to the roster, whatever chance and the strategies pick.
 */
module GameProperties {
  import opened Wrappers
  import opened Players
  import opened GameRules
  import Tally

  /** Two rosters of the same participants: only alive flags and histories may differ. */
  predicate SameRoster(a: seq<Seat>, b: seq<Seat>)
  {
    |a| == |b| &&
    forall i :: 0 <= i < |a| ==>
      a[i].id == b[i].id && a[i].name == b[i].name && a[i].npc == b[i].npc &&
      a[i].camp == b[i].camp && a[i].kind == b[i].kind && a[i].mates == b[i].mates
  }

  /** Same participants with the same alive flags: only histories may differ. */
  predicate SameStatus(a: seq<Seat>, b: seq<Seat>)
  {
    SameRoster(a, b) && forall i :: 0 <= i < |a| ==> a[i].alive == b[i].alive
  }

  /** Every participant's history in `b` extends the one in `a`. */
  predicate HistoriesExtend(a: seq<Seat>, b: seq<Seat>)
  {
    |a| == |b| && forall i :: 0 <= i < |a| ==> a[i].history <= b[i].history
  }

  // ------------------------------------------------------------- counting

  lemma {:induction false} SameStatusCount(a: seq<Seat>, b: seq<Seat>, c: Camp)
    requires SameStatus(a, b)
    ensures AliveCount(a, c) == AliveCount(b, c)
  {
    if a != [] {
      SameStatusCount(a[1..], b[1..], c);
    }
  }

  /** Killing an alive participant lowers the count of its camp by one, and no other. */
  lemma {:induction false} KillCount(reg: seq<Seat>, k: nat, c: Camp)
    requires k < |reg| && reg[k].alive
    ensures AliveCount(Kill(reg, k), c) == AliveCount(reg, c) - (if reg[k].camp == c then 1 else 0)
  {
    if k == 0 {
      assert Kill(reg, k)[1..] == reg[1..];
    } else {
      assert Kill(reg, k)[1..] == Kill(reg[1..], k - 1);
      KillCount(reg[1..], k - 1, c);
    }
  }

  lemma {:induction false} AppendToAliveStatus(reg: seq<Seat>, line: string)
    ensures SameStatus(reg, AppendToAlive(reg, line))
    ensures HistoriesExtend(reg, AppendToAlive(reg, line))
  {
  }

  // ------------------------------------------------------------------ night

  lemma {:induction false} NoteStatus(reg: seq<Seat>, k: nat, line: string)
    requires k < |reg|
    ensures SameStatus(reg, Note(reg, k, line))
  {
  }

  lemma {:induction false} KillStatus(reg: seq<Seat>, k: nat)
    requires k < |reg|
    ensures SameRoster(reg, Kill(reg, k))
    ensures forall i :: 0 <= i < |reg| ==> Kill(reg, k)[i].alive == (reg[i].alive && i != k)
  {
  }

  lemma {:induction false} SameStatusThenKill(a: seq<Seat>, b: seq<Seat>, k: nat, c: seq<Seat>)
    requires SameStatus(a, b) && k < |b| && SameStatus(Kill(b, k), c)
    ensures SameRoster(a, c)
    ensures forall i :: 0 <= i < |a| ==> c[i].alive == (a[i].alive && i != k)
  {
    KillStatus(b, k);
  }

  /** The night in the quiet case: nobody dies. */
  lemma {:induction false} QuietNightStatus(reg: seq<Seat>, victim: Option<nat>)
    requires Quiet(reg) || victim.None? || victim.value >= |reg|
    ensures SameStatus(reg, NightSpec(reg, victim))
  {
    var slept := AppendToAlive(reg, SLEEP_LINE);
    AppendToAliveStatus(reg, SLEEP_LINE);
    AppendToAliveStatus(slept, WAKE_LINE);
  }

  /** The night in the other case: only the victim dies. */
  lemma {:induction false} DeadlyNightStatus(reg: seq<Seat>, victim: Option<nat>)
    requires !Quiet(reg) && victim.Some? && victim.value < |reg|
    ensures SameRoster(reg, NightSpec(reg, victim))
    ensures forall i :: 0 <= i < |reg| ==> NightSpec(reg, victim)[i].alive == (reg[i].alive && i != victim.value)
    ensures reg[victim.value].alive ==>
      AliveCount(NightSpec(reg, victim), Wolf) == AliveCount(reg, Wolf) - (if reg[victim.value].camp == Wolf then 1 else 0) &&
      AliveCount(NightSpec(reg, victim), Villager) == AliveCount(reg, Villager) - (if reg[victim.value].camp == Villager then 1 else 0)
  {
    var slept := AppendToAlive(reg, SLEEP_LINE);
    AppendToAliveStatus(reg, SLEEP_LINE);
    var v := victim.value;
    var k := FirstAlive(reg, Wolf);
    var marked := if reg[k].kind == PlainWolf then Note(slept, k, TargetLine(reg[v].name)) else slept;
    NoteStatus(slept, k, TargetLine(reg[v].name));
    assert SameStatus(reg, marked);
    var killed := Kill(marked, v);
    AppendToAliveStatus(killed, WAKE_LINE);
    SameStatusThenKill(reg, marked, v, NightSpec(reg, victim));
    if reg[v].alive {
      SameStatusCount(reg, marked, Wolf);
      SameStatusCount(reg, marked, Villager);
      KillCount(marked, v, Wolf);
      KillCount(marked, v, Villager);
      SameStatusCount(killed, NightSpec(reg, victim), Wolf);
      SameStatusCount(killed, NightSpec(reg, victim), Villager);
    }
  }

  /**
   * A night kills exactly the chosen victim, who was an alive villager, and
   * nobody on a quiet night: the wolves' count is unchanged and the
   * villagers' drops by one exactly when the night is not quiet.
   */
  lemma {:induction false} NightDeaths(reg: seq<Seat>, victim: Option<nat>)
    requires ValidNightVictim(reg, victim)
    ensures var n := NightSpec(reg, victim);
      SameRoster(reg, n) &&
      (forall i :: 0 <= i < |reg| ==> n[i].alive == (reg[i].alive && !(victim.Some? && victim.value == i))) &&
      AliveCount(n, Wolf) == AliveCount(reg, Wolf) &&
      AliveCount(n, Villager) == AliveCount(reg, Villager) - (if Quiet(reg) then 0 else 1)
  {
    if Quiet(reg) {
      QuietNightStatus(reg, victim);
      SameStatusCount(reg, NightSpec(reg, victim), Wolf);
      SameStatusCount(reg, NightSpec(reg, victim), Villager);
    } else {
      DeadlyNightStatus(reg, victim);
    }
  }

  /**
   * The logs a night writes: everyone alive logs falling asleep; the victim
   * logs nothing more; the killing wolf, when it is a plain wolf, logs its
   * target; every survivor then logs waking up; the dead log nothing.
   */
  lemma {:induction false} NightHistories(reg: seq<Seat>, victim: Option<nat>, i: nat)
    requires ValidNightVictim(reg, victim) && i < |reg|
    ensures NightSpec(reg, victim)[i].history ==
      if !reg[i].alive then reg[i].history
      else if victim == Some(i) then reg[i].history + [SLEEP_LINE]
      else if !Quiet(reg) && i == FirstAlive(reg, Wolf) && reg[i].kind == PlainWolf
      then reg[i].history + [SLEEP_LINE, TargetLine(reg[victim.value].name), WAKE_LINE]
      else reg[i].history + [SLEEP_LINE, WAKE_LINE]
  {
  }

  /**
   * The report of a night names a victim exactly when someone died, and
   * then names the one who died.
   */
  lemma {:induction false} NightReportNamesVictim(reg: seq<Seat>, victim: Option<nat>)
    requires ValidNightVictim(reg, victim)
    ensures var n := NightSpec(reg, victim); var r := NightReport(reg, victim);
      (r.victimName.Some? <==> !Quiet(reg)) &&
      (r.victimName.Some? <==> exists i :: 0 <= i < |reg| && reg[i].alive && !n[i].alive) &&
      (r.victimName.Some? ==> exists i :: 0 <= i < |reg| && reg[i].alive && !n[i].alive && reg[i].name == r.victimName.value) &&
      (r.victimName.None? ==> r.text == (if Quiet(reg) then "Nuit calme, personne n'est mort." else "Nuit passée, personne n'est mort."))
  {
    NightDeaths(reg, victim);
    var n := NightSpec(reg, victim);
    if victim.Some? {
      assert reg[victim.value].alive && !n[victim.value].alive;
    }
  }

  // ------------------------------------------------------------- discussion

  lemma {:induction false} HeardByAppend(a: seq<Line>, b: seq<Line>, id: int)
    ensures HeardBy(a + b, id) == HeardBy(a, id) + HeardBy(b, id)
  {
    if b == [] {
      assert a + b == a;
    } else {
      var init := b[..|b| - 1];
      assert (a + b)[..|a + b| - 1] == a + init;
      assert (a + b)[|a + b| - 1] == b[|b| - 1];
      HeardByAppend(a, init, id);
    }
  }

  /** A listener logs the line of every other speaker, and no line of its own. */
  lemma {:induction false} HeardByMembers(lines: seq<Line>, id: int)
    ensures forall s :: s in HeardBy(lines, id) <==>
      exists l :: l in lines && l.speaker != id && s == HeardLine(l.text)
  {
    if lines != [] {
      var init := lines[..|lines| - 1];
      var last := lines[|lines| - 1];
      HeardByMembers(init, id);
      assert lines == init + [last];
      forall s | s in HeardBy(lines, id)
        ensures exists l :: l in lines && l.speaker != id && s == HeardLine(l.text)
      {
        if s in HeardBy(init, id) {
          var l :| l in init && l.speaker != id && s == HeardLine(l.text);
          assert l in lines;
        } else {
          assert last in lines;
        }
      }
      forall s | exists l :: l in lines && l.speaker != id && s == HeardLine(l.text)
        ensures s in HeardBy(lines, id)
      {
        var l :| l in lines && l.speaker != id && s == HeardLine(l.text);
        if l in init {
          assert s in HeardBy(init, id);
        } else {
          assert l == last;
        }
      }
    }
  }

  /** The lines of the non-player participants are exactly their non-empty utterances. */
  lemma {:induction false} NpcLinesMembers(seats: seq<Seat>, reply: int -> string)
    ensures forall l :: l in NpcLines(seats, reply) <==>
      exists s :: s in seats && Speaks(s, reply) && l == SpokenLine(s, reply)
  {
    if seats != [] {
      var init := seats[..|seats| - 1];
      var last := seats[|seats| - 1];
      NpcLinesMembers(init, reply);
      assert seats == init + [last];
      forall l | l in NpcLines(seats, reply)
        ensures exists s :: s in seats && Speaks(s, reply) && l == SpokenLine(s, reply)
      {
        if l in NpcLines(init, reply) {
          var s :| s in init && Speaks(s, reply) && l == SpokenLine(s, reply);
          assert s in seats;
        } else {
          assert last in seats;
        }
      }
      forall l | exists s :: s in seats && Speaks(s, reply) && l == SpokenLine(s, reply)
        ensures l in NpcLines(seats, reply)
      {
        var s :| s in seats && Speaks(s, reply) && l == SpokenLine(s, reply);
        if s in init {
          assert l in NpcLines(init, reply);
        } else {
          assert s == last;
        }
      }
    }
  }

  lemma {:induction false} AliveSeatsMembers(reg: seq<Seat>)
    ensures forall s :: s in AliveSeats(reg) <==> exists j :: 0 <= j < |reg| && reg[j].alive && s == reg[j]
  {
    if reg != [] {
      AliveSeatsMembers(reg[1..]);
      forall s | s in AliveSeats(reg)
        ensures exists j :: 0 <= j < |reg| && reg[j].alive && s == reg[j]
      {
        if s in AliveSeats(reg[1..]) {
          var j :| 0 <= j < |reg[1..]| && reg[1..][j].alive && s == reg[1..][j];
          assert reg[j + 1] == s;
        } else {
          assert reg[0].alive && s == reg[0];
        }
      }
      forall s | exists j :: 0 <= j < |reg| && reg[j].alive && s == reg[j]
        ensures s in AliveSeats(reg)
      {
        var j :| 0 <= j < |reg| && reg[j].alive && s == reg[j];
        if j > 0 {
          assert reg[1..][j - 1] == s;
        }
      }
    }
  }

  /** Participant `j` said aloud what a listener logs as `s` (`message` is the human's). */
  predicate Said(reg: seq<Seat>, j: nat, reply: int -> string, message: string, s: string)
    requires j < |reg|
  {
    (Speaks(reg[j], reply) && s == HeardLine(SpokenLine(reg[j], reply).text)) ||
    (j == 0 && message != "" && s == HeardLine(reg[0].name + ": " + message))
  }

  /** A discussion kills nobody, and only alive participants log anything. */
  lemma {:induction false} DiscussStatus(reg: seq<Seat>, reply: int -> string, message: string)
    ensures var d := Discuss(reg, reply, message);
      SameStatus(reg, d) && HistoriesExtend(reg, d) &&
      forall i :: 0 <= i < |reg| && !reg[i].alive ==> d[i].history == reg[i].history
  {
  }

  /** Every line a participant hears was said by another alive participant. */
  lemma {:induction false} HeardWasSaid(reg: seq<Seat>, reply: int -> string, message: string, i: nat, s: string)
    requires WellFormed(reg) && i < |reg|
    requires s in HeardBy(DayLines(reg, reply, message), i)
    ensures exists j :: 0 <= j < |reg| && j != i && reg[j].alive && Said(reg, j, reply, message, s)
  {
    var lines := DayLines(reg, reply, message);
    var npcLines := NpcLines(AliveSeats(reg), reply);
    HeardByMembers(lines, i);
    var l :| l in lines && l.speaker != i && s == HeardLine(l.text);
    if l in npcLines {
      NpcLinesMembers(AliveSeats(reg), reply);
      var seat :| seat in AliveSeats(reg) && Speaks(seat, reply) && l == SpokenLine(seat, reply);
      AliveSeatsMembers(reg);
      var j :| 0 <= j < |reg| && reg[j].alive && seat == reg[j];
      assert Said(reg, j, reply, message, s);
    } else {
      assert l in HumanLines(reg, message);
      assert Said(reg, 0, reply, message, s);
    }
  }

  /** Every line another alive participant said is heard. */
  lemma {:induction false} SaidIsHeard(reg: seq<Seat>, reply: int -> string, message: string, i: nat, j: nat, s: string)
    requires WellFormed(reg) && i < |reg| && j < |reg| && j != i && reg[j].alive
    requires Said(reg, j, reply, message, s)
    ensures s in HeardBy(DayLines(reg, reply, message), i)
  {
    var lines := DayLines(reg, reply, message);
    HeardByMembers(lines, i);
    if Speaks(reg[j], reply) && s == HeardLine(SpokenLine(reg[j], reply).text) {
      var l := SpokenLine(reg[j], reply);
      AliveSeatsMembers(reg);
      assert reg[j] in AliveSeats(reg);
      NpcLinesMembers(AliveSeats(reg), reply);
      assert l in NpcLines(AliveSeats(reg), reply);
      assert l in lines;
    } else {
      var l := Line(reg[0].id, reg[0].name + ": " + message);
      assert l in HumanLines(reg, message);
      assert l in lines;
    }
  }

  /**
   * What a discussion does to an alive participant `i`: after its earlier
   * history it logs the lines of the other alive participants that spoke,
   * and only those: each non-empty utterance of another non-player
   * participant, and the human's message, as "Entendu: <name>: <text>".
   */
  lemma {:induction false} DiscussHistory(reg: seq<Seat>, reply: int -> string, message: string, i: nat)
    requires WellFormed(reg) && i < |reg| && reg[i].alive
    ensures var d := Discuss(reg, reply, message);
      reg[i].history <= d[i].history &&
      forall s :: s in d[i].history[|reg[i].history|..] <==>
        exists j :: 0 <= j < |reg| && j != i && reg[j].alive && Said(reg, j, reply, message, s)
  {
    var d := Discuss(reg, reply, message);
    var heard := HeardBy(DayLines(reg, reply, message), i);
    assert d[i].history == reg[i].history + heard;
    assert d[i].history[|reg[i].history|..] == heard;
    forall s | s in heard
      ensures exists j :: 0 <= j < |reg| && j != i && reg[j].alive && Said(reg, j, reply, message, s)
    {
      HeardWasSaid(reg, reply, message, i, s);
    }
    forall s | exists j :: 0 <= j < |reg| && j != i && reg[j].alive && Said(reg, j, reply, message, s)
      ensures s in heard
    {
      var j :| 0 <= j < |reg| && j != i && reg[j].alive && Said(reg, j, reply, message, s);
      SaidIsHeard(reg, reply, message, i, j, s);
    }
  }

  // ------------------------------------------------------------------- vote

  /** Ids strictly increase along `seats`. */
  predicate IncreasingSeats(seats: seq<Seat>)
  {
    forall i, j :: 0 <= i < j < |seats| ==> seats[i].id < seats[j].id
  }

  lemma {:induction false} AliveSeatsIncreasing(reg: seq<Seat>)
    requires IncreasingSeats(reg)
    ensures IncreasingSeats(AliveSeats(reg))
  {
    if reg != [] {
      AliveSeatsIncreasing(reg[1..]);
      AliveSeatsMembers(reg[1..]);
      var rest := AliveSeats(reg[1..]);
      forall q | q in rest ensures reg[0].id < q.id {
        var j :| 0 <= j < |reg[1..]| && reg[1..][j].alive && q == reg[1..][j];
        assert reg[j + 1] == q;
      }
      var head: seq<Seat> := if reg[0].alive then [reg[0]] else [];
      assert AliveSeats(reg) == head + rest;
      forall i, j | 0 <= i < j < |head + rest|
        ensures (head + rest)[i].id < (head + rest)[j].id
      {
        if i < |head| {
          assert (head + rest)[j] in rest;
        }
      }
    }
  }

  /** Each ballot of a non-player participant is cast by one of the voters, for a candidate. */
  lemma {:induction false} NpcBallotsLegal(voters: seq<Seat>, pool: seq<Seat>, ballots: seq<Ballot>)
    requires NpcBallots(voters, pool, ballots)
    ensures forall k :: 0 <= k < |ballots| ==> IsCandidate(pool, ballots[k].voter, ballots[k].target)
    ensures forall k :: 0 <= k < |ballots| ==>
      exists j :: 0 <= j < |voters| && voters[j].npc && voters[j].id == ballots[k].voter
  {
    if voters != [] {
      var init := voters[..|voters| - 1];
      var last := voters[|voters| - 1];
      var votes := last.npc && HasCandidate(pool, last.id);
      var prior := if votes then ballots[..|ballots| - 1] else ballots;
      assert NpcBallots(init, pool, prior);
      NpcBallotsLegal(init, pool, prior);
      forall k | 0 <= k < |ballots|
        ensures IsCandidate(pool, ballots[k].voter, ballots[k].target)
        ensures exists j :: 0 <= j < |voters| && voters[j].npc && voters[j].id == ballots[k].voter
      {
        if k < |prior| {
          assert ballots[k] == prior[k];
          var j :| 0 <= j < |init| && init[j].npc && init[j].id == prior[k].voter;
          assert voters[j] == init[j];
        } else {
          assert voters[|voters| - 1] == last;
        }
      }
    }
  }

  /** The voter behind the k-th ballot of the non-player participants. */
  lemma {:induction false} NpcVoterOf(voters: seq<Seat>, pool: seq<Seat>, ballots: seq<Ballot>, k: nat) returns (j: nat)
    requires NpcBallots(voters, pool, ballots) && k < |ballots|
    ensures j < |voters| && voters[j].npc && voters[j].id == ballots[k].voter
  {
    NpcBallotsLegal(voters, pool, ballots);
    j :| 0 <= j < |voters| && voters[j].npc && voters[j].id == ballots[k].voter;
  }

  /** The non-player participants vote in order, each at most once. */
  lemma {:induction false} NpcBallotsOrdered(voters: seq<Seat>, pool: seq<Seat>, ballots: seq<Ballot>)
    requires NpcBallots(voters, pool, ballots) && IncreasingSeats(voters)
    ensures forall k, l :: 0 <= k < l < |ballots| ==> ballots[k].voter < ballots[l].voter
  {
    if voters != [] {
      var init := voters[..|voters| - 1];
      var v := voters[|voters| - 1];
      if v.npc && HasCandidate(pool, v.id) {
        var prior := ballots[..|ballots| - 1];
        NpcBallotsOrdered(init, pool, prior);
        NpcBallotsLegal(init, pool, prior);
        forall k | 0 <= k < |prior| ensures prior[k].voter < v.id {
          var j := NpcVoterOf(init, pool, prior, k);
          assert voters[j] == init[j];
        }
        forall k, l | 0 <= k < l < |ballots| ensures ballots[k].voter < ballots[l].voter {
          assert ballots[k] == prior[k];
          if l < |prior| {
            assert ballots[l] == prior[l];
          }
        }
      } else {
        NpcBallotsOrdered(init, pool, ballots);
      }
    }
  }

  /** Every non-player participant that has someone to vote for votes. */
  lemma {:induction false} NpcBallotsCover(voters: seq<Seat>, pool: seq<Seat>, ballots: seq<Ballot>)
    requires NpcBallots(voters, pool, ballots)
    ensures forall v :: v in voters && v.npc && HasCandidate(pool, v.id) ==>
      exists k :: 0 <= k < |ballots| && ballots[k].voter == v.id
  {
    if voters != [] {
      var init := voters[..|voters| - 1];
      var last := voters[|voters| - 1];
      assert voters == init + [last];
      if last.npc && HasCandidate(pool, last.id) {
        var prior := ballots[..|ballots| - 1];
        NpcBallotsCover(init, pool, prior);
        forall v | v in voters && v.npc && HasCandidate(pool, v.id)
          ensures exists k :: 0 <= k < |ballots| && ballots[k].voter == v.id
        {
          if v in init {
            var k :| 0 <= k < |prior| && prior[k].voter == v.id;
            assert ballots[k] == prior[k];
          } else {
            assert ballots[|ballots| - 1].voter == v.id;
          }
        }
      } else {
        NpcBallotsCover(init, pool, ballots);
      }
    }
  }

  lemma {:induction false} AliveSeatOf(reg: seq<Seat>, q: Seat) returns (j: nat)
    requires WellFormed(reg) && q in AliveSeats(reg)
    ensures j < |reg| && reg[j] == q && q.alive && q.id == j
  {
    AliveSeatsMembers(reg);
    j :| 0 <= j < |reg| && reg[j].alive && q == reg[j];
  }

  /** The ballots of a day: the human's, if counted, then those of the others. */
  lemma {:induction false} SplitBallots(reg: seq<Seat>, humanVote: Option<int>, ballots: seq<Ballot>)
    returns (npc: seq<Ballot>)
    requires ValidBallots(reg, humanVote, ballots)
    ensures NpcBallots(AliveSeats(reg), AliveSeats(reg), npc)
    ensures ballots == (match HumanBallot(reg, humanVote) case Some(b) => [b] + npc case None => npc)
  {
    match HumanBallot(reg, humanVote)
    case Some(b) =>
      npc := ballots[1..];
      assert ballots == [b] + npc;
    case None =>
      npc := ballots;
  }

  /** Every ballot is cast by an alive participant, for an alive participant other than itself. */
  lemma {:induction false} BallotsLegal(reg: seq<Seat>, humanVote: Option<int>, ballots: seq<Ballot>)
    requires WellFormed(reg) && ValidBallots(reg, humanVote, ballots)
    ensures forall k :: 0 <= k < |ballots| ==>
      0 <= ballots[k].voter < |reg| && reg[ballots[k].voter].alive &&
      0 <= ballots[k].target < |reg| && reg[ballots[k].target].alive &&
      ballots[k].target != ballots[k].voter
  {
    var pool := AliveSeats(reg);
    var npc := SplitBallots(reg, humanVote, ballots);
    NpcBallotsLegal(pool, pool, npc);
    forall k | 0 <= k < |npc|
      ensures 0 < npc[k].voter < |reg| && reg[npc[k].voter].alive
      ensures 0 <= npc[k].target < |reg| && reg[npc[k].target].alive && npc[k].target != npc[k].voter
    {
      var j := NpcVoterOf(pool, pool, npc, k);
      var jv := AliveSeatOf(reg, pool[j]);
      var q :| q in pool && q.id == npc[k].target;
      var jq := AliveSeatOf(reg, q);
    }
    if HumanBallot(reg, humanVote).Some? {
      var q :| q in pool && q.id == humanVote.value;
      var jq := AliveSeatOf(reg, q);
    }
  }

  /** The human casts none of the others' ballots. */
  lemma {:induction false} NpcVotersNotHuman(reg: seq<Seat>, npc: seq<Ballot>)
    requires WellFormed(reg) && NpcBallots(AliveSeats(reg), AliveSeats(reg), npc)
    ensures forall k :: 0 <= k < |npc| ==> 0 < npc[k].voter
  {
    var pool := AliveSeats(reg);
    forall k | 0 <= k < |npc| ensures 0 < npc[k].voter {
      var j := NpcVoterOf(pool, pool, npc, k);
      AliveSeatsMembers(reg);
      var jv := AliveSeatOf(reg, pool[j]);
    }
  }

  /** Nobody votes twice: ballots come in roster order, the human's first. */
  lemma {:induction false} BallotsOrdered(reg: seq<Seat>, humanVote: Option<int>, ballots: seq<Ballot>)
    requires WellFormed(reg) && ValidBallots(reg, humanVote, ballots)
    ensures forall k, l :: 0 <= k < l < |ballots| ==> ballots[k].voter < ballots[l].voter
  {
    var pool := AliveSeats(reg);
    var npc := SplitBallots(reg, humanVote, ballots);
    AliveSeatsIncreasing(reg);
    NpcBallotsOrdered(pool, pool, npc);
    if HumanBallot(reg, humanVote).Some? {
      NpcVotersNotHuman(reg, npc);
      forall k, l | 0 <= k < l < |ballots| ensures ballots[k].voter < ballots[l].voter {
        assert ballots[l] == npc[l - 1];
        if k > 0 {
          assert ballots[k] == npc[k - 1];
        }
      }
    }
  }

  /** Every alive non-player participant that has someone to vote for votes. */
  lemma {:induction false} BallotsCover(reg: seq<Seat>, humanVote: Option<int>, ballots: seq<Ballot>, i: nat)
    requires WellFormed(reg) && ValidBallots(reg, humanVote, ballots)
    requires 0 < i < |reg| && reg[i].alive
    requires exists j :: 0 <= j < |reg| && j != i && reg[j].alive
    ensures exists k :: 0 <= k < |ballots| && ballots[k].voter == i
  {
    var pool := AliveSeats(reg);
    var npc := SplitBallots(reg, humanVote, ballots);
    var j :| 0 <= j < |reg| && j != i && reg[j].alive;
    assert reg[i] in pool && HasCandidate(pool, reg[i].id) by {
      AliveSeatsMembers(reg);
      assert reg[j] in pool;
    }
    assert exists k :: 0 <= k < |npc| && npc[k].voter == i by {
      NpcBallotsCover(pool, pool, npc);
    }
    var k :| 0 <= k < |npc| && npc[k].voter == i;
    var off := if HumanBallot(reg, humanVote).Some? then 1 else 0;
    assert ballots[k + off] == npc[k];
  }

  /** The human has a ballot exactly when its choice passes the check on the target. */
  lemma {:induction false} HumanBallotCounted(reg: seq<Seat>, humanVote: Option<int>, ballots: seq<Ballot>)
    requires WellFormed(reg) && ValidBallots(reg, humanVote, ballots)
    ensures (exists k :: 0 <= k < |ballots| && ballots[k].voter == 0) <==>
      (reg[0].alive && humanVote.Some? && 0 <= humanVote.value < |reg| && humanVote.value != 0 &&
       reg[humanVote.value].alive)
  {
    var pool := AliveSeats(reg);
    var npc := SplitBallots(reg, humanVote, ballots);
    AliveSeatsMembers(reg);
    NpcVotersNotHuman(reg, npc);
    if reg[0].alive && humanVote.Some? && 0 <= humanVote.value < |reg| && humanVote.value != 0 &&
       reg[humanVote.value].alive {
      assert reg[humanVote.value] in pool;
      assert HumanBallot(reg, humanVote).Some?;
      assert ballots[0].voter == 0;
    } else {
      assert HumanBallot(reg, humanVote).None?;
      forall k | 0 <= k < |ballots| ensures ballots[k].voter != 0 {
        assert ballots[k] == npc[k];
      }
    }
  }

  /** The votes of a day name alive participants. */
  predicate LegalVotes(reg: seq<Seat>, votes: seq<int>)
  {
    forall k :: 0 <= k < |votes| ==> 0 <= votes[k] < |reg| && reg[votes[k]].alive
  }

  lemma {:induction false} TargetsLegal(reg: seq<Seat>, humanVote: Option<int>, ballots: seq<Ballot>)
    requires WellFormed(reg) && ValidBallots(reg, humanVote, ballots)
    ensures LegalVotes(reg, Targets(ballots))
  {
    BallotsLegal(reg, humanVote, ballots);
  }

  /**
   * The tally: with no vote nobody dies; otherwise exactly one participant
   * dies, the most voted one, who was alive; no log changes.
   */
  lemma {:induction false} CondemnOutcome(reg: seq<Seat>, votes: seq<int>)
    requires LegalVotes(reg, votes)
    ensures var c := Condemn(reg, votes);
      SameRoster(reg, c) && (forall i :: 0 <= i < |reg| ==> c[i].history == reg[i].history) &&
      (votes == [] ==> c == reg) &&
      (votes != [] ==>
        var t := Tally.MostCommon(votes);
        0 <= t < |reg| && reg[t].alive &&
        (forall i :: 0 <= i < |reg| ==> c[i].alive == (reg[i].alive && i != t)) &&
        AliveCount(c, reg[t].camp) == AliveCount(reg, reg[t].camp) - 1)
  {
    if votes != [] {
      var t := Tally.MostCommon(votes);
      var k :| 0 <= k < |votes| && votes[k] == t;
      KillStatus(reg, t);
      KillCount(reg, t, reg[t].camp);
    }
  }

  /** The report of a day names someone exactly when a vote was cast, and then the one who died. */
  lemma {:induction false} DayReportNamesLynched(reg: seq<Seat>, votes: seq<int>)
    requires LegalVotes(reg, votes)
    ensures var c := Condemn(reg, votes); var r := DayReport(reg, votes);
      (r.lynchedName.Some? <==> votes != []) &&
      (r.lynchedName.Some? ==> exists t :: 0 <= t < |reg| && reg[t].alive && !c[t].alive && reg[t].name == r.lynchedName.value) &&
      (r.lynchedName.None? ==> r.text == "Personne n'a été lynché.")
  {
    CondemnOutcome(reg, votes);
  }

  /**
   * A day: a discussion, then the vote; only logs grow, and at most one
   * participant dies, exactly when some vote was cast.
   */
  lemma {:induction false} DayOutcome(reg: seq<Seat>, input: DayInput, ballots: seq<Ballot>)
    requires WellFormed(reg)
    requires ValidBallots(Discuss(reg, input.reply, input.humanMessage), input.humanVote, ballots)
    ensures var d := DaySpec(reg, input, ballots);
      SameRoster(reg, d) && HistoriesExtend(reg, d) &&
      (ballots == [] ==> forall i :: 0 <= i < |reg| ==> d[i].alive == reg[i].alive) &&
      (ballots != [] ==>
        exists t :: 0 <= t < |reg| && reg[t].alive &&
          forall i :: 0 <= i < |reg| ==> d[i].alive == (reg[i].alive && i != t))
  {
    var disc := Discuss(reg, input.reply, input.humanMessage);
    assert LegalVotes(disc, Targets(ballots)) by {
      DiscussStatus(reg, input.reply, input.humanMessage);
      assert WellFormed(disc);
      TargetsLegal(disc, input.humanVote, ballots);
    }
    VoteAfterDiscussion(reg, input.reply, input.humanMessage, Targets(ballots));
  }

  /** The tally after the discussion, read on the roster before it. */
  lemma {:induction false} VoteAfterDiscussion(reg: seq<Seat>, reply: int -> string, message: string, votes: seq<int>)
    requires LegalVotes(Discuss(reg, reply, message), votes)
    ensures var d := Condemn(Discuss(reg, reply, message), votes);
      SameRoster(reg, d) && HistoriesExtend(reg, d) &&
      (votes == [] ==> forall i :: 0 <= i < |reg| ==> d[i].alive == reg[i].alive) &&
      (votes != [] ==>
        exists t :: 0 <= t < |reg| && reg[t].alive &&
          forall i :: 0 <= i < |reg| ==> d[i].alive == (reg[i].alive && i != t))
  {
    var disc := Discuss(reg, reply, message);
    var d := Condemn(disc, votes);
    DiscussStatus(reg, reply, message);
    CondemnOutcome(disc, votes);
    if votes != [] {
      var t := Tally.MostCommon(votes);
      assert 0 <= t < |reg| && reg[t].alive;
      assert forall i :: 0 <= i < |reg| ==> d[i].alive == (reg[i].alive && i != t);
    }
  }

  // ------------------------------------------------------------------- turn

  lemma {:induction false} NoRevivalCount(a: seq<Seat>, b: seq<Seat>, c: Camp)
    requires SameRoster(a, b) && forall i :: 0 <= i < |a| && b[i].alive ==> a[i].alive
    ensures AliveCount(b, c) <= AliveCount(a, c)
  {
    if a != [] {
      NoRevivalCount(a[1..], b[1..], c);
    }
  }

  lemma {:induction false} SameRosterWolfNames(a: seq<Seat>, b: seq<Seat>)
    requires SameRoster(a, b)
    ensures WolfNames(a) == WolfNames(b)
  {
    if a != [] {
      SameRosterWolfNames(a[1..], b[1..]);
    }
  }

  /**
   * One roster leads to another without changing who is who: logs only
   * grow and nobody comes back to life.
   */
  predicate Evolves(a: seq<Seat>, b: seq<Seat>)
  {
    SameRoster(a, b) && HistoriesExtend(a, b) && forall i :: 0 <= i < |a| && b[i].alive ==> a[i].alive
  }

  lemma {:induction false} EvolvesTrans(a: seq<Seat>, b: seq<Seat>, c: seq<Seat>)
    requires Evolves(a, b) && Evolves(b, c)
    ensures Evolves(a, c)
  {
    forall i | 0 <= i < |a| ensures a[i].history <= c[i].history {
      assert a[i].history <= b[i].history;
    }
  }

  /** What an evolution keeps: a well-formed roster, linked mate lists, no camp growing. */
  lemma {:induction false} EvolvesKeeps(a: seq<Seat>, b: seq<Seat>)
    requires Evolves(a, b)
    ensures WellFormed(a) ==> WellFormed(b)
    ensures MatesLinked(a) ==> MatesLinked(b)
    ensures AliveCount(b, Wolf) <= AliveCount(a, Wolf) && AliveCount(b, Villager) <= AliveCount(a, Villager)
  {
    NoRevivalCount(a, b, Wolf);
    NoRevivalCount(a, b, Villager);
    SameRosterWolfNames(a, b);
  }

  lemma {:induction false} NightEvolves(reg: seq<Seat>, victim: Option<nat>)
    requires ValidNightVictim(reg, victim)
    ensures Evolves(reg, NightSpec(reg, victim))
  {
    NightDeaths(reg, victim);
    forall i | 0 <= i < |reg| ensures reg[i].history <= NightSpec(reg, victim)[i].history {
      NightHistories(reg, victim, i);
    }
  }

  lemma {:induction false} DayEvolves(reg: seq<Seat>, input: DayInput, ballots: seq<Ballot>)
    requires WellFormed(reg)
    requires ValidBallots(Discuss(reg, input.reply, input.humanMessage), input.humanVote, ballots)
    ensures Evolves(reg, DaySpec(reg, input, ballots))
  {
    var disc := Discuss(reg, input.reply, input.humanMessage);
    assert Evolves(reg, disc) by {
      DiscussStatus(reg, input.reply, input.humanMessage);
    }
    assert Evolves(disc, Condemn(disc, Targets(ballots))) by {
      DiscussStatus(reg, input.reply, input.humanMessage);
      assert WellFormed(disc);
      TargetsLegal(disc, input.humanVote, ballots);
      CondemnOutcome(disc, Targets(ballots));
    }
    EvolvesTrans(reg, disc, Condemn(disc, Targets(ballots)));
  }

  /**
   * A whole turn keeps the roster well formed and the mate lists linked;
   * logs only grow; nobody comes back to life; the wolves never get more;
   * and while the game goes on, each turn kills at least one villager.
   */
  lemma {:induction false} TurnOutcome(reg: seq<Seat>, victim: Option<nat>, input: DayInput, ballots: seq<Ballot>)
    requires WellFormed(reg) && ValidNightVictim(reg, victim)
    requires var n := NightSpec(reg, victim);
      Continues(n) ==> ValidBallots(Discuss(n, input.reply, input.humanMessage), input.humanVote, ballots)
    ensures var t := TurnSpec(reg, victim, input, ballots);
      SameRoster(reg, t) && WellFormed(t) && HistoriesExtend(reg, t) &&
      (MatesLinked(reg) ==> MatesLinked(t)) &&
      (forall i :: 0 <= i < |reg| && t[i].alive ==> reg[i].alive) &&
      AliveCount(t, Wolf) <= AliveCount(reg, Wolf) &&
      (Continues(reg) ==> AliveCount(t, Villager) < AliveCount(reg, Villager))
  {
    var n := NightSpec(reg, victim);
    var t := TurnSpec(reg, victim, input, ballots);
    NightEvolves(reg, victim);
    EvolvesKeeps(reg, n);
    assert Evolves(n, t) by {
      if Continues(n) {
        DayEvolves(n, input, ballots);
      } else {
        assert t == n;
      }
    }
    EvolvesTrans(reg, n, t);
    EvolvesKeeps(reg, t);
    EvolvesKeeps(n, t);
    NightDeaths(reg, victim);
  }

  // ------------------------------------------------------------------ setup

  lemma {:induction false} AllAliveCount(reg: seq<Seat>, c: Camp)
    requires forall i :: 0 <= i < |reg| ==> reg[i].alive
    ensures AliveCount(reg, c) == multiset(Camps(reg))[c]
  {
    if reg != [] {
      AllAliveCount(reg[1..], c);
      assert Camps(reg) == [reg[0].camp] + Camps(reg[1..]);
    }
  }

  lemma {:induction false} RepeatCount<T>(x: T, n: nat, y: T)
    ensures multiset(Repeat(x, n))[y] == if x == y then n else 0
  {
    if n > 0 {
      RepeatCount(x, n - 1, y);
      assert Repeat(x, n) == [x] + Repeat(x, n - 1);
    }
  }

  /** The role list holds eight villagers and two wolves. */
  lemma {:induction false} InitialRolesCount()
    ensures |InitialRoles()| == NB_PLAYERS
    ensures multiset(InitialRoles())[Camp.Villager] == NB_PLAYERS - NB_WOLVES
    ensures multiset(InitialRoles())[Camp.Wolf] == NB_WOLVES
  {
    RepeatCount(Camp.Villager, NB_PLAYERS - NB_WOLVES, Camp.Villager);
    RepeatCount(Camp.Villager, NB_PLAYERS - NB_WOLVES, Camp.Wolf);
    RepeatCount(Camp.Wolf, NB_WOLVES, Camp.Villager);
    RepeatCount(Camp.Wolf, NB_WOLVES, Camp.Wolf);
  }

  // ------------------------------------------------------- for the engine

  /** Rosters with the same alive flags have the same first alive participant of each camp. */
  lemma {:induction false} FirstAliveSameStatus(a: seq<Seat>, b: seq<Seat>, c: Camp)
    requires SameStatus(a, b) && AliveCount(a, c) > 0
    ensures AliveCount(b, c) > 0 && FirstAlive(a, c) == FirstAlive(b, c)
  {
    SameStatusCount(a, b, c);
    if !(a[0].alive && a[0].camp == c) {
      assert SameStatus(a[1..], b[1..]);
      FirstAliveSameStatus(a[1..], b[1..], c);
    }
  }

  /** Hearing two batches of lines is hearing them in sequence. */
  lemma {:induction false} ListenAllTwice(reg: seq<Seat>, a: seq<Line>, b: seq<Line>)
    ensures ListenAll(ListenAll(reg, a), b) == ListenAll(reg, a + b)
  {
    var once := ListenAll(reg, a);
    var twice := ListenAll(once, b);
    var both := ListenAll(reg, a + b);
    assert |twice| == |both| == |reg|;
    forall i | 0 <= i < |reg| ensures twice[i] == both[i] {
      HeardByAppend(a, b, reg[i].id);
      if reg[i].alive {
        assert once[i] == reg[i].(history := reg[i].history + HeardBy(a, reg[i].id));
        assert twice[i].history == reg[i].history + HeardBy(a, reg[i].id) + HeardBy(b, reg[i].id);
      }
    }
  }

  lemma {:induction false} ListenAllNothing(reg: seq<Seat>)
    ensures ListenAll(reg, []) == reg
  {
    assert forall i :: 0 <= i < |reg| ==> ListenAll(reg, [])[i] == reg[i];
  }

  lemma {:induction false} HeardByOne(l: Line, id: int)
    ensures HeardBy([l], id) == if l.speaker != id then [HeardLine(l.text)] else []
  {
    assert [l][..0] == [];
  }

  /** Filtering the alive participants distributes over concatenation. */
  lemma {:induction false} AliveSeatsAppend(a: seq<Seat>, b: seq<Seat>)
    ensures AliveSeats(a + b) == AliveSeats(a) + AliveSeats(b)
  {
    if a != [] {
      assert (a + b)[1..] == a[1..] + b;
      AliveSeatsAppend(a[1..], b);
    } else {
      assert a + b == b;
    }
  }

  /** The lines of the participants up to position k + 1: those up to k, then participant k's, if it spoke. */
  lemma {:induction false} NpcLinesStep(reg: seq<Seat>, k: nat, reply: int -> string)
    requires k < |reg|
    ensures NpcLines(AliveSeats(reg[..k + 1]), reply) ==
      NpcLines(AliveSeats(reg[..k]), reply) +
      (if reg[k].alive && Speaks(reg[k], reply) then [SpokenLine(reg[k], reply)] else [])
  {
    assert reg[..k + 1] == reg[..k] + [reg[k]];
    AliveSeatsAppend(reg[..k], [reg[k]]);
    assert [reg[k]][1..] == [];
    var init := AliveSeats(reg[..k]);
    if reg[k].alive {
      assert (init + [reg[k]])[..|init|] == init;
    } else {
      assert init + [] == init;
    }
  }

  /** The votes of the participants up to position k + 1: those up to k, then participant k's, if it votes. */
  lemma {:induction false} NpcBallotsStep(voters: seq<Seat>, pool: seq<Seat>, k: nat, nb: seq<Ballot>, b: seq<Ballot>)
    requires k < |voters| && NpcBallots(voters[..k], pool, nb)
    requires if voters[k].npc && HasCandidate(pool, voters[k].id)
      then |b| == 1 && b[0].voter == voters[k].id && IsCandidate(pool, voters[k].id, b[0].target)
      else b == []
    ensures NpcBallots(voters[..k + 1], pool, nb + b)
  {
    assert voters[..k + 1][..k] == voters[..k];
    if b == [] {
      assert nb + b == nb;
    } else {
      assert (nb + b)[..|nb|] == nb;
    }
  }

  /** The targets of two batches of ballots in a row. */
  lemma {:induction false} TargetsAppend(a: seq<Ballot>, b: seq<Ballot>)
    ensures Targets(a + b) == Targets(a) + Targets(b)
  {
    forall j | 0 <= j < |a + b| ensures Targets(a + b)[j] == (Targets(a) + Targets(b))[j] {
      if j >= |a| {
        assert (a + b)[j] == b[j - |a|];
      }
    }
  }

  /** The day's record only reads names, which a discussion does not change. */
  lemma {:induction false} DayReportSameRoster(a: seq<Seat>, b: seq<Seat>, votes: seq<int>)
    requires SameRoster(a, b)
    ensures DayReport(a, votes) == DayReport(b, votes)
  {
  }

  /** The human's ballot (if any) followed by the NPCs' ballots is a legal ballot list. */
  lemma {:induction false} BallotsJoin(reg: seq<Seat>, humanVote: Option<int>, hb: seq<Ballot>, nb: seq<Ballot>)
    requires hb == HumanBallots(reg, humanVote)
    requires NpcBallots(AliveSeats(reg), AliveSeats(reg), nb)
    ensures ValidBallots(reg, humanVote, hb + nb)
  {
    if hb != [] {
      assert (hb + nb)[1..] == nb;
    } else {
      assert hb + nb == nb;
    }
  }
}
