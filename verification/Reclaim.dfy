/** Reclaiming child processes at shutdown (server/mpm_common.c): children are
    waited for, then signalled harder and harder, then given up. */
module Reclaim {
  import opened Flattening

  datatype Action = DoNothing | SendSigterm | SendSigkill | GiveUp

  const SECOND: nat := 1_000_000

  datatype Timed = Timed(action: Action, time: nat)

  /** What to do, and how long after the start. */
  const TABLE: seq<Timed> := [
    Timed(DoNothing, 0), Timed(SendSigterm, 3 * SECOND), Timed(SendSigterm, 5 * SECOND),
    Timed(SendSigterm, 7 * SECOND), Timed(SendSigkill, 9 * SECOND), Timed(GiveUp, 10 * SECOND)]

  function Signal(action: Action): seq<Action> {
    if action.SendSigterm? || action.SendSigkill? then [action] else []
  }

  /** The signals of the first n entries. */
  function Issued(n: nat): seq<Action>
    requires n <= 6
  {
    if n == 0 then [] else Issued(n - 1) + Signal(TABLE[n - 1].action)
  }

  lemma {:induction false} IssuedNext(n: nat)
    requires n <= 5
    ensures Issued(n + 1) == Issued(n) + Signal(TABLE[n].action) && (TABLE[n].action == GiveUp <==> n == 5)
    ensures Issued(n) + Signal(TABLE[0].action) == Issued(n)
  {}

  lemma {:induction false} IssuedAll()
    ensures Issued(6) == [SendSigterm, SendSigterm, SendSigterm, SendSigkill]
  {
    assert Issued(2) == [SendSigterm];
    assert Issued(4) == [SendSigterm, SendSigterm, SendSigterm];
  }

  /** Nobody is signalled too soon: the SIGTERM after n signals not before 3 + 2 n
      seconds, SIGKILL not before 9 seconds, and giving up takes 10. */
  predicate NotTooSoon(action: Action, n: nat, elapsed: int) {
    match action
    case DoNothing => true
    case SendSigterm => n <= 2 && elapsed >= 3_000_000 + 2_000_000 * n
    case SendSigkill => n == 3 && elapsed >= 9_000_000
    case GiveUp => n == 4 && elapsed >= 10_000_000
  }

  lemma {:induction false} TableTimes(n: nat, elapsed: int)
    requires 1 <= n <= 5 && TABLE[n].time <= elapsed
    ensures NotTooSoon(TABLE[n].action, |Issued(n)|, elapsed) && NotTooSoon(TABLE[0].action, |Issued(n)|, elapsed)
  {
    IssuedAll();
  }

  /** The processes and the clock. exits(r, pid) says that a wait in round r finds
      the process gone; clock(r) is the time read in round r. */
  class Reclaimer {
    const start: int
    const clock: nat -> int
    const exits: (nat, int) -> bool
    const board: array<int>
    const extras: seq<int>
    var sent: seq<seq<Action>>
    var waitTime: nat
    var nextAction: nat
    var round: nat
    ghost var taken: seq<Action>     // the action of each round so far

    constructor (board: array<int>, extras: seq<int>, start: int, clock: nat -> int, exits: (nat, int) -> bool)
      ensures this.board == board && this.extras == extras && this.start == start
      ensures this.clock == clock && this.exits == exits
      ensures Valid() && round == 0 && nextAction == 1 && waitTime == 16384
    {
      this.board, this.extras, this.start, this.clock, this.exits := board, extras, start, clock, exits;
      sent := seq(board.Length + |extras|, _ => []);
      waitTime, nextAction, round, taken := 16384, 1, 0, [];
    }

    /** A wait in round r finds the process still there. */
    predicate Alive(pid: int, r: nat) {
      pid >= 1 && !exits(r, pid)
    }

    /** The signals of those actions that met the process alive. */
    function Heard(pid: int, actions: seq<Action>): seq<Action> {
      if actions == [] then []
      else
        var n := |actions|;
        Heard(pid, actions[..n - 1]) + if Alive(pid, n) then Signal(actions[n - 1]) else []
    }

    lemma {:induction false} HeardMore(pid: int, actions: seq<Action>, action: Action)
      ensures Heard(pid, actions + [action])
           == Heard(pid, actions) + if Alive(pid, |actions| + 1) then Signal(action) else []
    {
      assert (actions + [action])[..|actions|] == actions;
    }

    /** A process that is there all the time hears everything. */
    lemma {:induction false} HeardAll(pid: int, actions: seq<Action>)
      requires forall r | 1 <= r <= |actions| :: Alive(pid, r)
      ensures Heard(pid, actions) == Flatten(Signal, actions)
    {
      if actions != [] {
        var k := |actions| - 1;
        HeardAll(pid, actions[..k]);
        assert actions == actions[..k] + [actions[k]];
        FlattenAppend(Signal, actions[..k], actions[k]);
      }
    }

    ghost predicate Valid()
      reads this, board
    {
      1 <= nextAction <= 6 && Sent(Issued(nextAction)) && Patient(taken)
    }

    /** No action of a round so far came too soon. */
    ghost predicate Patient(actions: seq<Action>) {
      forall k | 0 <= k < |actions| ::
        NotTooSoon(actions[k], |Flatten(Signal, actions[..k])|, clock(k + 1) - start)
    }

    lemma {:induction false} PatientMore(actions: seq<Action>, action: Action)
      requires Patient(actions)
      requires NotTooSoon(action, |Flatten(Signal, actions)|, clock(|actions| + 1) - start)
      ensures Patient(actions + [action])
    {
      var all := actions + [action];
      forall k | 0 <= k < |all| ensures NotTooSoon(all[k], |Flatten(Signal, all[..k])|, clock(k + 1) - start) {
        assert all[..k] == actions[..k];
        assert actions[..|actions|] == actions;
      }
    }

    /** Waits for one process and acts on it if it is still there. */
    method ReclaimOnePid(slot: nat, pid: int, action: Action) returns (gone: bool)
      requires slot < |sent|
      modifies this`sent
      ensures gone <==> pid < 1 || exits(round, pid)
      ensures sent == if gone then old(sent) else old(sent)[slot := old(sent)[slot] + Signal(action)]
    {
      if pid < 1 {
        return true;
      }
      if exits(round, pid) {
        return true;
      }
      match action {
        case DoNothing =>
        case SendSigterm =>
          sent := sent[slot := sent[slot] + [SendSigterm]];
        case SendSigkill =>
          sent := sent[slot := sent[slot] + [SendSigkill]];
        case GiveUp =>
      }
      assert old(sent)[slot] + [] == old(sent)[slot];
      return false;
    }

    /** The slots of the scoreboard. */
    method PassBoard(action: Action) returns (notDead: nat)
      requires |sent| == board.Length + |extras|
      modifies this`sent, board
      ensures |sent| == |old(sent)| && sent[board.Length..] == old(sent)[board.Length..]
      ensures forall i | 0 <= i < board.Length ::
        board[i] == if old(board[i]) < 1 || exits(round, old(board[i])) then 0 else old(board[i])
      ensures forall i | 0 <= i < board.Length ::
        sent[i] == old(sent)[i] + if board[i] != 0 then Signal(action) else []
      ensures notDead == 0 <==> forall i | 0 <= i < board.Length :: board[i] == 0
    {
      notDead := 0;
      var i := 0;
      while i < board.Length
        invariant i <= board.Length && |sent| == |old(sent)|
        invariant sent[i..] == old(sent)[i..]
        invariant forall k | i <= k < board.Length :: board[k] == old(board[k])
        invariant forall k | 0 <= k < i ::
          board[k] == if old(board[k]) < 1 || exits(round, old(board[k])) then 0 else old(board[k])
        invariant forall k | 0 <= k < i ::
          sent[k] == old(sent)[k] + if board[k] != 0 then Signal(action) else []
        invariant notDead == 0 <==> forall k | 0 <= k < i :: board[k] == 0
      {
        var pid := board[i];
        assert old(sent)[i] + [] == old(sent)[i] == sent[i..][0];
        if pid != 0 {
          var gone := ReclaimOnePid(i, pid, action);
          if gone {
            board[i] := 0;
          } else {
            notDead := notDead + 1;
          }
        }
        i := i + 1;
      }
    }

    /** The other processes. */
    method PassExtras(action: Action) returns (notDead: nat)
      requires |sent| == board.Length + |extras|
      modifies this`sent
      ensures |sent| == |old(sent)| && sent[..board.Length] == old(sent)[..board.Length]
      ensures forall j | 0 <= j < |extras| ::
        sent[board.Length + j] == old(sent)[board.Length + j] + if Alive(extras[j], round) then Signal(action) else []
      ensures notDead == 0 <==> forall j | 0 <= j < |extras| :: !Alive(extras[j], round)
    {
      notDead := 0;
      var n := board.Length;
      var j := 0;
      while j < |extras|
        invariant j <= |extras| && |sent| == |old(sent)| && sent[..n] == old(sent)[..n]
        invariant sent[n + j..] == old(sent)[n + j..]
        invariant forall k | 0 <= k < j ::
          sent[n + k] == old(sent)[n + k] + if Alive(extras[k], round) then Signal(action) else []
        invariant notDead == 0 <==> forall k | 0 <= k < j :: !Alive(extras[k], round)
      {
        assert old(sent)[n + j] + [] == old(sent)[n + j] == sent[n + j..][0];
        assert sent[n + j..][1..] == old(sent)[n + j..][1..] == old(sent)[n + j + 1..];
        var gone := ReclaimOnePid(n + j, extras[j], action);
        if !gone {
          notDead := notDead + 1;
        }
        j := j + 1;
      }
    }

    /** Nobody is left to wait for. */
    ghost predicate AllGone()
      reads this, board
    {
      && (forall i | 0 <= i < board.Length :: board[i] == 0)
      && (forall j | 0 <= j < |extras| :: !Alive(extras[j], round))
    }

    /** These signals were due. Every child still there was sent all of them, every
        other process those of the rounds in which it was there. */
    ghost predicate Sent(signals: seq<Action>)
      reads this`sent, this`round, this`taken, board
    {
      && |taken| == round && Flatten(Signal, taken) == signals
      && |sent| == board.Length + |extras|
      && (forall i | 0 <= i < board.Length && board[i] != 0 :: sent[i] == signals)
      && (forall j | 0 <= j < |extras| :: sent[board.Length + j] == Heard(extras[j], taken))
    }

    /** Everybody who is still there is acted on. */
    method Pass(action: Action, ghost signals: seq<Action>) returns (notDead: nat)
      requires Sent(signals)
      modifies this`sent, this`round, this`taken, board
      ensures round == old(round) + 1 && taken == old(taken) + [action] && Sent(signals + Signal(action))
      ensures notDead == 0 <==> AllGone()
    {
      round := round + 1;
      var inBoard := PassBoard(action);
      ghost var n, middle := board.Length, sent;
      var inExtras := PassExtras(action);
      forall i | 0 <= i < n && board[i] != 0 ensures sent[i] == signals + Signal(action) {
        assert sent[..n][i] == middle[..n][i];
      }
      taken := taken + [action];
      FlattenAppend(Signal, old(taken), action);
      forall j | 0 <= j < |extras| ensures sent[n + j] == Heard(extras[j], taken) {
        assert middle[n..][j] == old(sent)[n..][j];
        HeardMore(extras[j], old(taken), action);
      }
      notDead := inBoard + inExtras;
    }

    /** One time around the loop, after the sleep. */
    method Round() returns (again: bool)
      requires Valid() && nextAction <= 5
      modifies this`sent, this`waitTime, this`nextAction, this`round, this`taken, board
      ensures Valid() && round == old(round) + 1
      ensures waitTime == if 4 * old(waitTime) > SECOND then SECOND else 4 * old(waitTime)
      ensures nextAction == old(nextAction) + if TABLE[old(nextAction)].time <= clock(round) - start then 1 else 0
      ensures again <==> !AllGone() && nextAction <= 5
    {
      waitTime := waitTime * 4;
      if waitTime > SECOND {
        waitTime := SECOND;
      }
      var curAction := 0;
      if TABLE[nextAction].time <= clock(round + 1) - start {
        TableTimes(nextAction, clock(round + 1) - start);
        curAction := nextAction;
        nextAction := nextAction + 1;
      }
      var action := TABLE[curAction].action;
      IssuedNext(old(nextAction));
      PatientMore(taken, action);
      var notDead := Pass(action, Issued(old(nextAction)));
      again := notDead > 0 && action != GiveUp;
    }
  }

  /** How long sleep number k is. */
  function Wait(k: nat): nat {
    if k <= 1 then 16384 else if k == 2 then 65536 else if k == 3 then 262144 else SECOND
  }

  /** Sleeping for some time advances the clock by at least that. */
  ghost predicate Advances(start: int, clock: nat -> int) {
    clock(1) >= start + Wait(1) && forall k: nat | k >= 1 :: Sleeps(clock, k)
  }

  predicate Sleeps(clock: nat -> int, k: nat) {
    clock(k + 1) >= clock(k) + Wait(k + 1)
  }

  /** How long k sleeps take, and how many actions are due after them. */
  function Slept(k: nat): nat {
    if k == 0 then 0 else Slept(k - 1) + Wait(k)
  }

  function Due(k: nat): nat {
    if k < 6 then 1 else if k < 8 then 2 else if k < 10 then 3 else if k < 12 then 4 else if k < 13 then 5 else 6
  }

  lemma {:induction false} DueInTime(k: nat)
    requires k < 13 && Due(k) < Due(k + 1)
    ensures Slept(k + 1) >= TABLE[Due(k)].time
  {
    assert Slept(3) == 344064;
    assert Slept(5) == 2344064;
    assert Slept(7) == 4344064;
    assert Slept(9) == 6344064;
    assert Slept(11) == 8344064;
    assert Slept(13) == 10344064;
  }

  lemma {:induction false} Elapsed(start: int, clock: nat -> int, k: nat)
    requires Advances(start, clock) && k >= 1
    ensures clock(k) - start >= Slept(k)
  {
    if k > 1 {
      Elapsed(start, clock, k - 1);
      assert Sleeps(clock, k - 1);
    }
  }

  /** The actions stay on time. */
  lemma {:induction false} OnTime(start: int, clock: nat -> int, k: nat, next: nat)
    requires Advances(start, clock) && k < 13 && Due(k) <= next <= 5
    ensures Due(k + 1) <= next + if TABLE[next].time <= clock(k + 1) - start then 1 else 0
  {
    Elapsed(start, clock, k + 1);
    if Due(k) < Due(k + 1) && Due(k) == next {
      DueInTime(k);
    }
  }

  /** Reclaims the children. It ends with none left, or after every one left has
      been sent three SIGTERM and then a SIGKILL, within thirteen rounds. */
  method ReclaimChildProcesses(r: Reclaimer)
    requires Advances(r.start, r.clock)
    requires r.Valid() && r.round == 0 && r.nextAction == 1 && r.waitTime == Wait(1)
    modifies r, r.board
    ensures r.Valid() && r.round <= 13
    ensures r.AllGone() || r.Sent([SendSigterm, SendSigterm, SendSigterm, SendSigkill])
    ensures r.Patient(r.taken)
    ensures forall k | 0 <= k < |r.taken| :: r.taken[k].SendSigterm? ==> r.clock(k + 1) - r.start >= 3_000_000
    ensures forall k | 0 <= k < |r.taken| :: r.taken[k].SendSigkill? ==> r.clock(k + 1) - r.start >= 9_000_000
  {
    var again := true;
    while again
      invariant r.Valid() && r.waitTime == Wait(r.round + 1)
      invariant r.round <= 13 && Due(r.round) <= r.nextAction
      invariant again ==> r.nextAction <= 5
      invariant !again ==> r.AllGone() || r.nextAction == 6
      decreases 13 - r.round, again
    {
      OnTime(r.start, r.clock, r.round, r.nextAction);
      again := r.Round();
    }
    IssuedAll();
  }

  /** A process that is not on the scoreboard. */
  class ExtraProcess {
    var next: ExtraProcess?
    const pid: int

    constructor (pid: int, next: ExtraProcess?)
      ensures this.pid == pid && this.next == next
    {
      this.pid, this.next := pid, next;
    }
  }

  ghost function At(nodes: seq<ExtraProcess>, i: nat): ExtraProcess? {
    if i < |nodes| then nodes[i] else null
  }

  ghost function Pids(nodes: seq<ExtraProcess>): seq<int> {
    seq(|nodes|, i requires 0 <= i < |nodes| => nodes[i].pid)
  }

  /** The sequence without the first occurrence of pid. */
  function Without(pids: seq<int>, pid: int): seq<int> {
    if pids == [] then [] else if pids[0] == pid then pids[1..] else [pids[0]] + Without(pids[1..], pid)
  }

  lemma {:induction false} WithoutAt(pids: seq<int>, pid: int, k: nat)
    requires k < |pids| && pids[k] == pid && forall i | 0 <= i < k :: pids[i] != pid
    ensures Without(pids, pid) == pids[..k] + pids[k + 1..]
  {
    if k > 0 {
      WithoutAt(pids[1..], pid, k - 1);
      assert pids[..k] == [pids[0]] + pids[1..][..k - 1];
    }
  }

  lemma {:induction false} WithoutNone(pids: seq<int>, pid: int)
    requires pid !in pids
    ensures Without(pids, pid) == pids
  {
    if pids != [] {
      WithoutNone(pids[1..], pid);
    }
  }

  /** The list of extra processes. */
  class Extras {
    var head: ExtraProcess?
    ghost var nodes: seq<ExtraProcess>

    ghost predicate Valid()
      reads this, nodes
    {
      && head == At(nodes, 0)
      && (forall i {:trigger nodes[i].next} | 0 <= i < |nodes| :: nodes[i].next == At(nodes, i + 1))
      && (forall i, j | 0 <= i < j < |nodes| :: nodes[i] != nodes[j])
    }

    constructor ()
      ensures Valid() && nodes == []
    {
      head, nodes := null, [];
    }

    method Register(pid: int)
      requires Valid()
      modifies this
      ensures Valid() && Pids(nodes) == [pid] + old(Pids(nodes))
    {
      var p := new ExtraProcess(pid, head);
      ghost var before := nodes;
      head := p;
      nodes := [p] + nodes;
      forall i {:trigger nodes[i].next} | 0 <= i < |nodes| ensures nodes[i].next == At(nodes, i + 1) {
        if i > 0 {
          assert nodes[i] == before[i - 1];
        }
      }
    }

    /** Takes the first process of that number off the list. */
    method Unregister(pid: int) returns (found: bool)
      requires Valid()
      modifies this, nodes
      ensures Valid()
      ensures found <==> pid in old(Pids(nodes))
      ensures Pids(nodes) == Without(old(Pids(nodes)), pid)
    {
      var cur, prev: ExtraProcess? := head, null;
      ghost var k := 0;
      while cur != null && cur.pid != pid
        invariant k <= |nodes| && cur == At(nodes, k)
        invariant if k == 0 then prev == null else prev == nodes[k - 1]
        invariant forall i | 0 <= i < k :: nodes[i].pid != pid
        decreases |nodes| - k
      {
        assert cur == nodes[k];
        prev := cur;
        cur := cur.next;
        k := k + 1;
      }
      if cur == null {
        WithoutNone(Pids(nodes), pid);
        return false;
      }
      assert cur == nodes[k];
      WithoutAt(Pids(nodes), pid, k);
      if prev != null {
        prev.next := cur.next;
      } else {
        head := cur.next;
      }
      Unlinked(nodes, k);
      nodes := nodes[..k] + nodes[k + 1..];
      return true;
    }
  }

  ghost predicate Linked(nodes: seq<ExtraProcess>, k: nat)
    reads nodes
  {
    forall i {:trigger nodes[i].next} | 0 <= i < |nodes| && i + 1 != k :: nodes[i].next == At(nodes, i + 1)
  }

  lemma {:induction false} Unlinked(nodes: seq<ExtraProcess>, k: nat)
    requires k < |nodes| && Linked(nodes, k)
    requires k > 0 ==> nodes[k - 1].next == At(nodes, k + 1)
    ensures
      var rest := nodes[..k] + nodes[k + 1..];
      forall i {:trigger rest[i].next} | 0 <= i < |rest| :: rest[i].next == At(rest, i + 1)
  {
    var rest := nodes[..k] + nodes[k + 1..];
    forall i {:trigger rest[i].next} | 0 <= i < |rest| ensures rest[i].next == At(rest, i + 1) {
      assert rest[i] == nodes[if i < k then i else i + 1];
    }
  }
}
