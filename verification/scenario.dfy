/** A client of the state machine: two participants play two rounds on the same question
    number, showing what callers can conclude from the operations' contracts alone. */
module Scenario {

  import opened Base
  import opened Completion
  import opened TurnEngine

  /** X claims A, Y claims B, a third caller Z gets no role. */
  method ClaimRoles(x: int, y: int, z: int) returns (st: BotState)
    requires x != y && z != x && z != y
    ensures fresh(st) && st.Valid() && st.roleA == Some(x) && st.roleB == Some(y)
    ensures st.pending == None && st.completed == map[]
  {
    st := new BotState();
    var claimed := st.AutoAssignRoleOnStart(x);
    assert claimed == Some(A);
    claimed := st.AutoAssignRoleOnStart(y);
    assert claimed == Some(B);
    claimed := st.AutoAssignRoleOnStart(z);
    assert claimed == None;
  }

  /** X asks question 2, Y sends two fragments and releases them: X receives both in order,
      question 2 is closed for X but not for Y, and Y becomes A. */
  method FirstRound(st: BotState, x: int, y: int)
    requires st.Valid() && st.roleA == Some(x) && st.roleB == Some(y) && x != 0 && y != 0
    requires st.pending == None && st.completed == map[]
    modifies st
    ensures st.Valid() && st.roleA == Some(y) && st.roleB == Some(x) && st.pending == None
    ensures st.completed == MarkCompleted(map[], x, 2)
  {
    var r := st.AskSpecific(y, 2);
    assert r == Rejected(NotA);
    r := st.AskSpecific(x, 128);
    assert r == Rejected(OutOfRange);
    r := st.AskSpecific(x, 2);
    assert r.Done? && st.pending == Some(Pending(y, x, 2));
    r := st.AskSpecific(x, 3);
    assert r == Rejected(AlreadyActive);

    r := st.SendAnswer(y);
    assert r == Rejected(NoDrafts);
    var accepted := st.SubmitFragment(x, Text("not mine to answer"));
    assert !accepted;
    accepted := st.SubmitFragment(y, Text("first part"));
    assert accepted;
    accepted := st.SubmitFragment(y, VideoNote("clip"));
    assert accepted;

    r := st.SendAnswer(y);
    assert r.Done? && r.effects == [Forwarded(x, Text("first part")), Forwarded(x, VideoNote("clip")),
                                    NowRole(y, A), NowRole(x, B)];
  }

  /** After the first round question 2 is closed for X only, so Y, now A, may ask it; once X
      answers it is fully closed, a further request is refused, and a reset opens it again. */
  method SecondRound(st: BotState, x: int, y: int)
    requires st.Valid() && st.roleA == Some(y) && st.roleB == Some(x) && x != 0 && y != 0
    requires st.pending == None && st.completed == MarkCompleted(map[], x, 2)
    modifies st
    ensures st.Valid()
  {
    MarkCompletedSpec(map[], x, 2);
    assert !FullyClosed(st.roleA, st.roleB, st.completed, 2);
    var r := st.AskSpecific(y, 2);
    assert r.Done? && st.pending == Some(Pending(x, y, 2));
    var accepted := st.SubmitFragment(x, Voice("voice-1", None));
    assert accepted;
    ghost var before := st.completed;
    r := st.SendAnswer(x);
    assert r.Done? && st.roleA == Some(x) && st.roleB == Some(y);
    MarkCompletedSpec(before, y, 2);
    assert FullyClosed(st.roleA, st.roleB, st.completed, 2);

    r := st.AskSpecific(x, 2);
    assert r == Rejected(ClosedForYou);
    st.ResetHistory();
    r := st.AskSpecific(x, 2);
    assert r.Done?;
  }

  /** The whole two-round exchange between participants 101 and 202. */
  method TwoRounds()
  {
    var st := ClaimRoles(101, 202, 303);
    FirstRound(st, 101, 202);
    SecondRound(st, 101, 202);
  }

  /** Swapping the roles twice restores the original assignment and leaves the rest alone. */
  method SwapTwiceRestores(st: BotState)
    requires st.Valid() && st.pending.None? && st.roleA.Some? && st.roleB.Some?
    modifies st
    ensures st.Valid()
    ensures st.roleA == old(st.roleA) && st.roleB == old(st.roleB)
    ensures st.completed == old(st.completed) && st.participants == old(st.participants)
  {
    st.AutoSwapRoles();
    st.AutoSwapRoles();
  }
}
