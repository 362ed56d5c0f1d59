/** The turn-taking state machine: the bot's state (roles A and B, the single question in
    flight, the answer fragments collected for it, the completion ledger and the known
    participants) and the operations the handlers apply to it. */
module TurnEngine {

  import opened Base
  import opened Questions
  import opened Completion

  datatype Role = A | B

  /** One answer message from the receiver. */
  datatype Fragment =
    | Text(text: string)
    | Voice(fileId: string, caption: Option<string>)
    | Audio(fileId: string, caption: Option<string>)
    | VideoNote(fileId: string)

  /** An entry of the draft list: who sent the fragment, and the fragment. */
  datatype Draft = Draft(fromUser: int, body: Fragment)

  /** The question in flight: who must answer it, who asked it, and its number. */
  datatype Pending = Pending(toUser: int, fromUser: int, qnum: int)

  /** Why a request was turned down; each is reported to the caller and changes nothing. */
  datatype Reject =
    | NotA                // only A may ask
    | WaitingForB         // the roles are not both assigned
    | AlreadyActive       // a question is already in flight
    | BNotJoined          // no B to send the question to
    | OutOfRange          // the number is not in 1..127
    | ClosedForYou        // the asker already received an answer for this number
    | ClosedForBoth       // both current occupants received an answer for it
    | NoneAvailable       // no number left for a random pick
    | NotB                // only B may release answers
    | NoPendingForYou     // no question is waiting for this caller
    | NoDrafts            // nothing to release yet

  /** Messages the state machine asks the transport to deliver, in order. */
  datatype Effect =
    | QuestionConfirmed(to: int, qnum: int)              // to the asker: your question was sent
    | QuestionDelivered(to: int, qnum: int, random: bool) // to the receiver: the question to answer
    | Forwarded(to: int, body: Fragment)                  // one answer fragment, to the asker
    | NowRole(to: int, role: Role)                        // role-change notice after a swap

  datatype Reply = Done(effects: seq<Effect>) | Rejected(reason: Reject)

  /** The role slots are consistent: B is never set while A is empty, and A and B are distinct. */
  predicate RolesValid(a: Option<int>, b: Option<int>)
  {
    && (a.None? ==> b.None?)
    && (a.Some? && b.Some? ==> a.value != b.value)
  }

  predicate Distinct(s: seq<int>)
  {
    forall i, j :: 0 <= i < j < |s| ==> s[i] != s[j]
  }

  /** The bot's whole state, updated in place by the handlers. */
  class BotState {
    var roleA: Option<int>
    var roleB: Option<int>
    var pending: Option<Pending>
    var drafts: seq<Draft>
    var completed: Ledger
    var participants: seq<int>

    /** The invariants every handler keeps. */
    ghost predicate Valid()
      reads this
    {
      && RolesValid(roleA, roleB)
      && (pending.Some? ==>
            && roleA == Some(pending.value.fromUser)
            && roleB == Some(pending.value.toUser)
            && 1 <= pending.value.qnum <= TotalQuestions
            && forall i :: 0 <= i < |drafts| ==> drafts[i].fromUser == pending.value.toUser)
      && (pending.None? ==> drafts == [])
      && WellFormed(completed)
      && Distinct(participants)
    }

    /** The state used when nothing has been stored yet. */
    constructor ()
      ensures Valid()
      ensures roleA == None && roleB == None && pending == None
      ensures drafts == [] && completed == map[] && participants == []
    {
      roleA, roleB, pending := None, None, None;
      drafts, completed, participants := [], map[], [];
    }

    predicate IsUserA(chat: int)
      reads this
    {
      roleA == Some(chat)
    }

    predicate IsUserB(chat: int)
      reads this
    {
      roleB == Some(chat)
    }

    predicate RolesAssigned()
      reads this
    {
      Truthy(roleA) && Truthy(roleB)
    }

    /** Role claim on /start: registers the caller as a participant (once), then the first
        caller takes A and a later caller other than A takes an empty B; anyone else gets no role. */
    method AutoAssignRoleOnStart(chat: int) returns (claimed: Option<Role>)
      requires Valid()
      modifies this
      ensures Valid()
      ensures participants == if chat in old(participants) then old(participants) else old(participants) + [chat]
      ensures old(roleA).None? ==>
        claimed == Some(A) && roleA == Some(chat) && roleB == old(roleB)
      ensures old(roleA).Some? && old(roleB).None? && old(roleA) != Some(chat) ==>
        claimed == Some(B) && roleA == old(roleA) && roleB == Some(chat)
      ensures old(roleA).Some? && (old(roleB).Some? || old(roleA) == Some(chat)) ==>
        claimed == None && roleA == old(roleA) && roleB == old(roleB)
      ensures pending == old(pending) && drafts == old(drafts) && completed == old(completed)
    {
      if chat !in participants {
        participants := participants + [chat];
      }
      if roleA.None? {
        roleA := Some(chat);
        return Some(A);
      }
      if roleB.None? && roleA != Some(chat) {
        roleB := Some(chat);
        return Some(B);
      }
      return None;
    }

    /** Fallback claim of B, run first by the button and message handlers: fills B with the
        caller only when A is set, B is empty and the caller is not A; never overwrites. */
    method MaybeAssignB(chat: int)
      requires Valid()
      modifies this
      ensures Valid()
      ensures roleB == if Truthy(old(roleA)) && old(roleB).None? && old(roleA) != Some(chat)
                       then Some(chat) else old(roleB)
      ensures roleA == old(roleA) && pending == old(pending) && drafts == old(drafts)
      ensures completed == old(completed) && participants == old(participants)
    {
      if Truthy(roleA) && roleB.None? && roleA != Some(chat) {
        roleB := Some(chat);
      }
    }

    /** Exchanges A and B; called once an exchange is finished, so both are set and nothing is in flight. */
    method AutoSwapRoles()
      requires Valid() && pending.None? && roleA.Some? && roleB.Some?
      modifies this
      ensures Valid()
      ensures roleA == old(roleB) && roleB == old(roleA)
      ensures pending == old(pending) && drafts == old(drafts)
      ensures completed == old(completed) && participants == old(participants)
    {
      roleA, roleB := roleB, roleA;
    }

    /** Records that `user` received an answer for `qnum` (idempotent; keeps the list sorted). */
    method MarkCompletedForUser(user: int, qnum: int)
      requires Valid() && 1 <= qnum <= TotalQuestions
      modifies this
      ensures Valid()
      ensures completed == MarkCompleted(old(completed), user, qnum)
      ensures roleA == old(roleA) && roleB == old(roleB) && pending == old(pending)
      ensures drafts == old(drafts) && participants == old(participants)
    {
      MarkCompletedKeepsWellFormed(completed, user, qnum);
      var lst := ListOf(completed, user);
      if qnum !in lst {
        lst := lst + [qnum];
        completed := completed[user := Sort(lst)];
      }
    }

    /** Reset of the history: empties every user's list; roles and the question in flight stay. */
    method ResetHistory()
      requires Valid()
      modifies this
      ensures Valid()
      ensures completed == map[]
      ensures roleA == old(roleA) && roleB == old(roleB) && pending == old(pending)
      ensures drafts == old(drafts) && participants == old(participants)
    {
      completed := map[];
    }

    /** Drops the question in flight together with its fragments. */
    method ClearPending()
      requires Valid()
      modifies this
      ensures Valid()
      ensures pending == None && drafts == []
      ensures roleA == old(roleA) && roleB == old(roleB)
      ensures completed == old(completed) && participants == old(participants)
    {
      pending := None;
      drafts := [];
    }

    /** The numbers still open for `user`, ascending: not yet answered for the user, not the
        number in flight, and not fully closed. */
    method RemainingNumbersForUser(user: int) returns (remain: seq<int>)
      ensures StrictlyAscending(remain)
      ensures forall q :: q in remain ==> 1 <= q <= TotalQuestions
      ensures forall q :: q in remain <==>
        Eligible(roleA, roleB, if pending.Some? then Some(pending.value.qnum) else None, completed, user, q)
    {
      var completedMe := CompletedFor(completed, user);
      var pendingExclude: set<int> := if pending.Some? then {pending.value.qnum} else {};
      ghost var pq := if pending.Some? then Some(pending.value.qnum) else None;
      remain := [];
      var i := 1;
      while i <= TotalQuestions
        invariant 1 <= i <= TotalQuestions + 1
        invariant StrictlyAscending(remain)
        invariant forall q :: q in remain ==> 1 <= q < i
        invariant forall q :: 1 <= q < i ==> (q in remain <==> Eligible(roleA, roleB, pq, completed, user, q))
      {
        if i in completedMe {
        } else if i in pendingExclude {
        } else if FullyClosed(roleA, roleB, completed, i) {
        } else {
          StrictlyAscendingAppend(remain, i);
          remain := remain + [i];
        }
        i := i + 1;
      }
    }

    /** Opens a question from `asker` (the current A) to B. Rejections come in this order:
        no B, a question already in flight, number out of range, already answered for the
        asker, fully closed. A rejection changes nothing; on success the question is in flight
        to B with no fragments yet, and both parties are sent the question. */
    method SendQuestion(asker: int, qnum: int, isRandom: bool) returns (r: Reply)
      requires Valid() && roleA == Some(asker)
      modifies this
      ensures Valid()
      ensures r == (if !Truthy(old(roleB)) then Rejected(BNotJoined)
                    else if old(pending).Some? then Rejected(AlreadyActive)
                    else if qnum < 1 || qnum > TotalQuestions then Rejected(OutOfRange)
                    else if qnum in CompletedFor(old(completed), asker) then Rejected(ClosedForYou)
                    else if FullyClosed(old(roleA), old(roleB), old(completed), qnum) then Rejected(ClosedForBoth)
                    else Done([QuestionConfirmed(asker, qnum), QuestionDelivered(old(roleB).value, qnum, isRandom)]))
      ensures r.Rejected? ==> pending == old(pending) && drafts == old(drafts)
      ensures r.Done? ==> pending == Some(Pending(old(roleB).value, asker, qnum)) && drafts == []
      ensures roleA == old(roleA) && roleB == old(roleB)
      ensures completed == old(completed) && participants == old(participants)
    {
      var bChat := roleB;
      if !Truthy(bChat) {
        return Rejected(BNotJoined);
      }
      if pending.Some? {
        return Rejected(AlreadyActive);
      }
      if qnum < 1 || qnum > TotalQuestions {
        return Rejected(OutOfRange);
      }
      if qnum in CompletedFor(completed, asker) {
        return Rejected(ClosedForYou);
      }
      if FullyClosed(roleA, roleB, completed, qnum) {
        return Rejected(ClosedForBoth);
      }
      pending := Some(Pending(bChat.value, asker, qnum));
      drafts := [];
      r := Done([QuestionConfirmed(asker, qnum), QuestionDelivered(bChat.value, qnum, isRandom)]);
    }

    /** A number typed by the caller after choosing "ask a specific question". The handler checks
        role, roles assigned, nothing in flight, then closed-for-you and fully-closed before
        `SendQuestion` checks the range; the outcome is nevertheless the one of a range check
        made first, because ledger entries always lie in 1..127. */
    method AskSpecific(chat: int, qnum: int) returns (r: Reply)
      requires Valid()
      modifies this
      ensures Valid()
      ensures r == (if !old(IsUserA(chat)) then Rejected(NotA)
                    else if !old(RolesAssigned()) then Rejected(WaitingForB)
                    else if old(pending).Some? then Rejected(AlreadyActive)
                    else if qnum < 1 || qnum > TotalQuestions then Rejected(OutOfRange)
                    else if qnum in CompletedFor(old(completed), chat) then Rejected(ClosedForYou)
                    else if FullyClosed(old(roleA), old(roleB), old(completed), qnum) then Rejected(ClosedForBoth)
                    else Done([QuestionConfirmed(chat, qnum), QuestionDelivered(old(roleB).value, qnum, false)]))
      ensures r.Rejected? ==> pending == old(pending) && drafts == old(drafts)
      ensures r.Done? ==> pending == Some(Pending(old(roleB).value, chat, qnum)) && drafts == []
      ensures roleA == old(roleA) && roleB == old(roleB)
      ensures completed == old(completed) && participants == old(participants)
    {
      if !IsUserA(chat) {
        return Rejected(NotA);
      }
      if !RolesAssigned() {
        return Rejected(WaitingForB);
      }
      if pending.Some? {
        return Rejected(AlreadyActive);
      }
      if qnum < 1 || qnum > TotalQuestions {
        OutOfRangeNeverClosed(roleA, roleB, completed, chat, qnum);
      }
      if qnum in CompletedFor(completed, chat) {
        return Rejected(ClosedForYou);
      }
      if FullyClosed(roleA, roleB, completed, qnum) {
        return Rejected(ClosedForBoth);
      }
      r := SendQuestion(chat, qnum, false);
    }

    /** "Ask a random question": after the same role and state checks, picks any number still
        eligible for the caller (the source picks uniformly; any pick is allowed here), or
        rejects when there is none. */
    method AskRandom(chat: int) returns (r: Reply)
      requires Valid()
      modifies this
      ensures Valid()
      ensures !old(IsUserA(chat)) ==> r == Rejected(NotA)
      ensures old(IsUserA(chat)) && !old(RolesAssigned()) ==> r == Rejected(WaitingForB)
      ensures old(IsUserA(chat)) && old(RolesAssigned()) && old(pending).Some? ==> r == Rejected(AlreadyActive)
      ensures old(IsUserA(chat)) && old(RolesAssigned()) && old(pending).None? ==>
        (r == Rejected(NoneAvailable) <==> forall q :: !Eligible(old(roleA), old(roleB), None, old(completed), chat, q))
      ensures (old(IsUserA(chat)) && old(RolesAssigned()) && old(pending).None?
               && exists q :: Eligible(old(roleA), old(roleB), None, old(completed), chat, q)) ==>
        r.Done?
      ensures r.Rejected? ==> r.reason in {NotA, WaitingForB, AlreadyActive, NoneAvailable}
      ensures r.Rejected? ==> pending == old(pending) && drafts == old(drafts)
      ensures r.Done? ==>
        && old(pending).None? && drafts == [] && pending.Some?
        && pending.value.fromUser == chat && Some(pending.value.toUser) == old(roleB)
        && Eligible(old(roleA), old(roleB), None, old(completed), chat, pending.value.qnum)
        && r.effects == [QuestionConfirmed(chat, pending.value.qnum), QuestionDelivered(pending.value.toUser, pending.value.qnum, true)]
      ensures roleA == old(roleA) && roleB == old(roleB)
      ensures completed == old(completed) && participants == old(participants)
    {
      if !IsUserA(chat) {
        return Rejected(NotA);
      }
      if !RolesAssigned() {
        return Rejected(WaitingForB);
      }
      if pending.Some? {
        return Rejected(AlreadyActive);
      }
      var remain := RemainingNumbersForUser(chat);
      if remain == [] {
        assert forall q :: !Eligible(roleA, roleB, None, completed, chat, q) by {
          forall q ensures !Eligible(roleA, roleB, None, completed, chat, q) {
            assert q !in remain;
          }
        }
        return Rejected(NoneAvailable);
      }
      assert remain[0] in remain;
      var qnum :| qnum in remain;
      r := SendQuestion(chat, qnum, true);
    }

    /** Appends one fragment at the end of the draft list. */
    method AppendDraft(item: Draft)
      requires Valid() && pending.Some? && item.fromUser == pending.value.toUser
      modifies this
      ensures Valid()
      ensures drafts == old(drafts) + [item]
      ensures roleA == old(roleA) && roleB == old(roleB) && pending == old(pending)
      ensures completed == old(completed) && participants == old(participants)
    {
      drafts := drafts + [item];
    }

    /** A text, voice, audio or video-note message: kept as a fragment only when a question is in
        flight, the sender is its receiver and the sender is B; otherwise nothing changes. */
    method SubmitFragment(chat: int, body: Fragment) returns (accepted: bool)
      requires Valid()
      modifies this
      ensures Valid()
      ensures accepted <==> old(pending).Some? && old(pending).value.toUser == chat && old(IsUserB(chat))
      ensures drafts == if accepted then old(drafts) + [Draft(chat, body)] else old(drafts)
      ensures roleA == old(roleA) && roleB == old(roleB) && pending == old(pending)
      ensures completed == old(completed) && participants == old(participants)
    {
      accepted := pending.Some? && pending.value.toUser == chat && IsUserB(chat);
      if accepted {
        AppendDraft(Draft(chat, body));
      }
    }

    /** "Send answer": only B, only the receiver of the question in flight, and only with at
        least one fragment. Then every fragment is forwarded to the asker in the order received,
        the asker is marked as having received an answer for the number, the question and its
        fragments are cleared, and the roles are swapped: the former receiver becomes A. */
    method SendAnswer(chat: int) returns (r: Reply)
      requires Valid()
      modifies this
      ensures Valid()
      ensures !old(IsUserB(chat)) ==> r == Rejected(NotB)
      ensures old(IsUserB(chat)) && (old(pending).None? || old(pending).value.toUser != chat) ==>
        r == Rejected(NoPendingForYou)
      ensures old(IsUserB(chat)) && old(pending).Some? && old(pending).value.toUser == chat && old(drafts) == [] ==>
        r == Rejected(NoDrafts)
      ensures old(IsUserB(chat)) && old(pending).Some? && old(pending).value.toUser == chat && old(drafts) != [] ==>
        r.Done?
      ensures r.Rejected? ==>
        && roleA == old(roleA) && roleB == old(roleB) && pending == old(pending)
        && drafts == old(drafts) && completed == old(completed)
      ensures r.Done? ==>
        && old(IsUserB(chat)) && old(pending).Some? && old(pending).value.toUser == chat && old(drafts) != []
        && var asker := old(pending).value.fromUser;
           && |r.effects| == |old(drafts)| + 2
           && (forall i :: 0 <= i < |old(drafts)| ==> r.effects[i] == Forwarded(asker, old(drafts)[i].body))
           && r.effects[|old(drafts)|] == NowRole(chat, A)
           && r.effects[|old(drafts)| + 1] == NowRole(asker, B)
           && completed == MarkCompleted(old(completed), asker, old(pending).value.qnum)
           && pending == None && drafts == []
           && roleA == Some(chat) && roleB == Some(asker)
           && !Eligible(roleA, roleB, None, completed, asker, old(pending).value.qnum)
      ensures participants == old(participants)
    {
      if !IsUserB(chat) {
        return Rejected(NotB);
      }
      if pending.None? || pending.value.toUser != chat {
        return Rejected(NoPendingForYou);
      }
      var items := drafts;
      if items == [] {
        return Rejected(NoDrafts);
      }
      var aChat := pending.value.fromUser;
      var qnum := pending.value.qnum;
      var effects: seq<Effect> := [];
      var i := 0;
      while i < |items|
        invariant 0 <= i <= |items|
        invariant |effects| == i
        invariant forall k :: 0 <= k < i ==> effects[k] == Forwarded(aChat, items[k].body)
      {
        effects := effects + [Forwarded(aChat, items[i].body)];
        i := i + 1;
      }
      MarkCompletedForUser(aChat, qnum);
      NoRepeatAfterAnswer(roleB, roleA, None, old(completed), aChat, qnum);
      ClearPending();
      AutoSwapRoles();
      var newA, newB := roleA.value, roleB.value;
      r := Done(effects + [NowRole(newA, A), NowRole(newB, B)]);
    }
  }

  /** Appending a number larger than every element keeps a list strictly ascending. */
  lemma StrictlyAscendingAppend(s: seq<int>, x: int)
    requires StrictlyAscending(s) && forall q :: q in s ==> q < x
    ensures StrictlyAscending(s + [x])
  {
    var r := s + [x];
    forall i, j | 0 <= i < j < |r| ensures r[i] < r[j] {
      if j == |s| {
        assert r[i] == s[i] && s[i] in s;
      }
    }
  }
}
