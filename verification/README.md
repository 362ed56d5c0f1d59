# LWUT-bot turn-taking state machine, in Dafny

LWUT-bot is a Telegram bot for two people who take turns. One person holds role A and asks a
numbered question from a fixed bank of 127. The other holds role B and answers it with any
number of fragments: text, voice, audio or video notes. When B presses "send answer", every
fragment goes to A in order. A is recorded as having received an answer for that number, and
the two swap roles.

This project models the bot's in-memory state and the transitions its handlers apply to it.

The state:

- the two role slots, A and B;
- the single question in flight, if any: its receiver, its asker and its number;
- the ordered list of answer fragments collected for that question;
- the completion ledger, mapping each user to the sorted list of numbers they have received
  an answer for;
- the list of known participants.

The state is the class `TurnEngine.BotState`. Its fields are updated in place, as the handlers
update the state dictionary. Each operation is a method whose contract gives the new state in
terms of the old one. `BotState.Valid()` holds the invariants that every method keeps:

- A and B are distinct;
- B is never set while A is empty;
- while a question is in flight, its asker is A, its receiver is B and its number lies in
  1..127;
- every collected fragment comes from that receiver;
- there are no fragments while nothing is in flight;
- every ledger list is strictly ascending and holds only numbers in 1..127;
- no participant is listed twice.

The pure parts of the bot are functions with lemmas:

- module `Completion`: the ledger's sorted insert (Python's `sorted`), partial and full
  closure, and eligibility for a random pick;
- module `Questions`: the bank's pad/truncate rule and the list paging.

Module `Scenario` is a client of the state machine. It plays two complete rounds and checks
them against the operations' contracts.

Modelling choices:

- Role slots are `Option<int>`. Where the source tests a slot for truth (`roles_assigned`,
  `maybe_assign_B`, `is_fully_closed`, `send_question`), the model uses `Truthy`. A slot is
  truthy when it holds a chat id other than 0, as in Python. Where the source tests
  `is None` (`auto_assign_role_on_start`), the model tests `None?`.
- The ledger is keyed by the integer user id. The source keys it by `str(user_id)`, which
  maps distinct ids to distinct keys.
- `SendQuestion` requires that the asker is A. Every call site checks `is_user_A` before
  calling it: the calls at bot.py:298 and 409 are guarded at bot.py:288 and 395. Without that check, a question's asker could differ
  from A, which would break the invariant above.
- Every button and message handler first runs `maybe_assign_B`. The model keeps that as its
  own transition, `MaybeAssignB`. The other operation methods model the branch that follows
  it. Both keep `Valid()`, so they compose.
- `random.choice` becomes an arbitrary element of the eligible list (a `:|` choice).
  `AskRandom` holds for every pick.

## Model

| member | source | states |
|---|---|---|
| `Questions.LoadQuestionLines` | bot.py:50-55 | the bank has exactly 127 entries; entry i is line i of the file when the file has it, otherwise the placeholder for question i+1 |
| `Questions.LoadQuestions` | bot.py:48-56 | loading always yields 127 questions, with or without a questions file |
| `Questions.MissingFileIsEmptyFile` | bot.py:52-56 | the missing-file default equals padding a file with no lines |
| `Questions.LoadKeepsLines` | bot.py:51-54 | padding keeps the file's lines as a prefix, in order; truncation keeps the first 127 lines |
| `Questions.PageNumbers` | bot.py:97-100 | page p lists consecutive numbers starting at p*20+1; for p >= 0 there are 20 of them, or fewer on the last page, or none past the end |
| `Questions.PageMembers` | bot.py:97-100 | a page lists exactly the numbers p*20+1 .. min(p*20+20, 127) |
| `Questions.PageEntries` | bot.py:97-101 | each line of a page pairs a valid number n with the text of question n |
| `Questions.NavButtonsMatchPages` | bot.py:86-95 | "next" is shown iff the next page is non-empty; "prev" is shown iff p > 0, and then leads to a non-empty page while p <= 6 |
| `Questions.PagesUpToCount` | bot.py:86-100 | the first n pages together list 1 .. min(20n, 127) in order, each once |
| `Questions.PagesCoverBank` | bot.py:86-100 | following "next" from page 0 ends at page 6, and pages 0..6 list every question exactly once |
| `Completion.SortSpec` | bot.py:115 | the re-sort returns an ascending permutation of the list |
| `Completion.SortAscendingIsIdentity` | bot.py:115 | re-sorting a list that is already sorted leaves it unchanged |
| `Completion.MarkCompletedSpec` | bot.py:110-116 | marking adds exactly qnum to the user's set; a new number gives an ascending permutation of the old list plus qnum; no other user's list changes |
| `Completion.MarkCompletedIdempotent` | bot.py:113 | marking the same number twice equals marking it once |
| `Completion.MarkCompletedKeepsWellFormed` | bot.py:110-116 | marking a number in 1..127 keeps every list strictly ascending and in range; the new list is the old one with qnum inserted in order |
| `Completion.FullyClosedSwapInvariant` | bot.py:121-125 | full closure uses only the two current occupants' sets, so exchanging A and B does not change it |
| `Completion.FullyClosedMonotone` | bot.py:121-125 | once fully closed for the current occupants, a number stays closed as further answers are recorded |
| `Completion.ResetOpensEverything` | bot.py:231-234 | after the ledger is emptied, no number is closed, partially or fully |
| `Completion.OutOfRangeNeverClosed` | bot.py:405-408 | with a well-formed ledger, a number outside 1..127 is never closed for anyone; so checking closure before the range check cannot hide an out-of-range rejection |
| `Completion.NoRepeatAfterAnswer` | bot.py:127-139 | once a user has received an answer for qnum, qnum is never eligible for that user again, whatever the roles and pending question |
| `Completion.EligibleShrinks` | bot.py:127-139 | recording an answer never makes a number eligible that was not eligible before |
| `TurnEngine.BotState.constructor` | bot.py:34-40 | the initial state: no roles, nothing pending, no drafts, an empty ledger, no participants; it satisfies `Valid()` |
| `TurnEngine.BotState.AutoAssignRoleOnStart` | bot.py:143-151 | the caller is added to participants unless already listed. With A empty, the caller becomes A. With A set, B empty and the caller not A, the caller becomes B. Otherwise the result is no role and the roles are unchanged. Nothing else changes |
| `TurnEngine.BotState.MaybeAssignB` | bot.py:153-155 | B becomes the caller only when A is set (truthy), B is empty and the caller is not A; B is never overwritten; nothing else changes |
| `TurnEngine.BotState.AutoSwapRoles` | bot.py:157-159 | A and B are exchanged, they stay distinct, and nothing outside the roles changes |
| `Scenario.SwapTwiceRestores` | bot.py:157-159 | swapping twice restores the original assignment |
| `TurnEngine.BotState.MarkCompletedForUser` | bot.py:110-116 | the ledger becomes `MarkCompleted` of the old ledger and stays well-formed; nothing else changes |
| `TurnEngine.BotState.ResetHistory` | bot.py:231-234 | the ledger becomes empty; roles, pending question, drafts and participants are unchanged |
| `TurnEngine.BotState.ClearPending` | bot.py:141 | nothing is in flight and the drafts are empty; roles, ledger and participants are unchanged |
| `TurnEngine.BotState.RemainingNumbersForUser` | bot.py:127-139 | the result is strictly ascending, lies in 1..127, and contains exactly the numbers not completed for the user, not pending and not fully closed |
| `TurnEngine.BotState.SendQuestion` | bot.py:346-364 | rejects in this order: B unset, a question already in flight, number out of range, already closed for the asker, fully closed; a rejection changes nothing; success puts {to: B, from: asker, qnum} in flight with empty drafts and notifies asker and B |
| `TurnEngine.BotState.AskSpecific` | bot.py:393-409 | for a typed number: not A, roles not assigned and a question in flight come first; then the outcome is exactly that of range, closed-for-you, fully-closed in this order, although the handler checks closure before range |
| `TurnEngine.BotState.AskRandom` | bot.py:287-298 | after the same role and state checks, the request is rejected as "none available" iff no number is eligible for the caller; when some number is eligible it always succeeds (no other rejection is possible) and opens a question whose number is eligible, never one the caller already received |
| `TurnEngine.BotState.AppendDraft` | bot.py:381-385 | the fragment is appended at the end of the drafts; nothing else changes |
| `TurnEngine.BotState.SubmitFragment` | bot.py:411-413 | a fragment is accepted iff a question is in flight, the sender is its receiver and the sender is B; an accepted fragment is appended at the end, otherwise nothing changes |
| `TurnEngine.BotState.SendAnswer` | bot.py:300-344 | rejects, without any change, a caller who is not B, a caller who is not the pending receiver, and an empty draft list. Otherwise it forwards every draft to the asker in submission order, marks the asker completed for qnum, clears the question and drafts, and swaps roles, so the former receiver becomes A. The number is then not eligible for the asker |
| `Scenario.ClaimRoles` | bot.py:143-151 | the first caller becomes A, the second B, and a third gets no role |
| `Scenario.FirstRound` | bot.py:300-344 | a full exchange: wrong asker, out-of-range and double requests are refused; an empty release is refused; fragments from a non-receiver are ignored; the release delivers both fragments in order and swaps the roles |
| `Scenario.SecondRound` | bot.py:121-125 | a number closed only for the first asker can be asked by the new A; after it is answered it is fully closed and refused, and a reset opens it again |

## Left out

- Telegram I/O is not modelled. This covers message wording, keyboards, `edit_message_text`,
  the greeting sent before forwarded answers, and handler registration (bot.py:455-478).
  Outgoing messages appear only as the ordered `Effect` list of `SendQuestion` and
  `SendAnswer`, and every delivery is taken to succeed. Only the forwards at bot.py:323-333
  and the role notices at bot.py:340-343 are wrapped in `try`; a failure there is logged
  and changes nothing. The other sends are not caught; see the last item.
- Persistence is not modelled: `load_state`, `save_state` and reading `questions.txt`
  (bot.py:28-56). The state lives in memory. The bank is built from lines already read,
  stripped and filtered for blank ones. A missing file is `None`.
- Concurrency is not modelled. Each handler is a single atomic step, and the source has no
  lock.
- Text parsing is not modelled: `int()` on the typed number (bot.py:401-404), `strip`, and
  `lower` for the "remind" keywords (bot.py:415). The number arrives as an `int`.
- The `await_qnum` flag, which sends a typed message to the number path instead of the
  answer path (bot.py:280, 393-394), is not modelled.
- The "ask a specific question" button (bot.py:273-285) is not modelled as its own step. It
  runs the same three checks as `AskSpecific` and then only sets that flag.
- The read-only views are not modelled: `resend_current_question`, `stats_cmd` and the
  `whois` button (bot.py:162-181, 205-217, 250-254). They change no state.
- The rendered page text (header and "n. text" lines) is not modelled; `PageEntries` gives
  its content as number–text pairs.
- `PageEntries` takes a non-negative page. The buttons only produce non-negative page
  numbers. A hand-made negative callback would hit Python's negative indexing or an
  `IndexError`, and that is not modelled.
- Uncaught delivery failures are not modelled, because the model treats I/O as infallible
  effects. `SendAnswer` returns `Done` with the ledger marked and the roles swapped even
  though, in the source, a failing greeting at bot.py:319 aborts the release before
  anything is forwarded, marked, cleared or swapped, and a failing `edit_message_text` at
  bot.py:335 skips the ledger update, the clearing and the swap after the forwards. `SendQuestion`
  (and so `AskSpecific` and `AskRandom`) returns both messages, while in the source a failing
  confirmation at bot.py:367 leaves the question in flight (it was already stored at
  bot.py:362-364) and the question is never sent to B at bot.py:378.
