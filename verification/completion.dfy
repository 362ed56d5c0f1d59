/** The completion ledger: for every user, the question numbers for which that user has
    received an answer, kept as a sorted list. Partial and full closure, and the numbers
    still eligible for a user, are computed from it. */
module Completion {

  import opened Base
  import opened Questions

  /** User id to the list of question numbers that user has received an answer for. */
  type Ledger = map<int, seq<int>>

  predicate Ascending(s: seq<int>)
  {
    forall i, j :: 0 <= i < j < |s| ==> s[i] <= s[j]
  }

  predicate StrictlyAscending(s: seq<int>)
  {
    forall i, j :: 0 <= i < j < |s| ==> s[i] < s[j]
  }

  /** `x` followed by an ascending list of elements no smaller than `x` is ascending. */
  lemma AscendingCons(x: int, t: seq<int>)
    requires Ascending(t) && forall y :: y in t ==> x <= y
    ensures Ascending([x] + t)
  {
    var r := [x] + t;
    forall i, j | 0 <= i < j < |r| ensures r[i] <= r[j] {
      assert r[j] == t[j - 1] && t[j - 1] in t;
      if i > 0 { assert r[i] == t[i - 1]; }
    }
  }

  /** `x` followed by a strictly ascending list of elements larger than `x` is strictly ascending. */
  lemma StrictlyAscendingCons(x: int, t: seq<int>)
    requires StrictlyAscending(t) && forall y :: y in t ==> x < y
    ensures StrictlyAscending([x] + t)
  {
    var r := [x] + t;
    forall i, j | 0 <= i < j < |r| ensures r[i] < r[j] {
      assert r[j] == t[j - 1] && t[j - 1] in t;
      if i > 0 { assert r[i] == t[i - 1]; }
    }
  }

  /** Two lists with the same multiset hold the same elements. */
  lemma SameMultisetSameMembers(a: seq<int>, b: seq<int>)
    requires multiset(a) == multiset(b)
    ensures forall y :: y in a <==> y in b
  {
    forall y ensures y in a <==> y in b {
      assert y in a <==> y in multiset(a);
      assert y in b <==> y in multiset(b);
    }
  }

  /** Inserts `q` into `s` in front of the first larger element. */
  function Insert(s: seq<int>, q: int): seq<int>
  {
    if s == [] then [q]
    else if q < s[0] then [q] + s
    else [s[0]] + Insert(s[1..], q)
  }

  /** Insertion adds exactly one occurrence of `q` and nothing else. */
  lemma {:induction false} InsertMultiset(s: seq<int>, q: int)
    ensures multiset(Insert(s, q)) == multiset(s) + multiset{q}
    ensures forall y :: y in Insert(s, q) <==> y in s || y == q
  {
    if s != [] && q >= s[0] {
      InsertMultiset(s[1..], q);
      assert s == [s[0]] + s[1..];
    }
    SameMultisetSameMembers(Insert(s, q), s + [q]);
  }

  /** Insertion keeps an ascending list ascending. */
  lemma {:induction false} InsertAscending(s: seq<int>, q: int)
    requires Ascending(s)
    ensures Ascending(Insert(s, q))
  {
    if s == [] {
    } else if q < s[0] {
      AscendingCons(q, s);
    } else {
      var t := s[1..];
      InsertAscending(t, q);
      InsertMultiset(t, q);
      forall y | y in t ensures s[0] <= y {
        var k :| 0 <= k < |t| && t[k] == y;
        assert s[k + 1] == y;
      }
      AscendingCons(s[0], Insert(t, q));
    }
  }

  /** Insertion of a new element keeps a strictly ascending list strictly ascending. */
  lemma {:induction false} InsertStrictlyAscending(s: seq<int>, q: int)
    requires StrictlyAscending(s) && q !in s
    ensures StrictlyAscending(Insert(s, q))
  {
    if s == [] {
    } else if q < s[0] {
      forall y | y in s ensures q < y {
        var k :| 0 <= k < |s| && s[k] == y;
        assert k == 0 || s[0] < s[k];
      }
      StrictlyAscendingCons(q, s);
    } else {
      var t := s[1..];
      assert forall y :: y in t ==> y in s;
      InsertStrictlyAscending(t, q);
      InsertMultiset(t, q);
      forall y | y in t ensures s[0] < y {
        var k :| 0 <= k < |t| && t[k] == y;
        assert s[k + 1] == y;
      }
      assert s[0] != q;
      StrictlyAscendingCons(s[0], Insert(t, q));
    }
  }

  /** Python's `sorted` on a list of ints, written as an insertion sort. */
  function Sort(s: seq<int>): seq<int>
  {
    if s == [] then [] else Insert(Sort(s[..|s| - 1]), s[|s| - 1])
  }

  /** `Sort` returns an ascending permutation of its input. */
  lemma {:induction false} SortSpec(s: seq<int>)
    ensures multiset(Sort(s)) == multiset(s)
    ensures Ascending(Sort(s))
  {
    if s != [] {
      var init := s[..|s| - 1];
      SortSpec(init);
      InsertMultiset(Sort(init), s[|s| - 1]);
      InsertAscending(Sort(init), s[|s| - 1]);
      assert s == init + [s[|s| - 1]];
    }
  }

  /** Inserting an element no smaller than the rest of an ascending list appends it. */
  lemma {:induction false} InsertAtEnd(s: seq<int>, q: int)
    requires Ascending(s)
    requires forall x :: x in s ==> x <= q
    ensures Insert(s, q) == s + [q]
  {
    if s != [] {
      assert s[0] in s;
      assert forall x :: x in s[1..] ==> x in s;
      InsertAtEnd(s[1..], q);
      if s[0] == q {
        assert Insert(s, q) == [s[0]] + Insert(s[1..], q);
      }
      assert s == [s[0]] + s[1..];
    }
  }

  /** Sorting a list that is already ascending returns it unchanged. */
  lemma {:induction false} SortAscendingIsIdentity(s: seq<int>)
    requires Ascending(s)
    ensures Sort(s) == s
  {
    if s != [] {
      var init := s[..|s| - 1];
      assert Ascending(init);
      SortAscendingIsIdentity(init);
      forall x | x in init ensures x <= s[|s| - 1] {
        var k :| 0 <= k < |init| && init[k] == x;
      }
      InsertAtEnd(init, s[|s| - 1]);
      assert s == init + [s[|s| - 1]];
    }
  }

  /** The numbers `user` has received an answer for (its list read as a set; no entry means none). */
  function CompletedFor(l: Ledger, user: int): set<int>
  {
    if user in l then set q | q in l[user] else {}
  }

  /** `user`'s list, or the empty list when the user has no entry. */
  function ListOf(l: Ledger, user: int): seq<int>
  {
    if user in l then l[user] else []
  }

  /** Records that `user` received an answer for `qnum`: if the number is not yet in the user's
      list it is appended and the list re-sorted; otherwise the ledger is left as it is. */
  function MarkCompleted(l: Ledger, user: int, qnum: int): Ledger
  {
    var lst := ListOf(l, user);
    if qnum in lst then l else l[user := Sort(lst + [qnum])]
  }

  /** A well-formed ledger: every list is strictly ascending (sorted, without duplicates)
      and holds only valid question numbers. */
  ghost predicate WellFormed(l: Ledger)
  {
    forall u :: u in l ==> StrictlyAscending(l[u]) && forall q :: q in l[u] ==> 1 <= q <= TotalQuestions
  }

  /** Marking adds exactly `qnum` to the user's set, leaves the user's list ascending and a
      permutation of the old list with `qnum` appended, and touches no other user's list. */
  lemma MarkCompletedSpec(l: Ledger, user: int, qnum: int)
    ensures var r := MarkCompleted(l, user, qnum);
      && CompletedFor(r, user) == CompletedFor(l, user) + {qnum}
      && (qnum !in CompletedFor(l, user) ==>
            user in r && Ascending(r[user]) && multiset(r[user]) == multiset(ListOf(l, user) + [qnum]))
      && (forall v :: v != user ==> (v in r <==> v in l))
      && (forall v :: v != user && v in l ==> r[v] == l[v])
  {
    var lst := ListOf(l, user);
    var r := MarkCompleted(l, user, qnum);
    if qnum !in lst {
      var s := Sort(lst + [qnum]);
      SortSpec(lst + [qnum]);
      SameMultisetSameMembers(s, lst + [qnum]);
      assert r[user] == s;
    }
    forall y ensures y in CompletedFor(r, user) <==> y in CompletedFor(l, user) + {qnum} {
    }
  }

  /** Marking the same number twice is the same as marking it once. */
  lemma MarkCompletedIdempotent(l: Ledger, user: int, qnum: int)
    ensures MarkCompleted(MarkCompleted(l, user, qnum), user, qnum) == MarkCompleted(l, user, qnum)
  {
    MarkCompletedSpec(l, user, qnum);
  }

  /** Marking a valid question number keeps the ledger well-formed; on a well-formed ledger the
      user's new list is exactly the old list with `qnum` inserted in order. */
  lemma MarkCompletedKeepsWellFormed(l: Ledger, user: int, qnum: int)
    requires WellFormed(l) && 1 <= qnum <= TotalQuestions
    ensures WellFormed(MarkCompleted(l, user, qnum))
    ensures qnum !in CompletedFor(l, user) ==>
      MarkCompleted(l, user, qnum)[user] == Insert(ListOf(l, user), qnum)
  {
    var lst := ListOf(l, user);
    var r := MarkCompleted(l, user, qnum);
    if qnum !in lst {
      assert StrictlyAscending(lst) && Ascending(lst);
      SortAscendingIsIdentity(lst);
      assert (lst + [qnum])[..|lst + [qnum]| - 1] == lst;
      assert r[user] == Insert(lst, qnum);
      InsertStrictlyAscending(lst, qnum);
      InsertMultiset(lst, qnum);
      forall u | u in r
        ensures StrictlyAscending(r[u]) && forall q :: q in r[u] ==> 1 <= q <= TotalQuestions
      {
        if u != user {
          assert r[u] == l[u];
        }
      }
    }
  }

  /** Whether `qnum` is fully closed: both role slots are set and both current occupants have
      received an answer for it. */
  function FullyClosed(a: Option<int>, b: Option<int>, l: Ledger, qnum: int): bool
  {
    if !Truthy(a) || !Truthy(b) then false
    else qnum in CompletedFor(l, a.value) && qnum in CompletedFor(l, b.value)
  }

  /** Closure is judged against the pair of current occupants, whichever slot each holds:
      exchanging A and B does not change it. */
  lemma FullyClosedSwapInvariant(a: Option<int>, b: Option<int>, l: Ledger, qnum: int)
    ensures FullyClosed(a, b, l, qnum) == FullyClosed(b, a, l, qnum)
  {
  }

  /** Closure monotonicity: once a number is fully closed for the current occupants, recording
      further answers never opens it again. */
  lemma FullyClosedMonotone(a: Option<int>, b: Option<int>, l: Ledger, user: int, q: int, qnum: int)
    requires FullyClosed(a, b, l, qnum)
    ensures FullyClosed(a, b, MarkCompleted(l, user, q), qnum)
  {
    MarkCompletedSpec(l, user, q);
  }

  /** After a reset (an empty ledger) nothing is closed, partially or fully. */
  lemma ResetOpensEverything(a: Option<int>, b: Option<int>, user: int, qnum: int)
    ensures qnum !in CompletedFor(map[], user)
    ensures !FullyClosed(a, b, map[], qnum)
  {
  }

  /** Numbers outside 1..127 are never closed for anyone in a well-formed ledger, so a check of
      closure made before the range check can never hide an out-of-range rejection. */
  lemma OutOfRangeNeverClosed(a: Option<int>, b: Option<int>, l: Ledger, user: int, qnum: int)
    requires WellFormed(l)
    requires qnum < 1 || qnum > TotalQuestions
    ensures qnum !in CompletedFor(l, user)
    ensures !FullyClosed(a, b, l, qnum)
  {
  }

  /** Whether `qnum` may still be picked for `user`: a valid number, not yet answered for the
      user, not the number of the question in flight (if any), and not fully closed. */
  predicate Eligible(a: Option<int>, b: Option<int>, pendingQnum: Option<int>, l: Ledger, user: int, qnum: int)
  {
    && 1 <= qnum <= TotalQuestions
    && qnum !in CompletedFor(l, user)
    && pendingQnum != Some(qnum)
    && !FullyClosed(a, b, l, qnum)
  }

  /** No repeats: once `user` has received an answer for `qnum`, that number is never eligible
      for the user again, whoever holds the roles and whatever is in flight. */
  lemma NoRepeatAfterAnswer(a: Option<int>, b: Option<int>, pendingQnum: Option<int>, l: Ledger, user: int, qnum: int)
    ensures !Eligible(a, b, pendingQnum, MarkCompleted(l, user, qnum), user, qnum)
  {
    MarkCompletedSpec(l, user, qnum);
  }

  /** Eligibility only shrinks as answers are recorded: a number eligible after marking was
      eligible before. */
  lemma EligibleShrinks(a: Option<int>, b: Option<int>, pendingQnum: Option<int>, l: Ledger, user: int, other: int, q: int, qnum: int)
    requires Eligible(a, b, pendingQnum, MarkCompleted(l, other, q), user, qnum)
    ensures Eligible(a, b, pendingQnum, l, user, qnum)
  {
    MarkCompletedSpec(l, other, q);
    if FullyClosed(a, b, l, qnum) {
      FullyClosedMonotone(a, b, l, other, q, qnum);
    }
  }
}
