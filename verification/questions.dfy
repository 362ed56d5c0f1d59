/** The question bank: its fixed size, the pad/truncate rule applied when it is loaded,
    and the pagination used by the question list and its navigation buttons. */
module Questions {

  import opened Base

  /** Number of questions in the bank (bot.py:24). */
  const TotalQuestions: int := 127
  /** Number of questions listed on one page (bot.py:25). */
  const QuestionsPerPage: int := 20

  /** Decimal rendering of a natural number, as an f-string renders an int. */
  function NatToString(n: nat): (s: string)
    ensures |s| >= 1
    decreases n
  {
    if n < 10 then ["0123456789"[n]] else NatToString(n / 10) + ["0123456789"[n % 10]]
  }

  /** The text that stands in for question number `n` when the file gives none. */
  function Placeholder(n: nat): string
  {
    "Вопрос №" + NatToString(n)
  }

  /** The bank built from the non-blank lines read from the questions file:
      padded with placeholders up to the bank size, or cut down to it. */
  function LoadQuestionLines(lines: seq<string>): (bank: seq<string>)
    ensures |bank| == TotalQuestions
    ensures forall i :: 0 <= i < TotalQuestions ==>
      bank[i] == if i < |lines| then lines[i] else Placeholder(i + 1)
  {
    if |lines| < TotalQuestions then
      lines + seq(TotalQuestions - |lines|, k requires 0 <= k => Placeholder(|lines| + k + 1))
    else
      lines[..TotalQuestions]
  }

  /** The bank used when there is no questions file at all. */
  function DefaultQuestions(): seq<string>
  {
    seq(TotalQuestions, i requires 0 <= i => Placeholder(i + 1))
  }

  /** Loading the bank: `None` when the file is missing, otherwise its non-blank lines. */
  function LoadQuestions(file: Option<seq<string>>): (bank: seq<string>)
    ensures |bank| == TotalQuestions
  {
    match file
    case None => DefaultQuestions()
    case Some(lines) => LoadQuestionLines(lines)
  }

  /** A file that is missing and a file without a single non-blank line give the same bank. */
  lemma MissingFileIsEmptyFile()
    ensures LoadQuestions(None) == LoadQuestions(Some([]))
  {
  }

  /** Padding keeps every line of the file, in order, as a prefix of the bank;
      cutting keeps the first `TotalQuestions` lines. */
  lemma LoadKeepsLines(lines: seq<string>)
    ensures |lines| <= TotalQuestions ==> LoadQuestionLines(lines)[..|lines|] == lines
    ensures |lines| >= TotalQuestions ==> LoadQuestionLines(lines) == lines[..TotalQuestions]
  {
  }

  /** The question numbers shown on `page`: Python's `range(start, end)` with
      `start = page * 20` and `end = min(start + 20, 127)`, each index i shown as i + 1. */
  function PageNumbers(page: int): (nums: seq<int>)
    ensures forall k :: 0 <= k < |nums| ==> nums[k] == page * QuestionsPerPage + k + 1
    ensures page >= 0 ==> |nums| == if page * QuestionsPerPage + QuestionsPerPage <= TotalQuestions
      then QuestionsPerPage else if page * QuestionsPerPage < TotalQuestions
      then TotalQuestions - page * QuestionsPerPage else 0
  {
    var start := page * QuestionsPerPage;
    var end := if start + QuestionsPerPage < TotalQuestions then start + QuestionsPerPage else TotalQuestions;
    if end <= start then [] else seq(end - start, k requires 0 <= k => start + k + 1)
  }

  /** A page lists exactly the numbers p*20+1 .. min(p*20+20, 127); so every listed number is a valid question number. */
  lemma PageMembers(page: nat)
    ensures forall n :: n in PageNumbers(page) <==>
      page * QuestionsPerPage < n <= page * QuestionsPerPage + QuestionsPerPage && 1 <= n <= TotalQuestions
  {
    var nums := PageNumbers(page);
    forall n | page * QuestionsPerPage < n <= page * QuestionsPerPage + QuestionsPerPage && 1 <= n <= TotalQuestions
      ensures n in nums
    {
      assert nums[n - page * QuestionsPerPage - 1] == n;
    }
  }

  /** The lines of one page: each shown number paired with its question text. */
  function PageEntries(bank: seq<string>, page: nat): (entries: seq<(int, string)>)
    requires |bank| == TotalQuestions
    ensures |entries| == |PageNumbers(page)|
    ensures forall k :: 0 <= k < |entries| ==>
      1 <= entries[k].0 <= TotalQuestions && entries[k] == (PageNumbers(page)[k], bank[entries[k].0 - 1])
  {
    var nums := PageNumbers(page);
    seq(|nums|, k requires 0 <= k < |nums| => (nums[k], bank[nums[k] - 1]))
  }

  /** The "previous page" button is shown. */
  predicate HasPrevButton(page: int)
  {
    page > 0
  }

  /** The "next page" button is shown. */
  predicate HasNextButton(page: int)
  {
    (page + 1) * QuestionsPerPage < TotalQuestions
  }

  /** The next button appears exactly when the next page lists at least one question,
      and the previous button only on a page after the first, leading (up to the last page) to a non-empty page. */
  lemma NavButtonsMatchPages(page: nat)
    ensures HasNextButton(page) <==> PageNumbers(page + 1) != []
    ensures HasPrevButton(page) <==> page >= 1
    ensures HasPrevButton(page) && page <= 6 ==> PageNumbers(page - 1) != []
  {
  }

  /** The pages 0 .. n - 1 shown one after the other. */
  function PagesUpTo(n: nat): seq<int>
  {
    if n == 0 then [] else PagesUpTo(n - 1) + PageNumbers(n - 1)
  }

  /** Paging through the first n pages lists 1, 2, ... up to min(20 n, 127), each once and in order. */
  lemma {:induction false} PagesUpToCount(n: nat)
    ensures var m := if n * QuestionsPerPage < TotalQuestions then n * QuestionsPerPage else TotalQuestions;
      PagesUpTo(n) == seq(m, i requires 0 <= i => i + 1)
  {
    if n > 0 {
      PagesUpToCount(n - 1);
    }
  }

  /** Following the next button from page 0 reaches page 6, the last page with a question,
      and the seven pages together list every question number exactly once, in order. */
  lemma PagesCoverBank()
    ensures HasNextButton(5) && !HasNextButton(6)
    ensures PagesUpTo(7) == seq(TotalQuestions, i requires 0 <= i => i + 1)
  {
  }
}
