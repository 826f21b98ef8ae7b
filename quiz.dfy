/** The quiz game of quiz/main.go: the rows read from the CSV file become
    problems, then the problems are asked in order against one session-wide
    timer and the correct answers are counted. */
module Quiz {
  import opened Text

  /** One question and its expected answer, built from one CSV row. */
  datatype Problem = Problem(question: string, answer: string)

  /** A CSV record as the CSV reader hands it over: its fields, in order. */
  type Row = seq<string>

  /** Go's run-time panic on `line[index]` when the row has only `length`
      fields; `row` is the position of that row in the file. */
  datatype Panic = IndexOutOfRange(row: nat, index: nat, length: nat)

  /** What parseLines ends with: the problems, or the panic that stops the
      program before any question is asked. */
  datatype Parsed = Problems(problems: array<Problem>) | Panicked(panic: Panic)

  /** Every row has a question field and an answer field. */
  predicate WellFormed(lines: seq<Row>)
  {
    forall i :: 0 <= i < |lines| ==> |lines[i]| >= 2
  }

  /** The problem a well-formed row stands for. */
  function ProblemOf(line: Row): Problem
    requires |line| >= 2
  {
    Problem(line[0], TrimSpace(line[1]))
  }

  /** The problems a well-formed file stands for, one per row, in row order. */
  function ProblemsOf(lines: seq<Row>): seq<Problem>
    requires WellFormed(lines)
  {
    seq(|lines|, i requires 0 <= i < |lines| => ProblemOf(lines[i]))
  }

  /** parseLines: allocates one problem per row and fills it in by index.
      The question is field 0 as it is, the answer is field 1 with its
      surrounding white space removed. A row with fewer than two fields
      makes Go panic on a field index it lacks; the rows before it have been
      converted by then, but the panic discards them. On a one-field row the
      index is 1. On an empty row either index may fault first, because Go
      leaves the order between `line[0]` and the call with `line[1]` to the
      compiler; the model takes index 1, as the call is evaluated first. */
  method ParseLines(lines: seq<Row>) returns (r: Parsed)
    ensures r.Problems? <==> WellFormed(lines)
    ensures r.Problems? ==> fresh(r.problems) && r.problems.Length == |lines|
    ensures r.Problems? ==> forall i :: 0 <= i < |lines| ==>
              r.problems[i].question == lines[i][0] &&
              r.problems[i].answer == TrimSpace(lines[i][1])
    ensures r.Problems? ==> forall i :: 0 <= i < |lines| ==> IsTrimmedBy(r.problems[i].answer, IsSpace)
    ensures r.Panicked? ==>
              var p := r.panic;
              p.row < |lines| && p.length == |lines[p.row]| < 2 && p.length <= p.index <= 1 &&
              forall k :: 0 <= k < p.row ==> |lines[k]| >= 2
  {
    var ret := new Problem[|lines|];
    var i := 0;
    while i < |lines|
      invariant 0 <= i <= |lines|
      invariant forall k :: 0 <= k < i ==> |lines[k]| >= 2
      invariant forall k :: 0 <= k < i ==>
                  ret[k].question == lines[k][0] && ret[k].answer == TrimSpace(lines[k][1])
    {
      var line := lines[i];
      if |line| < 2 {
        // TrimSpace(line[1]) is evaluated before the plain index line[0]
        return Panicked(IndexOutOfRange(i, 1, |line|));
      }
      var answer := TrimSpace(line[1]);
      ret[i] := Problem(line[0], answer);
      i := i + 1;
    }
    r := Problems(ret);
  }

  /** What the loop of main receives for one problem: the answer the player
      typed, or the session timer firing, whichever comes first. */
  datatype Event = Answer(text: string) | Timeout

  /** The score line "You scored correct out of total." */
  datatype Report = Report(correct: nat, total: nat)

  /** The outcome for problem `i`. Once the player stops answering the
      session timer wins the race, so past the given events it is Timeout. */
  function EventAt(events: seq<Event>, i: nat): Event
  {
    if i < |events| then events[i] else Timeout
  }

  /** Reference definition of the session, one problem at a time: the number
      of problems whose answer arrived before the timer fired. */
  function Answered(problems: seq<Problem>, events: seq<Event>): (n: nat)
    ensures n <= |problems| && n <= |events|
  {
    if problems == [] || events == [] || events[0].Timeout? then 0
    else 1 + Answered(problems[1..], events[1..])
  }

  /** Reference definition of the session: the number of problems answered,
      before the timer fired, with exactly the expected answer. */
  function Correct(problems: seq<Problem>, events: seq<Event>): (c: nat)
    ensures c <= Answered(problems, events)
  {
    if problems == [] || events == [] then 0
    else match events[0]
      case Timeout => 0
      case Answer(text) =>
        (if text == problems[0].answer then 1 else 0) + Correct(problems[1..], events[1..])
  }

  /** The report of a whole session. */
  function Session(problems: seq<Problem>, events: seq<Event>): (r: Report)
    ensures r.correct <= r.total == |problems|
  {
    Report(Correct(problems, events), |problems|)
  }

  /** Independent count, by index: how many of the first `n` problems got
      an event that is exactly their expected answer. */
  function Matches(problems: seq<Problem>, events: seq<Event>, n: nat): nat
    requires n <= |problems|
  {
    if n == 0 then 0
    else Matches(problems, events, n - 1) + Hit(problems, events, n - 1)
  }

  /** 1 when the event for problem `k` is exactly its expected answer. */
  function Hit(problems: seq<Problem>, events: seq<Event>, k: nat): nat
    requires k < |problems|
  {
    if EventAt(events, k) == Answer(problems[k].answer) then 1 else 0
  }

  /** The events of a session without its first problem are the remaining events. */
  lemma EventAtTail(events: seq<Event>, k: nat)
    requires events != []
    ensures EventAt(events[1..], k) == EventAt(events, k + 1)
  {
  }

  /** The problems answered are exactly those before the first Timeout: every
      earlier event is an answer, and unless all problems were answered the
      next event is the timer. In particular all problems are answered if and
      only if none of their events is a Timeout. */
  lemma {:induction false} AnsweredUpToFirstTimeout(problems: seq<Problem>, events: seq<Event>)
    ensures forall k :: 0 <= k < Answered(problems, events) ==> EventAt(events, k).Answer?
    ensures Answered(problems, events) < |problems| ==>
              EventAt(events, Answered(problems, events)).Timeout?
    ensures Answered(problems, events) == |problems| <==>
              forall k :: 0 <= k < |problems| ==> EventAt(events, k).Answer?
  {
    if problems != [] && events != [] && events[0].Answer? {
      var n := Answered(problems[1..], events[1..]);
      AnsweredUpToFirstTimeout(problems[1..], events[1..]);
      forall k | 0 <= k < |events| - 1 ensures EventAt(events[1..], k) == EventAt(events, k + 1) {
        EventAtTail(events, k);
      }
      forall k | 0 <= k < n + 1 ensures EventAt(events, k).Answer? {
        if k > 0 { EventAtTail(events, k - 1); }
      }
      if n < |problems| - 1 {
        EventAtTail(events, n);
      }
      if forall k :: 0 <= k < |problems| ==> EventAt(events, k).Answer? {
        forall k | 0 <= k < |problems| - 1 ensures EventAt(events[1..], k).Answer? {
          EventAtTail(events, k);
          assert EventAt(events, k + 1).Answer?;
        }
      }
    }
  }

  /** Counting by index agrees one problem later once the first problem is dropped. */
  lemma {:induction false} MatchesTail(problems: seq<Problem>, events: seq<Event>, n: nat)
    requires problems != [] && events != [] && n < |problems|
    ensures Matches(problems, events, n + 1) ==
            Hit(problems, events, 0) + Matches(problems[1..], events[1..], n)
  {
    if n > 0 {
      MatchesTail(problems, events, n - 1);
      EventAtTail(events, n - 1);
    }
  }

  /** The score is the number of problems answered before the timer whose
      answer is exactly the expected one. */
  lemma {:induction false} CorrectCountsExactMatches(problems: seq<Problem>, events: seq<Event>)
    ensures Correct(problems, events) == Matches(problems, events, Answered(problems, events))
  {
    if problems != [] && events != [] && events[0].Answer? {
      CorrectCountsExactMatches(problems[1..], events[1..]);
      MatchesTail(problems, events, Answered(problems[1..], events[1..]));
    }
  }

  /** Whatever arrives after the timer has fired changes nothing: neither the
      problems answered nor the score. */
  lemma {:induction false} TimeoutEndsSession(problems: seq<Problem>, before: seq<Event>, later: seq<Event>)
    ensures Answered(problems, before + [Timeout] + later) == Answered(problems, before)
    ensures Session(problems, before + [Timeout] + later) == Session(problems, before)
  {
    var events := before + [Timeout] + later;
    if problems != [] && before != [] {
      assert events[0] == before[0];
      assert events[1..] == before[1..] + [Timeout] + later;
      TimeoutEndsSession(problems[1..], before[1..], later);
    }
  }

  /** Replacing the answer to one problem answered before the timer changes
      the score by that problem's hit alone: +1 exactly when the new answer
      equals the expected one, and nothing for the problems around it. */
  lemma {:induction false} OneAnswerCounts(problems: seq<Problem>, events: seq<Event>, k: nat, text: string)
    requires k < Answered(problems, events)
    ensures Answered(problems, events[k := Answer(text)]) == Answered(problems, events)
    ensures Correct(problems, events[k := Answer(text)]) + Hit(problems, events, k) ==
            Correct(problems, events) + (if text == problems[k].answer then 1 else 0)
  {
    var changed := events[k := Answer(text)];
    if k == 0 {
      assert changed[1..] == events[1..];
    } else {
      assert changed[1..] == events[1..][k - 1 := Answer(text)];
      OneAnswerCounts(problems[1..], events[1..], k - 1, text);
      EventAtTail(events, k - 1);
    }
  }

  /** Worked sessions: an empty file scores 0 out of 0; two right answers
      score 2 out of 2; a timer firing before the second answer scores 1 out
      of 2 even if the right answer comes later; comparison is case-sensitive. */
  lemma SessionExamples()
    ensures Session([], []) == Report(0, 0)
    ensures Session([Problem("1+1", "2"), Problem("2+2", "4")], [Answer("2"), Answer("4")]) == Report(2, 2)
    ensures Session([Problem("1+1", "2"), Problem("2+2", "4")], [Answer("2"), Timeout, Answer("4")]) == Report(1, 2)
    ensures Session([Problem("2+2", "four")], [Answer("Four")]) == Report(0, 1)
  {
  }

  /** A worked row: the answer field " 4 " is stored as "4". */
  lemma ParseExample()
    ensures ProblemOf(["2+2", " 4 "]) == Problem("2+2", "4")
  {
    var field := " 4 ";
    assert field[1..2] == "4" && IsSpace(' ') && !IsSpace('4');
    TrimFuncUnique(field, IsSpace, 1, 2);
  }

  /** The scoring loop of main: asks the problems in order, counts the
      answers equal to the expected one, and on the timer reports at once. */
  method RunQuiz(problems: array<Problem>, events: seq<Event>) returns (report: Report)
    ensures report == Session(problems[..], events)
    ensures report.total == problems.Length
  {
    ghost var ps := problems[..];
    var correct := 0;
    var i := 0;
    while i < problems.Length
      invariant 0 <= correct <= i <= problems.Length
      invariant i <= |events|
      invariant correct + Correct(ps[i..], events[i..]) == Correct(ps, events)
    {
      var outcome := EventAt(events, i);
      if outcome.Timeout? {
        return Report(correct, problems.Length);
      }
      assert ps[i..][1..] == ps[i + 1..] && events[i..][1..] == events[i + 1..];
      if outcome.text == problems[i].answer {
        correct := correct + 1;
      }
      i := i + 1;
    }
    assert ps[i..] == [];
    report := Report(correct, problems.Length);
  }

  /** How main ends: with the score line, or with the panic of parseLines. */
  datatype Ending = Scored(report: Report) | Crashed(panic: Panic)

  /** main from the parsed CSV records on: parse, then run the quiz. */
  method Play(lines: seq<Row>, events: seq<Event>) returns (ending: Ending)
    ensures ending.Crashed? <==> !WellFormed(lines)
    ensures ending.Scored? ==> ending.report == Session(ProblemsOf(lines), events)
  {
    var parsed := ParseLines(lines);
    match parsed {
      case Panicked(p) =>
        ending := Crashed(p);
      case Problems(problems) =>
        assert problems[..] == ProblemsOf(lines);
        var report := RunQuiz(problems, events);
        ending := Scored(report);
    }
  }
}
