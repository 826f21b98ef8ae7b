# Quiz game: a Dafny model

The program reads question/answer pairs from a CSV file. It asks the questions
on the console, one after another, against a single timer for the whole
session. It counts the answers that are exactly right and prints
"You scored X out of Y.", either when the questions run out or as soon as the
timer fires.

The model covers the program's two pieces of logic, both in `quiz/main.go`:

- `text.dfy` (module `Text`) models Go's `strings.TrimSpace`, which `parseLines`
  uses on the answer field. As in Go, it is trimming by a character class
  (`strings.TrimFunc`) with the class of `unicode.IsSpace`: find where the
  leading white space ends and where the trailing white space starts, then
  slice between them. The lemmas are proved for any class. They characterise
  the trimmed string uniquely: it is the slice between the leading and the
  trailing white space. It neither starts nor ends with white space, and
  trimming it again changes nothing.
- `quiz.dfy` (module `Quiz`) holds the rest:
  - the `problem` record;
  - `parseLines`, as a method that fills a freshly allocated array by index;
  - the scoring loop of `main`, as a method over the problems and a sequence
    of events;
  - `main` from the parsed CSV records on, as `Play`.

The goroutine/timer race of each iteration is replaced by an `Event`: either
the text the player typed (`Answer`) or the session timer firing (`Timeout`).
Past the end of the given events the timer is taken to fire, because a timer
always fires eventually. The loop is proved against a reference definition of
the session (`Answered`, `Correct`, `Session`). That definition proceeds one
problem at a time, like the state machine Presenting(i) → Presenting(i+1) |
TimedOut | Exhausted. Lemmas then tie it to an index-based count of exact
matches (`Matches`), to the first `Timeout`, and to the events that follow it.

A row with fewer than two fields makes `parseLines` index past the end of the
row, and Go panics. The model makes that panic an explicit outcome (`Panicked`
/ `Crashed`) instead of a precondition. `ParseLines` ends in the panic exactly
when some row is short. The panic happens at the first short row, on index 1
for a row of one field. For an empty row Go does not fix which of `line[0]`
and `line[1]` faults first; the model states only that the index is 0 or 1.
Through `main` this crash is narrower than it looks: with its default settings
Go's CSV reader rejects a file whose records differ in field count (the
"Failed to parse" exit at `quiz/main.go:27-28`) and never returns an empty
record, so a file reaches the panic only when every row has one field, and
then the panic is at row 0, index 1. `ParseLines` and `Play` are stated for
any rows. A reported "malformed input" error would be the
natural design here, but the code has no such check: it panics with an
index-out-of-range error, and the model follows the code. There is no untimed
mode either: `main` always starts the timer, so only the timed loop is
modelled.

## Model

| member | source | states |
|---|---|---|
| `Text.LeadingEnd` | quiz/main.go:69 | scanning right from a position, the run of characters of the class (white space, for TrimSpace) ends at a position up to which every character is in the class, and the character there, if any, is not |
| `Text.TrailingStart` | quiz/main.go:69 | scanning left from a position, the run of characters of the class starts at a position from which every character is in the class, and the character before it, if it is inside the scanned range, is not |
| `Text.TrimFunc` | quiz/main.go:69 | trimming by a character class returns a slice of the input with only characters of the class before and after it, and that neither starts nor ends with a character of the class |
| `Text.TrimSpace` | quiz/main.go:69 | the stored answer is a slice of the field with only white space before and after it, and it neither starts nor ends with white space |
| `Text.LeadingEndUnique` | quiz/main.go:69 | the leading run ends exactly at the first character outside the class |
| `Text.TrailingStartUnique` | quiz/main.go:69 | the trailing run starts exactly after the last character outside the class |
| `Text.TrimFuncUnique` | quiz/main.go:69 | any split of a string into characters of the class, a middle that neither starts nor ends with one, and characters of the class has the trimmed string as its middle, so trimming removes exactly the surrounding run and nothing else |
| `Text.TrimFuncOfTrimmed` | quiz/main.go:69 | a string that neither starts nor ends with a character of the class is left unchanged (for TrimSpace: a field with no surrounding white space is stored as it is) |
| `Text.TrimSpaceIdempotent` | quiz/main.go:69 | trimming a stored answer again changes nothing |
| `Quiz.ParseLines` | quiz/main.go:63-73 | succeeds exactly when every row has at least two fields; the result then has one problem per row, in row order, with question = field 0 verbatim and answer = field 1 trimmed (so it has no surrounding white space); otherwise it panics at the first short row, on index 1 for a one-field row and index 0 or 1 for an empty row; the array is freshly allocated |
| `Quiz.Answered` | quiz/main.go:36-57 | the number of problems answered before the timer fires is bounded by the number of problems and of events received |
| `Quiz.Correct` | quiz/main.go:34-57 | the score never exceeds the number of problems answered before the timer fired |
| `Quiz.Session` | quiz/main.go:51 | the reported score never exceeds the reported total, and the total is always the number of problems |
| `Quiz.AnsweredUpToFirstTimeout` | quiz/main.go:49-53 | every problem before the first Timeout receives an answer; if not all problems are answered, the next event is the Timeout; all problems are answered if and only if none of their events is a Timeout |
| `Quiz.CorrectCountsExactMatches` | quiz/main.go:53-56 | the score equals the number of indices answered before the timer whose submitted text equals the stored answer exactly |
| `Quiz.TimeoutEndsSession` | quiz/main.go:50-52 | after a Timeout no later event changes the problems answered or the report |
| `Quiz.OneAnswerCounts` | quiz/main.go:54-55 | changing the answer to one problem answered before the timer moves the score only by that problem: it gains exactly 1 when the new text equals the stored answer, and the rest of the session is unaffected |
| `Quiz.SessionExamples` | quiz/main.go:34-59 | an empty problem list reports 0 out of 0; answers "2" and "4" to 1+1 and 2+2 report 2 out of 2; a Timeout before the second answer reports 1 out of 2 even if "4" comes later; "Four" does not match "four" |
| `Quiz.ParseExample` | quiz/main.go:67-70 | the row ["2+2", " 4 "] becomes the problem with question "2+2" and answer "4" |
| `Quiz.RunQuiz` | quiz/main.go:34-59 | the scoring loop, with invariant 0 <= correct <= i <= len(problems), reports exactly the reference session: the score of the problems answered before the timer, out of the total |
| `Quiz.Play` | quiz/main.go:30-59 | the program crashes exactly when a row is short; otherwise it reports the session over the parsed problems |

## Left out

- Command-line flags (`quiz/main.go:13-15`), opening the file (`quiz/main.go:19-22`) and the `exit` helper (`quiz/main.go:82-85`): process plumbing, not logic.
- CSV tokenisation by `encoding/csv` (`quiz/main.go:25-29`): the Go library is not part of this model. Its output, the rows as sequences of fields, is the input of `ParseLines` and `Play`.
- The goroutine, the channel and the timer (`quiz/main.go:32`, `quiz/main.go:39-50`): the race, the wall-clock time limit and the abandoned read after a timeout are abstracted into the given sequence of events.
- How `fmt.Scanf("%s\n")` splits the console input into answers, and all `fmt.Printf` output: console I/O. The report is a value `Report(correct, total)`, not the printed line.
- `Text.TrimSpace`: Go strings are bytes. The model works on code points, so Go's handling of invalid UTF-8 in `strings.TrimSpace` is not modelled.
- `Quiz.ParseLines`: for an empty row the model promises only that the faulting index is 0 or 1, because Go leaves to the compiler whether `line[0]` or the call with `line[1]` is evaluated first.
