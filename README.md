# go_quizgame in Dafny

This project models the timed command-line quiz in `main.go`. The quiz reads a
table of problems, one `question,answer` pair per CSV record. It asks the
questions in the order of a random permutation until the questions run out,
the quiz timer fires, or standard input ends. Then it reports how many expected
answers match the responses, ignoring case and surrounding white space.

Modules, one per part of the program:

- `Ranges`: the index sets `0..n-1` and their sizes. This is a helper for the
  other modules.
- `GoStrings`: the two library functions the quiz relies on.
  - `strings.TrimSpace` over Go's `unicode.IsSpace` set. It is computed by
    scanning inward from both ends, as Go does.
  - `strings.EqualFold`, restricted to ASCII case folding.
- `Problems`: the loop that fills the `questions` and `answers` maps from the
  parsed records (main.go:44-52).
- `Session`: the question goroutine (main.go:65-83) and what the answer reader
  `askQuesion` contributes to it (main.go:95-109).
  - The concurrent race between the reader, the timer and the end of input is
    replaced by a sequence of events. The i-th event is what the i-th
    iteration's `select` receives.
  - `rand.Perm` becomes a parameter that is required to be a permutation.
- `Scoring`: `checkAnswer` (main.go:111-113) and the scoring loop
  (main.go:86-91).
- `Quiz`: `main` from the parsed records to the final count. It also holds
  lemmas about whole sessions, including the three-question sample.

A missing response reads as `""` (main.go:88). So an unanswered question whose
expected answer is blank counts as correct (`Scoring.UnansweredCorrectIffBlank`).
The score is reported out of `len(records)`, answered or not (main.go:92). The
lemmas about answered questions assume that no expected answer is blank.

## Model

| member | source | states |
|---|---|---|
| Problems.Column | main.go:44-52 | The table built from column c has exactly the keys 0..len(records)-1, one entry per record, and entry i is field c of record i |
| Problems.LoadTables | main.go:44-52 | After the loop over the records, `questions` holds field 0 and `answers` holds field 1 of record i under key i, for every record and no other key; Go's panic on a short record is excluded by requiring two fields |
| Session.Deliver | main.go:99-108 | A line that was read becomes an answer: its text with surrounding white space trimmed, which is therefore a trimmed string. End of input closes the channel instead, so a partial last line is never sent. The reader never produces a timer event |
| Session.DeliveredAnswersTrimmed | main.go:107-108 | Every answer that reaches the loop from the reader is a trimmed string |
| Session.FirstStop | main.go:67-80 | The number of iterations that store an answer: every event before it is an answer, and the event at it (if it is below n) is a timer expiry or a closed channel |
| Session.StopOf | main.go:70-79 | The loop ends by exhausting the questions exactly when the first n events are all answers. It ends by timeout, or by closed input, exactly when the first non-answer event is the timer, or is the close |
| Session.Recorded | main.go:74-76 | The responses after k answered iterations have exactly the keys randPool[0..k-1] |
| Session.RecordedAt | main.go:68-76 | After k answered iterations the response for randPool[j] is the j-th answer, because a permutation never revisits a key |
| Session.AskedSize | main.go:60-68 | k iterations over a permutation ask k distinct questions |
| Session.RecordedSize | main.go:67-76 | k answered iterations store exactly k responses |
| Session.RecordedPrefix | main.go:67-79 | The responses depend only on the events of the iterations that ran |
| Session.LaterEventsIgnored | main.go:70-79 | Events after the loop stops change neither how it stops nor the responses. A timer firing after the last answer has no effect |
| Session.StopAtFirstEvent | main.go:70-79 | A timer expiry or a closed channel in the first iteration ends the loop at once, with no responses, and with the matching reason |
| Session.AllAnswered | main.go:67-81 | When every question gets an answer in time, `responses` has exactly the keys 0..n-1, and the entry for randPool[j] is the j-th answer |
| Session.RecordedTrimmed | main.go:74-76 | Responses stored from trimmed answers are trimmed |
| Session.FirstStopUnique | main.go:67-80 | The stopping iteration is the only one with all answers before it and a non-answer at it |
| Session.RecordedFacts | main.go:67-81 | The keys, size, entries and trimming of the responses after k answered iterations, for a permutation |
| Session.AskQuestions | main.go:65-83 | The loop returns the stop reason StopOf and the responses Recorded up to FirstStop. The responses have FirstStop entries, all under question indices, and the j-th answer sits under randPool[j] |
| GoStrings.IsSpace | main.go:107 | `unicode.IsSpace`, used by `strings.TrimSpace`: membership in the 25 characters with Unicode's White_Space property, which include the ASCII blanks, U+0085 and U+00A0 |
| GoStrings.IsSpaceLatin1 | main.go:107 | Among the Latin-1 characters, `unicode.IsSpace` holds exactly for tab, line feed, vertical tab, form feed, carriage return, space, U+0085 and U+00A0 |
| GoStrings.SkipSpace | main.go:107 | The scan from the left passes white space only, and stops at the end or at the first character that is not white space |
| GoStrings.SkipSpaceBack | main.go:107 | The scan from the right passes white space only, and stops at the lower bound or right after a character that is not white space |
| GoStrings.TrimSpace | main.go:107 | The result neither starts nor ends with white space, and everything cut off on either side is white space |
| GoStrings.TrimSpaceUnique | main.go:107 | Any slice with only white space around it, that neither starts nor ends with white space, is the result of TrimSpace |
| GoStrings.TrimSpaceOfTrimmed | main.go:107 | A string with no white space at either end is returned unchanged |
| GoStrings.TrimSpaceIdempotent | main.go:112 | Trimming twice is trimming once, so re-trimming a response in `checkAnswer` changes nothing |
| GoStrings.TrimSpaceEmptyIff | main.go:107 | The result is empty exactly when the string is all white space |
| GoStrings.TrimSpaceSurrounding | main.go:107 | White space added before and after a string does not change the result |
| GoStrings.EqualFold | main.go:112 | `strings.EqualFold` under ASCII folding: equal strings are case-equal, and case-equal strings have the same length. Two strings without upper-case letters are case-equal exactly when they are equal |
| GoStrings.EqualFoldEquivalence | main.go:112 | Equality up to case is reflexive, symmetric and transitive |
| Scoring.CheckAnswer | main.go:111-113 | `checkAnswer`: the two strings match when, once trimmed, they are equal up to case. So equal trimmed strings match, and matching trimmed strings have the same length |
| Scoring.Lookup | main.go:88 | Reading `answers[i]` or `responses[i]`: the stored value when the key is present, and Go's zero value "" when it is missing |
| Scoring.CheckAnswerReflexiveSymmetric | main.go:111-113 | Every answer matches itself, and the argument order of `checkAnswer` does not matter |
| Scoring.CheckAnswerTransitive | main.go:111-113 | Matching is transitive, so it is an equivalence |
| Scoring.CheckAnswerIgnoresSurroundingSpace | main.go:111-113 | White space around either argument does not change the verdict |
| Scoring.CheckAnswerOfTrimmed | main.go:111-113 | Trimming an argument beforehand, as the reader does, does not change the verdict |
| Scoring.CheckAnswerBlank | main.go:111-113 | An answer matches the empty string, which is what a missing response reads as, exactly when it is blank |
| Scoring.CheckAnswerSpaceExample | main.go:111-113 | " x " and "x" get the same verdict against "x" |
| Scoring.CheckAnswerCaseExample | main.go:111-113 | "Paris" matches "paris" |
| Scoring.CheckAnswerLineExample | main.go:111-113 | A line read with its newline, "paris\n", matches "Paris" |
| Scoring.CheckAnswerWordMismatchExample | main.go:111-113 | "Foo" does not match "Bar" |
| Scoring.CheckAnswerDigitMismatchExample | main.go:111-113 | "2" does not match "3" |
| Scoring.CountWhere | main.go:86-91 | A count of the indices below n never exceeds n |
| Scoring.CountWhereIsCardinality | main.go:86-91 | The count equals the size of the set of indices below n that satisfy the test |
| Scoring.CountIsCardinality | main.go:86-91 | The score is the number of questions whose expected answer matches the response, and is at most the number of questions |
| Scoring.UnansweredCorrectIffBlank | main.go:86-91 | A question with no response counts as correct exactly when its expected answer is blank |
| Scoring.ScoreCountsMatchingResponses | main.go:86-91 | When no expected answer is blank, the correct questions are exactly the answered ones whose response matches, so the score is at most the number of responses |
| Scoring.NoResponsesScoreZero | main.go:86-91 | With no responses and no blank expected answer the score is 0 |
| Scoring.Score | main.go:86-91 | The loop's count equals the number of questions whose expected answer matches the response (the size of CorrectSet), and is at most the number of questions |
| Ranges.Range | main.go:44-52 | The index set 0..n-1 holds exactly the integers from 0 to n-1 |
| Ranges.RangeSize | main.go:44-52 | The index set 0..n-1 has n elements |
| Ranges.SubsetOfRange | main.go:60-68 | An index set inside 0..n-1 has at most n elements, and has n exactly when it is all of 0..n-1 |
| Quiz.RunQuiz | main.go:44-92 | `main` reports the score FinalScore out of len(records), which is never more than len(records). The loop stops for the reason StopOf |
| Quiz.FinalScoreBounds | main.go:86-92 | The score is at most the number of questions. With no blank expected answer it is at most the number of questions answered before the loop stopped |
| Quiz.StoppedBeforeFirstAnswer | main.go:65-91 | A timeout or closed input before the first answer leaves no responses. The questions counted correct are then exactly those whose expected answer is blank, and the score is their number, so it is 0 when no expected answer is blank |
| Quiz.SampleResponses | main.go:65-83 | Three answers in time with the identity permutation are stored under keys 0, 1 and 2 |
| Quiz.SampleAnswers | main.go:49-52 | The sample file's answer table holds "4", "Paris" and "2" |
| Quiz.SampleAllAnswered | main.go:44-92 | For the file ("2+2","4"), ("capital of France","Paris"), ("1+1","2") answered "4", "paris", "3", the loop runs out of questions and two of the three answers are correct |
| Quiz.SampleTimedOut | main.go:44-92 | For the same file, with the timer firing before the first answer, the quiz times out and scores 0 under any permutation |

## Left out

- Command-line flags (main.go:24-29): the file name, the seeding switch and the
  timer length are configuration. The timer length only decides where a `TimeUp`
  event falls among the events, which is a parameter of the model.
- Opening the file and CSV parsing (main.go:32-42): the model starts from the
  parsed records. A failed open or parse aborts through `log.Fatalln` before
  anything the model covers.
- Problems.LoadTables: treats a record with fewer than two fields as a
  precondition violation. In Go it panics with an index out of range.
- Printing: the start prompt, the question and "Please Enter the Answer" prompts,
  "Times Up." and the final report (main.go:55, 72, 92, 97-98). These are output
  only. The "Press [Enter]" gate (main.go:56) scans standard output and has no
  effect on the state.
- Randomness (main.go:57-60): `rand.Seed` and `rand.Perm` are replaced by a
  parameter that is required to be a permutation of the question indices.
- Concurrency (main.go:62-84, 69, 101, 108): the goroutines, the WaitGroup,
  `time.After` and the channel are replaced by the sequence of events received
  at each `select`. Not modelled: scheduling, and a reader that is still
  blocked after the loop has stopped. Such a reader is either waiting on
  standard input, or holding a late line on the unbuffered send at main.go:108.
  Late answers are discarded.
- Session.Deliver: a read error other than end of input ends the program through
  `log.Fatalln` (main.go:105). This path is not modelled.
- `bufio.NewReader` per question (main.go:96): input buffered by an earlier
  reader and lost to a later one is not modelled. Each event is one whole read.
- GoStrings.EqualFold: folds ASCII letters only. Go's `strings.EqualFold` also
  applies Unicode simple case folding, for example to Greek and Cyrillic letters
  and to the Kelvin sign.
- Strings are sequences of code points. Go strings are UTF-8 byte sequences,
  and `strings.TrimSpace` and `strings.EqualFold` decode them into runes. On
  valid UTF-8 the code-point view used here is exact. Invalid UTF-8 is not
  modelled.
- Go's `int` width is not modelled: every count is at most the number of
  records.
