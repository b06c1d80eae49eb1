/**
 * The quiz as a whole (main.go:44-92): load the tables, run the question loop
 * over the permuted indices, then score every question.
 */
module Quiz {
  import opened GoStrings
  import opened Problems
  import opened Session
  import opened Scoring

  /** The responses a session ends with. */
  function FinalResponses(records: seq<Record>, pool: seq<int>, events: seq<Event>): (m: map<int, string>)
    requires |pool| == |records| <= |events|
  {
    var k := FirstStop(events, |records|);
    Recorded(pool, events, k)
  }

  /** The number of correct answers a session reports. */
  function FinalScore(records: seq<Record>, pool: seq<int>, events: seq<Event>): nat
    requires WellFormed(records)
    requires |pool| == |records| <= |events|
  {
    CountCorrect(Column(records, 1), FinalResponses(records, pool, events), |records|)
  }

  /** `main` from the parsed records on: the tables, the question loop and the
      scoring; returns the score with the total it is printed against. */
  method RunQuiz(records: seq<Record>, randPool: seq<int>, events: seq<Event>)
    returns (correct: nat, total: nat, stop: Stop)
    requires WellFormed(records)
    requires IsPermutation(randPool, |records|)
    requires |records| <= |events|
    ensures total == |records|
    ensures stop == StopOf(events, total)
    ensures correct == FinalScore(records, randPool, events)
    ensures correct <= total
  {
    total := |records|;
    var questions, answers := LoadTables(records);
    var responses;
    responses, stop := AskQuestions(questions, randPool, events);
    correct := Score(questions, answers, responses);
  }

  /** The score is between 0 and the number of questions; when no expected answer
      is blank it is at most the number of questions answered before the loop stopped. */
  lemma FinalScoreBounds(records: seq<Record>, pool: seq<int>, events: seq<Event>)
    requires WellFormed(records)
    requires IsPermutation(pool, |records|) && |records| <= |events|
    ensures FinalScore(records, pool, events) <= |records|
    ensures (forall i :: 0 <= i < |records| ==> !AllSpace(records[i][1])) ==>
      FinalScore(records, pool, events) <= FirstStop(events, |records|)
  {
    var n := |records|;
    var answers := Column(records, 1);
    var responses := FinalResponses(records, pool, events);
    CountIsCardinality(answers, responses, n);
    if forall i :: 0 <= i < n ==> !AllSpace(records[i][1]) {
      assert forall i :: 0 <= i < n ==> Lookup(answers, i) == records[i][1];
      ScoreCountsMatchingResponses(answers, responses, n);
      RecordedSize(pool, events, FirstStop(events, n));
    }
  }

  /** When the timer fires or the input ends before the first answer, nothing is
      recorded and only questions whose expected answer is blank count as correct. */
  lemma StoppedBeforeFirstAnswer(records: seq<Record>, pool: seq<int>, events: seq<Event>)
    requires WellFormed(records)
    requires IsPermutation(pool, |records|) && 0 < |records| <= |events|
    requires !events[0].Answer?
    ensures FinalResponses(records, pool, events) == map[]
    ensures StopOf(events, |records|) == (if events[0] == TimeUp then TimedOut else InputClosed)
    ensures CorrectSet(Column(records, 1), FinalResponses(records, pool, events), |records|) ==
      set i | 0 <= i < |records| && AllSpace(records[i][1])
    ensures FinalScore(records, pool, events) == |set i | 0 <= i < |records| && AllSpace(records[i][1])|
    ensures (forall i :: 0 <= i < |records| ==> !AllSpace(records[i][1])) ==> FinalScore(records, pool, events) == 0
  {
    var n := |records|;
    var answers := Column(records, 1);
    StopAtFirstEvent(pool, events, n);
    var blank := set i | 0 <= i < n && AllSpace(records[i][1]);
    forall i | 0 <= i < n
      ensures i in CorrectSet(answers, map[], n) <==> i in blank
    {
      UnansweredCorrectIffBlank(answers, map[], i);
    }
    assert CorrectSet(answers, map[], n) == blank;
    CountIsCardinality(answers, map[], n);
    if forall i :: 0 <= i < n ==> !AllSpace(records[i][1]) {
      assert blank == {};
    }
  }

  const SampleRecords: seq<Record> := [["2+2", "4"], ["capital of France", "Paris"], ["1+1", "2"]]

  const SampleEvents: seq<Event> := [Answer("4"), Answer("paris"), Answer("3")]

  /** All three sample answers arrive in time and are recorded against their questions. */
  lemma SampleResponses()
    ensures FirstStop(SampleEvents, 3) == 3
    ensures FinalResponses(SampleRecords, [0, 1, 2], SampleEvents) == map[0 := "4", 1 := "paris", 2 := "3"]
  {
    assert FirstStop(SampleEvents, 3) == 3;
    var m := FinalResponses(SampleRecords, [0, 1, 2], SampleEvents);
    assert m.Keys == {0, 1, 2} by {
      assert Asked([0, 1, 2], 3) == {0, 1, 2} by {
        assert [0, 1, 2][0] == 0 && [0, 1, 2][1] == 1 && [0, 1, 2][2] == 2;
      }
    }
    RecordedAt([0, 1, 2], SampleEvents, 3, 0);
    RecordedAt([0, 1, 2], SampleEvents, 3, 1);
    RecordedAt([0, 1, 2], SampleEvents, 3, 2);
  }

  /** The answer table loaded from the sample records. */
  lemma SampleAnswers()
    ensures Lookup(Column(SampleRecords, 1), 0) == "4"
    ensures Lookup(Column(SampleRecords, 1), 1) == "Paris"
    ensures Lookup(Column(SampleRecords, 1), 2) == "2"
  {
  }

  /** Three questions answered "4", "paris" and "3" in time: two correct out of three. */
  lemma SampleAllAnswered()
    ensures StopOf(SampleEvents, 3) == Exhausted
    ensures FinalScore(SampleRecords, [0, 1, 2], SampleEvents) == 2
  {
    SampleResponses();
    SampleAnswers();
    var responses := map[0 := "4", 1 := "paris", 2 := "3"];
    var answers := Column(SampleRecords, 1);
    assert Lookup(responses, 0) == "4" && Lookup(responses, 1) == "paris" && Lookup(responses, 2) == "3";
    CheckAnswerReflexiveSymmetric("4", "4");
    CheckAnswerCaseExample();
    CheckAnswerDigitMismatchExample();
    var p := i => Counted(answers, responses, i);
    assert p(0) && p(1) && !p(2);
    assert CountWhere(p, 3) == 2;
  }

  /** The same questions with the timer firing before the first answer: nothing is correct. */
  lemma SampleTimedOut(pool: seq<int>, events: seq<Event>)
    requires IsPermutation(pool, 3) && 3 <= |events| && events[0] == TimeUp
    ensures StopOf(events, 3) == TimedOut
    ensures FinalScore(SampleRecords, pool, events) == 0
  {
    assert forall i :: 0 <= i < 3 ==> !AllSpace(SampleRecords[i][1]) by {
      assert !IsSpace(SampleRecords[0][1][0]);
      assert !IsSpace(SampleRecords[1][1][0]);
      assert !IsSpace(SampleRecords[2][1][0]);
    }
    StoppedBeforeFirstAnswer(SampleRecords, pool, events);
  }
}
