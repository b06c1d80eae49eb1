/**
 * The question loop of the quiz (main.go:65-83) and the answer reader
 * `askQuesion` (main.go:95-109).
 *
 * The loop walks the permutation `randPool` of the question indices. In each
 * iteration a `select` waits for whichever comes first: an answer sent by the
 * reader, the quiz timer firing, or the answer channel being closed because the
 * input ended. The race is replaced by a sequence of events, the i-th being what
 * the i-th iteration's `select` receives.
 */
module Session {
  import opened Ranges
  import opened GoStrings

  /** What one `ReadString('\n')` of the reader returns: a line ending with its
      delimiter, or end of input together with whatever text preceded it. */
  datatype LineRead = Line(text: string) | EndOfInput(partial: string)

  /** What the `select` of one iteration receives. */
  datatype Event = Answer(text: string) | TimeUp | Closed

  /** How the loop ended: every question asked, timer fired, or input closed. */
  datatype Stop = Exhausted | TimedOut | InputClosed

  /** The reader's contribution (main.go:99-108): a line is trimmed and sent as an
      answer; end of input closes the channel, dropping any partial last line. */
  function Deliver(read: LineRead): (e: Event)
    ensures e != TimeUp
    ensures e.Answer? <==> read.Line?
    ensures e.Answer? ==> Trimmed(e.text) && e.text == TrimSpace(read.text)
  {
    match read
    case Line(text) => Answer(TrimSpace(text))
    case EndOfInput(_) => Closed
  }

  /** Every answer among the events is a trimmed string, as the reader sends them. */
  predicate AnswersTrimmed(events: seq<Event>) {
    forall j :: 0 <= j < |events| && events[j].Answer? ==> Trimmed(events[j].text)
  }

  /** Events that arrive from the reader only (the timer never fires) carry trimmed answers. */
  lemma DeliveredAnswersTrimmed(lines: seq<LineRead>, events: seq<Event>)
    requires |events| == |lines|
    requires forall j :: 0 <= j < |lines| ==> events[j] == Deliver(lines[j]) || events[j] == TimeUp
    ensures AnswersTrimmed(events)
  {
  }

  /** randPool is a permutation of 0..n-1, as `rand.Perm(n)` returns. */
  predicate IsPermutation(pool: seq<int>, n: nat) {
    && |pool| == n
    && (forall j :: 0 <= j < n ==> 0 <= pool[j] < n)
    && (forall j, k :: 0 <= j < k < n ==> pool[j] != pool[k])
  }

  /** The number of iterations that receive an answer among the first n:
      the position of the first stop event, or n when there is none. */
  function FirstStop(events: seq<Event>, n: nat): (k: nat)
    requires n <= |events|
    ensures k <= n
    ensures forall j :: 0 <= j < k ==> events[j].Answer?
    ensures k < n ==> !events[k].Answer?
  {
    if n == 0 || !events[0].Answer? then 0 else 1 + FirstStop(events[1..], n - 1)
  }

  /** How the loop over n questions ends. */
  function StopOf(events: seq<Event>, n: nat): (s: Stop)
    requires n <= |events|
    ensures s == Exhausted <==> forall j :: 0 <= j < n ==> events[j].Answer?
    ensures s == TimedOut <==> exists k :: FirstStop(events, n) == k < n && events[k] == TimeUp
    ensures s == InputClosed <==> exists k :: FirstStop(events, n) == k < n && events[k] == Closed
  {
    var k := FirstStop(events, n);
    if k == n then Exhausted else if events[k] == TimeUp then TimedOut else InputClosed
  }

  /** The question indices asked in the first k iterations. */
  function Asked(pool: seq<int>, k: nat): (s: set<int>)
    requires k <= |pool|
  {
    set j | 0 <= j < k :: pool[j]
  }

  /** The `responses` map after k iterations that all received an answer:
      the j-th answer stored under `randPool[j]`, in order. */
  function Recorded(pool: seq<int>, events: seq<Event>, k: nat): (m: map<int, string>)
    requires k <= |pool| && k <= |events|
    requires forall j :: 0 <= j < k ==> events[j].Answer?
    ensures m.Keys == Asked(pool, k)
  {
    if k == 0 then map[]
    else
      var m := Recorded(pool, events, k - 1);
      assert Asked(pool, k) == Asked(pool, k - 1) + {pool[k - 1]};
      m[pool[k - 1] := events[k - 1].text]
  }

  /** With distinct indices, the entry for `randPool[j]` is the j-th answer. */
  lemma {:induction false} RecordedAt(pool: seq<int>, events: seq<Event>, k: nat, j: nat)
    requires k <= |pool| && k <= |events|
    requires forall i :: 0 <= i < k ==> events[i].Answer?
    requires forall a, b :: 0 <= a < b < k ==> pool[a] != pool[b]
    requires j < k
    ensures pool[j] in Recorded(pool, events, k)
    ensures Recorded(pool, events, k)[pool[j]] == events[j].text
  {
    if j < k - 1 {
      RecordedAt(pool, events, k - 1, j);
    }
  }

  /** With distinct indices, k iterations ask k different questions. */
  lemma {:induction false} AskedSize(pool: seq<int>, k: nat)
    requires k <= |pool|
    requires forall a, b :: 0 <= a < b < k ==> pool[a] != pool[b]
    ensures |Asked(pool, k)| == k
  {
    if k > 0 {
      AskedSize(pool, k - 1);
      var prev := Asked(pool, k - 1);
      assert pool[k - 1] !in prev;
      assert Asked(pool, k) == prev + {pool[k - 1]};
      assert |prev + {pool[k - 1]}| == |prev| + 1;
    }
  }

  /** With distinct indices no entry is written twice, so k iterations leave k entries. */
  lemma RecordedSize(pool: seq<int>, events: seq<Event>, k: nat)
    requires k <= |pool| && k <= |events|
    requires forall i :: 0 <= i < k ==> events[i].Answer?
    requires forall a, b :: 0 <= a < b < k ==> pool[a] != pool[b]
    ensures |Recorded(pool, events, k)| == k
  {
    AskedSize(pool, k);
    assert |Recorded(pool, events, k)| == |Recorded(pool, events, k).Keys|;
  }

  /** The recorded entries depend only on the events the first k iterations receive. */
  lemma {:induction false} RecordedPrefix(pool: seq<int>, e1: seq<Event>, e2: seq<Event>, k: nat)
    requires k <= |pool| && k <= |e1| && k <= |e2|
    requires e1[..k] == e2[..k]
    requires forall i :: 0 <= i < k ==> e1[i].Answer?
    ensures forall i :: 0 <= i < k ==> e2[i].Answer?
    ensures Recorded(pool, e1, k) == Recorded(pool, e2, k)
  {
    assert forall i :: 0 <= i < k ==> e1[i] == e1[..k][i] && e2[i] == e2[..k][i];
    if k > 0 {
      assert e1[..k - 1] == e2[..k - 1] by {
        assert e1[..k - 1] == e1[..k][..k - 1] && e2[..k - 1] == e2[..k][..k - 1];
      }
      RecordedPrefix(pool, e1, e2, k - 1);
    }
  }

  /** Once a stop event is taken nothing later matters: two event sequences that
      agree up to and including the stop event (or on all n events when there is
      none) end the loop the same way with the same responses. In particular, when
      every question is answered, a timer firing afterwards has no effect. */
  lemma LaterEventsIgnored(pool: seq<int>, e1: seq<Event>, e2: seq<Event>, n: nat)
    requires |pool| == n && n <= |e1| && n <= |e2|
    requires var k := FirstStop(e1, n); var m := if k < n then k + 1 else n; e1[..m] == e2[..m]
    ensures FirstStop(e2, n) == FirstStop(e1, n)
    ensures StopOf(e2, n) == StopOf(e1, n)
    ensures Recorded(pool, e2, FirstStop(e2, n)) == Recorded(pool, e1, FirstStop(e1, n))
  {
    var k := FirstStop(e1, n);
    var m := if k < n then k + 1 else n;
    assert forall i :: 0 <= i < m ==> e1[i] == e1[..m][i] && e2[i] == e2[..m][i];
    assert e1[..k] == e2[..k] by {
      assert e1[..k] == e1[..m][..k] && e2[..k] == e2[..m][..k];
    }
    RecordedPrefix(pool, e1, e2, k);
  }

  /** A first event that is not an answer ends the loop at once with no responses. */
  lemma StopAtFirstEvent(pool: seq<int>, events: seq<Event>, n: nat)
    requires |pool| == n && 0 < n <= |events|
    requires !events[0].Answer?
    ensures FirstStop(events, n) == 0
    ensures Recorded(pool, events, FirstStop(events, n)) == map[]
    ensures StopOf(events, n) == (if events[0] == TimeUp then TimedOut else InputClosed)
  {
  }

  /** When all n events are answers the loop asks every question: the responses
      have exactly the keys 0..n-1, and the entry for `randPool[j]` is the j-th answer. */
  lemma AllAnswered(pool: seq<int>, events: seq<Event>, n: nat)
    requires IsPermutation(pool, n) && n <= |events|
    requires forall j :: 0 <= j < n ==> events[j].Answer?
    ensures FirstStop(events, n) == n && StopOf(events, n) == Exhausted
    ensures Recorded(pool, events, n).Keys == Range(n)
    ensures |Recorded(pool, events, n)| == n
    ensures forall j :: 0 <= j < n ==> Recorded(pool, events, n)[pool[j]] == events[j].text
  {
    RecordedSize(pool, events, n);
    SubsetOfRange(Asked(pool, n), n);
    forall j | 0 <= j < n ensures Recorded(pool, events, n)[pool[j]] == events[j].text {
      RecordedAt(pool, events, n, j);
    }
  }

  /** Responses stored from trimmed answers are trimmed. */
  lemma RecordedTrimmed(pool: seq<int>, events: seq<Event>, k: nat)
    requires k <= |pool| && k <= |events|
    requires forall i :: 0 <= i < k ==> events[i].Answer?
    requires AnswersTrimmed(events)
    ensures forall q :: q in Recorded(pool, events, k) ==> Trimmed(Recorded(pool, events, k)[q])
  {
    if k > 0 {
      RecordedTrimmed(pool, events, k - 1);
    }
  }

  /** FirstStop is the only count with its two properties. */
  lemma FirstStopUnique(events: seq<Event>, n: nat, i: nat)
    requires n <= |events| && i <= n
    requires forall j :: 0 <= j < i ==> events[j].Answer?
    requires i < n ==> !events[i].Answer?
    ensures FirstStop(events, n) == i
  {
  }

  /** What the responses map looks like after the first k iterations, for a permutation. */
  lemma RecordedFacts(pool: seq<int>, events: seq<Event>, n: nat, k: nat)
    requires IsPermutation(pool, n) && k <= n <= |events|
    requires forall i :: 0 <= i < k ==> events[i].Answer?
    ensures Recorded(pool, events, k).Keys == Asked(pool, k) <= Range(n)
    ensures |Recorded(pool, events, k)| == k
    ensures forall j :: 0 <= j < k ==> Recorded(pool, events, k)[pool[j]] == events[j].text
    ensures AnswersTrimmed(events) ==> forall q :: q in Recorded(pool, events, k) ==> Trimmed(Recorded(pool, events, k)[q])
  {
    RecordedSize(pool, events, k);
    forall j | 0 <= j < k ensures Recorded(pool, events, k)[pool[j]] == events[j].text {
      RecordedAt(pool, events, k, j);
    }
    if AnswersTrimmed(events) {
      RecordedTrimmed(pool, events, k);
    }
  }

  /** The question loop of the goroutine. Iteration i asks question `randPool[i]`
      and takes event i: an answer is stored under `randPool[i]`; a timer expiry
      or a closed channel leaves the loop (`break label`). */
  method AskQuestions(questions: map<int, string>, randPool: seq<int>, events: seq<Event>)
    returns (responses: map<int, string>, stop: Stop)
    requires IsPermutation(randPool, |questions|)
    requires |questions| <= |events|
    ensures stop == StopOf(events, |questions|)
    ensures responses == Recorded(randPool, events, FirstStop(events, |questions|))
    ensures responses.Keys == Asked(randPool, FirstStop(events, |questions|)) <= Range(|questions|)
    ensures |responses| == FirstStop(events, |questions|)
    ensures forall j :: 0 <= j < FirstStop(events, |questions|) ==> responses[randPool[j]] == events[j].text
    ensures AnswersTrimmed(events) ==> forall q :: q in responses ==> Trimmed(responses[q])
  {
    var n := |questions|;
    responses := map[];
    stop := Exhausted;
    var i := 0;
    while i < n
      invariant i <= n
      invariant forall j :: 0 <= j < i ==> events[j].Answer?
      invariant responses == Recorded(randPool, events, i)
      invariant stop == Exhausted
    {
      var index := randPool[i];
      match events[i] {
        case TimeUp =>
          stop := TimedOut;
          break;
        case Answer(ans) =>
          responses := responses[index := ans];
        case Closed =>
          stop := InputClosed;
          break;
      }
      i := i + 1;
    }
    FirstStopUnique(events, n, i);
    RecordedFacts(randPool, events, n, i);
  }
}
