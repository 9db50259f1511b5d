/**
  The conversation memory of one session: a sliding window of the most recent
  (question, answer) pairs, held in a bounded deque, beside an unbounded,
  append-only transcript of every exchange since the last reset. Both parts are
  created together, appended together and cleared together.
 */
module Memory {
  import opened Wrappers
  import opened Deque

  /** A window entry: the `(question, answer)` tuple kept in the deque. */
  datatype Exchange = Exchange(question: string, answer: string)

  /** A transcript entry: the `{"user": question, "assistant": answer}` record. */
  datatype TranscriptRecord = TranscriptRecord(user: string, assistant: string) {
    function AsExchange(): Exchange {
      Exchange(user, assistant)
    }
  }

  /** Why construction can fail: `deque(maxlen=n)` rejects a negative `n`. */
  datatype InitError = NegativeWindowSize(size: int)

  /** The state of one memory: the effective window size, the deque holding the
      window and the transcript list. */
  datatype ConversationMemory = ConversationMemory(
    windowSize: nat,
    memory: BoundedDeque<Exchange>,
    transcript: seq<TranscriptRecord>)

  /** The transcript read as window entries, one for one and in the same order. */
  function AsExchanges(records: seq<TranscriptRecord>): (r: seq<Exchange>)
    ensures |r| == |records|
    ensures forall i :: 0 <= i < |records| ==> r[i] == records[i].AsExchange()
  {
    seq(|records|, i requires 0 <= i < |records| => records[i].AsExchange())
  }

  /** The structural part of the invariant: the deque respects its bound, and its
      bound is the window size. */
  predicate WellFormed(m: ConversationMemory) {
    m.memory.Valid() && m.memory.maxlen == m.windowSize
  }

  /** The invariant the class keeps: besides being well formed, the deque holds
      exactly the most recent `windowSize` exchanges of the transcript, in
      chronological order. */
  ghost predicate Inv(m: ConversationMemory) {
    && WellFormed(m)
    && m.memory.items == TakeLast(AsExchanges(m.transcript), m.windowSize)
  }

  /** Python truthiness of an `Optional[int]`: `None` and `0` are falsy. */
  predicate Truthy(windowSize: Option<int>) {
    windowSize.Some? && windowSize.value != 0
  }

  /** `ConversationMemory(window_size)`: the effective size is `window_size or
      configured`, where `configured` stands for the application setting for the
      default window size. A negative effective size makes the deque constructor
      raise. */
  function New(windowSize: Option<int>, configured: int): (r: Result<ConversationMemory, InitError>)
    ensures Truthy(windowSize) && windowSize.value >= 0 ==>
              r.Success? && r.value.windowSize == windowSize.value
    ensures !Truthy(windowSize) && configured >= 0 ==>
              r.Success? && r.value.windowSize == configured
    ensures r.Failure? <==> (if Truthy(windowSize) then windowSize.value else configured) < 0
    ensures r.Success? ==> Inv(r.value) && |r.value.transcript| == 0 && |r.value.memory.items| == 0
  {
    var size := if Truthy(windowSize) then windowSize.value else configured;
    if size < 0 then Failure(NegativeWindowSize(size))
    else Success(ConversationMemory(size, Empty(size), []))
  }

  /** `add_exchange(question, answer)`: the pair goes to the right end of the deque
      and a record of it to the end of the transcript. */
  function AddExchange(m: ConversationMemory, question: string, answer: string): (r: ConversationMemory)
    requires WellFormed(m)
    ensures WellFormed(r) && r.windowSize == m.windowSize
    ensures |r.transcript| == |m.transcript| + 1
    ensures r.transcript[..|m.transcript|] == m.transcript
    ensures r.transcript[|m.transcript|] == TranscriptRecord(question, answer)
    ensures r.memory.items == TakeLast(m.memory.items + [Exchange(question, answer)], m.windowSize)
  {
    ConversationMemory(m.windowSize, Append(m.memory, Exchange(question, answer)),
                       m.transcript + [TranscriptRecord(question, answer)])
  }

  /** `add_exchange` keeps the window equal to the tail of the transcript: the
      deque's eviction and the transcript's growth stay in step. */
  lemma AddExchangeKeepsInv(m: ConversationMemory, question: string, answer: string)
    requires WellFormed(m)
    ensures Inv(m) ==> Inv(AddExchange(m, question, answer))
  {
    if !Inv(m) { return; }
    var e := Exchange(question, answer);
    var r := AddExchange(m, question, answer);
    assert r.transcript == m.transcript + [TranscriptRecord(question, answer)];
    assert AsExchanges(r.transcript) == AsExchanges(m.transcript) + [e];
    TakeLastAppend(AsExchanges(m.transcript), e, m.windowSize);
  }

  /** `get_history()`: a copy of the window, oldest first. It is the most recent
      `windowSize` exchanges of the transcript. */
  function GetHistory(m: ConversationMemory): (h: seq<Exchange>)
    ensures WellFormed(m) ==> |h| <= m.windowSize
    ensures Inv(m) ==> |h| == Min(|m.transcript|, m.windowSize)
    ensures Inv(m) ==> h == TakeLast(AsExchanges(m.transcript), m.windowSize)
  {
    m.memory.items
  }

  /** The window is the tail of the transcript entry by entry: window entry `i` is
      the transcript record `|window| - i` places from the end. */
  lemma WindowEntries(m: ConversationMemory)
    requires Inv(m)
    ensures forall i :: 0 <= i < |m.memory.items| ==>
              m.memory.items[i] == m.transcript[|m.transcript| - |m.memory.items| + i].AsExchange()
  {
    forall i | 0 <= i < |m.memory.items|
      ensures m.memory.items[i] == m.transcript[|m.transcript| - |m.memory.items| + i].AsExchange()
    {
      WindowEntry(m, i);
    }
  }

  lemma WindowEntry(m: ConversationMemory, i: int)
    requires Inv(m)
    requires 0 <= i < |m.memory.items|
    ensures m.memory.items[i] == m.transcript[|m.transcript| - |m.memory.items| + i].AsExchange()
  {
    var e := AsExchanges(m.transcript);
    assert m.memory.items[i] == e[|m.transcript| - |m.memory.items| + i];
  }

  /** `get_transcript()`: every exchange since the last reset; the window is its
      tail. */
  function GetTranscript(m: ConversationMemory): (t: seq<TranscriptRecord>)
    ensures Inv(m) ==> |t| >= |GetHistory(m)| && AsExchanges(t)[|t| - |GetHistory(m)|..] == GetHistory(m)
  {
    m.transcript
  }

  /** `reset()`: the deque is cleared in place (its bound stays) and the transcript
      is replaced by an empty list. */
  function Reset(m: ConversationMemory): (r: ConversationMemory)
    ensures WellFormed(m) ==> Inv(r)
    ensures r.windowSize == m.windowSize && r.memory.maxlen == m.memory.maxlen
    ensures |r.memory.items| == 0 && |r.transcript| == 0
  {
    ConversationMemory(m.windowSize, Clear(m.memory), [])
  }

  /** `is_follow_up_question()`: whether the window holds anything. In terms of the
      transcript, that is: something was added since the last reset and the
      window can hold at least one exchange. */
  function IsFollowUpQuestion(m: ConversationMemory): (b: bool)
    ensures b <==> |GetHistory(m)| > 0
    ensures Inv(m) ==> (b <==> |m.transcript| > 0 && m.windowSize > 0)
  {
    |m.memory.items| > 0
  }
}
