# Conversation memory of the CroceRossa RAG backend, in Dafny

This project models `ConversationMemory` (app/rag/memory.py), the per-conversation
state of the retrieval-augmented question-answering backend. A memory holds two
parts that are created, appended and cleared together:

- the **window**: a `collections.deque` with `maxlen = window_size` holding the most
  recent `(question, answer)` tuples; appending to a full deque drops its oldest entry;
- the **transcript**: a list of `{"user": question, "assistant": answer}` records,
  unbounded and append-only until `reset`.

The model is functional. A memory is an immutable `ConversationMemory` value and every
operation is a pure function from the old state to the new one. The files are:

- `wrappers.dfy` — `Option` (Python's `Optional`) and `Result` (a value or a raised error).
- `deque.dfy` — module `Deque`. A bounded deque as used here: `Empty` (the constructor
  with `maxlen`), `Append`, `Clear`. It also defines `TakeLast`, the reference meaning
  of "the most recent k items".
- `memory.dfy` — module `Memory`. The class itself: `New` (`__init__`), `AddExchange`,
  `GetHistory`, `GetTranscript`, `Reset` and `IsFollowUpQuestion`. It also holds the
  class invariant `Inv`: the window equals the last `min(|transcript|, window_size)`
  transcript entries, in order.
- `replay.dfy` — module `Replay`. Arbitrary sequences of `add_exchange` / `reset`
  calls, and lemmas about what they leave behind. It also holds the window-of-two
  example and the follow-up and reset properties.

Modelling decisions:

- `window_size or settings.MEMORY_WINDOW_SIZE` is Python truthiness: `None` and `0`
  fall back to the configured default, and every other integer is used as given. The
  configured default is the parameter `configured` of `New`. A negative effective size
  makes `deque(maxlen=…)` raise `ValueError`. The model returns
  `Failure(NegativeWindowSize(n))` in that case.
- A configured default of `0` is accepted by the code. It gives a deque that discards
  every append, so `is_follow_up_question` stays false after `add_exchange`.
  `Replay.FollowUpAfterCalls` therefore states "true after an exchange" exactly when
  the window size is positive.
- `get_history` returns `list(self.memory)`, a copy. `get_transcript` returns the list
  object itself. Both are modelled as returning the sequence value, so no later call
  can change what an earlier read returned.
- The reads (`GetHistory`, `GetTranscript`, `IsFollowUpQuestion`) are functions of the
  state that return no new state, so they cannot change the memory.
- `WellFormed` (the deque respects its bound and its bound is the window size) holds
  of every memory `New` builds and is kept by every operation. `AddExchange` requires
  it only because `Deque.Append` needs its own bound.

## Model

| member | source | states |
|---|---|---|
| `Memory.New` | app/rag/memory.py:19-29 | A truthy `window_size` becomes the window size and a falsy one (None or 0) falls back to the configured default. Construction fails exactly when the effective size is negative. A new memory has an empty window and an empty transcript and satisfies the invariant. |
| `Deque.Empty` | app/rag/memory.py:27 | `deque(maxlen=n)` is a valid (within-bound) deque that holds nothing and whose bound is the given `n`. |
| `Deque.Clear` | app/rag/memory.py:62 | `clear()` leaves a valid deque that holds nothing and keeps the deque's old bound. |
| `Deque.Append` | app/rag/memory.py:38 | Appending to a bounded deque keeps at most `maxlen` items: exactly the last `maxlen` items of (the old contents followed by the new item). When `maxlen > 0` the new item is last. |
| `Deque.TakeLastAppend` | app/rag/memory.py:27-39 | Keeping the last k of (the last k of s, then x) gives the same result as keeping the last k of (s, then x). This is why a bounded window can track an unbounded transcript. |
| `Memory.AddExchange` | app/rag/memory.py:31-42 | The transcript grows by exactly one record `{user: question, assistant: answer}` at the end, and all earlier records are unchanged. The window becomes the last `window_size` entries of (the old window followed by the new pair). The window size is unchanged. |
| `Memory.AddExchangeKeepsInv` | app/rag/memory.py:38-39 | If the window was the tail of the transcript before `add_exchange`, it still is afterwards. |
| `Memory.GetHistory` | app/rag/memory.py:44-50 | The history never holds more than `window_size` exchanges. On a memory satisfying the invariant it holds exactly `min(|transcript|, window_size)` exchanges: the most recent ones of the transcript, oldest first. |
| `Memory.WindowEntries` | app/rag/memory.py:27-28 | Window entry `i` is the `(user, assistant)` pair of the transcript record at position `|transcript| - |window| + i`. So the window is a suffix of the transcript, in chronological order. |
| `Memory.GetTranscript` | app/rag/memory.py:52-58 | The transcript is at least as long as the history, and its last `|history|` records, read as pairs, are the history. |
| `Memory.Reset` | app/rag/memory.py:60-64 | After a reset, the window and the transcript are both empty. The window size and the deque's bound are unchanged, and the invariant holds again. |
| `Memory.IsFollowUpQuestion` | app/rag/memory.py:66-72 | The check is true exactly when the window is non-empty. On a memory satisfying the invariant, this means something was added since the last reset and the window size is positive. |
| `Replay.Step` | app/rag/memory.py:31-64 | One `add_exchange` or `reset` call keeps the memory well formed, keeps the window size, and preserves the invariant. |
| `Replay.Run` | app/rag/memory.py:31-64 | Any sequence of calls keeps the window size and preserves the invariant. After any sequence of calls, the window is still the tail of the transcript. |
| `Replay.LastResetEnd` | app/rag/memory.py:60-63 | The result is the position just after the last reset in the call sequence, or 0 if there is none. Every later call is an `add_exchange`. |
| `Replay.Records` | app/rag/memory.py:39 | The records a call sequence produces are never more than its calls. When every call is an `add_exchange`, there is exactly one record per call, and record `i` is `{user, assistant}` of call `i`. |
| `Replay.AppendsOneRecord` | app/rag/memory.py:39 | `add_exchange` appends exactly its one record to the transcript. |
| `Replay.RunTranscript` | app/rag/memory.py:39-63 | After any sequence of calls, the transcript is the records of the `add_exchange` calls made after the last reset, in call order. If no reset occurred, these follow the starting transcript. No exchange is lost, duplicated or reordered. |
| `Replay.RunHistory` | app/rag/memory.py:38-50 | After any sequence of calls, the history is the most recent `window_size` exchanges of that expected transcript. It never exceeds `window_size`. |
| `Replay.NoResetInAdds` | app/rag/memory.py:60-63 | A call sequence made only of `add_exchange` calls contains no reset. |
| `Replay.SlidingWindow` | app/rag/memory.py:27-50 | Starting from an empty memory, `add_exchange` calls alone leave every exchange in the transcript in order. The window holds the last `window_size` of them. |
| `Replay.FifoEviction` | app/rag/memory.py:27-38 | Appending to a full window drops its oldest exchange and puts the new one last. |
| `Replay.NoEvictionBelowCapacity` | app/rag/memory.py:27-38 | Appending to a window that is not full keeps every exchange and puts the new one last. |
| `Replay.TwoIntoWindowOfTwo` | app/rag/memory.py:27-39 | With a window of two, two exchanges on an empty memory are both kept, in order, in the window and in the transcript. |
| `Replay.FifoExample` | app/rag/memory.py:27-58 | With a window of two, adding (q1,a1), (q2,a2), (q3,a3) leaves history [(q2,a2), (q3,a3)] and all three records in the transcript, in order. |
| `Replay.FifoExampleFromNew` | app/rag/memory.py:19-50 | `ConversationMemory(window_size=2)` succeeds whatever the configured default is. After the three exchanges its history is the last two. |
| `Replay.ResetIdempotent` | app/rag/memory.py:60-63 | Resetting twice gives the same state as resetting once. The window size is unchanged. |
| `Replay.FreshIsNotFollowUp` | app/rag/memory.py:26-28 | A freshly constructed memory is never in a follow-up. |
| `Replay.FollowUpAfterCalls` | app/rag/memory.py:60-72 | After `reset` there is no follow-up. After `add_exchange` there is one if and only if the window size is positive. |

## Left out

- Logging (app/rag/memory.py:29, 40-42, 64) has no effect on the state and is not modelled.
- Reading `settings.MEMORY_WINDOW_SIZE` from the application configuration is replaced by the parameter `configured` of `Memory.New`.
- Memory.New: does not model the `OverflowError` CPython raises for a `maxlen` beyond the platform's `ssize_t` range. Integers here are unbounded and such a size is accepted.
- Aliasing of the list that `get_transcript` returns (app/rag/memory.py:58) is not modelled. A caller mutating it in Python would change the memory; here every read returns a value.
- Non-integer `window_size` arguments (any truthy Python object) are outside the declared `Optional[int]` type and are not modelled.
- Session-keyed storage of memories, rebuilding a memory from client-supplied messages, and per-session locking are described for the wider service. None of them appears in app/rag/memory.py, so they are not part of this model.
- app/api/router.py (HTTP handlers and the fallback engine built without its constructor), app/rag/prompts.py (prompt text constants) and test_rag.py (a diagnostic script that calls the network-backed engine) are glue or I/O and are not part of this model.
