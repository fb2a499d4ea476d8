# WebSocket text-reversal server: the connection handler in Dafny

The server accepts TCP connections and runs `handle_connection` for each
one. The handler performs the WebSocket opening handshake, splits the
stream into a sender half and a receiver half, and then reads messages
until the stream ends. On a Text message it reverses the payload by
Unicode scalar value (`text.chars().rev().collect::<String>()`). On a
Close message it stops. On a receive error it stops too.

The service is described as sending the reversed text back. The handler as
written does not do that: the reversed string is bound to a local and
dropped, and the sender half is never written. The model follows the code,
so no message is ever sent.

Two modules:

- `Reversal` (reversal.dfy) holds the payload reversal as a pure function
  on `seq<char>`. A Dafny `char` is a Unicode scalar value, like a Rust
  `char`. The lemmas give the reversal's meaning position by position and
  show that it preserves length and the multiset of scalars. They also show
  that reversing twice is the identity. Because it works per scalar and not
  per grapheme cluster, a letter followed by a combining mark comes out as
  the mark followed by the letter.
- `Handler` (handler.dfy) holds the handler. The handshake is reduced to its
  outcome, a boolean. The receiver is reduced to the finite sequence of
  items it yields before it reports the end of the stream. Each item is an
  `Event`: `Text(payload)`, `Close` or `Err`. `Receive` and `Handle` are the
  specification as recursive functions. They produce a `Trace`: how many
  items were taken, which return path was used, the reversals computed, and
  the messages sent. `HandleConnection` is the loop itself, a `while` with
  `break`, and it is proved equal to `Handle`. The lemmas state the
  stopping behaviour and that nothing is sent.

## Model

| member | source | states |
|---|---|---|
| `Reversal.Reverse` | src/main.rs:24 | The reversed payload has as many scalar values as the input. |
| `Reversal.ReverseAt` | src/main.rs:24 | Output position `k` holds input position `len - 1 - k`, for every `k` below the length. |
| `Reversal.ReverseAppend` | src/main.rs:24 | Reversing `a + b` gives the reversal of `b` followed by the reversal of `a`. |
| `Reversal.ReverseInvolutive` | src/main.rs:24 | Reversing a reversed payload gives back the original payload, for every payload. |
| `Reversal.ReverseSameScalars` | src/main.rs:24 | The output holds the same scalar values as the input, each as often. |
| `Reversal.ReverseExamples` | src/main.rs:24 | "hello" becomes "olleh" and "" stays "". A base letter followed by a combining accent comes out as the accent followed by the letter. |
| `Handler.Receive` | src/main.rs:21-32 | The loop never takes more items than the stream holds, and it never reports a handshake failure. |
| `Handler.HandleConnection` | src/main.rs:8-33 | The loop returns exactly the item count, exit path and reversals that the specification `Handle` gives for the same handshake outcome and stream. The sender receives nothing. |
| `Handler.HandshakeFailureReceivesNothing` | src/main.rs:10-15 | After a failed handshake the handler takes no item, computes nothing and sends nothing, whatever the stream holds. |
| `Handler.StopsAtFirstStop` | src/main.rs:21-30 | If item `i` is the first that is not Text, the loop takes exactly `i + 1` items. It exits as a peer close when that item is Close and as a receive failure when it is `Err`. |
| `Handler.LaterEventsUnexamined` | src/main.rs:26-30 | Once a Close or `Err` has ended the loop, replacing everything after it by any other items leaves the run unchanged. |
| `Handler.ConsumedPrefix` | src/main.rs:21-31 | Every item taken before the last one is Text. An end-of-stream exit has taken every item. A Close or `Err` exit has that item as the last one taken. |
| `Handler.TextNeverStops` | src/main.rs:21-25 | The loop ends at the end of the stream if and only if every item is Text, and then it has taken all of them. |
| `Handler.ComputedAreReversals` | src/main.rs:23-25 | One reversal is computed per Text item taken, in arrival order, and reversal `k` is the reversal of item `k`'s payload. |
| `Handler.NeverSends` | src/main.rs:19-24 | For every handshake outcome and every stream, no message is written to the sender half. |
| `Handler.HandleExamples` | src/main.rs:21-31 | Three runs: a Close first takes one item. An `Err` after a Text takes two items and drops the later Text. A single Text takes it and ends at the end of the stream. |

## Left out

- `main` (src/main.rs:35-45) is not modelled. It binds the listening socket, runs the accept loop and spawns one task per connection, which is network I/O and concurrency.
- The WebSocket opening handshake (section 4 of RFC 6455) inside `accept_async` is reduced to its boolean outcome. The reason for a failure is not modelled.
- Frame parsing and close-frame semantics (section 5 of RFC 6455) are library code. They are reduced to the `Event` sequence. The close frame's payload and the error value are not represented, because the handler never reads them.
- The message kinds Binary, Ping, Pong and Frame are not modelled. The `match` at src/main.rs:22-31 lists only the Text, Close and error arms, so it is not exhaustive over the library's message type, and the handler gives those kinds no behaviour to model.
- `ws_stream.split()` and the async sink and stream types are not modelled. The receiver is a sequence indexed by the loop; the sender half is the `outbound` result, which stays empty.
- Replies and any send-failure policy are not modelled, because the handler never sends.
- The logging calls `error!` and `info!` are not modelled. They have no effect on control flow.
- Suspension at `.await` and cancellation are not modelled. The model is one sequential run per connection.
