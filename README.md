# Sawtooth Rust SDK transaction processor, modelled in Dafny

This project models the transaction processor of the Sawtooth Rust SDK
(`sdk/rust/src/processor/mod.rs`). A `TransactionProcessor` keeps three things:

- the validator endpoint;
- a connection to that endpoint;
- an ordered registry of transaction handlers.

`start` repeats a cycle:

1. Connect. The first cycle reuses the connection made at construction; every later cycle makes a new one.
2. Register every (handler, version) pair with the validator. A failure refuses the round, and the cycle starts over.
3. Serve received envelopes until the transport disconnects or a reply fails with the unknown error.
4. Close the sender.

A disconnect restarts the cycle. The unknown reply error ends `start`.

The transport and the wire encoding are replaced by two finite scripts:

- `RegAnswer`: one per registration exchange. It says whether the request failed to serialise, `send` failed, the acknowledgement failed, or it was acknowledged.
- `Recv`: one per `receiver.recv()`. It is the outer transport error, the inner disconnect, another inner receive error, or an envelope. An envelope carries its `Fate`: whether its content parses, what the handler's `apply` returns, whether the response serialises, and what `sender.reply` answers.

Running out of a script cuts the run off at that point. The Rust code would block there.

The processor records what it does on the transport in `trace`. The entries are:

- `Connect(endpoint, generation)`
- `RegisterReq(draw, request)`
- `Invoke(family, contextId)`, one per handler `apply`
- `Reply(type, correlationId, response)`
- `Close`

Modules:

- `Messages`: the entities. These are envelopes, registration and process requests and responses, handler outcomes, the two scripts and the trace entries.
- `Correlation`: correlation ids of sixteen ASCII letters and digits.
- `Registration`: the handshake. `RegisterSpec` is the reference definition of one registration round. The lemmas cover order, first failure and success.
- `Dispatch`: the status mapping `ResponseFor`. It also holds one pass of the serve loop (`Handle`), whose promises are stated by `HandleOutputs` and `HandleExit`, and the serve loop `ServeSpec` with its lemmas.
- `Controller`: one connect/register/serve cycle (`CycleSpec`), the whole bounded run of `start` (`RunSpec`), and the lemmas about the shape of runs.
- `Processor`: the class `TransactionProcessor`. It has fields `endpoint`, `conn`, `handlers`, `trace` and `draws` (the state of the random generator). `AddHandler` and `Exchange` state their new state directly. The loops `RegisterFamily`, `Register`, `Serve` and `Start`, and the passes `HandleReceived` and `RunCycle`, are each proved equal to a reference definition: `RegisterSpec`, `Handle`, `ServeSpec`, `CycleSpec` or `RunSpec`.

Three behaviours of the code are easy to miss, and the model keeps them:

- A process request whose response fails to serialise gets no reply (mod.rs:200-207), although the handler has been applied. So a well-formed process request is answered exactly once only when its response serialises.
- For a message of another type, a failure to serialise the fixed "not implemented..." response is an `unwrap` panic, not a reply. The model ends the run as `Panicked`.
- A refused registration goes straight to the next cycle without closing the sender. Only a cycle that left the serve loop closes it. `CycleShaped` proves this.

## Model

| member | source | states |
|---|---|---|
| Processor.TransactionProcessor.constructor | sdk/rust/src/processor/mod.rs:62-68 | The processor keeps the endpoint, connects to it once (generation 0), has no handlers, has sent nothing and has drawn no random number. |
| Processor.TransactionProcessor.AddHandler | sdk/rust/src/processor/mod.rs:75-77 | The handler goes at the end of the registry; earlier handlers and their order are unchanged. Its requests come after all earlier ones in the registration order. Connection, trace and random state do not change. |
| Registration.PairsAt | sdk/rust/src/processor/mod.rs:80-85 | In the whole registration order, request number Offset(i) + j is version j of handler i, with that handler's name and namespaces. Handlers come in registry order. |
| Registration.PairsLength | sdk/rust/src/processor/mod.rs:80-81 | The number of requests is the sum of the handlers' version counts. |
| Registration.OffsetStep | sdk/rust/src/processor/mod.rs:80-81 | The requests of handler i directly follow those of all handlers before it. |
| Registration.PairsAppend | sdk/rust/src/processor/mod.rs:75-81 | Adding a handler appends its requests after all those of the existing handlers. |
| Registration.RegisterSpecAppend | sdk/rust/src/processor/mod.rs:80-122 | Registering two groups of requests registers the first group. It goes on with the second only when every request of the first was acknowledged; otherwise the outcome is that of the first group. |
| Registration.RegisterAllAcked | sdk/rust/src/processor/mod.rs:89-122 | When every exchange is acknowledged, registration succeeds. It has sent every request exactly once, in order, each with its own random draw, and used one answer per request. With no requests it succeeds and sends nothing. |
| Registration.RegisterFirstFailure | sdk/rust/src/processor/mod.rs:89-119 | The first failed exchange k refuses the round. The requests before it were sent. `send` was called with request k unless it failed to serialise. No later pair is attempted, and only answers after k are left. |
| Registration.RegisteredOnlyIfAllAcked | sdk/rust/src/processor/mod.rs:89-122 | A round succeeds only if every one of its exchanges was acknowledged. |
| Registration.RegisteredSentAll | sdk/rust/src/processor/mod.rs:80-122 | A successful round has sent a request for every pair, in registration order, and nothing else. |
| Registration.SentInOrder | sdk/rust/src/processor/mod.rs:80-119 | Whatever the answers, a round hands a prefix of its requests to `send`, in order. The k-th request goes with random draw number `draw + k`. |
| Registration.IdOf | sdk/rust/src/processor/mod.rs:99-102 | The correlation id that `send` receives with a registration request has sixteen ASCII letters or digits. |
| Correlation.CorrelationId | sdk/rust/src/processor/mod.rs:47-50 | A generated correlation id has exactly sixteen characters, each an ASCII letter or digit. |
| Processor.TransactionProcessor.Exchange | sdk/rust/src/processor/mod.rs:89-119 | A request that fails to serialise sends nothing and draws no id. Otherwise `send` is called with the request and the next random draw, whether or not it then fails. The exchange succeeds exactly when it was acknowledged. |
| Processor.TransactionProcessor.RegisterFamily | sdk/rust/src/processor/mod.rs:81-120 | The inner loop of `register` does what the reference round does over that handler's version requests: same outcome, same calls of `send`, same answers left, same random state. |
| Processor.TransactionProcessor.Register | sdk/rust/src/processor/mod.rs:79-123 | `register` does what the reference round does over all (handler, version) pairs of the registry: same outcome, same trace, same answers left, same random state. |
| Dispatch.ResponseFor | sdk/rust/src/processor/mod.rs:179-198 | `Ok` gives status OK with no message. `InvalidTransaction(m)` gives INVALID_TRANSACTION with message m unchanged. Any other error gives INTERNAL_ERROR with its description. Each status arises exactly from its outcome, and the outcome can be read back from the response. |
| Dispatch.HandleOutputs | sdk/rust/src/processor/mod.rs:146-257 | One receive result gives at most one reply, a TP_PROCESS_RESPONSE with the envelope's own correlation id. There is exactly one reply when an envelope's response serialises and, for a process request, its content parses. The reply reports the handler's outcome, or "not implemented..." for other types. Before it, the first handler is applied once, with the parsed request's context id, exactly for a process request that parses. Nothing else is output. |
| Dispatch.HandleExit | sdk/rust/src/processor/mod.rs:146-257 | The loop is left on a receive disconnect, a reply disconnect, the unknown reply error, or a failure to serialise the fixed response (the `unwrap` panic). Timeouts, other receive errors and transport errors continue. Each exit arises exactly from its cause. |
| Processor.TransactionProcessor.HandleReceived | sdk/rust/src/processor/mod.rs:146-257 | One pass of the serve loop appends exactly the outputs of the reference pass and returns its exit. |
| Processor.TransactionProcessor.Serve | sdk/rust/src/processor/mod.rs:145-258 | The serve loop does what the reference loop does: same exit, same outputs in order, same receive results left. |
| Dispatch.ServeRestIsSuffix | sdk/rust/src/processor/mod.rs:145-147 | The serve loop consumes receive results from the front of the script. |
| Dispatch.ServeStopsAt | sdk/rust/src/processor/mod.rs:145-258 | The serve loop handles every result up to the first one that leaves it. It leaves as that one says and never receives the results after it. |
| Dispatch.ServeRunsOut | sdk/rust/src/processor/mod.rs:145-258 | Without a result that leaves it, the serve loop handles the whole script. |
| Dispatch.ServeExitCause | sdk/rust/src/processor/mod.rs:145-258 | A serve loop that breaks out was left by the last result it received, and every earlier result let serving continue. |
| Dispatch.ServeStallCause | sdk/rust/src/processor/mod.rs:145-258 | The serve loop runs to the end of its script only when every result let serving continue. |
| Controller.CycleSpec | sdk/rust/src/processor/mod.rs:131-259 | A cycle consumes receive results from the front of the script. A cycle that restarts consumes at least one answer or receive result. |
| Controller.CycleShaped | sdk/rust/src/processor/mod.rs:131-259 | Every cycle connects to the endpoint with its generation. It serves only after a complete, successful registration of every pair, and a refused registration serves nothing. Its serve loop handles exactly the receive results the cycle consumed, with the first handler: its outputs are theirs, every result but the last let serving continue, and the last one left the loop as the cycle's exit says. It closes the sender exactly when the serve loop broke out on a disconnect or the fatal reply error. |
| Dispatch.ServeHandlesReceived | sdk/rust/src/processor/mod.rs:145-258 | The serve loop's outputs are those of handling the results it received from the front of the script. At the end of the script all of them let serving continue; otherwise all but the last did, and the last one left the loop with the loop's exit. |
| Controller.RunShape | sdk/rust/src/processor/mod.rs:129-143 | Cycle i of `start` connects to the same, unchanged endpoint with generation one higher than cycle i - 1. Only the first cycle reuses the construction-time connection. Each cycle has the shape above. |
| Controller.RunEnds | sdk/rust/src/processor/mod.rs:128-261 | Every cycle but the last restarts, after a refused registration or a disconnect. The last one decides the end: `start` terminates only when the last serve loop broke out on the unknown reply error. |
| Controller.RunReceives | sdk/rust/src/processor/mod.rs:145-258 | Each receive result is consumed by exactly one cycle, in script order. Nothing after the end is received. |
| Controller.RunTerminates | sdk/rust/src/processor/mod.rs:128-261 | `start` terminates exactly when the last receive result of the whole run was an envelope that was answered and whose reply failed with the unknown error. |
| Processor.TransactionProcessor.RunCycle | sdk/rust/src/processor/mod.rs:132-259 | One cycle appends exactly the outputs of the reference cycle and leaves the scripts and the random state as it does. It reports whether `start` connects again and otherwise how the run ends. |
| Processor.TransactionProcessor.Start | sdk/rust/src/processor/mod.rs:128-261 | `start` does what the reference run does: same cycles in the trace, same end, same scripts left, same random state. The connection is that of the last cycle, to the same endpoint. |

## Left out

- ZMQ transport, `MessageConnection`/`MessageSender` and the future returned by `send`: replaced by the answer and receive scripts, because they are I/O in a library outside this file. `Connection` keeps only the endpoint and a generation number.
- `RegisterReq` trace entries record calls of `send`, not deliveries: a request whose `send` returned an error is recorded all the same, because what reaches the validator is transport behaviour outside this model.
- Protobuf encoding and decoding: each serialisation or parse is an outcome in the script, and bytes are not modelled.
- The handler's `apply` and `TransactionContext`: the handler module is not part of this model. Each process request's script entry gives the outcome of `apply`.
- Correlation.CorrelationId: the thread random generator is replaced by a counter of draws and a fixed base-62 encoding of the draw number. Only the length and the alphabet are promised, not randomness or uniqueness. The trace records the draw number of each registration request, and `IdOf` gives its id.
- Logging (`info!`, `error!`, `println!`): no behavioural effect.
- Lifetimes and borrowing of `&'a TransactionHandler`: handlers are values.
- Processor.TransactionProcessor.Start: `start` never returns in the Rust code unless a reply fails with the unknown error. The model bounds it by the finite scripts: running out of answers or receive results ends the run as `Stalled`, where the Rust code would block.
- Processor.TransactionProcessor.Start: requires at least one handler, as do `Serve`, `HandleReceived` and `RunCycle`. With none, the Rust code registers nothing and panics at `handlers[0]` on the first process request that parses. That panic is not modelled.
- The `unwrap` on the fixed "not implemented..." response (line 232) is modelled as the run ending `Panicked`, not as unwinding.
- Only the first handler receives process requests, as in the Rust code, which does no routing by family.
