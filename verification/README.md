# Verified models of a Gomoku self-play system and its TensorFlow runtime

This project models the parts of the repository that are hardest to get right, in Dafny, and proves what they
promise for all inputs, all runs and all interleavings.

| file | what it models |
|---|---|
| `Gomoku.dfy`, `Board.dfy` | the bitset board with apply, revert, the win check around the last move and the move sampler, against positions of the game on boards of any size |
| `Referee.dfy` | the referee loop, which keeps its own board and the boards of two actors in step |
| `ReplayDecoder.dfy` | the decoder that counts rows, then replays every recorded game and fills one row per position |
| `Draw.dfy` | a drawn game on the board of 19 by 19 fields |
| `Metrics.dfy`, `Tournament.dfy` | mergeable means over metric trees, the ladder's statistics and the supervisor's asynchronous calls |
| `TensorLayout.dfy` | dimension reordering between tensor layouts and the strides of a batch descriptor |
| `Occupancy.dfy` | GPU occupancy and the stepping search for a register limit |
| `Bytes.dfy`, `StringTensor.dfy`, `GoTensor.dfy` | varints and machine words, the TF_STRING format, and tensors made from nested Go values |
| `KernelArgs.dfy` | the split list of kernel arguments and the iterator that merges it |
| `GoSession.dfy`, `GraphLifetime.dfy`, `SessionSync.dfy`, `ExecutorCache.dfy` | locking, lifetime, synchronisation and caching protocols as atomic steps of any number of threads |

State that the source updates in place is a class here, and loops are loops; what they compute is stated
through functions on values. Protocols are state machines: a theorem about a run speaks of every finite
interleaving.

Where the code does not do what it documents, the code is followed and the difference is stated exactly:

- A drawn game is scored 0.0 (`gomoku/ladder/worker_impl.cc:52-59`), which the replay decoder turns into 1.0 for
  the second player, although its documentation promises 1.0 only to a player who won
  (`gomoku/networks/replay_ops_kernel.cc:41-42`). `ScoreMeansWin` says which rows are right, and
  `DrawScoredAsWin` gives a full game on the board of 19 by 19 that is never won. The ladder counts draws as wins
  of the second actor: `StatsCountVictories` says that an actor's wins are its victories exactly if it was second
  in no draw.
- The register search steps over counts that would qualify when the warp size does not divide the allocation
  granularity. `StepsAligned` is the exact condition under which it finds the maximum.
- `TF_NewSession` is documented to keep the graph from being deleted (`tensorflow/c/c_api.h:1018-1019`), but counts
  the session only after it has created it. `SafeToAskExactly`: in every reachable state, asking for deletion is
  safe exactly if no client is in the middle of opening a session; otherwise, however many sessions there are,
  some continuation touches the freed graph.
- The range check of `TF_TensorToTensor` compares signed numbers: `RangeCheckExactly` says that it refuses the
  out-of-range words below 2^63 and no others, and `NegativeOffsetDecodes` gives a tensor that passes. The length
  found at an offset is not checked at all. `LeavesBufferExactly` says when decoding reads outside the tensor, and
  `StrayRead` gives a tensor for which it does.
- The executor cache is documented to be thread-safe (`tensorflow/stream_executor/executor_cache.h:31`), but
  `DestroyAllExecutors` destroys entries that calls may have found and not locked yet. `SafeToDestroyExactly`: in
  every reachable state it is safe to begin exactly if there is no such call (`DestroyedTooEarly` gives a run).
- `NewTensor` of the Go binding is documented to take slices of equal lengths only, but compares lengths along
  index 0 and among siblings. `RaggedAcceptedExactly`: with up to two levels everything it accepts is rectangular,
  with three or more some ragged values pass, whatever the element type. Reading a tensor back returns the
  original exactly when it was rectangular (`RoundTrip`).
- Merging means depends on the order exactly if two leaves of a path have no samples and another one has some
  (`LeafOrderExactly`, and `AppendOrderExactly` for whole trees): an entry whose first two means are empty stays
  undefined.
- The supervisor does not send failed games again. `CompletesExactly`: it completes its games exactly if it has a
  slot and none of the first `num_games` completions fails; otherwise it waits for a call that nobody sent
  (`PlayTakes`, `OneFailure`).

`dafny verify dfyconfig.toml` checks the whole project.

## Model

| member | source | states |
|---|---|---|
| `TensorLayout.DimIndicesLocateAxes` | tensorflow/stream_executor/dnn.cc:145-176 | in every sequence of a layout, the computed indices find the batch, depth and spatial axes where the layout's name lists them |
| `TensorLayout.ReorderDims` | tensorflow/stream_executor/dnn.cc:178-200 | the loop moves every axis to its place in the target layout and loses none |
| `TensorLayout.ReorderComposes` | tensorflow/stream_executor/dnn.cc:178-200 | reordering a to b to c equals reordering a to c |
| `TensorLayout.ReorderRoundTrips` | tensorflow/stream_executor/dnn.cc:178-200 | reordering there and back restores the sequence |
| `TensorLayout.ReorderIsPermutation` | tensorflow/stream_executor/dnn.cc:178-200 | reordering keeps the multiset of values |
| `TensorLayout.FullDims` | tensorflow/stream_executor/dnn.cc:222-228 | the lengths of all axes in the order of the layout asked for |
| `TensorLayout.StrideAt` | tensorflow/stream_executor/dnn.cc:240-245 | a stride is the product of the lengths of all axes to its right |
| `TensorLayout.DenseStrides` | tensorflow/stream_executor/dnn.cc:240-245 | the backward loop computes the dense strides |
| `TensorLayout.FullStrides` | tensorflow/stream_executor/dnn.cc:230-247 | the dense strides of the physical layout, seen through the layout asked for |
| `TensorLayout.StridesByLayout` | tensorflow/stream_executor/dnn.cc:230-247 | the strides of batch, depth and every spatial axis in closed form for each physical layout: the axis that the layout names last has stride 1 |
| `TensorLayout.StridesFit` | tensorflow/stream_executor/dnn.cc:240-245 | with positive lengths no stride exceeds the element count, so that the 64-bit products are exact whenever that count fits |
| `TensorLayout.NodesPerFeatureMap` | tensorflow/stream_executor/dnn.cc:309-315 | the product of the spatial lengths |
| `TensorLayout.ElementCount` | tensorflow/stream_executor/dnn.cc:321-323 | the product of the lengths in whatever layout they are listed |
| `TensorLayout.OffsetIndependentOfLayout` | tensorflow/stream_executor/dnn.cc:230-247 | an element has the same memory offset whichever layout its index and the strides are asked for in |
| `TensorLayout.OffsetIsInjective` | tensorflow/stream_executor/dnn.cc:230-247 | offsets lie below the element count and the element is recovered from its offset, for any number of dimensions |
| `TensorLayout.OffsetIsSurjective` | tensorflow/stream_executor/dnn.cc:230-247 | every offset below the element count is the offset of an in-range index |
| `Gomoku.ApplyKeeps` | gomoku/core/board.cc:20-28 | a move keeps the balance of stones with the player to move and adds one stone |
| `Gomoku.RevertKeeps` | gomoku/core/board.cc:30-37 | taking back any stone of the last mover keeps that balance and removes one stone |
| `Gomoku.RevertUndoesApply` | gomoku/core/board_test.cc:20-31 | reverting a move restores the position |
| `Gomoku.ApplyUndoesRevert` | gomoku/core/board.cc:20-37 | replaying a reverted move restores the position |
| `Gomoku.ReachableWellFormed` | gomoku/core/board.cc:20-43 | every position reached by accepted calls in any order is well formed |
| `Gomoku.FullExactlyWhenCounted` | gomoku/core/board.cc:45-47 | the stone count equals width times height exactly when no field is empty, and never exceeds it |
| `Gomoku.LocalCheckIsGlobal` | gomoku/core/board.cc:49-76 | if nobody had a five, the lines through the new stone hold one exactly when anybody has one anywhere, and it is the mover's |
| `Gomoku.ReplayShowsMoves` | gomoku/core/board.cc:20-28 | a replayed game shows exactly its moves, each owned by the player whose turn it was |
| `Gomoku.WholeGame` | gomoku/core/board.cc:49-76 | over a whole game, the first positive win check is the first position with a five anywhere |
| `BoardModel.FieldIndexInjective` | gomoku/core/board.cc:14 | different fields use different bit pairs |
| `BoardModel.Board.constructor` | gomoku/core/board.h:80-81 | a new board shows the empty position |
| `BoardModel.Board.Reset` | gomoku/core/board.cc:39-43 | the board shows the empty position again |
| `BoardModel.Board.ApplyMove` | gomoku/core/board.cc:20-28 | the bits show the position after the move; no field gets two owners |
| `BoardModel.Board.RevertMove` | gomoku/core/board.cc:30-37 | the bits show the position without the stone |
| `BoardModel.Board.NoMovePossible` | gomoku/core/board.cc:45-47 | true exactly when every field is owned |
| `BoardModel.Board.StoneAtPadded` | gomoku/core/board.h:102-107 | the owner, and nobody outside the board |
| `BoardModel.Board.CastRay` | gomoku/core/board.cc:61-66 | terminates with the exact number of consecutive stones |
| `BoardModel.Board.LineWins` | gomoku/core/board.cc:68-73 | true exactly when four stones of the mover surround the field on one line |
| `BoardModel.Board.DidWin` | gomoku/core/board.cc:49-76 | true exactly when one of the four lines through the field does |
| `BoardModel.Board.SampleLegalMove` | gomoku/core/board.cc:78-94 | for all offsets the first empty field of the wrap-around scan; fails exactly on a full board |
| `BoardModel.EveryLegalMoveCanBeSampled` | gomoku/core/board.cc:78-94 | every empty field is the sample of some pair of offsets |
| `BoardModel.FirstEmptyUnique` | gomoku/core/board.cc:84-91 | the offsets determine the sample |
| `Referee.Actor.GameStarted` | gomoku/actors/random_actor.cc:7-10 | the actor's board shows the empty position |
| `Referee.Actor.ObserveMove` | gomoku/actors/random_actor.cc:12-14 | the actor's board follows the move |
| `Referee.Actor.ChooseMove` | gomoku/actors/random_actor.cc:16-18 | an empty field of the actor's own board, for arbitrary draws |
| `Referee.Prepare` | gomoku/ladder/worker_impl.cc:26-37 | three separate boards, all empty |
| `Referee.PlayMove` | gomoku/ladder/worker_impl.cc:41-44 | the player to move chooses, no occupied-field check fires, and all three boards stay in step |
| `Referee.GameOver` | gomoku/ladder/worker_impl.cc:50 | true exactly when the move won or the board is full |
| `Referee.PlayOut` | gomoku/ladder/worker_impl.cc:39-50 | terminates within width times height moves with a legal recording that replays to the final boards |
| `Referee.FinalScore` | gomoku/ladder/worker_impl.cc:52-59 | 1.0 exactly when the first player owns a five anywhere on the final board |
| `Referee.PlayGame` | gomoku/ladder/worker_impl.cc:26-59 | the whole game: legal distinct moves, players alternate, no earlier five, ends with a five or a full board, exact score |
| `ReplayDecoder.CountSamples` | gomoku/networks/replay_ops_kernel.cc:57-66 | one row per position of every recording |
| `ReplayDecoder.Output.WriteFeature` | gomoku/networks/replay_ops_kernel.cc:97-100 | one feature of one row is written for every field and nothing else changes |
| `ReplayDecoder.Output.WriteOutput` | gomoku/networks/replay_ops_kernel.cc:93-107 | exactly one row changes, to features and score as the player to move sees them |
| `ReplayDecoder.WriteGame` | gomoku/networks/replay_ops_kernel.cc:82-87 | the rows of one game follow the rows already written |
| `ReplayDecoder.Compute` | gomoku/networks/replay_ops_kernel.cc:50-89 | for legal recordings the tensors hold exactly the rows of all games, in order, in exactly the precounted space |
| `ReplayDecoder.RowPlacement` | gomoku/networks/replay_ops_kernel.cc:79-88 | the row of recording r after k moves sits at the prefix sum plus k, shows that board, and has the score for even k and one minus it for odd k |
| `ReplayDecoder.RowShowsMoves` | gomoku/networks/replay_ops_kernel.cc:93-102 | in terms of the moves alone: the first feature marks the fields taken by the player to move, the second the free fields, the third those of the opponent |
| `ReplayDecoder.RowsDistinct` | gomoku/networks/replay_ops_kernel.cc:79-88 | no two positions share a row |
| `ReplayDecoder.RowsCovered` | gomoku/networks/replay_ops_kernel.cc:57-66 | every precounted row belongs to a position |
| `ReplayDecoder.ScoreMeansWin` | gomoku/networks/replay_ops_kernel.cc:104-106 | a row's score is 1.0 exactly for winners, if and only if the game was won or the row is even |
| `ReplayDecoder.DrawScoredAsWin` | gomoku/networks/replay_ops_kernel.cc:41-42 | a full 19 by 19 game that is never won; every odd row of it shows 1.0 although nobody won |
| `Draw.NeverWon` | gomoku/core/board.cc:49-76 | on a board of any size, the win check never succeeds when the players take the fields of the colouring in turn |
| `Draw.DrawnGameIsDrawn` | gomoku/core/board.h:64-65 | a legal game that fills the board of 19 by 19 without a five at any time |
| `Occupancy.CeilCovers` | tensorflow/stream_executor/device_description.cc:154-156 | the ceiling is the least number of units that covers a value |
| `Occupancy.RegistersTakenIsLeast` | tensorflow/stream_executor/device_description.cc:190-201 | no number of whole groups of warps and whole register units that suffices for a block takes fewer registers |
| `Occupancy.RegistersTakenSuffice` | tensorflow/stream_executor/device_description.cc:190-201 | some whole groups and units suffice and take exactly the computed registers |
| `Occupancy.ThreadsAndMemoryAreLeast` | tensorflow/stream_executor/device_description.cc:203-213 | threads in whole warps and shared memory in whole units are the least that cover what is asked for |
| `Occupancy.UnsetMeansNone` | tensorflow/stream_executor/device_description.cc:168-179 | without any one of the seven required values the occupancy is 0 |
| `Occupancy.DivisorsExact` | tensorflow/stream_executor/device_description.cc:185-209 | without overflow, the 64-bit products are the exact resources of a block and no divisor is zero |
| `Occupancy.OccupancyIsLargest` | tensorflow/stream_executor/device_description.cc:163-213 | a number of blocks is at most the occupancy exactly when it meets all four limits at once |
| `Occupancy.OccupancyMonotone` | tensorflow/stream_executor/device_description.cc:163-213 | more registers, shared memory or threads never raise the occupancy |
| `Occupancy.CalculateRegisterLimitForTargetOccupancy` | tensorflow/stream_executor/device_description.cc:215-232 | the loop returns the first candidate, from above, that reaches the target, or 0; on a device with an unset value it returns 0 unless nothing is asked for |
| `Occupancy.SkippedCostsTheSame` | tensorflow/stream_executor/device_description.cc:221-224 | with aligned steps, a skipped register count has the occupancy of the candidate above it |
| `Occupancy.SearchFindsMaximum` | tensorflow/stream_executor/device_description.cc:215-232 | with aligned steps, the result is the maximum register count that reaches the target, or 0 if none does |
| `Occupancy.SearchMissesMaximum` | tensorflow/stream_executor/device_description.cc:221-224 | without alignment, for every such warp size, granularity and limit there is a device on which the search misses the maximum |
| `Bytes.WordRoundTrip` | tensorflow/c/c_api.cc:444-445 | a word in either byte order reads back as written |
| `Bytes.WordByte` | tensorflow/c/c_api.cc:444-445 | byte k from the low end is digit k in base 256; a little-endian word begins with the low end, a big-endian one ends with it |
| `Bytes.VarintRoundTrip` | tensorflow/c/c_api.cc:266-274 | a 64-bit varint reads back as written and ends where it was written |
| `Bytes.VarintByte` | tensorflow/c/c_api.cc:266 | byte k holds digit k in base 128, with the top bit set on all bytes but the last |
| `Bytes.VarintIsShortest` | tensorflow/c/c_api.cc:294-296 | a varint has as few bytes as the value allows |
| `Bytes.VarintEnds` | tensorflow/c/c_api.cc:273-277 | a varint can be read if and only if one of the first ten bytes has its top bit clear; the first such byte ends it |
| `StringTensor.EncodedSizeExact` | tensorflow/c/c_api.cc:255-259 | the overflow test on the wrapped size detects overflow exactly |
| `StringTensor.StringEncode` | tensorflow/c/c_api.cc:253-269 | succeeds exactly if the string fits; writes length and bytes and touches nothing else |
| `StringTensor.TensorBytes` | tensorflow/c/c_api.cc:514-521 | the size loop computes the exact size |
| `StringTensor.EncodeElement` | tensorflow/c/c_api.cc:529-542 | one round writes the offset and the string and cannot fail |
| `StringTensor.TensorFromTensor` | tensorflow/c/c_api.cc:511-548 | never reaches an error branch, uses exactly the precomputed bytes, writes the documented format |
| `StringTensor.FormatAsDocumented` | tensorflow/c/c_api.h:211-217 | word i of the table is the number of bytes that the strings before take, and there the data holds the length of string i as a varint and its bytes |
| `StringTensor.TensorToTensor` | tensorflow/c/c_api.cc:428-457 | the loop returns all strings, or the outcome of the first element that cannot be decoded; offsets are signed, as in the source |
| `StringTensor.LeavesBufferExactly` | tensorflow/c/c_api.cc:442-455 | decoding reads outside the tensor if and only if some element's offset lies before the buffer or its length goes beyond the end, and all elements before it stay inside; all in terms of the raw bytes |
| `StringTensor.RangeCheckExactly` | tensorflow/c/c_api.cc:446-449 | an offset is refused as out of range if and only if it is at least the length of the data and below 2^63 |
| `StringTensor.StrayRead` | tensorflow/c/c_api.cc:451-455 | a tensor of nine bytes that is read beyond its end |
| `StringTensor.NegativeOffsetDecodes` | tensorflow/c/c_api.cc:446-449 | a tensor with an offset far out of range that decodes without an error |
| `StringTensor.StringRoundTrip` | tensorflow/c/c_api.cc:253-285 | decoding an encoded string finds its start and length, whatever follows |
| `StringTensor.OffsetFindsString` | tensorflow/c/c_api.cc:444-455 | every offset is in range and leads to its string |
| `StringTensor.TensorRoundTrip` | tensorflow/c/c_api.cc:428-548 | decoding an encoded tensor returns the same list of strings |
| `GoTensor.ShapeAndDataTypeOf` | tensorflow/go/tensor.go:235-260 | the loop derives the shape along index 0, zeros below an empty slice, or reports mismatched lengths |
| `GoTensor.DerivedShapeFits` | tensorflow/go/tensor.go:235-260 | a rectangular value has the shape that is derived from it |
| `GoTensor.NumElements` | tensorflow/go/tensor.go:280-286 | the product of the dimensions |
| `GoTensor.ByteSizeOfEncodedStrings` | tensorflow/go/tensor.go:290-301 | the exact size of the encoded strings of a nested value |
| `GoTensor.EncodeNumeric` | tensorflow/go/tensor.go:305-343 | fails exactly if siblings differ in length; otherwise appends all elements from left to right |
| `GoTensor.ElementWord` | tensorflow/go/tensor.go:305-343 | element k of a numeric tensor stands at k times its width, as a word of that many bytes in the native byte order |
| `GoTensor.StringEncoder.EncodeOne` | tensorflow/go/tensor.go:383-396 | appends an offset and a string; the index taken is in range |
| `GoTensor.StringEncoder.Encode` | tensorflow/go/tensor.go:382-404 | appends all strings of a nested value from left to right, inside the precomputed space |
| `GoTensor.Decode` | tensorflow/go/tensor.go:347-373 | a value of the given shape with exactly the elements that the stream holds, in order, consuming just those; or the fault of the first element that cannot be read: an error, a panic or a stray read |
| `GoTensor.StringFaults` | tensorflow/go/tensor.go:411-432 | one input for each way in which a string can fail to be read |
| `GoTensor.RowMajorOrder` | tensorflow/go/tensor.go:332-337 | the element at an index is encoded at the dot product of the index with the dense strides |
| `GoTensor.LeavesDetermine` | tensorflow/go/tensor.go:345-373 | shape and elements determine a rectangular value |
| `GoTensor.NewStringRaw` | tensorflow/go/tensor.go:101-109 | accepts exactly if the number of strings matches the shape, and then writes the TF_STRING format |
| `GoTensor.NewTensor` | tensorflow/go/tensor.go:70-111 | accepts exactly the values that pass its checks; the bytes are the elements in row-major order |
| `GoTensor.ValueOf` | tensorflow/go/tensor.go:172-188 | decodes the raw bytes with the tensor's shape, or fails as the first unreadable element does |
| `GoTensor.RoundTrip` | tensorflow/go/tensor.go:70-188 | reading back a tensor that was made never goes wrong, and returns the original exactly when it is rectangular, numeric or string, of any depth |
| `GoTensor.RaggedAcceptedExactly` | tensorflow/go/tensor.go:241-251 | a ragged value is accepted for some value of the type exactly if the type has three levels or more |
| `KernelArgs.KernelArgsArray.AddArgument` | tensorflow/stream_executor/kernel.h:406-412 | appends an ordinary argument |
| `KernelArgs.KernelArgsArray.AddDeviceMemoryArgument` | tensorflow/stream_executor/kernel.h:415-422 | appends a device-memory argument whose slot keeps its pointer |
| `KernelArgs.KernelArgsArray.AddSharedBytes` | tensorflow/stream_executor/kernel.h:428-434 | appends a shared-memory argument |
| `KernelArgs.KernelArgsArray.NumberOfArguments` | tensorflow/stream_executor/kernel.h:436-440 | the number of arguments of all kinds |
| `KernelArgs.KernelArgsArray.NumberOfSharedBytes` | tensorflow/stream_executor/kernel.h:442-445 | the sum of the shared sizes modulo 2^64, exact if and only if the sum is below that |
| `KernelArgs.MergeStep` | tensorflow/stream_executor/kernel.h:304-324 | at every place, the comparison with the next shared index tells which list the argument came from |
| `KernelArgs.KernelArgIterator.Next` | tensorflow/stream_executor/kernel.h:301-324 | yields the next of the arguments that were there when the iterator was made, and a default argument after the last |
| `KernelArgs.Walk` | tensorflow/stream_executor/kernel.h:298-324 | the iterator yields exactly the added sequence and stops |
| `GoSession.OnlyCloser` | tensorflow/go/session.go:209-224 | once Close has waited, nobody else relies on the session or holds the mutex |
| `GoSession.StepKeeps` | tensorflow/go/session.go:75-224 | every step of Run, PartialRun.Run, NewPartialRun and Close keeps the protocol invariant |
| `GoSession.RunIsSafe` | tensorflow/go/session.go:75-224 | in every interleaving the invariant holds and the session is deleted at most once |
| `GoSession.CallsFindSession` | tensorflow/go/session.go:75-224 | in every interleaving, whoever calls into C or is inside finds the session there, and nobody is inside when it is deleted |
| `GoSession.DeletionIsQuiet` | tensorflow/go/session.go:207-224 | Close deletes only after all counted runs have returned |
| `GoSession.WaitingCloseLetsRunsStep` | tensorflow/go/session.go:210-212 | while Close waits with the mutex held, every outstanding run can step |
| `GoSession.NoDeadlock` | tensorflow/go/session.go:75-224 | while a call is unfinished, some goroutine can step |
| `GoSession.StuckMeansFinished` | tensorflow/go/session.go:75-224 | nobody can step exactly when all calls have returned |
| `GoSession.ScheduleEnds` | tensorflow/go/session.go:75-224 | every schedule of the calls in progress ends after a bounded number of steps |
| `GoSession.CloseIsNotStarved` | tensorflow/go/session.go:209-212 | while Close waits, whatever calls begin, the runs it waits for only become fewer and take at most three steps each; one that is left can step, and if none is left Close can |
| `GoSession.GoneExactly` | tensorflow/go/session.go:207-224 | in every run, unless somebody is just deleting it, the session is gone if TF_CloseSession has reported success to some Close, and usable otherwise |
| `GoSession.CloseCloses` | tensorflow/go/session.go:213-222 | a Close that finds the pointer set asks TF_CloseSession; on success the session is gone when Close returns |
| `GoSession.FailedCloseLeavesIt` | tensorflow/go/session.go:217-219 | a Close that was told of a failure does not touch the session any more |
| `GoSession.OpenSessionServes` | tensorflow/go/session.go:75-96 | a run that takes the lock while the pointer is set enters C and comes back before it returns |
| `GoSession.GoneSessionRefuses` | tensorflow/go/session.go:76-80 | a run that takes the lock when the session is gone returns through the error |
| `GoSession.GoneMeansQuiet` | tensorflow/go/session.go:207-224 | once the session is gone it stays so, and nobody is inside C or on the way there |
| `GoSession.ClosedThenRefused` | tensorflow/go/session.go:75-224 | a run from the initial state in which a Close succeeds and a later call is refused |
| `GraphLifetime.StepKeeps` | tensorflow/c/c_api.cc:2143-2237 | every critical section keeps count, request and pending frees consistent |
| `GraphLifetime.FreedOnce` | tensorflow/c/c_api.cc:2225-2237 | in every interleaving in which nobody is opening a session when deletion is asked for, the graph is freed at most once, with no session counted and nobody touching it later |
| `GraphLifetime.FreedIsFinal` | tensorflow/c/c_api.cc:2225-2237 | once the graph is freed no call is in progress and none may begin |
| `GraphLifetime.FreedByTheLastStep` | tensorflow/c/c_api.cc:2229-2233 | a thread frees the graph exactly if its step brought the request and the count of zero together |
| `GraphLifetime.NothingLeaks` | tensorflow/c/c_api.cc:1687-1693 | when all calls have returned, the graph is freed exactly if deletion was requested and no session is left |
| `GraphLifetime.SafeToAskExactly` | tensorflow/c/c_api.h:1018-1019 | in every reachable state in which deletion may be asked for, no continuation misuses the graph if and only if no client is opening a session |
| `GraphLifetime.OpeningIsUnsafe` | tensorflow/c/c_api.cc:2143-2151 | whatever sessions there are, deletion asked for while a session is being opened can free the graph under it |
| `GraphLifetime.LateSessionMisuses` | tensorflow/c/c_api.cc:2148-2151 | a run of five steps from the initial state after which a session is about to count itself in a freed graph |
| `SessionSync.NodesToSend` | tensorflow/c/c_api.cc:2254-2260 | the loop collects the live operations that were added since the last success |
| `SessionSync.FinishKeeps` | tensorflow/c/c_api.cc:1203-1236 | ids are only appended, and the name map lists exactly the live operations |
| `SessionSync.TakenExactly` | tensorflow/c/c_api.cc:1203-1236 | over every run, a name is taken if and only if an operation of that name was added successfully |
| `SessionSync.IdsCounted` | tensorflow/c/c_api.cc:1203-1236 | over every run, there are two ids plus one for every node that was built under a free name, those removed again included |
| `SessionSync.OpenedExactly` | tensorflow/c/c_api.cc:2143-2157 | a session exists if and only if it was opened |
| `SessionSync.StepKeeps` | tensorflow/c/c_api.cc:2242-2276 | growth, collecting, accepted and refused Extends keep every session synchronised |
| `SessionSync.SentExactlyOnce` | tensorflow/c/c_api.cc:2242-2276 | in every run a session has accepted exactly the live operations below its mark, each once and in order |
| `SessionSync.SentNamesDistinct` | tensorflow/c/c_api.cc:1208-1210 | no two operations sent to a session share a name |
| `SessionSync.ExtendCompletes` | tensorflow/c/c_api.cc:2248-2270 | over every run, an accepted Extend leaves the session with what a full copy would have sent when the ids were collected, whatever happened in between |
| `SessionSync.AddedIsSent` | tensorflow/c/c_api.cc:2242-2276 | an operation that was added before the ids were collected is among those the session has accepted after the Extend, under its name |
| `SessionSync.RefusedLeavesIt` | tensorflow/c/c_api.cc:2262-2268 | a refused Extend leaves the session as it was before the ids were collected |
| `SessionSync.CanCatchUp` | tensorflow/c/c_api.cc:2242-2276 | in every reachable state an idle session that is behind can extend, and an accepted Extend leaves it with everything |
| `ExecutorCache.ScanConfigurations` | tensorflow/stream_executor/executor_cache.cc:38-44 | the loop returns the first match and nothing exactly if there is none |
| `ExecutorCache.StepActsLikeMap` | tensorflow/stream_executor/executor_cache.cc:23-82 | every step acts on a plain map keyed by ordinal, plugin and flags: scans report it, and only a successful build changes it, at one absent key |
| `ExecutorCache.StepKeeps` | tensorflow/stream_executor/executor_cache.cc:23-82 | every step keeps the locks exact and the entries free of matching configurations |
| `ExecutorCache.RunKeeps` | tensorflow/stream_executor/executor_cache.cc:23-93 | in every interleaving, DestroyAll included, no entry holds two matching configurations and nobody touches a destroyed entry, if DestroyAll begins only when no call is about to lock its entry |
| `ExecutorCache.SafeToDestroyExactly` | tensorflow/stream_executor/executor_cache.cc:84-92 | in every reachable state, no continuation of DestroyAll touches a destroyed entry if and only if no call has found its entry without having locked it |
| `ExecutorCache.DestroyedTooEarly` | tensorflow/stream_executor/executor_cache.cc:27-37 | a run of five steps from the initial state that touches a destroyed entry |
| `ExecutorCache.SameExecutorForEver` | tensorflow/stream_executor/executor_cache.cc:23-87 | once a call found or built an executor, the map holds it for every matching configuration until DestroyAll |
| `ExecutorCache.LaterCallsReturnIt` | tensorflow/stream_executor/executor_cache.cc:23-82 | over every run, every matching call that leaves its entry or returns after that, until DestroyAll, does so with the same executor |
| `ExecutorCache.OutcomeIsSettled` | tensorflow/stream_executor/executor_cache.cc:23-82 | over every run, what a call returns was settled by a step of its own: an executor that was there, one that its factory made for an absent configuration and that is there now, a failure of its factory, or, for Get, absence |
| `ExecutorCache.OutcomeIsCurrent` | tensorflow/stream_executor/executor_cache.cc:37-55 | until the entry is unlocked, a call returns executor e if and only if the map holds e for its configuration |
| `ExecutorCache.StepsLead` | tensorflow/stream_executor/executor_cache.cc:23-82 | every step of a call leaves fewer steps, so that every call returns |
| `ExecutorCache.DestroyAllDestroys` | tensorflow/stream_executor/executor_cache.cc:84-92 | when DestroyAll is done, no entry is left and nothing is found any more |
| `ExecutorCache.NoDeadlock` | tensorflow/stream_executor/executor_cache.cc:26-37 | while a call is in progress some thread, or DestroyAll, can step |
| `Metrics.VisitsAreLeaves` | gomoku/core/metrics.cc:44-60 | every leaf of the tree is visited exactly once, from left to right, under the path that its names spell out, and nothing else is |
| `Metrics.LeafPath` | gomoku/core/metrics.cc:44-60 | the path of a leaf is the starting path followed by a slash and the name of every metric on the way down |
| `Metrics.PathsApart` | gomoku/core/metrics.cc:48 | without slashes in names, two leaves have the same path if and only if the names on the way down are the same |
| `Metrics.NamedLeaves` | gomoku/core/metrics.cc:44-60 | without slashes in names, a path collects exactly the leaves that its names lead to, in order |
| `Metrics.SlashesCollide` | gomoku/core/metrics.cc:48 | with a slash in a name, different leaves can share a path |
| `Metrics.MetricCollector.IterateFlatMetrics` | gomoku/core/metrics.cc:44-55 | the recursion merges all leaves in the order of the visit |
| `Metrics.MetricCollector.Append` | gomoku/core/metrics.cc:82-92 | merges the leaves of one tree |
| `Metrics.CollectConcat` | gomoku/core/metrics.cc:82-92 | two batches in a row equal one long batch |
| `Metrics.CollectedAt` | gomoku/core/metrics.cc:82-92 | paths do not influence one another |
| `Metrics.ConcatIsExact` | gomoku/core/metrics.cc:62-78 | merging two means adds counts and samples; anything else loses the value |
| `Metrics.EntryIsWeightedMean` | gomoku/core/metrics.cc:62-92 | an entry counts all samples of its path; undefined exactly when the first two leaves have none, otherwise the weighted mean |
| `Metrics.EntryIsMean` | gomoku/core/metrics.cc:73-76 | an entry is a mean exactly when all leaves of its path are |
| `Metrics.AppendVisitsAll` | gomoku/core/metrics.cc:82-92 | a run of Append visits the leaves of all its trees in order |
| `Metrics.CollectedMean` | gomoku/core/metrics.cc:62-92 | unless the first two leaves are empty, the value is the sum of all samples divided by their number |
| `Metrics.SameEntryExactly` | gomoku/core/metrics.cc:62-92 | two orders of the same leaves, of any kind, make the same entry unless all are means and just one order begins with two empty ones |
| `Metrics.LeafOrderExactly` | gomoku/core/metrics.cc:82-92 | some order of the leaves of a path makes another entry if and only if all are means, two are empty and one is sampled |
| `Metrics.AppendOrderExactly` | gomoku/core/metrics.cc:82-92 | for a run of Append, some order of the trees makes another entry at a path if and only if all leaves there are means, two empty ones can come first (in one tree, or the only leaf of one tree and the first of another), and some tree has a sample among its first two leaves |
| `Metrics.OrderDoesNotMatter` | gomoku/core/metrics.cc:82-92 | runs of Append with the same leaves at a path, in any order and batching, leave the same entry unless two leaves are empty and one is sampled |
| `Metrics.EmptyMeansDependOnOrder` | gomoku/core/metrics.cc:67-72 | three trees that leave an undefined entry in one order and a mean in another |
| `Tournament.DrawsAreDistinctPairs` | gomoku/ladder/ladder.cc:21-27 | every ordered pair of different actors comes from exactly one pair of draws |
| `Tournament.BasicLadder.PrepareGameRequest` | gomoku/ladder/ladder.cc:20-32 | two different actors, determined by the draws |
| `Tournament.BasicLadder.GameCompleted` | gomoku/ladder/ladder.cc:34-50 | the statistics of every actor count its wins and games in the history; total wins equal games and total games twice that |
| `Tournament.BasicLadder.StatsCountGames` | gomoku/ladder/ladder.cc:34-50 | games are those in which the actor was first or second; wins are those it was first in with a score of at least one half, or second in with less |
| `Tournament.WinsAreVictoriesAndDraws` | gomoku/ladder/ladder.cc:39-48 | for every history of refereed games, the wins of an actor are the games in which it owns the five plus the draws in which it was second |
| `Tournament.BasicLadder.StatsCountVictories` | gomoku/ladder/ladder.cc:34-50 | the statistics count victories if and only if the actor was second in no draw |
| `Tournament.DrawCountsAsWin` | gomoku/ladder/ladder.cc:39-45 | a drawn game that counts as a win of the second actor |
| `Tournament.Supervisor.PlayGame` | gomoku/ladder/supervisor.cc:26-32 | one more call on that worker, within its bound, about two different actors of the ladder |
| `Tournament.Supervisor.InitialWave` | gomoku/ladder/supervisor.cc:40-46 | sends one game for every slot of every worker, or all games if there are fewer |
| `Tournament.Supervisor.OnCompletion` | gomoku/ladder/supervisor.cc:52-71 | a failure only loses a slot; a success is counted, reported and replaced on the same worker |
| `Tournament.Supervisor.Play` | gomoku/ladder/supervisor.cc:35-73 | for every script of completions: counters, ladder and collector are what its successes and failures say, within all bounds; on a script with a completion per game, all games are completed if and only if there is a slot and the first num_games completions succeed, and in the end no call is outstanding either way |
| `Tournament.PlayTakes` | gomoku/ladder/supervisor.cc:51-72 | Play takes one completion per game, or stops at the failure that loses the last slot; nothing is in flight then |
| `Tournament.CompletesExactly` | gomoku/ladder/supervisor.cc:51-72 | num_games games are completed if and only if there is a slot and none of the first num_games completions fails |
| `Tournament.OneFailure` | gomoku/ladder/supervisor.cc:52-62 | a single failure ends the tournament on the spot if there is one slot, and otherwise leaves exactly one game missing for ever |
| `Tournament.Supervisor.BusyUntilDone` | gomoku/ladder/supervisor.cc:51-72 | without failures some call is in flight until all games are complete |

## Left out

- gRPC, protobuf serialisation, op registration, logging, flags and clocks: results of calls, random draws and stop signals are arbitrary inputs.
- Floating-point rounding: scores and means are reals; only the division of zero by zero is kept apart as NaN.
- The self-play supervisor, whose game loop duplicates the referee, and the Monte Carlo actors, whose playouts have no full-board check.
- Other features than the three default ones, and the parsing of serialised recordings.
- FullStrides: lengths and strides are unbounded integers; StridesFit bounds them by the element count, and nothing is claimed when that exceeds 64 bits.
- CalculateRegisterLimitForTargetOccupancy: is modelled for launches whose products fit into 64 bits and where no divisor is zero; the source has no answer where one is.
- SearchMissesMaximum: gives devices with a limit and a granularity below 2^31, the range of the source's loop variable.
- EncodeVarint, GetVarint64 and the rounding ratios are defined here from their documented meaning; their implementations are not part of this model.
- TensorFromTensor: is modelled for tensors whose size fits into 64 bits, and the round trip for sizes below 2^63, where the signed comparison of the decoder is exact.
- TensorToTensor: resource and numeric tensors, which share or parse a buffer, are not modelled.
- NewTensor: is modelled for tensors of at most 2^30 bytes; larger ones panic when their memory is viewed as a slice. Arrays are treated like slices, which is what they are read back as.
- Destroying a mutex while another thread is still inside its unlock, and memory ordering: a critical section is one atomic step.
- The executors themselves: what becomes of one that is in use when it is destroyed is left undefined by the source.
- Sessions loaded from a saved model, functions and while loops in graphs, and node contents edited after creation.
- BLAS, FFT and RNG interfaces, library loading, platform registries, build configuration and Python training code.
