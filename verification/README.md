# Verified models of the Kairo runtime agent

Dafny models, with proofs, of the self-contained algorithms and protocols in the Go
runtime agent (`runtime-agent/internal`) and of the search guard in
`kairo-audit/regression`. Each file models one component; paths below are relative to the
repository root.

| file | models |
|---|---|
| `ModuleDebugOrder.dfy` | debug start order by Kahn's algorithm, transitive dependency collection |
| `ClassFile.dfy` | the walk over a Java class file that counts methods, the schema check, the hot-swap history |
| `JdwpPayload.dfy` | JDWP payload reader and writer, tagged values, IDs, redefinition and class-reference lists |
| `JdwpPacket.dfy` | JDWP packet framing and the wait for a command's reply |
| `SearchJoin.dfy` | producer, consumer, drain goroutine and join as an interleaving system |
| `OperationRegistry.dfy` | at-most-once execution per key, coalesced waiters, eviction |
| `RateLimiter.dfy` | per-client token buckets and their clean-up |
| `BreakpointCondition.dfy` | compound breakpoint conditions: parser, printer, evaluator |
| `HitCount.dfy` | hit-count filters, event handling, totals over runs of hits |
| `AntProperties.dfy` | bounded `${...}` expansion against full recursive expansion |
| `ContextPath.dfy` | Tomcat context-path normalisation |
| `AgentHandover.dfy` | the agent-state file over a chain of restarts |
| `Bytes.dfy` | big-endian integers and two's complement, used by the binary formats |

Code that changes state step by step is modelled by classes and methods with loops, proved
against specification functions or relations; what the source promises is then proved of
those. Map iteration takes keys in arbitrary order, so results hold for every order. The
two concurrent components are transition systems over atomic steps; their results hold for
every interleaving.

Parameters of the model: clock readings, payload hashes (SHA-256 is any string), the outcome
of each `onBatch` call, the truth of simple breakpoint conditions, file I/O errors, how much
a connection takes and delivers before its deadline, the spare capacity of byte slices, the
process environment.

## Where the code does not do what its comments say

Each of these is proved by the lemmas named: an input at which the property fails, and the
condition under which it holds.

- The comment on `ResolveDebugOrder` says modules without dependencies come first. The edges
  run from a module to its dependencies, so every module comes *before* what it depends on,
  and the comment holds exactly if no registered module depends on another
  (`CommentHoldsExactly`, `CommentFails`).
- Its error message speaks of modules in a cycle, but counts what those depend on as well;
  the number is right exactly if cycles depend on nothing registered off the cycles
  (`MessageHoldsExactly`, `MessageFails`).
- `validateSchemaCompatibility` tests for 8 bytes and slices up to byte 10. With fewer than
  10 bytes of capacity that panics, with more it compares what lies behind the end of the
  file; with 10 bytes neither happens (`SchemaPanicsExactly`, `SchemaNeverPanics`,
  `SchemaIgnoresSpare`, `ShortFilesCompared`).
- `ClassesBySignature` panics exactly on a negative count (`ClassRefsPanicExactly`).
- While waiting for a reply, replies to earlier commands are meant to be skipped, but one
  that reports an error ends the wait (`StaleErrorEndsWait`, `StaleErrorExample`; a reply is
  returned exactly as `ReplyExactly` says), and the branch that would turn the right reply's
  error code into an error is never reached (`ErrorBranchDead`).
- `RunSearchWithJoin` may return nil without having delivered everything, whenever there is
  anything to deliver (`NilAfterCancel`, `NilDeliversAllExactly`), but only if the caller
  cancels (`NilWithoutCancel`).
- Keys are told apart by their text exactly as long as request ids hold no colon
  (`PrintInjectiveExactly`, `PrintCollision`). A woken waiter gets the record it waited for
  exactly if nothing else has been filed under the key (`WakeExactly`), and may be handed a
  later record that is still executing (`WakeMaySeeLaterExecution`).
- Printed breakpoint conditions parse back exactly if no negation is a left operand and every
  negation is of a simple condition (`PrintedReparses`, `NegatedConjunctionLost`).
- `resolveProp` is full expansion exactly up to nesting depth ten (`RoundsAreExpansion`).
- The root context and `/ROOT` share one webapp directory, and no other paths do
  (`SameDirectory`).
- Records of later generations are spared exactly if a restart chain does not start on a
  leftover of a later generation (`SparedExactly`, `LeftoverIsTouched`). Under the same
  condition, and no other, ready records always land (`ReadyLandsExactly`).

## Model

| member | source | states |
|---|---|---|
| `ModuleDebugOrder.ModuleDebugDependencyResolver.AddModule` | runtime-agent/internal/debug/module_debug_dependency.go:41-49 | registers under the module's name, replacing; nil changes nothing |
| `ModuleDebugOrder.ModuleDebugDependencyResolver.BuildTables` | runtime-agent/internal/debug/module_debug_dependency.go:59-74 | adjacency lists hold exactly the registered dependencies, with repetitions; each in-degree is the number of their occurrences |
| `ModuleDebugOrder.ModuleDebugDependencyResolver.Release` | runtime-agent/internal/debug/module_debug_dependency.go:90-95 | keeps the queue invariant while working off one module's edges: in-degrees count the edges left, and exactly the modules without any are queued or listed, once |
| `ModuleDebugOrder.ModuleDebugDependencyResolver.WorkOff` | runtime-agent/internal/debug/module_debug_dependency.go:84-96 | the queue loop ends with a duplicate-free list in which everything comes after what depends on it |
| `ModuleDebugOrder.KahnVerdict` | runtime-agent/internal/debug/module_debug_dependency.go:98-110 | the list is complete if and only if the graph is acyclic, and then it is an order; otherwise what is missing is what lies on or behind a cycle |
| `ModuleDebugOrder.LeftoverIsBehindCycle` | runtime-agent/internal/debug/module_debug_dependency.go:98-101 | the modules left over do not depend on any iteration order: those on a cycle and their direct and transitive dependencies |
| `ModuleDebugOrder.OrderImpliesAcyclic` | runtime-agent/internal/debug/module_debug_dependency.go:54-111 | an order of all modules with each before its known dependencies exists only if there is no cycle, self-edges included |
| `ModuleDebugOrder.CommentHoldsExactly` | runtime-agent/internal/debug/module_debug_dependency.go:51-53 | the comment's order, dependencies first or modules without registered dependencies first, holds of a computed order exactly if no registered module depends on another |
| `ModuleDebugOrder.CommentFails` | runtime-agent/internal/debug/module_debug_dependency.go:51-53 | an application and its library: the only order has the application first |
| `ModuleDebugOrder.MessageHoldsExactly` | runtime-agent/internal/debug/module_debug_dependency.go:98-101 | the number in the error is the number of modules on cycles exactly if those depend on no registered module off the cycles |
| `ModuleDebugOrder.MessageFails` | runtime-agent/internal/debug/module_debug_dependency.go:98-101 | a graph with two modules counted and one on a cycle |
| `ModuleDebugOrder.ModuleDebugDependencyResolver.ResolveOrderInternal` | runtime-agent/internal/debug/module_debug_dependency.go:181-224 | for every iteration order and with repeated dependencies: success exactly on acyclic graphs, with a duplicate-free list of all modules, each before every known module it depends on; on failure the exact count |
| `ModuleDebugOrder.ModuleDebugDependencyResolver.ResolveDebugOrder` | runtime-agent/internal/debug/module_debug_dependency.go:54-111 | the same, and on success DebugOrder is the place in the list when no two names share a module object; on failure DebugOrder is untouched |
| `ModuleDebugOrder.ModuleDebugDependencyResolver.GetModuleDependencies` | runtime-agent/internal/debug/module_debug_dependency.go:115-123 | without duplicates, exactly the names reachable by one or more DependsOn edges other than the module itself, registered or not; terminates on cycles |
| `ModuleDebugOrder.ModuleDebugDependencyResolver.CollectDependencies` | runtime-agent/internal/debug/module_debug_dependency.go:126-143 | newly visited names are reachable, appended once each, and closed under dependencies |
| `ClassFile.MethodsOfClassFile` | runtime-agent/internal/debug/hotswap.go:367-473 | for every well-formed class file, its pool made of the seventeen kinds of section 4.4 with two indices for Long and for Double, the number found in its bytes is its number of methods |
| `ClassFile.MethodsCountExact` | runtime-agent/internal/debug/hotswap.go:369-473 | on any bytes: the methods_count of the class-file front they start with, 0 if there is none; no two fronts disagree |
| `ClassFile.TagTable` | runtime-agent/internal/debug/hotswap.go:378-430 | the walk's sizes and indices by tag are those of each kind of constant as it is encoded |
| `ClassFile.SkipEncodedPool` | runtime-agent/internal/debug/hotswap.go:378-430 | the pool walk skips exactly an encoded constant pool, counting two indices for Long and Double |
| `ClassFile.PoolIsEncoded` | runtime-agent/internal/debug/hotswap.go:378-430 | whatever the pool walk skips is the encoding of valid entries that just fill the declared count |
| `ClassFile.HotSwapManager.CountMethods` | runtime-agent/internal/debug/hotswap.go:369-473 | computes that number on any bytes, terminating and never reading outside them |
| `ClassFile.HotSwapManager.WalkPool` | runtime-agent/internal/debug/hotswap.go:378-430 | the pool loop stops where the specification does, or reports a bad tag or running off the end |
| `ClassFile.HotSwapManager.WalkFields` | runtime-agent/internal/debug/hotswap.go:443-465 | the nested field and attribute loops stop where the specification does, or report running off the end |
| `ClassFile.HotSwapManager.ValidateClassBytes` | runtime-agent/internal/debug/hotswap.go:325-337 | accepts exactly files of 8 or more bytes that begin with 0xCAFEBABE |
| `ClassFile.SchemaOfClassFiles` | runtime-agent/internal/debug/hotswap.go:342-365 | two well-formed class files pass exactly if constant-pool size and number of methods agree, whatever lies behind their ends |
| `ClassFile.SchemaPanicsExactly` | runtime-agent/internal/debug/hotswap.go:343-349 | the check panics exactly if both files have 8 bytes and the slice of one has no capacity for 10 |
| `ClassFile.SchemaNeverPanics` | runtime-agent/internal/debug/hotswap.go:343-349 | no panic for any capacities exactly if one file is too short or both have 10 bytes |
| `ClassFile.SchemaIgnoresSpare` | runtime-agent/internal/debug/hotswap.go:347-365 | with 10 bytes in both files what lies behind their ends does not matter |
| `ClassFile.ShortFilesCompared` | runtime-agent/internal/debug/hotswap.go:347-349 | files of 8 bytes with spare capacity are judged by the two bytes behind their ends |
| `ClassFile.HotSwapManager.ValidateSchemaCompatibility` | runtime-agent/internal/debug/hotswap.go:342-365 | the verdict on any two slices, by their bytes and what their capacities cover, panic included |
| `ClassFile.MethodsChangedEstimate` | runtime-agent/internal/debug/hotswap.go:477-509 | never more than the number of methods, else a fiftieth of the difference in size but at least one; positive exactly if the number of methods is the same and positive and the sizes differ |
| `ClassFile.HotSwapManager.RedefineClass` | runtime-agent/internal/debug/hotswap.go:104-158 | completes exactly on supported, valid and compatible bytes, panics exactly with the schema check; records every result that is returned; keeps the first accepted original as backup |
| `ClassFile.HotSwapManager.Record` | runtime-agent/internal/debug/hotswap.go:511-516 | the history is always the newest 100 of all recorded results |
| `JdwpPayload.IntRoundTrip` | runtime-agent/internal/debug/jdwp.go:194-201 | a written int32 reads back |
| `JdwpPayload.LongRoundTrip` | runtime-agent/internal/debug/jdwp.go:204-211 | a written int64 reads back |
| `JdwpPayload.StringRoundTrip` | runtime-agent/internal/debug/jdwp.go:257-271 | a length-prefixed string shorter than 2^31 reads back |
| `Bytes.BigEndian` | runtime-agent/internal/debug/jdwp.go:99-125 | all integers are read in network byte order |
| `JdwpPayload.IdRoundTrip` | runtime-agent/internal/debug/jdwp.go:396-402 | what an ID reads back as; the same exactly if it is 8 bytes wide or fits 4 |
| `JdwpPayload.OnlyFourCuts` | runtime-agent/internal/debug/hotswap.go:531-545 | an ID under the effective size reads back the same exactly if the JVM did not ask for 4 bytes or it fits them |
| `JdwpPayload.IdBytesExact` | runtime-agent/internal/debug/jdwp.go:234-244 | an ID read from 4 or 8 bytes is written back as the same bytes |
| `JdwpPayload.TaggedRoundTrip` | runtime-agent/internal/debug/jdwp.go:274-329 | for every tag and value what is read back: an error exactly for unknown tags, the same value exactly if well typed |
| `JdwpPayload.TagCodes` | runtime-agent/internal/debug/jdwp.go:53-70 | which tag codes stand for which kind of value, and that there are no others |
| `JdwpPayload.ConvertedIsIdentity` | runtime-agent/internal/debug/jdwp.go:416-522 | the writer leaves a value alone exactly if it has its tag's type |
| `JdwpPayload.ConversionKeepsNumber` | runtime-agent/internal/debug/jdwp.go:437-514 | a number of a type the tag takes is written as itself exactly if it is in range, of any other type as zero |
| `JdwpPayload.OthersAreZero` | runtime-agent/internal/debug/jdwp.go:416-522 | a value of a type the tag does not take is written as zeros, as many bytes as the tag's type has |
| `JdwpPayload.TaggedSequenceRoundTrip` | runtime-agent/internal/debug/jdwp.go:321-329 | any sequence of well-typed tagged values reads back unchanged with the cursor at the end |
| `JdwpPayload.RedefineCommandRecoverable` | runtime-agent/internal/debug/hotswap.go:531-545 | the list of redefinitions is recoverable from the command data for both ID sizes, to the last byte |
| `JdwpPayload.ClassRefsRecoverable` | runtime-agent/internal/debug/jdwp_conn.go:160-186 | the encoded list of class references is decoded to that list for both ID sizes |
| `JdwpPayload.ClassRefsPanicExactly` | runtime-agent/internal/debug/jdwp_conn.go:166-170 | decoding panics exactly on a negative count |
| `JdwpPayload.ClassesFromReply` | runtime-agent/internal/debug/jdwp_conn.go:160-186 | the decode loop on any reply data: the list, the first read error, or the panic |
| `JdwpPayload.JDWPDataReader.ReadString` | runtime-agent/internal/debug/jdwp.go:257-271 | the string at the cursor or the error, and where the cursor is left in each case |
| `JdwpPayload.JDWPDataReader.ReadTaggedValue` | runtime-agent/internal/debug/jdwp.go:322-329 | the tagged value at the cursor, with the cursor behind it, or behind the tag alone if the value cannot be read |
| `JdwpPayload.JDWPDataReader.ReadUntaggedValue` | runtime-agent/internal/debug/jdwp.go:274-299 | the value of the tag's type at the cursor; the cursor moves only on success |
| `JdwpPayload.JDWPDataReader.ReadID` | runtime-agent/internal/debug/jdwp.go:234-244 | sign-extended 4-byte or plain 8-byte ID, an error for other sizes |
| `JdwpPayload.JDWPDataWriter.WriteTaggedValue` | runtime-agent/internal/debug/jdwp.go:416-522 | appends the tag and the converted value, for every dynamic type including nil and unknown tags |
| `JdwpPayload.JDWPDataWriter.WriteID` | runtime-agent/internal/debug/jdwp.go:396-402 | appends the low 4 bytes or all 8 |
| `JdwpPayload.JDWPDataWriter.BuildRedefineClassesCommandWithSizes` | runtime-agent/internal/debug/hotswap.go:531-545 | builds the RedefineClasses command data, with sizes other than 4 and 8 replaced by 8 |
| `JdwpPacket.PacketRoundTrip` | runtime-agent/internal/debug/jdwp.go:97-161 | a written packet is read back unchanged exactly if it is within 32 MB, has its length filled in, and carries no error code or, as a reply, no command fields |
| `JdwpPacket.PacketDelivered` | runtime-agent/internal/debug/jdwp.go:97-161 | what is read of a written packet: the packet with its length filled in and no error code, exactly if it is within 32 MB and, as a reply, carries no command fields |
| `JdwpPacket.PacketLayout` | runtime-agent/internal/debug/jdwp.go:97-114 | where length, id, flags, command fields and data stand in a written packet, and in which byte order |
| `JdwpPacket.CommandRoundTrip` | runtime-agent/internal/debug/jdwp.go:97-161 | with flags other than 0x80 id, flags, command fields and data survive whenever the size limit is kept |
| `JdwpPacket.StreamFraming` | runtime-agent/internal/debug/jdwp.go:117-161 | from the concatenation of any written packets the received ones are read in order and exactly all bytes consumed, exactly if every packet is within 32 MB and no reply carries command fields |
| `JdwpPacket.CommandStreamFraming` | runtime-agent/internal/debug/jdwp.go:97-161 | every sequence with flags other than 0x80 and data within the limit, with any length fields: ids, flags, command fields and data come back in order, to the last byte |
| `JdwpPacket.StreamUnchanged` | runtime-agent/internal/debug/jdwp.go:97-161 | a stream comes back unchanged exactly if every packet has its length filled in and no error code as well |
| `JdwpPacket.JDWPConn.ReadPacket` | runtime-agent/internal/debug/jdwp.go:117-161 | the packet at the read position of what has arrived by the deadline, or the failure, and the position behind it |
| `JdwpPacket.JDWPConn.WritePacket` | runtime-agent/internal/debug/jdwp.go:97-114 | appends exactly the packet's bytes, or as many as the connection takes before it fails |
| `JdwpPacket.JDWPConn.Send` | runtime-agent/internal/debug/jdwp_conn.go:229-266 | sends one command under the next id, wrapping at 32 bits; a write error, the deadline, or the end of the wait for its reply decides the result |
| `JdwpPacket.ReplyExactly` | runtime-agent/internal/debug/jdwp_conn.go:245-265 | a reply is returned exactly if all packets before it are events or replies with smaller ids without errors and it carries the command's id |
| `JdwpPacket.OtherwiseExactly` | runtime-agent/internal/debug/jdwp_conn.go:245-265 | the wait ends with a mismatch exactly if the first packet that is not skipped carries a greater id, and in all other cases with a read error |
| `JdwpPacket.ErrorBranchDead` | runtime-agent/internal/debug/jdwp_conn.go:261-263 | the branch for a matching reply with an error code is never reached |
| `JdwpPacket.StaleErrorEndsWait` | runtime-agent/internal/debug/jdwp_conn.go:246-249 | an error reply to any command ends the wait |
| `JdwpPacket.CommandFieldsAreError` | runtime-agent/internal/debug/jdwp.go:135-150 | command fields in a written reply are read as its error code |
| `JdwpPacket.StaleErrorExample` | runtime-agent/internal/debug/jdwp_conn.go:245-260 | two packets for which a good reply is lost behind a stale error |
| `SearchJoin.StepInv` | kairo-audit/regression/guards.go:97-144 | every step of every goroutine keeps conservation, coordination and batch shapes |
| `SearchJoin.NoDeadlock` | kairo-audit/regression/guards.go:97-144 | unless all goroutines are gone one of them can move, whatever the consumer's failure and a full channel |
| `SearchJoin.StepDecreases` | kairo-audit/regression/guards.go:97-144 | every step decreases the measure |
| `SearchJoin.RunsTerminate` | kairo-audit/regression/guards.go:97-144 | every run has at most 3n + 16 steps, and one that cannot go on has returned and left no goroutine |
| `SearchJoin.NothingLostUntilError` | kairo-audit/regression/guards.go:104-134 | until an error delivered batches, pending batch, channel and unsent items are all items in order |
| `SearchJoin.DeliveredIsPrefix` | kairo-audit/regression/guards.go:122-134 | in every reachable state the delivered items, and the rejected batch after them, are a prefix |
| `SearchJoin.NilOutcome` | kairo-audit/regression/guards.go:119-143 | after a nil return what was sent was delivered in order, in full batches but the last; the producer is stopped short only by the caller's cancellation |
| `SearchJoin.ErrorOutcome` | kairo-audit/regression/guards.go:124-134 | after an error all batches delivered before were full |
| `SearchJoin.FailureIsLast` | kairo-audit/regression/guards.go:124-134 | no onBatch call after a failing one |
| `SearchJoin.FailureCancels` | kairo-audit/regression/guards.go:122-131 | a failing onBatch in the loop cancels the producer at once and for good |
| `SearchJoin.NilAfterCancel` | kairo-audit/regression/guards.go:109-143 | for any positive number of items, a run that returns nil and delivers nothing |
| `SearchJoin.NilDeliversAllExactly` | kairo-audit/regression/guards.go:97-144 | every nil return delivers all items exactly if there are none |
| `SearchJoin.NilWithoutCancel` | kairo-audit/regression/guards.go:97-144 | in every run without a cancellation by the caller a nil return delivers all items |
| `SearchJoin.RunSearchWithJoin` | kairo-audit/regression/guards.go:97-144 | returns under every schedule, with the prefix, batch-size and completeness guarantees |
| `OperationRegistry.PrintInjective` | runtime-agent/internal/api/operation_registry.go:30-32 | printed keys tell keys apart when kind and request id hold no colon |
| `OperationRegistry.PrintInjectiveExactly` | runtime-agent/internal/api/operation_registry.go:30-32 | a key is told apart from all keys with colon-free request ids exactly if its own request id holds no colon |
| `OperationRegistry.PrintCollision` | runtime-agent/internal/api/operation_registry.go:30-32 | a request id that starts with a kind and a colon gives two different keys one text |
| `OperationRegistry.EvictionKeepsExecuting` | runtime-agent/internal/api/operation_registry.go:282-306 | eviction never takes an executing record |
| `OperationRegistry.EvictedEntries` | runtime-agent/internal/api/operation_registry.go:282-292 | below the limit nothing is evicted, else every entry finished for longer than the ttl |
| `OperationRegistry.EvictedOldest` | runtime-agent/internal/api/operation_registry.go:293-305 | beyond those at most one entry goes, when the limit is still reached, and none left has finished earlier |
| `OperationRegistry.GrantKeepsSize` | runtime-agent/internal/api/operation_registry.go:120-135 | the table outgrows its limit only while everything in it is executing |
| `OperationRegistry.ClaimExactly` | runtime-agent/internal/api/operation_registry.go:108-152 | in every reachable state: execute exactly if the record is new; conflict exactly if the resident one has another payload hash; else replay exactly if it has finished and wait exactly if it is executing |
| `OperationRegistry.NoForeignPayload` | runtime-agent/internal/api/operation_registry.go:138-148 | no claim executes, waits for or replays an operation of another payload or another key text |
| `OperationRegistry.ReplayIsLastReport` | runtime-agent/internal/api/operation_registry.go:169-251 | what a replay hands out, however much later, is the status, outcome and response of the last report on its record, by key or by request id; an empty response leaves the one before |
| `OperationRegistry.ReportByKey` | runtime-agent/internal/api/operation_registry.go:169-189 | a report by key is on the resident record, and on a new one exactly if there is none; for an empty request id there is no report |
| `OperationRegistry.ReportById` | runtime-agent/internal/api/operation_registry.go:212-230 | a report by request id is on one resident record that has it, if there is any, and otherwise changes nothing |
| `OperationRegistry.NextInv` | runtime-agent/internal/api/operation_registry.go:108-251 | every atomic step of every caller keeps the invariant on records, waiters and the history of grants |
| `OperationRegistry.AtMostOneExecution` | runtime-agent/internal/api/operation_registry.go:108-136 | in every reachable state: between two grants for one key the first record was reported finished and then evicted, so at most one is outstanding |
| `OperationRegistry.OutstandingIsResident` | runtime-agent/internal/api/operation_registry.go:123-136 | an outstanding grant's record is executing, resident and its done channel open |
| `OperationRegistry.NoLostWaiter` | runtime-agent/internal/api/operation_registry.go:150-165 | a parked caller's record has its payload hash and is closed, once, or executing and resident under its key |
| `OperationRegistry.FinishWakes` | runtime-agent/internal/api/operation_registry.go:169-209 | Finish on the key closes the record of everyone parked under it |
| `OperationRegistry.WakeExactly` | runtime-agent/internal/api/operation_registry.go:155-162 | a woken caller gets its own finished record exactly if nothing else has been filed under the key |
| `OperationRegistry.WakeMaySeeLaterExecution` | runtime-agent/internal/api/operation_registry.go:155-162 | a run in which it gets another payload's executing record instead |
| `OperationRegistry.OperationRegistry.EvictExpired` | runtime-agent/internal/api/operation_registry.go:282-307 | below the limit nothing; else the expired entries go, and if that is not enough one oldest finished entry |
| `OperationRegistry.OperationRegistry.FindOldest` | runtime-agent/internal/api/operation_registry.go:293-302 | a finished entry that no other finished before, or none |
| `OperationRegistry.OperationRegistry.Claim` | runtime-agent/internal/api/operation_registry.go:108-152 | the locked part of ClaimOrWait: evict, then grant, conflict, replay or wait |
| `OperationRegistry.OperationRegistry.LookupAfterWake` | runtime-agent/internal/api/operation_registry.go:156-162 | a woken caller gets a record of its own key, the one it waited for exactly if the key is free or still maps to it, and otherwise the resident one |
| `OperationRegistry.OperationRegistry.FinishOperation` | runtime-agent/internal/api/operation_registry.go:169-209 | updates the resident record or files a new finished one, closing its channel if it was open |
| `OperationRegistry.OperationRegistry.FinishByRequestID` | runtime-agent/internal/api/operation_registry.go:212-251 | updates some resident record with that request id, or nothing if there is none |
| `RateLimiter.WindowBound` | runtime-agent/internal/api/rate_limiter.go:57-114 | in any window of any run, clean-ups included, one client is admitted at most rate + rate * T / 60 times |
| `RateLimiter.RefusedExactly` | runtime-agent/internal/api/rate_limiter.go:57-88 | the converse of the window bound: a request is refused exactly if, with it, some window that ends then would exceed rate plus rate per minute of its length |
| `RateLimiter.CleanupUnobservable` | runtime-agent/internal/api/rate_limiter.go:104-114 | with clean-ups at any times every request is answered as if no bucket were ever deleted |
| `RateLimiter.IdleIsFull` | runtime-agent/internal/api/rate_limiter.go:78-88 | a bucket idle for more than five minutes is full at the next request |
| `RateLimiter.RequestKeepsRange` | runtime-agent/internal/api/rate_limiter.go:57-88 | tokens stay between 0 and rate |
| `RateLimiter.RateLimiter.Allow` | runtime-agent/internal/api/rate_limiter.go:57-76 | refills and draws on the client's own bucket only, a full one if there is none |
| `RateLimiter.RateLimiter.Refill` | runtime-agent/internal/api/rate_limiter.go:78-88 | adds rate per minute elapsed, capped at rate |
| `RateLimiter.RateLimiter.Cleanup` | runtime-agent/internal/api/rate_limiter.go:104-114 | deletes exactly the buckets idle for more than the interval |
| `BreakpointCondition.FindOperatorIndex` | runtime-agent/internal/debug/breakpoint.go:1269-1291 | the least index at which the operator stands with as many parentheses closed before it as opened, or none if there is none |
| `BreakpointCondition.ScanFindsFirst` | runtime-agent/internal/debug/breakpoint.go:1269-1291 | the same of the scan from any position |
| `BreakpointCondition.FindsOperator` | runtime-agent/internal/debug/breakpoint.go:1269-1291 | in a printed compound the scanner finds the operator where the printer put it |
| `BreakpointCondition.OperatorInRun` | runtime-agent/internal/debug/breakpoint.go:1280-1287 | in a run of ampersands the operator is the last two, in a run of bars the first two, also at the end of the text |
| `BreakpointCondition.PrintedReparses` | runtime-agent/internal/debug/breakpoint.go:1214-1265 | a printed tree without its outermost parentheses parses back to itself exactly if negations are of simple conditions only and never left operands |
| `BreakpointCondition.NotFreeRoundTrip` | runtime-agent/internal/debug/breakpoint.go:1515-1529 | every tree without negations survives printing and parsing and means the same |
| `BreakpointCondition.EvaluateIsNormalForm` | runtime-agent/internal/debug/breakpoint.go:1294-1318 | every tree, negations included, is true exactly if a clause of its disjunctive normal form has all its literals true; a missing tree and an empty condition are true |
| `BreakpointCondition.ParsePrinted` | runtime-agent/internal/debug/breakpoint.go:1214-1265 | with all parentheses a tree parses back exactly if it is a negated simple condition |
| `BreakpointCondition.NegatedConjunctionLost` | runtime-agent/internal/debug/breakpoint.go:1221-1229 | a negated conjunction parses to one negated unknown condition |
| `BreakpointCondition.AndSplitFirst` | runtime-agent/internal/debug/breakpoint.go:1232-1263 | a conjunction sign is split before a disjunction sign whichever stands first, so "a or b and c" means "(a or b) and c" |
| `BreakpointCondition.ParseUnparenthesised` | runtime-agent/internal/debug/breakpoint.go:1232-1263 | a text without parentheses is split at its first conjunction sign, and at its first disjunction sign only if it has none of the former |
| `BreakpointCondition.LeadingOperator` | runtime-agent/internal/debug/breakpoint.go:1232-1263 | an operator in front of everything has a missing left side |
| `BreakpointCondition.PaddingIgnored` | runtime-agent/internal/debug/breakpoint.go:1214-1218 | white space around a condition makes no difference |
| `HitCount.StopsTotal` | runtime-agent/internal/debug/breakpoint.go:341-365 | n hits from zero stop n div k times for MOD, once for EQ in range, and so on, for every mode and target |
| `HitCount.LoggedAppend` | runtime-agent/internal/debug/debug_state.go:178-211 | the log of a run of hits grows hit by hit |
| `HitCount.StateSinceLifeCycle` | runtime-agent/internal/debug/debug_state.go:184-207 | after the last start of the program the state is running until the first stopping event and suspended from there on, after its end terminated |
| `HitCount.StateBetween` | runtime-agent/internal/debug/debug_state.go:184-207 | without a start or an end only a running program is suspended, exactly if a stopping event occurs |
| `HitCount.BreakpointManager.FindMatch` | runtime-agent/internal/debug/breakpoint.go:169-178 | some breakpoint with the request id, or else the one with that local id, or none |
| `HitCount.BreakpointManager.RecordHitAndShouldStop` | runtime-agent/internal/debug/breakpoint.go:165-191 | counts the hit on one matching breakpoint only, and stops exactly if enabled, its condition holds and its filter lets it through |
| `HitCount.DebugStateMachine.HandleEvent` | runtime-agent/internal/debug/debug_state.go:174-216 | a hit is counted on one matching breakpoint and logged exactly if that is enabled, its condition holds and its filter stops; other events are always logged; the log gains the event if and only if the state moves by it |
| `HitCount.DebugStateMachine.HandleHits` | runtime-agent/internal/debug/debug_state.go:174-216 | a run of hits on a plain breakpoint starting at count 0: the log gains exactly the stopping hits, in the closed-form number |
| `AntProperties.ResolveProp` | runtime-agent/internal/antpath/resolver.go:126-150 | ten rounds of substitution, cut short only at a fixpoint |
| `AntProperties.RoundsRefine` | runtime-agent/internal/antpath/resolver.go:131-144 | rounds on the text are rounds on its literal and reference tokens |
| `AntProperties.RoundsAreExpansion` | runtime-agent/internal/antpath/resolver.go:129-148 | for acyclic definitions n rounds equal full recursive expansion exactly if references nest at most n deep |
| `AntProperties.ResolvedText` | runtime-agent/internal/antpath/resolver.go:126-150 | the text resolved is the full expansion up to depth ten, and beyond that still holds a defined reference |
| `AntProperties.EnvironmentReference` | runtime-agent/internal/antpath/resolver.go:131-146 | a reference to an environment variable is replaced by the property of that name, else by the variable unless empty, else it stays |
| `AntProperties.EnvironmentFirst` | runtime-agent/internal/antpath/resolver.go:101-109 | a value that is nothing but such a reference takes the variable even if there is a property of that name |
| `AntProperties.FixpointIsExpanded` | runtime-agent/internal/antpath/resolver.go:111-123 | values that a whole pass leaves alone are full expansions, however deep the definitions are nested |
| `AntProperties.RoundsLowerRanks` | runtime-agent/internal/antpath/resolver.go:129-148 | every round brings the remaining references at least one rank down |
| `AntProperties.BuildProject.ResolveEnvironment` | runtime-agent/internal/antpath/resolver.go:101-109 | values that name a set environment variable are replaced by it |
| `AntProperties.BuildProject.ResolvePass` | runtime-agent/internal/antpath/resolver.go:111-123 | one pass in any order, in place, keeps every full expansion and brings the remaining references of every property ten ranks down |
| `AntProperties.BuildProject.ResolveProperties` | runtime-agent/internal/antpath/resolver.go:100-124 | under acyclic definitions nested at most 30 deep, or 1330 if environment values hold no references, every property ends as its full recursive expansion after at most three passes in any order |
| `ContextPath.NormalizeExactly` | runtime-agent/internal/catalinabase/planner.go:59-122 | accepted exactly without ".." and with admissible segments; the normal form is that of the segments |
| `ContextPath.ReservedExactly` | runtime-agent/internal/catalinabase/planner.go:111-119 | the reserved names are the Windows device names, in any case |
| `ContextPath.RejectedExactly` | runtime-agent/internal/catalinabase/planner.go:59-122 | why a path is rejected: "..", else a colon, else the end of the first inadmissible segment or that it is a device name; names and segments are never found empty |
| `ContextPath.Idempotent` | runtime-agent/internal/catalinabase/planner.go:59-95 | normalising a normal form changes nothing |
| `ContextPath.SameNormalForm` | runtime-agent/internal/catalinabase/planner.go:59-95 | two accepted paths normalise equally exactly if their segments are the same |
| `ContextPath.AcceptedShape` | runtime-agent/internal/catalinabase/planner.go:83-122 | an accepted non-root path is "/" plus its directory name, whose segments are admissible |
| `ContextPath.SameDirectory` | runtime-agent/internal/catalinabase/planner.go:59-95 | two accepted paths share a directory exactly if they have the same segments or are the root and /ROOT |
| `AgentHandover.StateFile.WriteAgentStateAtomic` | runtime-agent/internal/api/lifecycle.go:28-64 | exactly when a write is refused, by a newer generation or by a ready record of another pid against a starting one; every other write lands |
| `AgentHandover.StateFile.RemoveAgentState` | runtime-agent/internal/api/lifecycle.go:86-106 | removes exactly a record of no later generation that is its own or nobody's |
| `AgentHandover.WriteLands` | runtime-agent/internal/api/lifecycle.go:40-60 | over no record, an older one or one of its own every write lands, and over one of its generation every write but that of a starting record |
| `AgentHandover.OrdinaryStart` | runtime-agent/internal/api/lifecycle.go:40-60 | a process that becomes ready replaces its own starting record |
| `AgentHandover.OwnRecordRemoved` | runtime-agent/internal/api/lifecycle.go:86-106 | a process that leaves removes the record it has left |
| `AgentHandover.OwnWritesLand` | runtime-agent/internal/api/server.go:601-668 | over every run of a chain without a later leftover every ready record lands, and every successor's starting record |
| `AgentHandover.ReadyLandsExactly` | runtime-agent/internal/api/lifecycle.go:40-47 | ready records always land exactly if the chain does not start on a later generation's record |
| `AgentHandover.GenerationNeverDecreases` | runtime-agent/internal/api/lifecycle.go:41-47 | while the file exists its generation never decreases, over any steps of any processes |
| `AgentHandover.ReadyNotReplacedByStarting` | runtime-agent/internal/api/lifecycle.go:48-51 | over any stretch of any run in one generation: a ready record becomes another pid's starting record only by way of a removal, a handing-over or failed record, or its own pid's starting record |
| `AgentHandover.NewerRecordsSpared` | runtime-agent/internal/api/server.go:592-689 | over every run of a restart chain no process changes a record of a later generation |
| `AgentHandover.LeftoverIsTouched` | runtime-agent/internal/api/server.go:601-607 | a chain that starts on a later generation's leftover may change it |
| `AgentHandover.SparedExactly` | runtime-agent/internal/api/server.go:601-668 | later records are always spared exactly if the chain does not start on such a leftover |
| `AgentHandover.HandoverSafe` | runtime-agent/internal/api/server.go:601-668 | for every run from any file: once the file holds a record of a process's own generation after that process has written, be it starting, ready or failed, no earlier generation's write or removal changes the file again |

## Left out

- Goroutine locks: a critical section is one atomic step; readers' locks are not modelled.
- Cross-process atomicity of the state file: the lock in lifecycle.go is local to a process, so two processes could interleave between check and rename; the model takes check and write as one step, and check and removal as one.
- JSON encoding, directories, temporary files and renaming behind the agent-state file: the file holds a record, garbage or nothing.
- Running out of memory: a positive class count in a reply is allocated, however large.
- 32-bit platforms: Go's int is taken to be 64 bits wide, so attribute lengths of a class file do not go negative.
- IEEE arithmetic: rate-limiter tokens are real numbers, JDWP floating-point values are their bits.
- Non-Latin white space in breakpoint conditions, and bytes against characters: texts are sequences of characters.
- Evaluation of simple breakpoint conditions (regular expression and number parsing): any function of the text.
- Instance, thread and stack-depth filters of enhanced breakpoints: independent checks in a row.
- Listeners and timestamps of debug events, Reset, Connect and the plain state setters: they do not touch what is proved here.
- Ant paths, filesets and imports: file-system lookups around the property expansion.
- Values whose literal parts hold a dollar sign: the text-level loop is modelled for all texts, the comparison with recursive expansion for texts of literal and reference tokens.
- Rollback, method replacement and capability queries of the hot-swap manager: simple updates of the maps and the history.
- DefaultPlanner.Plan: presence checks around the normalisation.
- extractIP and the HTTP middleware of the rate limiter: the client address is a parameter.
- HashPayload: any string stands for a hash, so nothing is said about colliding payloads.
- GetStatus and GetStatusByRequestID: read-only copies of a record.
- ListenWithHandoff: port retries do not touch the state file.
- Port assignment, validation warnings and the remaining accessors of the dependency resolver.
- NOT in conditions beyond the exact criterion of PrintedReparses: what other trees parse to is not characterised.
