# nidus in Dafny

A model of the core of nidus, a small Raft implementation in Python. Modelled parts:

- the replicated log (`nidus/log.py`);
- the per-node Raft state record (`nidus/state.py`);
- the key-value state machine (`nidus/kvstore.py`);
- length-prefixed message framing (`nidus/transport.py`);
- the message classes, `AppendEntriesRequest.from_raft_state` and the lookup of a class from a payload's `msg_type` (`nidus/messages.py`);
- the synchronous actor system with its dispatch of messages to handlers (`nidus/actors.py`);
- the Raft node itself (`nidus/raft.py`): one handler per message type, the majority test `has_consensus`, `apply_any_commits`, `promote` and `demote`.

The model follows the Python code, quirks included:

- -1 means "no entry".
- A successful `append_entries` always cuts the log back to `prev_index` before appending, so even an empty heartbeat truncates.
- The vote condition parses as `voted_for is None or (voted_for == candidate and up_to_date)`, so a node that has not voted grants its vote without looking at the candidate's log.
- A follower does not adopt the term of a vote request.
- An AppendEntries request demotes any non-follower, even when the request is stale.
- A reply from a later term demotes the node without adopting that term.

Layout:

| file | what it holds |
|---|---|
| `common.dfy` | Python's `None`, its exceptions and its ASCII case mapping |
| `log.dfy` | The log. `EntryList` is the mutated Python list. `append_entries`, `apply_all_entries` and `clear_upto` are methods, proved against the functions `Accepts` and `Spliced`. |
| `state.dfy` | `RaftState`, a class, with its role transitions |
| `kvstore.dfy` | `KVStore`. `apply` is a method proved against the function `ApplyCommand`. |
| `transport.dfy` | `MsgTransport`, over a socket given as the chunks its `recv` calls return. `recv_message` is proved against the function `RecvLoop`. |
| `messages.dfy` | The message datatype, `from_raft_state`, `snakecase_to_camelcase` and `message_from_payload` |
| `quorum.dfy` | `has_consensus` as sort-then-middle, proved to be a strict-majority test |
| `actors.dfy` | `SyncSystem`, a class over a generic actor step function, proved against the functions `Post`, `Visit`, `Pass` and `FlushSpec`; also `_handle_message` |
| `raft_spec.dfy` | Each handler of `RaftNode` as a function on a snapshot `NodeView` of the node |
| `raft.dfy` | `RaftNode`, a class whose handlers update the `RaftState`, the store and the node's fields in place. Each handler is proved to move `View()` as its `RaftSpec` function does. |
| `raft_props.dfy` | What the handlers guarantee, proved on the `RaftSpec` functions |

The network a node sends to is its `outbox`: every `(to, message)` handed to `network.send`, in order. Its two timers are the trace `events` of restarts, cancellations and schedulings.

## Model

| member | source | states |
|---|---|---|
| Log.ClearUpto | nidus/log.py:51-53 | pops from the end until at most `upto` entries remain; what is left is the prefix of that length |
| Log.ApplyAllEntries | nidus/log.py:30-48 | the log becomes the prefix up to `prev_index` followed by all the entries; the overwrite branch at lines 41-45 is proved unreachable |
| Log.AppendEntries | nidus/log.py:13-27 | succeeds exactly when `prev_index` is -1 or the entry there has `prev_term`, and then splices. Out of range or term mismatch: false, log untouched. `prev_index == -1`: the log becomes the entries. |
| Log.AppendEntriesIdempotent | nidus/log.py:37-45 | repeating a successful `append_entries` succeeds again and leaves the log as the first call did |
| State.RaftState.constructor | nidus/state.py:10-19 | a follower in term 0, no vote, no votes, empty log, commit and apply indices -1, empty maps |
| State.RaftState.BecomeLeader | nidus/state.py:21-26 | leader; `next_index` is the log length and `match_index` is -1 for exactly the given nodes; term, vote and log stay |
| State.RaftState.BecomeFollower | nidus/state.py:28-30 | follower with no vote; everything else stays |
| State.RaftState.BecomeCandidate | nidus/state.py:32-36 | candidate in exactly the next term, voted for itself and holding only its own vote |
| State.RaftState.AppendEntries | nidus/state.py:38-39 | the log module's `append_entries` on this node's log; no other field changes |
| KeyValue.KVStore.constructor | nidus/kvstore.py:2-3 | an empty dictionary |
| KeyValue.KVStore.Get | nidus/kvstore.py:5-6 | the stored value, or KeyError for a missing key |
| KeyValue.KVStore.Set | nidus/kvstore.py:8-10 | returns "OK"; the key maps to the value; every other key is unchanged |
| KeyValue.KVStore.Delete | nidus/kvstore.py:12-14 | a present key is removed, "OK"; a missing key raises KeyError and changes nothing; afterwards the key is absent |
| KeyValue.KVStore.Apply | nidus/kvstore.py:16-23 | dispatches on the upper-cased name exactly as `ApplyCommand` specifies: missing arguments raise IndexError, other names return None |
| KeyValue.ApplyCommandChanges | nidus/kvstore.py:16-23 | a command that raises leaves the dictionary alone, and only DEL or SET with a key changes it |
| KeyValue.CommandNameCaseInsensitive | nidus/kvstore.py:17 | a command name and its upper-case spelling give the same result |
| KeyValue.GetAfterSet | nidus/kvstore.py:5-10 | after SET, GET of the same key returns the value set |
| KeyValue.SetIdempotent | nidus/kvstore.py:8-10 | applying the same SET twice is applying it once |
| KeyValue.UnknownCommandIsNoOp | nidus/kvstore.py:16-23 | a name other than GET, DEL or SET returns None and changes nothing |
| Transport.MsgTransport.constructor | nidus/transport.py:6-10 | empty buffer, no size, no received message |
| Transport.MsgTransport.SendMessage | nidus/transport.py:12-14 | the socket receives the 4-byte big-endian length followed by the message |
| Transport.MsgTransport.RecvMessage | nidus/transport.py:16-34 | returns what `RecvLoop` reassembles and keeps its leftover buffer and size; consumes exactly the chunks it used; always calls `recv` at least once |
| Transport.SizeRoundTrip | nidus/transport.py:12-25 | unpacking the packed length gives the length back |
| Transport.FrameRoundTrip | nidus/transport.py:12-34 | however the stream is chunked, the frame of a non-empty message is received as that message, and the bytes after the frame stay buffered |
| Transport.TruncatedFrame | nidus/transport.py:16-20 | a peer that closes mid-frame makes `recv_message` return `b""` after consuming every chunk |
| Transport.EmptyOnlyWhenClosed | nidus/transport.py:17-20 | `b""` is returned only when `recv` returned `b""` |
| Transport.ZeroSizeStalls | nidus/transport.py:27 | once a size of 0 is read, no frame ever completes, since 0 is falsy |
| Transport.ZeroLengthFrameNeverReturned | nidus/transport.py:17-30 | a zero-length message is never delivered, however the chunks split its frame and whatever follows it |
| Transport.ZeroHeaderStalls | nidus/transport.py:17-27 | while a zero header is still arriving (under four bytes buffered), the call returns `b""` once the header completes, whichever chunk completes it |
| Messages.FromRaftState | nidus/messages.py:29-46 | `prev_index` is `next_index[to] - 1`. `prev_term` is that entry's term, or -1 before the log. The entries are exactly the log from `next_index[to]`, and none when it is the log length. The term and commit index are the leader's. |
| Messages.OwnRequestRoundTrip | nidus/messages.py:29-46 | a request built from a leader's state passes the consistency check on the leader's own log, and splicing its entries leaves that log unchanged |
| Messages.WireRoundTrip | nidus/messages.py:39-41 | entries survive the `[term, item]` encoding and `LogEntry(e[0], e[1])` unchanged |
| Messages.SplitJoinRoundTrip | nidus/messages.py:99 | re-joining `split` gives the string back, and no piece holds the separator |
| Messages.SnakeToCamelHasNoUnderscore | nidus/messages.py:98-100 | the result of `snakecase_to_camelcase` has no underscore |
| Messages.SnakeToCamelWords | nidus/messages.py:98-100 | on lower-case words joined by `_` it gives the capitalised words run together |
| Messages.DefaultMsgTypeNamesClass | nidus/messages.py:5-100 | every class's default `msg_type` converts to that class's name |
| Messages.ClassNamesDistinct | nidus/messages.py:86-95 | no two classes share a name |
| Messages.MessageFromPayload | nidus/messages.py:103-108 | returns the unique class named by the converted `msg_type`, and None exactly when no class has that name |
| Messages.ClassNamed | nidus/messages.py:106-108 | the class in `message_classes` with the given name when there is one (and it is the only one), None when no class has that name |
| Messages.PayloadNamesItsClass | nidus/messages.py:103-108 | a message's default `msg_type` selects its own class and no other |
| Quorum.SortSortsAndPermutes | nidus/raft.py:302 | `sorted` gives an ascending permutation of the values |
| Quorum.HasConsensusIsMajority | nidus/raft.py:293-304 | the middle of the sorted values reaches `indx` exactly when strictly more than half the values do |
| Actors.Visit | nidus/actors.py:152-173 | a message is handled exactly when the inbox is non-empty; an exception implies a message was handled; no address is added or removed. A raising handler keeps its changes to the actor and the sends it made before the exception. |
| Actors.Pass | nidus/actors.py:163-173 | a pass keeps the registered addresses, and reports an exception only after handling a message |
| Actors.FlushSpec | nidus/actors.py:158-173 | keeps the registered addresses; a drained flush raised nothing |
| Actors.HandleMessage | nidus/actors.py:177-179 | dispatches to `handle_<msg_type>` and returns exactly what that handler produces. An actor without that handler raises AttributeError naming it, with the actor unchanged and nothing sent. |
| Actors.MissingHandlerOnlyPops | nidus/actors.py:164-179 | in a flush, a message without a handler is only taken off its inbox and raises AttributeError; the actor and every other inbox stay as they were |
| Actors.SyncSystem.constructor | nidus/actors.py:132-135 | no actors, inboxes or dead letters |
| Actors.SyncSystem.Create | nidus/actors.py:137-141 | returns the address; registers the actor with a fresh empty inbox; a new address goes last in the order, a taken one keeps its place |
| Actors.SyncSystem.Destroy | nidus/actors.py:143-146 | removes the actor and its inbox and drops its place in the order; an unknown address raises KeyError and changes nothing |
| Actors.SyncSystem.Shutdown | nidus/actors.py:148-150 | no actors or inboxes remain; dead letters are kept |
| Actors.SyncSystem.Send | nidus/actors.py:152-156 | the message joins the back of the addressee's inbox, or the dead letters when nobody is registered there |
| Actors.SyncSystem.Flush | nidus/actors.py:158-173 | the state and verdict of `FlushSpec`; when drained, every inbox is empty |
| Actors.SyncSystem.RunPass | nidus/actors.py:159-173 | one pass of the flush loop over the addresses in order, as `Pass` |
| Actors.SyncSystem.VisitInbox | nidus/actors.py:164-173 | takes the oldest message, if any, and has the actor handle it, as `Visit` |
| Actors.PostAllDelivers | nidus/actors.py:152-156 | each registered inbox receives exactly the messages addressed to it, in sending order; the dead letters receive exactly those to unknown addresses |
| Actors.VisitIsFifo | nidus/actors.py:164-173 | an actor receives its oldest message; its inbox is then the rest followed by what it sent to itself, and the handler's exception, if any, is reported |
| Actors.QuietPass | nidus/actors.py:159-173 | a pass handles nothing exactly when every inbox is empty, and then changes nothing |
| Actors.PassErrorSticks | nidus/actors.py:163-173 | after a handler raises, the rest of the pass does nothing |
| Actors.FlushDrainedEmpty | nidus/actors.py:158-173 | a drained flush leaves every inbox empty |
| Actors.IdleFlush | nidus/actors.py:158-173 | with all inboxes empty, one pass drains and changes nothing |
| Actors.HandlerNameInjective | nidus/actors.py:178 | distinct message types look up distinct handlers |
| RaftSpec.ApplyCommits | nidus/raft.py:306-324 | afterwards `last_applied` is the larger of itself and the commit index; only the store, callbacks, sends and `last_applied` change |
| RaftSpec.FollowSender | nidus/raft.py:104-115 | every AppendEntries request leaves the node a follower whose term is the larger of its own and the request's; log and indices untouched |
| RaftSpec.ReceiveEntries | nidus/raft.py:125-145 | only the log, the commit index and the sends change, and the committed entries not yet applied lie inside the log |
| RaftSpec.AdvanceCommit | nidus/raft.py:177-188 | the commit index never drops. It moves to `index` exactly when a strict majority reaches it, its entry is of the current term and it is past the commit index. |
| RaftSpec.UpdateIndices | nidus/raft.py:157-166 | only the sender's `match_index` and `next_index` change, and the leader's maps stay inside the log and the cluster |
| Raft.RaftNode.constructor | nidus/raft.py:56-69 | a fresh node satisfying the node invariant: follower, term 0, empty log, no callbacks, no leader, one election-timer restart |
| Raft.RaftNode.RestartElectionTimer | nidus/raft.py:340-349 | records one election-timer restart and changes nothing else |
| Raft.RaftNode.Demote | nidus/raft.py:333-338 | as `DemoteStep`: cancels an existing heartbeat timer, becomes follower without a vote, restarts the election timer |
| Raft.RaftNode.Promote | nidus/raft.py:326-331 | as `PromoteStep`: leader of all nodes, election timer cancelled, an empty heartbeat sent to itself |
| Raft.RaftNode.HasConsensus | nidus/raft.py:293-304 | in a cluster that lists each node once, true exactly when strictly more than half of the cluster's match indices reach `indx` |
| Raft.RaftNode.ApplyAnyCommits | nidus/raft.py:306-324 | the node ends as `ApplyCommits` of where it started |
| Raft.RaftNode.ApplyNextEntry | nidus/raft.py:310-324 | applies the entry after `last_applied` and answers its waiting client, as `ApplyNext` |
| Raft.RaftNode.AnswerClient | nidus/raft.py:318-324 | a leader pops the callback for the applied index and sends the client the result, as `AnswerWaiting` |
| Raft.RaftNode.HandleClientRequest | nidus/raft.py:71-101 | keeps the node invariant. A non-leader redirects. A leader appends the command in its term, records its own indices and the client's callback. |
| Raft.RaftNode.AppendClientEntry | nidus/raft.py:84-101 | the leader's own `append_entries` cannot fail; the log gains exactly the new entry |
| Raft.RaftNode.HandleAppendEntriesRequest | nidus/raft.py:103-146 | keeps the node invariant and moves the node as `AppendEntriesRequestStep` |
| Raft.RaftNode.AcceptEntries | nidus/raft.py:125-146 | the splice, commit index and reply of `ReceiveEntries`, then `ApplyCommits` |
| Raft.RaftNode.FollowSenderOf | nidus/raft.py:104-115 | as `FollowSender`; the term becomes the larger of its own and the request's |
| Raft.RaftNode.ReceiveEntriesFrom | nidus/raft.py:125-145 | as `ReceiveEntries` |
| Raft.RaftNode.HandleAppendEntriesResponse | nidus/raft.py:148-193 | keeps the node invariant and moves the node as `AppendEntriesResponseStep` |
| Raft.RaftNode.RecordReplyFrom | nidus/raft.py:157-191 | as `RecordReply` |
| Raft.RaftNode.CatchUpAndCommitFor | nidus/raft.py:168-191 | as `CatchUpAndCommit` |
| Raft.RaftNode.SendCatchUp | nidus/raft.py:171-175 | sends the sender an AppendEntries request built from the node's state unless its match index is the last log entry; nothing else changes |
| Raft.RaftNode.CommitFor | nidus/raft.py:181-188 | the commit index becomes `AdvanceCommit` at the sender's match index (the Figure 8 rule); nothing else changes |
| Raft.RaftNode.UpdateIndicesFrom | nidus/raft.py:157-166 | as `UpdateIndices` |
| Raft.RaftNode.HandleVoteRequest | nidus/raft.py:195-241 | keeps the node invariant and moves the node as `VoteRequestStep` |
| Raft.RaftNode.StepDownFor | nidus/raft.py:206-211 | as `StepDown` |
| Raft.RaftNode.CastVoteFor | nidus/raft.py:213-241 | as `CastVote` |
| Raft.RaftNode.HandleVoteResponse | nidus/raft.py:243-258 | keeps the node invariant and moves the node as `VoteResponseStep` |
| Raft.RaftNode.HandleHeartbeatRequest | nidus/raft.py:260-274 | keeps the node invariant and moves the node as `HeartbeatRequestStep` |
| Raft.RaftNode.HeartbeatMessages | nidus/raft.py:261-268 | the requests of the peer loop, in peer order, as `Heartbeats` |
| Raft.RaftNode.HandleElectionRequest | nidus/raft.py:276-291 | keeps the node invariant and moves the node as `ElectionRequestStep` |
| Raft.RaftNode.VoteRequestMessages | nidus/raft.py:280-291 | the vote requests of the peer loop, in peer order, as `VoteRequests` |
| Raft.RaftNode.HandleDestroy | nidus/raft.py:351-355 | cancels an existing heartbeat timer, then the election timer |
| Raft.RaftNode.HandleMessage | nidus/actors.py:177-179 | dispatches to the handler of the message's type, keeping the node invariant. A ClientResponse has no handler: it raises AttributeError and nothing else. |
| RaftProps.ApplyCommitsKeepsInv | nidus/raft.py:306-324 | applying restores "everything committed is applied" and keeps the rest of the invariant |
| RaftProps.ClientRequestKeepsInv | nidus/raft.py:71-101 | keeps the invariant; a leader's log grows by exactly the new entry |
| RaftProps.AppendEntriesRequestKeepsInv | nidus/raft.py:103-146 | keeps the invariant; the node is a follower whose term is the larger of the two terms |
| RaftProps.RecordReplyKeepsRole | nidus/raft.py:157-191 | the leader's bookkeeping keeps its maps in range and changes neither role, term nor log |
| RaftProps.AppendEntriesResponseKeepsInv | nidus/raft.py:148-193 | keeps the invariant, the term and the log; nobody becomes leader by it |
| RaftProps.StepDownKeepsInv | nidus/raft.py:206-211 | keeps the invariant and the log, and never lowers the term |
| RaftProps.CastVoteKeepsInv | nidus/raft.py:213-241 | keeps the invariant, and changes only the vote and the sends |
| RaftProps.VoteRequestKeepsInv | nidus/raft.py:195-241 | keeps the invariant and the log, and never lowers the term |
| RaftProps.VoteResponseKeepsInv | nidus/raft.py:243-258 | keeps the invariant; only a candidate becomes leader |
| RaftProps.ElectionRequestKeepsInv | nidus/raft.py:276-291 | keeps the invariant; the node becomes a candidate in exactly the next term |
| RaftProps.HeartbeatRequestKeepsInv | nidus/raft.py:260-274 | changes only the sends and the heartbeat timer |
| RaftProps.HandleKeepsInv | nidus/raft.py:71-291 | every message keeps the node invariant and no message lowers the term |
| RaftProps.ApplyCommitsReplays | nidus/raft.py:306-316 | the store ends as the replay, in log order, of exactly the entries after `last_applied` up to the commit index |
| RaftProps.ApplyCommitsQuietUnlessLeader | nidus/raft.py:318-324 | a non-leader answers no client and sends nothing while applying |
| RaftProps.ApplyCommitsOnlyDropsCallbacks | nidus/raft.py:318-324 | applying only removes callbacks and only adds sends |
| RaftProps.ApplyCommitsAnswersOnce | nidus/raft.py:318-324 | a leader drops the callback of exactly the entries it applies, so each client is answered at most once |
| RaftProps.VoteGrantedIff | nidus/raft.py:195-241 | the vote is granted exactly when the request is not stale and the vote condition holds; the reply carries the node's term; a grant is recorded |
| RaftProps.UnvotedGrantsWithoutLogCheck | nidus/raft.py:219-229 | a node with no vote grants it to any current candidate, however stale its log |
| RaftProps.FollowerVoteSticks | nidus/raft.py:206-241 | a follower that voted refuses other candidates, even of a later term, and keeps its term |
| RaftProps.PromotionNeedsMajority | nidus/raft.py:243-258 | a node becomes leader exactly when it is a candidate, the reply is not from a later term, and its votes are a strict majority |
| RaftProps.MajoritiesIntersect | nidus/raft.py:254 | two vote sets that each pass the majority test share a node |
| RaftProps.ElectionAsksEveryPeer | nidus/raft.py:276-291 | exactly one vote request per peer, in peer order, for the new term with the last log index and term |
| RaftProps.HeartbeatReachesEveryPeer | nidus/raft.py:260-268 | exactly one AppendEntries request per peer, in peer order, built for that peer; empty heartbeats carry no entries |
| RaftProps.HeartbeatToPeer | nidus/raft.py:261-268 | the k-th request a heartbeat appends goes to the k-th peer, built for that peer, without entries when the heartbeat is empty |
| RaftProps.LeaderCommitRule | nidus/raft.py:177-191 | the commit index never drops. It rises only at a leader, to a current-term entry that a strict majority holds. |
| RaftProps.LeaderCommitsMajorityEntry | nidus/raft.py:181-193 | conversely, such an entry is committed and applied |
| RaftProps.FailedReplyStepsBack | nidus/raft.py:159-166 | a refused reply at a leader of its term moves the sender's next index back by one, not below 0, and leaves match indices and log alone, whatever index it carries |
| RaftProps.LeaderAppendOnly | nidus/raft.py:71-291 | a node that stays leader keeps its term and only appends to its log |
| RaftProps.StaleAppendEntriesRefused | nidus/raft.py:103-123 | a stale request is refused with the last index and changes neither log, term nor commit index, yet the node is now a follower of the sender |
| RaftProps.AcceptedEntriesSpliced | nidus/raft.py:125-145 | a current request splices on success, with `min` of the commit indices and the new last index in the reply; on failure the log is untouched and the reply says 0 |
| RaftProps.EmptyHeartbeatTruncates | nidus/log.py:30-35 | an empty heartbeat that passes the check cuts the log back to `prev_index` |
| RaftProps.FollowerCatchesUp | nidus/raft.py:125-145 | a follower agreeing with the leader before its `next_index` ends with exactly the leader's log and reports the leader's last index |

## Left out

- Sockets, TCP, threads and signals: the TCP actor system (`TCPSystem`) and the signal handlers are not part of this model.
- JSON encoding, logging, `config.py` and `__main__.py` are not part of this model.
- `RaftNetwork` is not part of this model. A node's sends are recorded in its `outbox` in order, and no delivery between nodes is modelled.
- Timers are not run. `threading.Timer` starts and cancels are recorded as `events`, and their later `ElectionRequest` or `HeartbeatRequest` is a message the caller may hand in. The random election interval is not modelled.
- Transport.MsgTransport.RecvMessage: `recv(1024)` is modelled as returning the next chunk of any length. The 1024-byte bound is not enforced.
- Common.Upper, Common.Lower: `str.upper`, `str.lower` and `str.capitalize` are modelled on ASCII letters only.
- Messages.MessageFromPayload: returns the class that would be instantiated. Building the instance from the payload's keyword arguments is not modelled, and neither is the TypeError that unknown keywords would raise.
- KeyValue.KVStore.Apply: commands are lists of strings and stored values are strings, as the command-line client sends them. A command item that is not a list of strings (such as the integer `8`) cannot be represented, so the TypeError `apply` would raise on it, and its answer to the client, are not modelled.
- Raft.RaftNode.ApplyAnyCommits: a command that raises is answered with the exception itself (`Raised`), not with its `repr` string.
- Raft.RaftNode.HandleClientRequest: addresses are strings; `tuple(req.sender)` is not modelled.
- Actors.SyncSystem.Flush: it takes a bound on the number of passes. Python's `flush` loops until a pass handles nothing, which need not happen.
- Actors.SyncSystem: actors are values stepped by a handler function that returns the new actor and its sends. A RaftNode object is not plugged into a `SyncSystem`.
- Actors.SyncSystem.Destroy: `handle_destroy` is not called from it, because actors are values there. A node's `handle_destroy` is Raft.RaftNode.HandleDestroy.
- Actors.HandleMessage: a handler that raises comes back as `Failed` with the actor and sends it had reached. Which of its in-place changes happened before the exception is up to the handler function given.
- Raft.RaftNode.HandleMessage: dispatch is a match on the message's constructor, not a `getattr` lookup.
- Raft.RaftNode.HandleAppendEntriesRequest, Raft.RaftNode.HandleAppendEntriesResponse, Raft.RaftNode.HandleHeartbeatRequest: these require `Acceptable`, the message shape the source relies on. Outside it the source raises (or, for a `prev_index` below -1, indexes from the end of the log), which is not modelled:
  - `prev_index` is at least -1 for a request that is not stale;
  - a reply to a leader of its term comes from a node of the cluster (KeyError otherwise). A successful reply reports a match index inside the log; otherwise `from_raft_state` raises IndexError. A failed reply may carry any index, since it is never read.
  - every peer's `next_index` lies inside the log (KeyError or IndexError otherwise).
- Raft.RaftNode.HandleHeartbeatRequest, Raft.RaftNode.HandleElectionRequest: the peer loop builds all its messages first and appends them to `outbox` at once. The order is the source's. Nothing happens between the sends in the source either.
- RaftProps.LeaderAppendOnly: this is a one-message property of a single node. Safety across a cluster (election safety, log matching between nodes) is not stated, since the network is not modelled.
- The tests under `tests/` are not part of this model.
