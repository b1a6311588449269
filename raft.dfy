/** The nidus Raft node (nidus/raft.py, `RaftNode`) as an object: its `RaftState`, its
    state machine and its own fields are updated in place by one handler per message type.
    Every handler is proved to move the node's snapshot `View()` exactly as the matching
    function of `RaftSpec` does, and to keep `Valid()`, the node invariant proved in
    `RaftProps`. What the node hands to `network.send` is appended to `outbox`; what it does
    to its timers is appended to `events`. */
module Raft {
  import opened Common
  import opened Log
  import opened State
  import opened KeyValue
  import opened Messages
  import opened Quorum
  import opened RaftSpec
  import opened RaftProps
  import Actors

  class RaftNode {
    const nodeId: NodeId
    const peers: seq<NodeId>
    /** The cluster table of the network's configuration: node id to address. */
    const cluster: map<NodeId, Addr>
    const state: RaftState
    const stateMachine: KVStore
    /** Log index to the client waiting for that entry to be applied. */
    var clientCallbacks: map<int, Addr>
    var leaderId: Option<NodeId>
    /** Whether `heartbeat_timer` has ever been set, so is not None. */
    var heartbeatTimerSet: bool
    var events: seq<TimerEvent>
    var outbox: seq<Envelope<Message>>

    function Cfg(): Config
    {
      Config(nodeId, peers, cluster)
    }

    function View(): NodeView
      reads this, state, state.log, stateMachine
    {
      NodeView(state.status, state.currentTerm, state.votedFor, state.votes, state.log.items,
               state.commitIndex, state.lastApplied, state.matchIndex, state.nextIndex,
               stateMachine.data, clientCallbacks, leaderId, heartbeatTimerSet, events, outbox)
    }

    ghost predicate Valid()
      reads this, state, state.log, stateMachine
    {
      ConfigOk(Cfg()) && Inv(Cfg(), View())
    }

    /** `RaftNode(node_id, peers, network, state_machine)`: a fresh `RaftState`, no
        callbacks, no known leader, no heartbeat timer, and a started election timer. */
    constructor (nodeId: NodeId, peers: seq<NodeId>, cluster: map<NodeId, Addr>, stateMachine: KVStore)
      requires ConfigOk(Config(nodeId, peers, cluster))
      ensures this.nodeId == nodeId && this.peers == peers && this.cluster == cluster
      ensures this.stateMachine == stateMachine && fresh(state) && fresh(state.log)
      ensures Valid() && View() == Initial(stateMachine.data)
    {
      this.nodeId := nodeId;
      this.peers := peers;
      this.cluster := cluster;
      this.stateMachine := stateMachine;
      state := new RaftState();
      clientCallbacks := map[];
      leaderId := None;
      heartbeatTimerSet := false;
      events := [];
      outbox := [];
      new;
      RestartElectionTimer();
    }

    /** `restart_election_timer`: cancels the running election timer, if any, and starts a
        new one. */
    method RestartElectionTimer()
      modifies this
      ensures View() == old(View()).(events := old(events) + [ElectionTimerRestarted])
    {
      events := events + [ElectionTimerRestarted];
    }

    /** `demote`. */
    method Demote()
      modifies this, state
      ensures View() == DemoteStep(old(View()))
    {
      if heartbeatTimerSet {
        events := events + [HeartbeatCancelled];
      }
      state.BecomeFollower();
      RestartElectionTimer();
    }

    /** `promote`. */
    method Promote()
      modifies this, state
      ensures View() == PromoteStep(Cfg(), old(View()))
    {
      state.BecomeLeader(peers + [nodeId]);
      events := events + [ElectionTimerCancelled];
      outbox := outbox + [Envelope(nodeId, HeartbeatRequest(true))];
    }

    /** `has_consensus(indx)`: whether the middle of the sorted `match_index` values
        reaches `indx`, which is whether strictly more than half of the nodes hold it. The
        dictionary holds one value per node, which are the values of `MatchValues` only
        because no node is listed twice. */
    method HasConsensus(indx: int) returns (b: bool)
      requires ConfigOk(Cfg()) && state.matchIndex.Keys == NodeSet(Cfg())
      ensures b == Quorum.HasConsensus(MatchValues(state.matchIndex, Nodes(Cfg())), indx)
      ensures b <==> 2 * CountAtLeast(MatchValues(state.matchIndex, Nodes(Cfg())), indx) > |Nodes(Cfg())|
    {
      var values := MatchValues(state.matchIndex, Nodes(Cfg()));
      b := Quorum.HasConsensus(values, indx);
      HasConsensusIsMajority(values, indx);
    }

    /** `apply_any_commits`: applies the committed entries not yet applied, one at a time
        and in log order; a leader answers the client waiting on each. */
    method ApplyAnyCommits()
      requires CanApply(View()) && -1 <= state.lastApplied
      modifies this, state, stateMachine
      ensures View() == ApplyCommits(old(View()))
    {
      ghost var v0 := View();
      while state.commitIndex > state.lastApplied
        invariant CanApply(View()) && ApplyCommits(View()) == ApplyCommits(v0)
        decreases state.commitIndex - state.lastApplied
      {
        ApplyNextEntry();
      }
    }

    /** The body of the `apply_any_commits` loop. */
    method ApplyNextEntry()
      requires -1 <= state.lastApplied && state.lastApplied + 1 < |state.log.items|
      modifies this, state, stateMachine
      ensures View() == ApplyNext(old(View()))
    {
      var entry := state.log.items[state.lastApplied + 1];
      var result := stateMachine.Apply(entry.item);
      state.lastApplied := state.lastApplied + 1;
      AnswerClient(result);
    }

    /** The leader's answer to the client waiting on the entry just applied. */
    method AnswerClient(result: Outcome)
      modifies this
      ensures View() == AnswerWaiting(old(View()), result)
    {
      if state.status == Leader && state.lastApplied in clientCallbacks {
        var client := clientCallbacks[state.lastApplied];
        clientCallbacks := clientCallbacks - {state.lastApplied};
        outbox := outbox + [Envelope(client, ClientResponse(result))];
      }
    }

    /** `handle_client_request`. */
    method HandleClientRequest(req: Message)
      requires Valid() && req.ClientRequest?
      modifies this, state, state.log
      ensures Valid() && View() == ClientRequestStep(Cfg(), old(View()), req.sender, req.command)
    {
      ClientRequestKeepsInv(Cfg(), View(), req.sender, req.command);
      if state.status != Leader {
        var text := NotLeaderText(cluster, leaderId);
        outbox := outbox + [Envelope(req.sender, ClientResponse(Returned(Some(text))))];
        return;
      }
      AppendClientEntry(req.sender, req.command);
    }

    /** The leader's part of `handle_client_request`: its own `append_entries` after its
        last entry, which cannot fail (the source's "This shouldn't happen!" is unreachable),
        then its own indices and the client's callback. */
    method AppendClientEntry(sender: Addr, command: Command)
      requires state.status == Leader
      modifies this, state, state.log
      ensures View() == ClientRequestStep(Cfg(), old(View()), sender, command)
    {
      var prevIndex := |state.log.items| - 1;
      var prevTerm := if prevIndex >= 0 then state.log.items[prevIndex].term else -1;
      var entries := [LogEntry(state.currentTerm, command)];
      ghost var log0 := state.log.items;
      var success := state.AppendEntries(prevIndex, prevTerm, entries);
      if !success {
        assert false;
      }
      assert log0[..prevIndex + 1] == log0;
      var matchIndex := |state.log.items| - 1;
      state.matchIndex := state.matchIndex[nodeId := matchIndex];
      state.nextIndex := state.nextIndex[nodeId := matchIndex + 1];
      clientCallbacks := clientCallbacks[matchIndex := sender];
    }

    /** `handle_append_entries_request`. */
    method HandleAppendEntriesRequest(req: Message)
      requires Valid() && req.AppendEntriesRequest? && Acceptable(Cfg(), View(), req)
      modifies this, state, state.log, stateMachine
      ensures Valid() && View() == AppendEntriesRequestStep(Cfg(), old(View()), req)
    {
      AppendEntriesRequestKeepsInv(Cfg(), View(), req);
      FollowSenderOf(req);
      if req.term < state.currentTerm {
        var res := AppendEntriesResponse(nodeId, state.currentTerm, false, |state.log.items| - 1);
        outbox := outbox + [Envelope(req.sender, res)];
        return;
      }
      AcceptEntries(req);
    }

    /** A request that is not stale: the entries are checked and spliced in, the reply is
        sent, and whatever became committed is applied. */
    method AcceptEntries(req: Message)
      requires req.AppendEntriesRequest? && req.prevIndex >= -1
      requires -1 <= state.commitIndex <= state.lastApplied
      modifies this, state, state.log, stateMachine
      ensures View() == ApplyCommits(ReceiveEntries(Cfg(), old(View()), req))
    {
      ReceiveEntriesFrom(req);
      ApplyAnyCommits();
    }

    /** The start of `handle_append_entries_request`. */
    method FollowSenderOf(req: Message)
      requires req.AppendEntriesRequest?
      modifies this, state
      ensures View() == FollowSender(old(View()), req)
      ensures state.currentTerm == Max(old(state.currentTerm), req.term)
      ensures state.commitIndex == old(state.commitIndex) && state.lastApplied == old(state.lastApplied)
    {
      RestartElectionTimer();
      if state.status != Follower {
        Demote();
      }
      if req.term > state.currentTerm {
        state.currentTerm := req.term;
      }
      if leaderId != Some(req.sender) {
        leaderId := Some(req.sender);
      }
    }

    /** The consistency check, splice, commit index and reply of
        `handle_append_entries_request`. */
    method ReceiveEntriesFrom(req: Message)
      requires req.AppendEntriesRequest? && req.prevIndex >= -1
      requires -1 <= state.commitIndex <= state.lastApplied
      modifies this, state, state.log
      ensures View() == ReceiveEntries(Cfg(), old(View()), req)
    {
      var entries := FromWireAll(req.entries);
      var success := state.AppendEntries(req.prevIndex, req.prevTerm, entries);
      var matchIndex;
      if success {
        matchIndex := |state.log.items| - 1;
        if req.commitIndex > state.commitIndex {
          state.commitIndex := Min(req.commitIndex, matchIndex);
        }
      } else {
        matchIndex := 0;
      }
      var res := AppendEntriesResponse(nodeId, state.currentTerm, success, matchIndex);
      outbox := outbox + [Envelope(req.sender, res)];
    }

    /** `handle_append_entries_response`. */
    method HandleAppendEntriesResponse(res: Message)
      requires Valid() && res.AppendEntriesResponse? && Acceptable(Cfg(), View(), res)
      modifies this, state, stateMachine
      ensures Valid() && View() == AppendEntriesResponseStep(Cfg(), old(View()), res)
    {
      AppendEntriesResponseKeepsInv(Cfg(), View(), res);
      if state.currentTerm < res.term {
        Demote();
      }
      if state.status != Leader {
        return;
      }
      RecordReplyFrom(res);
      ApplyAnyCommits();
    }

    /** The leader's part of `handle_append_entries_response`. */
    method RecordReplyFrom(res: Message)
      requires ConfigOk(Cfg()) && res.AppendEntriesResponse? && state.status == Leader && Inv(Cfg(), View())
      requires res.sender in state.matchIndex && (res.success ==> res.matchIndex < |state.log.items|)
      modifies this, state
      ensures View() == RecordReply(Cfg(), old(View()), res)
    {
      UpdateIndicesFrom(res);
      CatchUpAndCommitFor(res.sender);
    }

    /** Sends node `sender` what it lacks, then commits its match index if a majority
        holds it and it is from the current term. */
    method CatchUpAndCommitFor(sender: NodeId)
      requires ConfigOk(Cfg()) && LeaderMaps(Cfg(), View()) && sender in state.matchIndex
      requires -1 <= state.commitIndex <= state.lastApplied
      modifies this, state
      ensures View() == CatchUpAndCommit(Cfg(), old(View()), sender)
    {
      SendCatchUp(sender);
      CommitFor(sender);
    }

    /** The sending half of `CatchUpAndCommitFor`: an AppendEntries request to the sender
        unless its match index is already the last entry. */
    method SendCatchUp(sender: NodeId)
      requires LeaderMaps(Cfg(), View()) && sender in state.matchIndex
      modifies this
      ensures View() == old(View()).(outbox := if old(state.matchIndex[sender]) != |old(state.log.items)| - 1 then
                          old(outbox) + [Envelope(sender, FromRaftState(nodeId, sender, old(state.nextIndex), old(state.currentTerm), old(state.log.items), old(state.commitIndex)))]
                        else old(outbox))
    {
      if state.matchIndex[sender] != |state.log.items| - 1 {
        var msg := FromRaftState(nodeId, sender, state.nextIndex, state.currentTerm, state.log.items, state.commitIndex);
        outbox := outbox + [Envelope(sender, msg)];
      }
    }

    /** The commit half of `CatchUpAndCommitFor`: the Figure 8 rule at the sender's match
        index, leaving everything else as it was. */
    method CommitFor(sender: NodeId)
      requires ConfigOk(Cfg()) && LeaderMaps(Cfg(), View()) && sender in state.matchIndex
      modifies state
      ensures View() == old(View()).(commitIndex := AdvanceCommit(MatchValues(old(state.matchIndex), Nodes(Cfg())),
                                                    old(state.log.items), old(state.currentTerm),
                                                    old(state.commitIndex), old(state.matchIndex[sender])))
    {
      var index := state.matchIndex[sender];
      var consensus := HasConsensus(index);
      if consensus && index > -1 && state.log.items[index].term == state.currentTerm && state.commitIndex < index {
        state.commitIndex := index;
      }
    }

    /** The sender's `match_index` and `next_index` after its reply. */
    method UpdateIndicesFrom(res: Message)
      requires res.AppendEntriesResponse? && state.status == Leader && Inv(Cfg(), View())
      requires res.sender in state.matchIndex && (res.success ==> res.matchIndex < |state.log.items|)
      modifies state
      ensures View() == UpdateIndices(Cfg(), old(View()), res)
    {
      var sender := res.sender;
      if res.success {
        state.matchIndex := state.matchIndex[sender := Max(res.matchIndex, state.matchIndex[sender])];
        state.nextIndex := state.nextIndex[sender := state.matchIndex[sender] + 1];
      } else {
        state.nextIndex := state.nextIndex[sender := Max(0, state.nextIndex[sender] - 1)];
      }
    }

    /** `handle_vote_request`. */
    method HandleVoteRequest(req: Message)
      requires Valid() && req.VoteRequest?
      modifies this, state
      ensures Valid() && View() == VoteRequestStep(Cfg(), old(View()), req)
    {
      VoteRequestKeepsInv(Cfg(), View(), req);
      RestartElectionTimer();
      if req.term < state.currentTerm {
        outbox := outbox + [Envelope(req.candidate, VoteResponse(nodeId, state.currentTerm, false))];
        return;
      }
      StepDownFor(req.term);
      CastVoteFor(req);
    }

    /** The middle of `handle_vote_request`: a candidate or leader that sees a later term
        takes it and is demoted. */
    method StepDownFor(term: int)
      modifies this, state
      ensures View() == StepDown(old(View()), term)
    {
      if term > state.currentTerm && state.status != Follower {
        state.currentTerm := term;
        Demote();
      }
    }

    /** The end of `handle_vote_request`: the vote check on the node's last log entry, then
        the reply. */
    method CastVoteFor(req: Message)
      requires req.VoteRequest?
      modifies this, state
      ensures View() == CastVote(Cfg(), old(View()), req)
    {
      var lastLogIndex := |state.log.items| - 1;
      var lastLogTerm := if lastLogIndex >= 0 then state.log.items[lastLogIndex].term else -1;
      if state.votedFor.None?
         || (state.votedFor == Some(req.candidate)
             && (req.lastLogTerm > lastLogTerm || (req.lastLogIndex >= lastLogIndex && req.lastLogTerm == lastLogTerm)))
      {
        var msg := VoteResponse(nodeId, state.currentTerm, true);
        state.votedFor := Some(req.candidate);
        outbox := outbox + [Envelope(req.candidate, msg)];
        return;
      }
      outbox := outbox + [Envelope(req.candidate, VoteResponse(nodeId, state.currentTerm, false))];
    }

    /** `handle_vote_response`. */
    method HandleVoteResponse(res: Message)
      requires Valid() && res.VoteResponse?
      modifies this, state
      ensures Valid() && View() == VoteResponseStep(Cfg(), old(View()), res)
    {
      VoteResponseKeepsInv(Cfg(), View(), res);
      if res.term > state.currentTerm {
        Demote();
      }
      if state.status != Candidate {
        return;
      }
      if res.voteGranted {
        state.votes := state.votes + {res.sender};
      }
      if |state.votes| > (|peers| + 1) / 2 {
        Promote();
      }
    }

    /** `handle_heartbeat_request`: one AppendEntries request per peer, in order, then the
        next heartbeat timer. */
    method HandleHeartbeatRequest(req: Message)
      requires Valid() && req.HeartbeatRequest? && Acceptable(Cfg(), View(), req)
      modifies this
      ensures Valid() && View() == HeartbeatRequestStep(Cfg(), old(View()), req)
    {
      HeartbeatRequestKeepsInv(Cfg(), View(), req);
      var sent := HeartbeatMessages(req.empty);
      outbox := outbox + sent;
      events := events + [HeartbeatScheduled];
      heartbeatTimerSet := true;
    }

    /** The loop of `handle_heartbeat_request`: the AppendEntries request for each peer,
        built from the node's state, with its entries dropped when the heartbeat is empty. */
    method HeartbeatMessages(empty: bool) returns (sent: seq<Envelope<Message>>)
      requires forall p :: p in peers ==> p in state.nextIndex && state.nextIndex[p] <= |state.log.items|
      ensures sent == Heartbeats(Cfg(), View(), peers, empty)
    {
      sent := [];
      for i := 0 to |peers|
        invariant sent == Heartbeats(Cfg(), View(), peers[..i], empty)
      {
        var msg := FromRaftState(nodeId, peers[i], state.nextIndex, state.currentTerm, state.log.items, state.commitIndex);
        if empty {
          msg := msg.(entries := []);
        }
        sent := sent + [Envelope(peers[i], msg)];
        assert peers[..i + 1][..i] == peers[..i];
      }
      assert peers[..|peers|] == peers;
    }

    /** `handle_election_request`: a new term as candidate, then one vote request per peer,
        in order. */
    method HandleElectionRequest()
      requires Valid()
      modifies this, state
      ensures Valid() && View() == ElectionRequestStep(Cfg(), old(View()))
    {
      ElectionRequestKeepsInv(Cfg(), View());
      state.BecomeCandidate(nodeId);
      RestartElectionTimer();
      var sent := VoteRequestMessages();
      outbox := outbox + sent;
    }

    /** The loop of `handle_election_request`: a vote request for each peer, naming the
        node's last log index and term. */
    method VoteRequestMessages() returns (sent: seq<Envelope<Message>>)
      ensures sent == VoteRequests(peers, state.currentTerm, nodeId, state.log.items)
    {
      var prevIndex := |state.log.items| - 1;
      var prevTerm := if prevIndex >= 0 then state.log.items[prevIndex].term else -1;
      sent := [];
      for i := 0 to |peers|
        invariant sent == VoteRequests(peers[..i], state.currentTerm, nodeId, state.log.items)
      {
        sent := sent + [Envelope(peers[i], VoteRequest(state.currentTerm, nodeId, prevIndex, prevTerm))];
        assert peers[..i + 1][..i] == peers[..i];
      }
      assert peers[..|peers|] == peers;
    }

    /** `handle_destroy`. */
    method HandleDestroy()
      modifies this
      ensures View() == DestroyStep(old(View()))
    {
      if heartbeatTimerSet {
        events := events + [HeartbeatCancelled];
      }
      events := events + [ElectionTimerCancelled];
    }

    /** `_handle_message`: calls `handle_<msg_type>`. A RaftNode defines a handler for
        every message type except `client_response`, which only clients receive; looking
        that one up raises AttributeError. */
    method HandleMessage(msg: Message) returns (err: Option<PyError>)
      requires Valid() && Acceptable(Cfg(), View(), msg)
      modifies this, state, state.log, stateMachine
      ensures Valid() && View() == Handle(Cfg(), old(View()), msg)
      ensures err.Some? <==> msg.ClientResponse?
      ensures err.Some? ==> err == Some(AttributeError(Actors.HandlerName(MsgType(msg))))
    {
      if msg.ClientResponse? {
        return Some(AttributeError(Actors.HandlerName(MsgType(msg))));
      }
      err := None;
      match msg
      case ClientRequest(_, _) => HandleClientRequest(msg);
      case AppendEntriesRequest(_, _, _, _, _, _) => HandleAppendEntriesRequest(msg);
      case AppendEntriesResponse(_, _, _, _) => HandleAppendEntriesResponse(msg);
      case VoteRequest(_, _, _, _) => HandleVoteRequest(msg);
      case VoteResponse(_, _, _) => HandleVoteResponse(msg);
      case HeartbeatRequest(_) => HandleHeartbeatRequest(msg);
      case ElectionRequest => HandleElectionRequest();
    }
  }
}
