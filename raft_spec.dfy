/** What a nidus Raft node (nidus/raft.py, `RaftNode`) does with each message, stated on a
    snapshot of the node's state. Each handler of the node is a function from the
    snapshot before the message to the snapshot after it; the class `Raft.RaftNode` is
    proved to follow these functions, and `RaftProps` proves what they guarantee.

    The network is the node's `outbox`, the sequence of every `(to, message)` the node has
    handed to `network.send`; its timers are the sequence of timer `events` it caused. */
module RaftSpec {
  import opened Common
  import opened Log
  import opened State
  import opened KeyValue
  import opened Messages
  import opened Quorum

  /** What the node does to its two timers: `restart_election_timer`, `cancel` of the
      election timer, a new heartbeat `Timer`, `cancel` of the heartbeat timer. */
  datatype TimerEvent =
    | ElectionTimerRestarted
    | ElectionTimerCancelled
    | HeartbeatScheduled
    | HeartbeatCancelled

  /** The node's fixed configuration: its id, its peers' ids, and the cluster table from
      the configuration, which maps a node id to its address. */
  datatype Config = Config(nodeId: NodeId, peers: seq<NodeId>, cluster: map<NodeId, Addr>)

  /** Everything a message handler reads or changes: the `RaftState` fields, the state
      machine's dictionary, the node's own fields, and what it sent and did to its timers. */
  datatype NodeView = NodeView(
    status: Status,
    currentTerm: int,
    votedFor: Option<NodeId>,
    votes: set<NodeId>,
    log: seq<LogEntry>,
    commitIndex: int,
    lastApplied: int,
    matchIndex: map<NodeId, int>,
    nextIndex: map<NodeId, int>,
    data: map<string, string>,
    callbacks: map<int, Addr>,
    leaderId: Option<NodeId>,
    heartbeatTimerSet: bool,
    events: seq<TimerEvent>,
    outbox: seq<Envelope<Message>>)

  /** `self.peers + [self.node_id]`: every node of the cluster, in the order `promote`
      hands them to `become_leader`. */
  function Nodes(cfg: Config): seq<NodeId>
  {
    cfg.peers + [cfg.nodeId]
  }

  function NodeSet(cfg: Config): set<NodeId>
  {
    set n | n in Nodes(cfg)
  }

  /** The cluster table lists every node once: the node is not its own peer. */
  predicate ConfigOk(cfg: Config)
  {
    NoDuplicates(Nodes(cfg))
  }

  /** The leader's bookkeeping: one `match_index` and one `next_index` per node, each
      pointing into the leader's log (`next_index` may point just past its end). */
  predicate LeaderMaps(cfg: Config, v: NodeView)
  {
    v.matchIndex.Keys == NodeSet(cfg) && v.nextIndex.Keys == NodeSet(cfg)
    && (forall n :: n in v.matchIndex ==> -1 <= v.matchIndex[n] < |v.log|)
    && (forall n :: n in v.nextIndex ==> 0 <= v.nextIndex[n] <= |v.log|)
  }

  /** What each role implies: the term is not negative, a candidate or leader has voted
      for itself, and a leader's maps cover the cluster. */
  predicate RoleInv(cfg: Config, v: NodeView)
  {
    0 <= v.currentTerm
    && (v.status != Follower ==> v.votedFor == Some(cfg.nodeId) && cfg.nodeId in v.votes)
    && (v.status == Leader ==> LeaderMaps(cfg, v))
  }

  /** What holds of a node between two messages: the commit index is at least -1,
      everything committed has been applied, and `RoleInv`. */
  predicate Inv(cfg: Config, v: NodeView)
  {
    -1 <= v.commitIndex <= v.lastApplied && RoleInv(cfg, v)
  }

  /** A node that has just been created: `RaftState()` and `restart_election_timer()`. */
  function Initial(data: map<string, string>): NodeView
  {
    NodeView(Follower, 0, None, {}, [], -1, -1, map[], map[], data, map[], None, false,
             [ElectionTimerRestarted], [])
  }

  /** The term of the last log entry, -1 for an empty log. */
  function LastTerm(log: seq<LogEntry>): int
  {
    if |log| > 0 then log[|log| - 1].term else -1
  }

  /** What the source relies on in a message, beyond its type, for the handler to stay
      within the node's lists and dictionaries: a current AppendEntries request has a
      `prev_index` of at least -1; a response to a leader of its term comes from a node of
      the cluster and, when it reports success, reports an index inside the leader's log
      (a failed reply's index is never read); a heartbeat finds a `next_index` inside the
      log for every peer. */
  predicate Acceptable(cfg: Config, v: NodeView, m: Message)
  {
    match m
    case AppendEntriesRequest(_, term, prevIndex, _, _, _) =>
      term >= v.currentTerm ==> prevIndex >= -1
    case AppendEntriesResponse(sender, term, success, matchIndex) =>
      v.status == Leader && term <= v.currentTerm ==> sender in v.matchIndex && (success ==> matchIndex < |v.log|)
    case HeartbeatRequest(_) =>
      forall p :: p in cfg.peers ==> p in v.nextIndex && v.nextIndex[p] <= |v.log|
    case _ => true
  }

  /** `demote`: cancels the heartbeat timer if one was ever started, becomes a follower
      (forgetting the vote), and restarts the election timer. */
  function DemoteStep(v: NodeView): NodeView
  {
    v.(status := Follower, votedFor := None,
       events := v.events + (if v.heartbeatTimerSet then [HeartbeatCancelled] else []) + [ElectionTimerRestarted])
  }

  /** `promote`: becomes leader of all nodes, cancels the election timer and sends itself an
      empty heartbeat request. */
  function PromoteStep(cfg: Config, v: NodeView): NodeView
  {
    v.(status := Leader,
       nextIndex := map n | n in Nodes(cfg) :: |v.log|,
       matchIndex := map n | n in Nodes(cfg) :: -1,
       events := v.events + [ElectionTimerCancelled],
       outbox := v.outbox + [Envelope(cfg.nodeId, HeartbeatRequest(true))])
  }

  /** Whether `apply_any_commits` can index the log: there is nothing to apply, or
      everything up to the commit index is in the log. */
  predicate CanApply(v: NodeView)
  {
    -1 <= v.lastApplied && (v.commitIndex <= v.lastApplied || v.commitIndex < |v.log|)
  }

  /** One iteration of the `apply_any_commits` loop: apply the entry after `last_applied`
      and, as leader, answer the client waiting on it. */
  function ApplyNext(v: NodeView): NodeView
    requires -1 <= v.lastApplied && v.lastApplied + 1 < |v.log|
  {
    var step := ApplyCommand(v.data, v.log[v.lastApplied + 1].item);
    AnswerWaiting(v.(data := step.data, lastApplied := v.lastApplied + 1), step.outcome)
  }

  /** The end of one iteration of the `apply_any_commits` loop: a leader pops the client
      waiting on the entry just applied and sends it the result. */
  function AnswerWaiting(v: NodeView, outcome: Outcome): NodeView
  {
    var i := v.lastApplied;
    if v.status == Leader && i in v.callbacks then
      v.(callbacks := v.callbacks - {i}, outbox := v.outbox + [Envelope(v.callbacks[i], ClientResponse(outcome))])
    else
      v
  }

  /** `apply_any_commits`: while the commit index is past `last_applied`, apply the next
      entry. Only the state machine, the callbacks, what was sent and `last_applied`
      change, and afterwards everything committed has been applied. */
  function ApplyCommits(v: NodeView): (r: NodeView)
    requires CanApply(v)
    ensures r == v.(data := r.data, callbacks := r.callbacks, outbox := r.outbox, lastApplied := r.lastApplied)
    ensures r.lastApplied == Max(v.lastApplied, v.commitIndex)
    decreases v.commitIndex - v.lastApplied
  {
    if v.commitIndex <= v.lastApplied then v else ApplyCommits(ApplyNext(v))
  }

  /** The text a non-leader answers a client with: the address of the node it believes to
      be leader, or "?" when it knows none. */
  function NotLeaderText(cluster: map<NodeId, Addr>, leaderId: Option<NodeId>): string
  {
    "NotLeader: reconnect to " + (if leaderId.Some? && leaderId.value in cluster then cluster[leaderId.value] else "?")
  }

  /** `handle_client_request`: a non-leader redirects the client; the leader appends the
      command to its log in its current term, records that it holds the new entry itself,
      and remembers the client until the entry is applied. */
  function ClientRequestStep(cfg: Config, v: NodeView, sender: Addr, command: Command): NodeView
  {
    if v.status != Leader then
      v.(outbox := v.outbox + [Envelope(sender, ClientResponse(Returned(Some(NotLeaderText(cfg.cluster, v.leaderId)))))])
    else
      var index := |v.log|;
      v.(log := v.log + [LogEntry(v.currentTerm, command)],
         matchIndex := v.matchIndex[cfg.nodeId := index],
         nextIndex := v.nextIndex[cfg.nodeId := index + 1],
         callbacks := v.callbacks[index := sender])
  }

  /** `handle_append_entries_request`. Every request restarts the election timer, makes
      the node a follower (even a stale one does), raises the term to the request's and
      records the sender as leader. A request from an older term is refused. Otherwise the
      entries are spliced in when the log passes the consistency check; on success the
      commit index moves to the leader's, but not past the last entry; the reply reports
      the last index on success and 0 on failure; then committed entries are applied. */
  function AppendEntriesRequestStep(cfg: Config, v: NodeView, req: Message): NodeView
    requires req.AppendEntriesRequest? && Acceptable(cfg, v, req)
    requires -1 <= v.commitIndex <= v.lastApplied
  {
    var v3 := FollowSender(v, req);
    if req.term < v3.currentTerm then
      v3.(outbox := v3.outbox + [Envelope(req.sender, AppendEntriesResponse(cfg.nodeId, v3.currentTerm, false, |v3.log| - 1))])
    else
      ApplyCommits(ReceiveEntries(cfg, v3, req))
  }

  /** The first half of `handle_append_entries_request`, which every request goes through:
      restart the election timer, become a follower, take the later term, and remember the
      sender as leader. */
  function FollowSender(v: NodeView, req: Message): (r: NodeView)
    requires req.AppendEntriesRequest?
    ensures r.status == Follower && r.currentTerm == Max(v.currentTerm, req.term)
    ensures r.log == v.log && r.commitIndex == v.commitIndex && r.lastApplied == v.lastApplied
  {
    var v1 := v.(events := v.events + [ElectionTimerRestarted]);
    var v2 := if v1.status != Follower then DemoteStep(v1) else v1;
    v2.(currentTerm := Max(v2.currentTerm, req.term), leaderId := Some(req.sender))
  }

  /** The part of `handle_append_entries_request` for a request that is not stale, up to
      `apply_any_commits`: the consistency check and splice, the commit index, and the
      reply. */
  function ReceiveEntries(cfg: Config, v: NodeView, req: Message): (r: NodeView)
    requires req.AppendEntriesRequest? && req.prevIndex >= -1
    requires -1 <= v.commitIndex <= v.lastApplied
    ensures CanApply(r)
    ensures r == v.(log := r.log, commitIndex := r.commitIndex, outbox := r.outbox)
  {
    var success := Accepts(v.log, req.prevIndex, req.prevTerm);
    var log := if success then Spliced(v.log, req.prevIndex, FromWireAll(req.entries)) else v.log;
    var commit := if success && req.commitIndex > v.commitIndex then Min(req.commitIndex, |log| - 1) else v.commitIndex;
    var reply := AppendEntriesResponse(cfg.nodeId, v.currentTerm, success, if success then |log| - 1 else 0);
    v.(log := log, commitIndex := commit, outbox := v.outbox + [Envelope(req.sender, reply)])
  }

  /** The `match_index` values in the order of `nodes`, the order in which `become_leader`
      inserted them into the dictionary. */
  function MatchValues(matchIndex: map<NodeId, int>, nodes: seq<NodeId>): (values: seq<int>)
    requires forall n :: n in nodes ==> n in matchIndex
    ensures |values| == |nodes|
  {
    if nodes == [] then [] else MatchValues(matchIndex, nodes[..|nodes| - 1]) + [matchIndex[nodes[|nodes| - 1]]]
  }

  /** The commit rule of `handle_append_entries_response` (Figure 8 of the Raft paper): the
      commit index moves to `index` exactly when a strict majority of the match values
      reach it, the entry there is from the current term, and it lies ahead of the commit
      index; otherwise it stays. */
  function AdvanceCommit(values: seq<int>, log: seq<LogEntry>, term: int, commit: int, index: int): (c: int)
    requires |values| > 0 && index < |log|
    ensures c >= commit
    ensures c != commit ==> c == index && 0 <= c && log[c].term == term && 2 * CountAtLeast(values, c) > |values|
    ensures -1 < index && log[index].term == term && 2 * CountAtLeast(values, index) > |values| && commit < index ==> c == index
  {
    HasConsensusIsMajority(values, index);
    if HasConsensus(values, index) && index > -1 && log[index].term == term && commit < index then index else commit
  }

  /** `handle_append_entries_response`. A reply from a later term demotes the node (without
      adopting the term). A leader then records a success by raising the sender's match
      index and setting its next index just behind it, and a failure by moving the next
      index back by one (not below 0); it sends the sender the entries it still lacks,
      advances the commit index by the Figure 8 rule and applies what is committed. */
  function AppendEntriesResponseStep(cfg: Config, v: NodeView, res: Message): NodeView
    requires res.AppendEntriesResponse? && Acceptable(cfg, v, res) && Inv(cfg, v)
  {
    var v1 := if v.currentTerm < res.term then DemoteStep(v) else v;
    if v1.status != Leader then v1 else ApplyCommits(RecordReply(cfg, v1, res))
  }

  /** The leader's part of `handle_append_entries_response`, up to `apply_any_commits`:
      update the sender's indices, send it what it lacks, and advance the commit index. */
  function RecordReply(cfg: Config, v: NodeView, res: Message): (r: NodeView)
    requires res.AppendEntriesResponse? && v.status == Leader && Inv(cfg, v)
    requires res.sender in v.matchIndex && (res.success ==> res.matchIndex < |v.log|)
    ensures CanApply(r)
  {
    CatchUpAndCommit(cfg, UpdateIndices(cfg, v, res), res.sender)
  }

  /** After updating the indices of node `s`: send `s` an AppendEntries request unless its
      match index is the last entry, and commit up to that match index when a majority
      holds it and it is an entry of the current term. */
  function CatchUpAndCommit(cfg: Config, v: NodeView, s: NodeId): (r: NodeView)
    requires LeaderMaps(cfg, v) && s in v.matchIndex && -1 <= v.commitIndex <= v.lastApplied
    ensures CanApply(r)
  {
    var outbox := if v.matchIndex[s] != |v.log| - 1 then
                    v.outbox + [Envelope(s, FromRaftState(cfg.nodeId, s, v.nextIndex, v.currentTerm, v.log, v.commitIndex))]
                  else v.outbox;
    var commit := AdvanceCommit(MatchValues(v.matchIndex, Nodes(cfg)), v.log, v.currentTerm, v.commitIndex, v.matchIndex[s]);
    v.(outbox := outbox, commitIndex := commit)
  }

  /** The sender's indices after its reply: on success its match index rises to the
      reported one (never falls) and its next index follows it; on failure its next index
      steps back by one, but not below 0. */
  function UpdateIndices(cfg: Config, v: NodeView, res: Message): (r: NodeView)
    requires res.AppendEntriesResponse? && v.status == Leader && Inv(cfg, v)
    requires res.sender in v.matchIndex && (res.success ==> res.matchIndex < |v.log|)
    ensures LeaderMaps(cfg, r) && r == v.(matchIndex := r.matchIndex, nextIndex := r.nextIndex)
  {
    var s := res.sender;
    if res.success then
      var m := Max(res.matchIndex, v.matchIndex[s]);
      v.(matchIndex := v.matchIndex[s := m], nextIndex := v.nextIndex[s := m + 1])
    else
      v.(nextIndex := v.nextIndex[s := Max(0, v.nextIndex[s] - 1)])
  }

  /** The candidate's log is at least as up-to-date as `log` (section 5.4.1 of the Raft
      paper): its last term is later, or the same with at least as many entries. */
  predicate AtLeastAsUpToDate(lastLogIndex: int, lastLogTerm: int, log: seq<LogEntry>)
  {
    lastLogTerm > LastTerm(log) || (lastLogIndex >= |log| - 1 && lastLogTerm == LastTerm(log))
  }

  /** The vote condition as Python parses `a is None or b == c and d`: a node that has not
      voted grants any vote; one that has re-grants it only to the same candidate, and only
      when that candidate's log is at least as up-to-date. */
  predicate GrantsVote(votedFor: Option<NodeId>, candidate: NodeId, lastLogIndex: int, lastLogTerm: int, log: seq<LogEntry>)
  {
    votedFor.None? || (votedFor == Some(candidate) && AtLeastAsUpToDate(lastLogIndex, lastLogTerm, log))
  }

  /** `handle_vote_request`. The election timer restarts. A request from an older term is
      refused. A candidate or leader that sees a later term adopts it and becomes a
      follower; a follower keeps its term. The vote is granted by `GrantsVote` and then
      recorded; the reply carries the node's term. */
  function VoteRequestStep(cfg: Config, v: NodeView, req: Message): NodeView
    requires req.VoteRequest?
  {
    var v1 := v.(events := v.events + [ElectionTimerRestarted]);
    if req.term < v1.currentTerm then
      v1.(outbox := v1.outbox + [Envelope(req.candidate, VoteResponse(cfg.nodeId, v1.currentTerm, false))])
    else
      CastVote(cfg, StepDown(v1, req.term), req)
  }

  /** A candidate or leader that sees the later term `term` adopts it and is demoted; a
      follower is left as it is, term included. */
  function StepDown(v: NodeView, term: int): NodeView
  {
    if term > v.currentTerm && v.status != Follower then DemoteStep(v.(currentTerm := term)) else v
  }

  /** The end of `handle_vote_request`: grant the vote by `GrantsVote` and record it, or
      refuse it; the reply carries the node's term. */
  function CastVote(cfg: Config, v: NodeView, req: Message): NodeView
    requires req.VoteRequest?
  {
    var granted := GrantsVote(v.votedFor, req.candidate, req.lastLogIndex, req.lastLogTerm, v.log);
    v.(votedFor := if granted then Some(req.candidate) else v.votedFor,
       outbox := v.outbox + [Envelope(req.candidate, VoteResponse(cfg.nodeId, v.currentTerm, granted))])
  }

  /** `len(votes) > (len(peers) + 1) // 2`: the votes form a strict majority of the cluster. */
  predicate HasMajority(votes: set<NodeId>, cfg: Config)
  {
    |votes| > (|cfg.peers| + 1) / 2
  }

  /** `handle_vote_response`. A reply from a later term demotes the node (without adopting
      the term). A candidate adds a granted vote and becomes leader once its votes are a
      majority. */
  function VoteResponseStep(cfg: Config, v: NodeView, res: Message): NodeView
    requires res.VoteResponse?
  {
    var v1 := if res.term > v.currentTerm then DemoteStep(v) else v;
    if v1.status != Candidate then v1
    else
      var v2 := if res.voteGranted then v1.(votes := v1.votes + {res.sender}) else v1;
      if HasMajority(v2.votes, cfg) then PromoteStep(cfg, v2) else v2
  }

  /** The vote requests of an election, one per target, in order. */
  function VoteRequests(targets: seq<NodeId>, term: int, candidate: NodeId, log: seq<LogEntry>): (r: seq<Envelope<Message>>)
    ensures |r| == |targets|
  {
    if targets == [] then []
    else VoteRequests(targets[..|targets| - 1], term, candidate, log)
         + [Envelope(targets[|targets| - 1], VoteRequest(term, candidate, |log| - 1, LastTerm(log)))]
  }

  /** `handle_election_request`: becomes a candidate in the next term, restarts the
      election timer and asks every peer for its vote. */
  function ElectionRequestStep(cfg: Config, v: NodeView): NodeView
  {
    var term := v.currentTerm + 1;
    v.(status := Candidate, currentTerm := term, votedFor := Some(cfg.nodeId), votes := {cfg.nodeId},
       events := v.events + [ElectionTimerRestarted],
       outbox := v.outbox + VoteRequests(cfg.peers, term, cfg.nodeId, v.log))
  }

  /** The AppendEntries request a heartbeat sends to `to`; an empty heartbeat drops the
      entries. */
  function HeartbeatFor(cfg: Config, v: NodeView, to: NodeId, empty: bool): Message
    requires to in v.nextIndex && v.nextIndex[to] <= |v.log|
  {
    var m := FromRaftState(cfg.nodeId, to, v.nextIndex, v.currentTerm, v.log, v.commitIndex);
    if empty then m.(entries := []) else m
  }

  /** The heartbeat requests to `targets`, one per target, in order. */
  function Heartbeats(cfg: Config, v: NodeView, targets: seq<NodeId>, empty: bool): (r: seq<Envelope<Message>>)
    requires forall p :: p in targets ==> p in v.nextIndex && v.nextIndex[p] <= |v.log|
    ensures |r| == |targets|
  {
    if targets == [] then []
    else
      var to := targets[|targets| - 1];
      Heartbeats(cfg, v, targets[..|targets| - 1], empty) + [Envelope(to, HeartbeatFor(cfg, v, to, empty))]
  }

  /** `handle_heartbeat_request`: sends every peer an AppendEntries request built from the
      node's state and starts the next heartbeat timer. */
  function HeartbeatRequestStep(cfg: Config, v: NodeView, req: Message): NodeView
    requires req.HeartbeatRequest? && Acceptable(cfg, v, req)
  {
    v.(outbox := v.outbox + Heartbeats(cfg, v, cfg.peers, req.empty),
       events := v.events + [HeartbeatScheduled],
       heartbeatTimerSet := true)
  }

  /** `handle_destroy`: cancels the heartbeat timer if one was started, then the election
      timer. */
  function DestroyStep(v: NodeView): NodeView
  {
    v.(events := v.events + (if v.heartbeatTimerSet then [HeartbeatCancelled] else []) + [ElectionTimerCancelled])
  }

  /** `_handle_message` on a RaftNode: the handler named after the message's type. A
      ClientResponse has none; looking it up raises AttributeError and changes nothing. */
  function Handle(cfg: Config, v: NodeView, m: Message): NodeView
    requires Inv(cfg, v) && Acceptable(cfg, v, m)
  {
    match m
    case ClientRequest(sender, command) => ClientRequestStep(cfg, v, sender, command)
    case ClientResponse(_) => v
    case AppendEntriesRequest(_, _, _, _, _, _) => AppendEntriesRequestStep(cfg, v, m)
    case AppendEntriesResponse(_, _, _, _) => AppendEntriesResponseStep(cfg, v, m)
    case VoteRequest(_, _, _, _) => VoteRequestStep(cfg, v, m)
    case VoteResponse(_, _, _) => VoteResponseStep(cfg, v, m)
    case HeartbeatRequest(_) => HeartbeatRequestStep(cfg, v, m)
    case ElectionRequest => ElectionRequestStep(cfg, v)
  }
}
