/** What the handlers of a nidus Raft node guarantee, proved on the functions of
    `RaftSpec`: the node invariant is kept by every message, terms never go back, a leader
    only appends to its log and commits only what a majority holds, the state machine is
    the replay of the applied entries, votes follow the source's (unusual) rule, and one
    AppendEntries request brings an agreeing follower's log level with the leader's. */
module RaftProps {
  import opened Common
  import opened Log
  import opened State
  import opened KeyValue
  import opened Messages
  import opened Quorum
  import opened RaftSpec

  // ---------------------------------------------------------------------------------
  // The node invariant

  /** `apply_any_commits` leaves every committed entry applied and touches neither the
      log, the term, the role, nor the leader's maps; so it restores the invariant after a
      handler has moved the commit index. */
  lemma ApplyCommitsKeepsInv(cfg: Config, v: NodeView)
    requires CanApply(v) && -1 <= v.commitIndex && -1 <= v.lastApplied && RoleInv(cfg, v)
    ensures var r := ApplyCommits(v);
            Inv(cfg, r) && r.lastApplied == Max(v.lastApplied, v.commitIndex)
            && r == v.(data := r.data, callbacks := r.callbacks, outbox := r.outbox, lastApplied := r.lastApplied)
  {
  }

  /** A client request keeps the invariant; a leader's log grows by exactly the new entry. */
  lemma ClientRequestKeepsInv(cfg: Config, v: NodeView, sender: Addr, command: Command)
    requires Inv(cfg, v)
    ensures var r := ClientRequestStep(cfg, v, sender, command);
            Inv(cfg, r) && r.currentTerm == v.currentTerm && r.status == v.status
            && r.log == (if v.status == Leader then v.log + [LogEntry(v.currentTerm, command)] else v.log)
  {
    var r := ClientRequestStep(cfg, v, sender, command);
    if v.status == Leader {
      assert cfg.nodeId in NodeSet(cfg);
      assert LeaderMaps(cfg, r);
    }
  }

  /** An AppendEntries request keeps the invariant, leaves the node a follower, and does
      not lower its term. */
  lemma AppendEntriesRequestKeepsInv(cfg: Config, v: NodeView, req: Message)
    requires Inv(cfg, v) && req.AppendEntriesRequest? && Acceptable(cfg, v, req)
    ensures var r := AppendEntriesRequestStep(cfg, v, req);
            Inv(cfg, r) && r.status == Follower && r.currentTerm == Max(v.currentTerm, req.term)
  {
    var v3 := FollowSender(v, req);
    assert v3.status == Follower && -1 <= v3.commitIndex <= v3.lastApplied;
    assert v3.currentTerm == Max(v.currentTerm, req.term);
    if req.term >= v3.currentTerm {
      var v4 := ReceiveEntries(cfg, v3, req);
      assert v4.status == Follower && v4.currentTerm == v3.currentTerm;
      assert -1 <= v4.commitIndex && v4.lastApplied == v3.lastApplied;
      ApplyCommitsKeepsInv(cfg, v4);
    }
  }

  /** The leader's bookkeeping for a reply keeps its maps inside the log and the cluster,
      and changes neither its role, its term, nor its log. */
  lemma RecordReplyKeepsRole(cfg: Config, v: NodeView, res: Message)
    requires res.AppendEntriesResponse? && v.status == Leader && Inv(cfg, v)
    requires res.sender in v.matchIndex && (res.success ==> res.matchIndex < |v.log|)
    ensures var r := RecordReply(cfg, v, res);
            RoleInv(cfg, r) && -1 <= r.commitIndex && r.lastApplied == v.lastApplied
            && r.status == Leader && r.currentTerm == v.currentTerm && r.log == v.log
  {
    var v1 := UpdateIndices(cfg, v, res);
    var r := RecordReply(cfg, v, res);
    assert r == v1.(outbox := r.outbox, commitIndex := r.commitIndex);
  }

  /** A reply to AppendEntries keeps the invariant; a leader stays leader with the same log
      or is demoted, and the term does not change. */
  lemma AppendEntriesResponseKeepsInv(cfg: Config, v: NodeView, res: Message)
    requires Inv(cfg, v) && res.AppendEntriesResponse? && Acceptable(cfg, v, res)
    ensures var r := AppendEntriesResponseStep(cfg, v, res);
            Inv(cfg, r) && r.currentTerm == v.currentTerm && r.log == v.log
            && (r.status == Leader ==> v.status == Leader)
  {
    var v1 := if v.currentTerm < res.term then DemoteStep(v) else v;
    if v1.status == Leader {
      assert v1 == v;
      RecordReplyKeepsRole(cfg, v, res);
      ApplyCommitsKeepsInv(cfg, RecordReply(cfg, v, res));
    }
  }

  /** Stepping down for a later term keeps the invariant and does not lower the term. */
  lemma StepDownKeepsInv(cfg: Config, v: NodeView, term: int)
    requires Inv(cfg, v)
    ensures var r := StepDown(v, term);
            Inv(cfg, r) && r.currentTerm >= v.currentTerm && r.log == v.log
            && (r.status == Leader ==> v.status == Leader)
  {
  }

  /** Granting or refusing a vote keeps the invariant: a candidate or leader has voted for
      itself, so the only vote it can grant is the one it already holds. */
  lemma CastVoteKeepsInv(cfg: Config, v: NodeView, req: Message)
    requires Inv(cfg, v) && req.VoteRequest?
    ensures var r := CastVote(cfg, v, req);
            Inv(cfg, r) && r == v.(votedFor := r.votedFor, outbox := r.outbox)
  {
    var r := CastVote(cfg, v, req);
    assert r.votedFor != v.votedFor ==> v.status == Follower;
  }

  /** A vote request keeps the invariant and does not lower the term. */
  lemma VoteRequestKeepsInv(cfg: Config, v: NodeView, req: Message)
    requires Inv(cfg, v) && req.VoteRequest?
    ensures var r := VoteRequestStep(cfg, v, req);
            Inv(cfg, r) && r.currentTerm >= v.currentTerm && r.log == v.log
            && (r.status == Leader ==> v.status == Leader)
  {
    var v1 := v.(events := v.events + [ElectionTimerRestarted]);
    if req.term >= v1.currentTerm {
      StepDownKeepsInv(cfg, v1, req.term);
      CastVoteKeepsInv(cfg, StepDown(v1, req.term), req);
    }
  }

  /** A vote reply keeps the invariant; a node becomes leader only as a candidate. */
  lemma VoteResponseKeepsInv(cfg: Config, v: NodeView, res: Message)
    requires Inv(cfg, v) && res.VoteResponse?
    ensures var r := VoteResponseStep(cfg, v, res);
            Inv(cfg, r) && r.currentTerm == v.currentTerm && r.log == v.log
            && (r.status == Leader && v.status != Leader ==> v.status == Candidate)
  {
    var v1 := if res.term > v.currentTerm then DemoteStep(v) else v;
    if v1.status == Candidate {
      var v2 := if res.voteGranted then v1.(votes := v1.votes + {res.sender}) else v1;
      if HasMajority(v2.votes, cfg) {
        var r := PromoteStep(cfg, v2);
        assert forall n :: n in NodeSet(cfg) <==> n in Nodes(cfg);
        assert LeaderMaps(cfg, r);
      }
    }
  }

  /** An election request keeps the invariant and moves to the next term. */
  lemma ElectionRequestKeepsInv(cfg: Config, v: NodeView)
    requires Inv(cfg, v)
    ensures var r := ElectionRequestStep(cfg, v);
            Inv(cfg, r) && r.currentTerm == v.currentTerm + 1 && r.status == Candidate && r.log == v.log
  {
  }

  /** A heartbeat request changes only what the node sent and its heartbeat timer. */
  lemma HeartbeatRequestKeepsInv(cfg: Config, v: NodeView, req: Message)
    requires Inv(cfg, v) && req.HeartbeatRequest? && Acceptable(cfg, v, req)
    ensures var r := HeartbeatRequestStep(cfg, v, req);
            Inv(cfg, r) && r == v.(outbox := r.outbox, events := r.events, heartbeatTimerSet := true)
  {
  }

  /** Every message keeps the node invariant, and no message lowers the term. */
  lemma HandleKeepsInv(cfg: Config, v: NodeView, m: Message)
    requires Inv(cfg, v) && Acceptable(cfg, v, m)
    ensures Inv(cfg, Handle(cfg, v, m))
    ensures Handle(cfg, v, m).currentTerm >= v.currentTerm
  {
    match m
    case ClientRequest(sender, command) => ClientRequestKeepsInv(cfg, v, sender, command);
    case ClientResponse(_) =>
    case AppendEntriesRequest(_, _, _, _, _, _) => AppendEntriesRequestKeepsInv(cfg, v, m);
    case AppendEntriesResponse(_, _, _, _) => AppendEntriesResponseKeepsInv(cfg, v, m);
    case VoteRequest(_, _, _, _) => VoteRequestKeepsInv(cfg, v, m);
    case VoteResponse(_, _, _) => VoteResponseKeepsInv(cfg, v, m);
    case HeartbeatRequest(_) => HeartbeatRequestKeepsInv(cfg, v, m);
    case ElectionRequest => ElectionRequestKeepsInv(cfg, v);
  }

  // ---------------------------------------------------------------------------------
  // Applying committed entries

  /** The state machine after applying the commands of `entries` one after the other. */
  function Replay(data: map<string, string>, entries: seq<LogEntry>): map<string, string>
    decreases entries
  {
    if entries == [] then data else Replay(ApplyCommand(data, entries[0].item).data, entries[1..])
  }

  /** `apply_any_commits` applies each entry after `last_applied` up to the commit index
      exactly once and in log order: the state machine ends as the replay of exactly those
      entries; with nothing to apply, the node is left as it is. */
  lemma {:induction false} ApplyCommitsReplays(v: NodeView)
    requires CanApply(v)
    ensures v.commitIndex <= v.lastApplied ==> ApplyCommits(v) == v
    ensures v.commitIndex > v.lastApplied ==>
              ApplyCommits(v).data == Replay(v.data, v.log[v.lastApplied + 1..v.commitIndex + 1])
    decreases v.commitIndex - v.lastApplied
  {
    if v.commitIndex > v.lastApplied {
      var i := v.lastApplied + 1;
      var w := ApplyNext(v);
      var entries := v.log[i..v.commitIndex + 1];
      assert w.data == ApplyCommand(v.data, v.log[i].item).data;
      assert entries[0] == v.log[i] && entries[1..] == v.log[i + 1..v.commitIndex + 1];
      ApplyCommitsReplays(w);
      if w.commitIndex == w.lastApplied {
        assert entries[1..] == [];
      }
    }
  }

  /** Applying at a node that is not leader answers nobody: its callbacks and what it sent
      are left as they were. */
  lemma {:induction false} ApplyCommitsQuietUnlessLeader(v: NodeView)
    requires CanApply(v) && v.status != Leader
    ensures ApplyCommits(v).callbacks == v.callbacks && ApplyCommits(v).outbox == v.outbox
    decreases v.commitIndex - v.lastApplied
  {
    if v.commitIndex > v.lastApplied {
      ApplyCommitsQuietUnlessLeader(ApplyNext(v));
    }
  }

  /** Applying only removes callbacks, never adds or changes one, and only adds to what
      was sent. */
  lemma {:induction false} ApplyCommitsOnlyDropsCallbacks(v: NodeView)
    requires CanApply(v)
    ensures var r := ApplyCommits(v);
            v.outbox <= r.outbox
            && forall i :: i in r.callbacks ==> i in v.callbacks && r.callbacks[i] == v.callbacks[i]
    decreases v.commitIndex - v.lastApplied
  {
    if v.commitIndex > v.lastApplied {
      ApplyCommitsOnlyDropsCallbacks(ApplyNext(v));
    }
  }

  /** A leader answers each waiting client at most once: applying drops the callback of
      exactly the entries it applies. */
  lemma {:induction false} ApplyCommitsAnswersOnce(v: NodeView)
    requires CanApply(v) && v.status == Leader
    ensures var r := ApplyCommits(v);
            forall i :: i in v.callbacks ==> (i in r.callbacks <==> !(v.lastApplied < i <= r.lastApplied))
    decreases v.commitIndex - v.lastApplied
  {
    if v.commitIndex > v.lastApplied {
      var w := ApplyNext(v);
      assert w.status == Leader && w.lastApplied == v.lastApplied + 1;
      assert forall i :: i in w.callbacks <==> i in v.callbacks && i != w.lastApplied;
      ApplyCommitsAnswersOnce(w);
      ApplyCommitsOnlyDropsCallbacks(w);
    }
  }

  // ---------------------------------------------------------------------------------
  // Votes and elections

  /** The reply to a vote request grants the vote exactly when the request is not stale and
      `GrantsVote` holds of the vote the node still holds after stepping down; the reply
      carries the node's term, and a granted vote is recorded for the candidate. */
  lemma VoteGrantedIff(cfg: Config, v: NodeView, req: Message)
    requires req.VoteRequest?
    ensures var r := VoteRequestStep(cfg, v, req);
            var held := if req.term > v.currentTerm && v.status != Follower then None else v.votedFor;
            var granted := req.term >= v.currentTerm
                           && GrantsVote(held, req.candidate, req.lastLogIndex, req.lastLogTerm, v.log);
            r.outbox == v.outbox + [Envelope(req.candidate, VoteResponse(cfg.nodeId, r.currentTerm, granted))]
            && r.votedFor == (if granted then Some(req.candidate) else held)
            && r.log == v.log
  {
  }

  /** The vote condition's quirk: a node holding no vote grants it to any candidate of a
      current term, however far behind the candidate's log is. */
  lemma UnvotedGrantsWithoutLogCheck(cfg: Config, v: NodeView, req: Message)
    requires req.VoteRequest? && v.votedFor.None? && req.term >= v.currentTerm
    ensures var r := VoteRequestStep(cfg, v, req);
            r.votedFor == Some(req.candidate)
            && r.outbox == v.outbox + [Envelope(req.candidate, VoteResponse(cfg.nodeId, r.currentTerm, true))]
  {
    VoteGrantedIff(cfg, v, req);
  }

  /** A follower that has voted refuses every other candidate, even one of a later term: a
      follower neither adopts the term of a vote request nor forgets its vote. */
  lemma FollowerVoteSticks(cfg: Config, v: NodeView, req: Message)
    requires req.VoteRequest? && v.status == Follower && v.votedFor.Some? && req.candidate != v.votedFor.value
    ensures var r := VoteRequestStep(cfg, v, req);
            r.votedFor == v.votedFor && r.currentTerm == v.currentTerm && r.status == Follower
            && r.outbox == v.outbox + [Envelope(req.candidate, VoteResponse(cfg.nodeId, v.currentTerm, false))]
  {
  }

  /** A vote reply makes a node leader exactly when the node is a candidate, the reply is
      not from a later term, and its votes, with the sender added on a grant, are a strict
      majority; a sender's second grant adds nothing, since the votes are a set. */
  lemma PromotionNeedsMajority(cfg: Config, v: NodeView, res: Message)
    requires res.VoteResponse?
    ensures var r := VoteResponseStep(cfg, v, res);
            var votes := if res.voteGranted then v.votes + {res.sender} else v.votes;
            ((r.status == Leader && v.status != Leader)
               <==> (v.status == Candidate && res.term <= v.currentTerm && HasMajority(votes, cfg)))
            && (r.status == Leader && v.status != Leader ==> r.votes == votes)
  {
  }

  /** The members of a sequence without repeats are as many as its elements. */
  lemma {:induction false} DistinctCount<T>(s: seq<T>)
    requires NoDuplicates(s)
    ensures |set x | x in s| == |s|
  {
    if s != [] {
      var t := s[..|s| - 1];
      var last := s[|s| - 1];
      assert NoDuplicates(t);
      DistinctCount(t);
      assert (set x | x in s) == (set x | x in t) + {last};
      assert last !in (set x | x in t);
    }
  }

  /** A subset has no more members than its superset. */
  lemma {:induction false} SubsetCount<T>(a: set<T>, b: set<T>)
    requires a <= b
    ensures |a| <= |b|
    decreases a
  {
    if a != {} {
      var x :| x in a;
      SubsetCount(a - {x}, b - {x});
    }
  }

  /** Two sets of nodes that each pass the majority test of `handle_vote_response` share a
      node: two candidates cannot both win a majority of the same voters. */
  lemma MajoritiesIntersect(cfg: Config, a: set<NodeId>, b: set<NodeId>)
    requires ConfigOk(cfg) && a <= NodeSet(cfg) && b <= NodeSet(cfg)
    requires HasMajority(a, cfg) && HasMajority(b, cfg)
    ensures a * b != {}
  {
    DistinctCount(Nodes(cfg));
    SubsetCount(a + b, NodeSet(cfg));
  }

  /** The vote requests of an election: the k-th goes to the k-th target and names the
      term, the candidate and the candidate's last log index and term. */
  lemma {:induction false} VoteRequestsAt(targets: seq<NodeId>, term: int, candidate: NodeId, log: seq<LogEntry>, k: int)
    requires 0 <= k < |targets|
    ensures VoteRequests(targets, term, candidate, log)[k]
            == Envelope(targets[k], VoteRequest(term, candidate, |log| - 1, LastTerm(log)))
  {
    if k < |targets| - 1 {
      VoteRequestsAt(targets[..|targets| - 1], term, candidate, log, k);
    }
  }

  /** An election request sends exactly one vote request to each peer, in the order of the
      peers, all for the new term. */
  lemma ElectionAsksEveryPeer(cfg: Config, v: NodeView)
    ensures var r := ElectionRequestStep(cfg, v);
            |r.outbox| == |v.outbox| + |cfg.peers| && v.outbox <= r.outbox
            && forall k :: 0 <= k < |cfg.peers| ==>
                 r.outbox[|v.outbox| + k]
                 == Envelope(cfg.peers[k], VoteRequest(v.currentTerm + 1, cfg.nodeId, |v.log| - 1, LastTerm(v.log)))
  {
    forall k | 0 <= k < |cfg.peers|
      ensures VoteRequests(cfg.peers, v.currentTerm + 1, cfg.nodeId, v.log)[k]
              == Envelope(cfg.peers[k], VoteRequest(v.currentTerm + 1, cfg.nodeId, |v.log| - 1, LastTerm(v.log)))
    {
      VoteRequestsAt(cfg.peers, v.currentTerm + 1, cfg.nodeId, v.log, k);
    }
  }

  /** The heartbeats: the k-th goes to the k-th target and is built for that target. */
  lemma {:induction false} HeartbeatsAt(cfg: Config, v: NodeView, targets: seq<NodeId>, empty: bool, k: int)
    requires forall p :: p in targets ==> p in v.nextIndex && v.nextIndex[p] <= |v.log|
    requires 0 <= k < |targets|
    ensures Heartbeats(cfg, v, targets, empty)[k] == Envelope(targets[k], HeartbeatFor(cfg, v, targets[k], empty))
  {
    if k < |targets| - 1 {
      HeartbeatsAt(cfg, v, targets[..|targets| - 1], empty, k);
    }
  }

  /** A heartbeat request sends exactly one AppendEntries request to each peer, in the
      order of the peers, each built from the node's state for that peer; an empty
      heartbeat's requests carry no entries. */
  lemma HeartbeatReachesEveryPeer(cfg: Config, v: NodeView, req: Message)
    requires req.HeartbeatRequest? && Acceptable(cfg, v, req)
    ensures var r := HeartbeatRequestStep(cfg, v, req);
            |r.outbox| == |v.outbox| + |cfg.peers| && v.outbox <= r.outbox
            && forall k :: 0 <= k < |cfg.peers| ==>
                 r.outbox[|v.outbox| + k].to == cfg.peers[k]
                 && r.outbox[|v.outbox| + k].msg
                    == FromRaftState(cfg.nodeId, cfg.peers[k], v.nextIndex, v.currentTerm, v.log, v.commitIndex)
                       .(entries := if req.empty then [] else FromRaftState(cfg.nodeId, cfg.peers[k], v.nextIndex, v.currentTerm, v.log, v.commitIndex).entries)
  {
    forall k | 0 <= k < |cfg.peers| {
      HeartbeatToPeer(cfg, v, req, k);
    }
  }

  /** The k-th heartbeat request appended by `HeartbeatRequestStep`. */
  lemma HeartbeatToPeer(cfg: Config, v: NodeView, req: Message, k: int)
    requires req.HeartbeatRequest? && Acceptable(cfg, v, req) && 0 <= k < |cfg.peers|
    ensures var r := HeartbeatRequestStep(cfg, v, req);
            |r.outbox| == |v.outbox| + |cfg.peers|
            && r.outbox[|v.outbox| + k].to == cfg.peers[k]
            && r.outbox[|v.outbox| + k].msg
               == FromRaftState(cfg.nodeId, cfg.peers[k], v.nextIndex, v.currentTerm, v.log, v.commitIndex)
                  .(entries := if req.empty then [] else FromRaftState(cfg.nodeId, cfg.peers[k], v.nextIndex, v.currentTerm, v.log, v.commitIndex).entries)
  {
    HeartbeatsAt(cfg, v, cfg.peers, req.empty, k);
  }

  // ---------------------------------------------------------------------------------
  // The leader's log and commit index

  /** A reply to AppendEntries never lowers the commit index, and raises it only at a
      leader, only to an entry of the current term that strictly more than half of the
      cluster's match indices reach (the rule of Figure 8 of the Raft paper). */
  lemma LeaderCommitRule(cfg: Config, v: NodeView, res: Message)
    requires Inv(cfg, v) && res.AppendEntriesResponse? && Acceptable(cfg, v, res)
    ensures var r := AppendEntriesResponseStep(cfg, v, res);
            r.commitIndex >= v.commitIndex
            && (r.commitIndex != v.commitIndex ==>
                  r.status == Leader && 0 <= r.commitIndex < |r.log| && r.log[r.commitIndex].term == r.currentTerm
                  && 2 * CountAtLeast(MatchValues(r.matchIndex, Nodes(cfg)), r.commitIndex) > |Nodes(cfg)|)
  {
    if v.status == Leader && v.currentTerm >= res.term {
      var w := RecordReply(cfg, v, res);
      var u := UpdateIndices(cfg, v, res);
      assert w.matchIndex == u.matchIndex && w.log == v.log && w.currentTerm == v.currentTerm;
      assert w.commitIndex == AdvanceCommit(MatchValues(u.matchIndex, Nodes(cfg)), v.log, v.currentTerm,
                                            v.commitIndex, u.matchIndex[res.sender]);
    }
  }

  /** Conversely, a leader commits the sender's new match index when a strict majority
      reaches it, its entry is from the current term, and it lies past the commit index. */
  lemma LeaderCommitsMajorityEntry(cfg: Config, v: NodeView, res: Message)
    requires Inv(cfg, v) && res.AppendEntriesResponse? && Acceptable(cfg, v, res)
    requires v.status == Leader && res.term <= v.currentTerm
    ensures var u := UpdateIndices(cfg, v, res);
            var m := u.matchIndex[res.sender];
            var r := AppendEntriesResponseStep(cfg, v, res);
            0 <= m && v.log[m].term == v.currentTerm && v.commitIndex < m
            && 2 * CountAtLeast(MatchValues(u.matchIndex, Nodes(cfg)), m) > |Nodes(cfg)|
            ==> r.commitIndex == m && r.lastApplied == Max(v.lastApplied, m)
  {
    var u := UpdateIndices(cfg, v, res);
    var w := RecordReply(cfg, v, res);
    assert w.commitIndex == AdvanceCommit(MatchValues(u.matchIndex, Nodes(cfg)), v.log, v.currentTerm,
                                          v.commitIndex, u.matchIndex[res.sender]);
  }

  /** A refused AppendEntries reaching a leader of its term moves the sender's next index
      back by one (not below 0) and changes neither match index nor log, whatever index the
      reply carries: a failed reply's index is never read. */
  lemma FailedReplyStepsBack(cfg: Config, v: NodeView, res: Message)
    requires Inv(cfg, v) && res.AppendEntriesResponse? && !res.success
    requires v.status == Leader && res.term <= v.currentTerm && res.sender in v.matchIndex
    ensures Acceptable(cfg, v, res)
    ensures var r := AppendEntriesResponseStep(cfg, v, res);
            r.status == Leader && r.log == v.log && r.matchIndex == v.matchIndex
            && r.nextIndex == v.nextIndex[res.sender := Max(0, v.nextIndex[res.sender] - 1)]
  {
    assert Acceptable(cfg, v, res);
    var u := UpdateIndices(cfg, v, res);
    var w := RecordReply(cfg, v, res);
    assert w == u.(outbox := w.outbox, commitIndex := w.commitIndex);
    var r := ApplyCommits(w);
    assert AppendEntriesResponseStep(cfg, v, res) == r;
    assert r == w.(data := r.data, callbacks := r.callbacks, outbox := r.outbox, lastApplied := r.lastApplied);
  }

  /** A leader that is still leader after a message has only appended to its log, and its
      term has not changed. */
  lemma LeaderAppendOnly(cfg: Config, v: NodeView, m: Message)
    requires Inv(cfg, v) && Acceptable(cfg, v, m) && v.status == Leader
    ensures var r := Handle(cfg, v, m);
            r.status == Leader ==> v.log <= r.log && r.currentTerm == v.currentTerm
  {
    match m
    case ClientRequest(sender, command) => ClientRequestKeepsInv(cfg, v, sender, command);
    case ClientResponse(_) =>
    case AppendEntriesRequest(_, _, _, _, _, _) => AppendEntriesRequestKeepsInv(cfg, v, m);
    case AppendEntriesResponse(_, _, _, _) => AppendEntriesResponseKeepsInv(cfg, v, m);
    case VoteRequest(_, _, _, _) =>
      var v1 := v.(events := v.events + [ElectionTimerRestarted]);
      if m.term >= v.currentTerm {
        StepDownKeepsInv(cfg, v1, m.term);
        CastVoteKeepsInv(cfg, StepDown(v1, m.term), m);
      }
    case VoteResponse(_, _, _) => VoteResponseKeepsInv(cfg, v, m);
    case HeartbeatRequest(_) => HeartbeatRequestKeepsInv(cfg, v, m);
    case ElectionRequest =>
  }

  // ---------------------------------------------------------------------------------
  // A follower receiving entries

  /** A stale AppendEntries request is refused with the node's last index and leaves its
      log, term and commit index as they were, yet still makes the node a follower and its
      sender the known leader: the source demotes before it compares terms. */
  lemma StaleAppendEntriesRefused(cfg: Config, v: NodeView, req: Message)
    requires req.AppendEntriesRequest? && Acceptable(cfg, v, req) && -1 <= v.commitIndex <= v.lastApplied
    requires req.term < v.currentTerm
    ensures var r := AppendEntriesRequestStep(cfg, v, req);
            r.log == v.log && r.commitIndex == v.commitIndex && r.currentTerm == v.currentTerm
            && r.status == Follower && r.leaderId == Some(req.sender)
            && r.outbox == v.outbox + [Envelope(req.sender, AppendEntriesResponse(cfg.nodeId, v.currentTerm, false, |v.log| - 1))]
  {
  }

  /** A current request whose consistency check passes leaves the log as the prefix up to
      `prev_index` followed by the entries, even entries the follower already had beyond
      them are dropped; the reply reports success and the new last index. A request whose
      check fails leaves the log alone and reports failure with index 0. */
  lemma AcceptedEntriesSpliced(cfg: Config, v: NodeView, req: Message)
    requires req.AppendEntriesRequest? && Acceptable(cfg, v, req) && -1 <= v.commitIndex <= v.lastApplied
    requires req.term >= v.currentTerm
    ensures var r := AppendEntriesRequestStep(cfg, v, req);
            var ok := Accepts(v.log, req.prevIndex, req.prevTerm);
            var log := if ok then v.log[..req.prevIndex + 1] + FromWireAll(req.entries) else v.log;
            r.log == log && r.currentTerm == req.term
            && r.commitIndex == (if ok && req.commitIndex > v.commitIndex then Min(req.commitIndex, |log| - 1) else v.commitIndex)
            && r.outbox == v.outbox + [Envelope(req.sender, AppendEntriesResponse(cfg.nodeId, req.term, ok, if ok then |log| - 1 else 0))]
  {
    var v4 := ReceiveEntries(cfg, FollowSender(v, req), req);
    assert AppendEntriesRequestStep(cfg, v, req) == ApplyCommits(v4);
    ApplyCommitsQuietUnlessLeader(v4);
  }

  /** The quirk of the splice: an empty heartbeat that passes the consistency check cuts
      the follower's log back to `prev_index`. */
  lemma EmptyHeartbeatTruncates(cfg: Config, v: NodeView, req: Message)
    requires req.AppendEntriesRequest? && Acceptable(cfg, v, req) && -1 <= v.commitIndex <= v.lastApplied
    requires req.term >= v.currentTerm && req.entries == [] && Accepts(v.log, req.prevIndex, req.prevTerm)
    ensures AppendEntriesRequestStep(cfg, v, req).log == v.log[..req.prevIndex + 1]
  {
    AcceptedEntriesSpliced(cfg, v, req);
  }

  /** A follower whose log agrees with the leader's on the entries before the follower's
      `next_index` ends up, after the leader's AppendEntries request of a term it accepts,
      with exactly the leader's log, and reports the leader's last index as its match. */
  lemma FollowerCatchesUp(cfg: Config, v: NodeView, leader: NodeId, nextIndex: map<NodeId, int>,
                          term: int, leaderLog: seq<LogEntry>, commit: int)
    requires cfg.nodeId in nextIndex && 0 <= nextIndex[cfg.nodeId] <= |leaderLog|
    requires nextIndex[cfg.nodeId] <= |v.log| && v.log[..nextIndex[cfg.nodeId]] == leaderLog[..nextIndex[cfg.nodeId]]
    requires term >= v.currentTerm && -1 <= v.commitIndex <= v.lastApplied
    ensures var req := FromRaftState(leader, cfg.nodeId, nextIndex, term, leaderLog, commit);
            var r := AppendEntriesRequestStep(cfg, v, req);
            r.log == leaderLog
            && r.outbox == v.outbox + [Envelope(leader, AppendEntriesResponse(cfg.nodeId, term, true, |leaderLog| - 1))]
  {
    var n := nextIndex[cfg.nodeId];
    var req := FromRaftState(leader, cfg.nodeId, nextIndex, term, leaderLog, commit);
    if n > 0 {
      assert v.log[n - 1] == v.log[..n][n - 1];
    }
    assert Accepts(v.log, req.prevIndex, req.prevTerm);
    AcceptedEntriesSpliced(cfg, v, req);
    assert v.log[..n] + leaderLog[n..] == leaderLog;
  }
}
