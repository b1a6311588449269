/** The per-node Raft state record of nidus (nidus/state.py): role, term, vote, votes, the
    log, the commit and apply indices, and the leader's per-node `next_index`/`match_index`
    maps, together with the three role transitions. */
module State {
  import opened Common
  import opened Log

  /** The three roles a node can be in. */
  datatype Status = Leader | Candidate | Follower

  class RaftState {
    var status: Status
    var currentTerm: int
    var votedFor: Option<NodeId>
    var votes: set<NodeId>
    /** The log list; the object is created once and then mutated in place. */
    const log: EntryList
    /** Highest index known to be committed; -1 when nothing is. */
    var commitIndex: int
    /** Highest index applied to the state machine; -1 when nothing is. */
    var lastApplied: int
    /** Highest index known to be replicated on each node (leader only). */
    var matchIndex: map<NodeId, int>
    /** Index of the next entry to send to each node (leader only). */
    var nextIndex: map<NodeId, int>

    /** A fresh node: a follower in term 0 that has not voted and has an empty log. */
    constructor ()
      ensures status == Follower && currentTerm == 0 && votedFor == None && votes == {}
      ensures fresh(log) && log.items == []
      ensures commitIndex == -1 && lastApplied == -1
      ensures matchIndex == map[] && nextIndex == map[]
    {
      status := Follower;
      currentTerm := 0;
      votedFor := None;
      votes := {};
      log := new EntryList([]);
      commitIndex := -1;
      lastApplied := -1;
      matchIndex := map[];
      nextIndex := map[];
    }

    /** `become_leader(nodes)`: next_index of every given node is the log length and its
        match_index is -1; the old maps are replaced, and term, vote and log stay. */
    method BecomeLeader(nodes: seq<NodeId>)
      modifies this
      ensures status == Leader
      ensures nextIndex.Keys == matchIndex.Keys == set n | n in nodes
      ensures forall n :: n in nodes ==> nextIndex[n] == |log.items| && matchIndex[n] == -1
      ensures old(currentTerm) <= currentTerm
      ensures currentTerm == old(currentTerm) && votedFor == old(votedFor) && votes == old(votes)
      ensures commitIndex == old(commitIndex) && lastApplied == old(lastApplied)
      ensures log.items == old(log.items)
    {
      status := Leader;
      nextIndex := map n | n in nodes :: |log.items|;
      matchIndex := map n | n in nodes :: -1;
    }

    /** `become_follower`: the node is a follower again and forgets its vote; the term, the
        log and every index stay as they were. */
    method BecomeFollower()
      modifies this
      ensures status == Follower && votedFor == None
      ensures old(currentTerm) <= currentTerm
      ensures currentTerm == old(currentTerm) && votes == old(votes)
      ensures commitIndex == old(commitIndex) && lastApplied == old(lastApplied)
      ensures matchIndex == old(matchIndex) && nextIndex == old(nextIndex)
      ensures log.items == old(log.items)
    {
      status := Follower;
      votedFor := None;
    }

    /** `become_candidate(node_id)`: a new term, exactly one higher, in which the node has
        voted for itself and holds its own vote only. */
    method BecomeCandidate(nodeId: NodeId)
      modifies this
      ensures status == Candidate
      ensures currentTerm == old(currentTerm) + 1
      ensures old(currentTerm) <= currentTerm
      ensures votedFor == Some(nodeId) && votes == {nodeId}
      ensures commitIndex == old(commitIndex) && lastApplied == old(lastApplied)
      ensures matchIndex == old(matchIndex) && nextIndex == old(nextIndex)
      ensures log.items == old(log.items)
    {
      status := Candidate;
      currentTerm := currentTerm + 1;
      votedFor := Some(nodeId);
      votes := {nodeId};
    }

    /** `RaftState.append_entries`: the log module's `append_entries` on this node's log;
        no other field changes. */
    method AppendEntries(prevIndex: int, prevTerm: int, entries: seq<LogEntry>) returns (success: bool)
      requires prevIndex >= -1
      modifies log
      ensures success == Accepts(old(log.items), prevIndex, prevTerm)
      ensures log.items == if success then Spliced(old(log.items), prevIndex, entries) else old(log.items)
      ensures unchanged(this)
    {
      success := Log.AppendEntries(log, prevIndex, prevTerm, entries);
    }
  }
}
