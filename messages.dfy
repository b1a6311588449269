/** The messages nidus nodes and clients exchange (nidus/messages.py): one datatype
    constructor per message class, the leader's construction of an AppendEntriesRequest for
    one peer, and the lookup of a message class from the `msg_type` of a received payload. */
module Messages {
  import opened Common
  import opened Log
  import opened KeyValue

  /** An entry inside an AppendEntriesRequest: the list `[term, item]`. */
  type WireEntry = (int, Command)

  /** The message classes. Every message also carries a `msg_type` string; the default one
      is given by `MsgType`. A `ClientResponse` carries what `apply` returned, or the error
      it raised, or the text of a redirection. */
  datatype Message =
    | ClientRequest(sender: Addr, command: Command)
    | ClientResponse(result: Outcome)
    | AppendEntriesRequest(sender: NodeId, term: int, prevIndex: int, prevTerm: int,
                           entries: seq<WireEntry>, commitIndex: int)
    | AppendEntriesResponse(sender: NodeId, term: int, success: bool, matchIndex: int)
    | VoteRequest(term: int, candidate: NodeId, lastLogIndex: int, lastLogTerm: int)
    | VoteResponse(sender: NodeId, term: int, voteGranted: bool)
    | HeartbeatRequest(empty: bool)
    | ElectionRequest

  /** The message classes themselves, as `message_from_payload` searches them. */
  datatype MessageClass =
    | ClientRequestClass
    | ClientResponseClass
    | AppendEntriesRequestClass
    | AppendEntriesResponseClass
    | VoteRequestClass
    | VoteResponseClass
    | HeartbeatRequestClass
    | ElectionRequestClass

  /** The class of a message. */
  function ClassOf(m: Message): MessageClass
  {
    match m
    case ClientRequest(_, _) => ClientRequestClass
    case ClientResponse(_) => ClientResponseClass
    case AppendEntriesRequest(_, _, _, _, _, _) => AppendEntriesRequestClass
    case AppendEntriesResponse(_, _, _, _) => AppendEntriesResponseClass
    case VoteRequest(_, _, _, _) => VoteRequestClass
    case VoteResponse(_, _, _) => VoteResponseClass
    case HeartbeatRequest(_) => HeartbeatRequestClass
    case ElectionRequest => ElectionRequestClass
  }

  /** The class's `__name__`. */
  function ClassName(c: MessageClass): string
  {
    match c
    case ClientRequestClass => "ClientRequest"
    case ClientResponseClass => "ClientResponse"
    case AppendEntriesRequestClass => "AppendEntriesRequest"
    case AppendEntriesResponseClass => "AppendEntriesResponse"
    case VoteRequestClass => "VoteRequest"
    case VoteResponseClass => "VoteResponse"
    case HeartbeatRequestClass => "HeartbeatRequest"
    case ElectionRequestClass => "ElectionRequest"
  }

  /** The default `msg_type` of each class. */
  function DefaultMsgType(c: MessageClass): string
  {
    match c
    case ClientRequestClass => "client_request"
    case ClientResponseClass => "client_response"
    case AppendEntriesRequestClass => "append_entries_request"
    case AppendEntriesResponseClass => "append_entries_response"
    case VoteRequestClass => "vote_request"
    case VoteResponseClass => "vote_response"
    case HeartbeatRequestClass => "heartbeat_request"
    case ElectionRequestClass => "election_request"
  }

  /** The `msg_type` of a message built with the default. */
  function MsgType(m: Message): string
  {
    DefaultMsgType(ClassOf(m))
  }

  /** `message_classes`, in source order. */
  const MessageClasses: seq<MessageClass> := [
    ClientRequestClass, ClientResponseClass, AppendEntriesRequestClass,
    AppendEntriesResponseClass, VoteRequestClass, VoteResponseClass,
    HeartbeatRequestClass, ElectionRequestClass
  ]

  // ---------------------------------------------------------------------------------------
  // Log entries on the wire

  /** `[e.term, e.item]`. */
  function ToWire(e: LogEntry): WireEntry
  {
    (e.term, e.item)
  }

  /** `LogEntry(e[0], e[1])`, as the receiving node rebuilds an entry. */
  function FromWire(w: WireEntry): LogEntry
  {
    LogEntry(w.0, w.1)
  }

  /** The entries of a request, as a list comprehension over the log slice. */
  function ToWireAll(es: seq<LogEntry>): (ws: seq<WireEntry>)
    ensures |ws| == |es|
    ensures forall i :: 0 <= i < |es| ==> ws[i].0 == es[i].term && ws[i].1 == es[i].item
  {
    seq(|es|, i requires 0 <= i < |es| => ToWire(es[i]))
  }

  /** The entries a follower rebuilds from a request. */
  function FromWireAll(ws: seq<WireEntry>): (es: seq<LogEntry>)
    ensures |es| == |ws|
    ensures forall i :: 0 <= i < |ws| ==> es[i] == LogEntry(ws[i].0, ws[i].1)
  {
    seq(|ws|, i requires 0 <= i < |ws| => FromWire(ws[i]))
  }

  /** Entries survive the trip through a request unchanged. */
  lemma WireRoundTrip(es: seq<LogEntry>)
    ensures FromWireAll(ToWireAll(es)) == es
  {
  }

  // ---------------------------------------------------------------------------------------
  // AppendEntriesRequest.from_raft_state

  /** `log[start:]` for an integer `start`, with Python's reading of a negative start as
      counted from the end. */
  function PySliceFrom(log: seq<LogEntry>, start: int): (r: seq<LogEntry>)
    requires start <= |log|
    ensures 0 <= start ==> r == log[start..]
    ensures start < 0 ==> r == log[Max(0, |log| + start)..]
  {
    if start >= 0 then log[start..] else log[Max(0, |log| + start)..]
  }

  /** `AppendEntriesRequest.from_raft_state(sender, to, state)` on the fields it reads:
      the request that makes peer `to` compare its log at `next_index[to] - 1` and install
      the leader's entries from `next_index[to]` on. `next_index[to]` must exist (a KeyError
      otherwise) and be at most the log length (beyond it `log[prev_index]` raises
      IndexError). */
  function FromRaftState(sender: NodeId, to: NodeId, nextIndex: map<NodeId, int>, currentTerm: int,
                         log: seq<LogEntry>, commitIndex: int): (m: Message)
    requires to in nextIndex && nextIndex[to] <= |log|
    ensures m.AppendEntriesRequest?
    ensures m.sender == sender && m.term == currentTerm && m.commitIndex == commitIndex
    ensures m.prevIndex == nextIndex[to] - 1
    ensures m.prevIndex >= 0 ==> m.prevTerm == log[m.prevIndex].term
    ensures m.prevIndex < 0 ==> m.prevTerm == -1
    ensures 0 <= nextIndex[to] ==> FromWireAll(m.entries) == log[nextIndex[to]..]
    ensures nextIndex[to] == |log| ==> m.entries == []
  {
    var next := nextIndex[to];
    var prevIndex := next - 1;
    var prevTerm := if prevIndex >= 0 then log[prevIndex].term else -1;
    var entries := if |log| - 1 >= next then ToWireAll(PySliceFrom(log, next)) else [];
    AppendEntriesRequest(sender, currentTerm, prevIndex, prevTerm, entries, commitIndex)
  }

  /** A request built from the leader's own state passes the consistency check on the
      leader's log, and splicing its entries in leaves that log as it is. */
  lemma OwnRequestRoundTrip(sender: NodeId, to: NodeId, nextIndex: map<NodeId, int>, currentTerm: int,
                            log: seq<LogEntry>, commitIndex: int)
    requires to in nextIndex && 0 <= nextIndex[to] <= |log|
    ensures var m := FromRaftState(sender, to, nextIndex, currentTerm, log, commitIndex);
            m.prevIndex >= -1 && Accepts(log, m.prevIndex, m.prevTerm)
            && Spliced(log, m.prevIndex, FromWireAll(m.entries)) == log
  {
    var m := FromRaftState(sender, to, nextIndex, currentTerm, log, commitIndex);
    assert log[..m.prevIndex + 1] + log[nextIndex[to]..] == log;
  }

  // ---------------------------------------------------------------------------------------
  // snakecase_to_camelcase

  /** `s.split(sep)`: the pieces between the separators, always at least one. */
  function Split(s: string, sep: char): (parts: seq<string>)
    ensures |parts| >= 1
    decreases |s|
  {
    if s == [] then [[]]
    else
      var rest := Split(s[1..], sep);
      if s[0] == sep then [[]] + rest else [[s[0]] + rest[0]] + rest[1..]
  }

  /** `sep.join(parts)`. */
  function JoinWith(parts: seq<string>, sep: char): string
  {
    if parts == [] then []
    else if |parts| == 1 then parts[0]
    else parts[0] + [sep] + JoinWith(parts[1..], sep)
  }

  /** `"".join(parts)`. */
  function Concat(parts: seq<string>): string
  {
    if parts == [] then [] else parts[0] + Concat(parts[1..])
  }

  /** `str.capitalize`, ASCII only: the first character upper-cased, the rest lower-cased. */
  function Capitalize(w: string): (r: string)
    ensures |r| == |w|
  {
    if w == [] then [] else [UpperChar(w[0])] + Lower(w[1..])
  }

  /** `map(str.capitalize, parts)`. */
  function CapitalizeAll(parts: seq<string>): (r: seq<string>)
    ensures |r| == |parts|
    ensures forall i :: 0 <= i < |parts| ==> r[i] == Capitalize(parts[i])
  {
    seq(|parts|, i requires 0 <= i < |parts| => Capitalize(parts[i]))
  }

  /** `snakecase_to_camelcase(s)`. */
  function SnakeToCamel(s: string): string
  {
    Concat(CapitalizeAll(Split(Lower(s), '_')))
  }

  /** Splitting and re-joining on the same separator gives back the string, and no piece
      holds the separator: `Split` cuts at exactly the separators. */
  lemma {:induction false} SplitJoinRoundTrip(s: string, sep: char)
    ensures JoinWith(Split(s, sep), sep) == s
    ensures forall i :: 0 <= i < |Split(s, sep)| ==> sep !in Split(s, sep)[i]
    decreases |s|
  {
    if s != [] {
      SplitJoinRoundTrip(s[1..], sep);
      var rest := Split(s[1..], sep);
      if s[0] == sep {
        assert Split(s, sep) == [[]] + rest;
        assert ([[]] + rest)[1..] == rest;
        assert JoinWith([[]] + rest, sep) == [] + [sep] + JoinWith(rest, sep);
        assert s == [s[0]] + s[1..];
      } else {
        var parts := [[s[0]] + rest[0]] + rest[1..];
        assert Split(s, sep) == parts;
        if |rest| == 1 {
          assert JoinWith(parts, sep) == [s[0]] + rest[0];
          assert s == [s[0]] + s[1..];
        } else {
          assert parts[1..] == rest[1..];
          assert JoinWith(rest, sep) == rest[0] + [sep] + JoinWith(rest[1..], sep);
          assert JoinWith(parts, sep) == [s[0]] + rest[0] + [sep] + JoinWith(rest[1..], sep);
          assert s == [s[0]] + s[1..];
        }
        forall i | 0 <= i < |parts|
          ensures sep !in parts[i]
        {
          if i > 0 {
            assert parts[i] == rest[i];
          }
        }
      }
    }
  }

  /** Upper- and lower-casing never produce an underscore from anything but an underscore. */
  lemma CaseMappingKeepsUnderscore(c: char)
    ensures UpperChar(c) == '_' <==> c == '_'
    ensures LowerChar(c) == '_' <==> c == '_'
  {
  }

  /** No piece of the capitalised parts holds an underscore when no part did. */
  lemma {:induction false} ConcatWithout(parts: seq<string>, c: char)
    requires forall i :: 0 <= i < |parts| ==> c !in parts[i]
    ensures c !in Concat(parts)
  {
    if parts != [] {
      ConcatWithout(parts[1..], c);
      assert forall x :: x in parts[0] + Concat(parts[1..]) ==> x in parts[0] || x in Concat(parts[1..]);
    }
  }

  /** `snakecase_to_camelcase` removes every underscore. */
  lemma SnakeToCamelHasNoUnderscore(s: string)
    ensures '_' !in SnakeToCamel(s)
  {
    var parts := Split(Lower(s), '_');
    SplitJoinRoundTrip(Lower(s), '_');
    var caps := CapitalizeAll(parts);
    forall i | 0 <= i < |caps|
      ensures '_' !in caps[i]
    {
      var w := parts[i];
      assert '_' !in w;
      if w != [] {
        CaseMappingKeepsUnderscore(w[0]);
        assert caps[i] == [UpperChar(w[0])] + Lower(w[1..]);
        forall k | 0 <= k < |w| - 1
          ensures Lower(w[1..])[k] != '_'
        {
          CaseMappingKeepsUnderscore(w[1..][k]);
        }
      }
    }
    ConcatWithout(caps, '_');
  }

  /** A word of ASCII lower-case letters only. */
  predicate LowerWord(w: string)
  {
    forall i :: 0 <= i < |w| ==> IsAsciiLower(w[i])
  }

  /** Lower-casing leaves a lower-case word alone. */
  lemma LowerOfLowerWord(w: string)
    requires LowerWord(w)
    ensures Lower(w) == w
  {
  }

  /** Splitting a string that has no separator gives the string itself. */
  lemma {:induction false} SplitWithout(w: string, sep: char)
    requires sep !in w
    ensures Split(w, sep) == [w]
    decreases |w|
  {
    if w != [] {
      SplitWithout(w[1..], sep);
      assert [w[0]] + w[1..] == w;
    }
  }

  /** Splitting `w + [sep] + s`, where `w` has no separator, gives `w` and then the pieces
      of `s`. */
  lemma {:induction false} SplitAfterWord(w: string, sep: char, s: string)
    requires sep !in w
    ensures Split(w + [sep] + s, sep) == [w] + Split(s, sep)
    decreases |w|
  {
    if w == [] {
      assert [] + [sep] + s == [sep] + s;
      assert ([sep] + s)[1..] == s;
    } else {
      SplitAfterWord(w[1..], sep, s);
      assert (w + [sep] + s)[1..] == w[1..] + [sep] + s;
      assert [w[0]] + w[1..] == w;
    }
  }

  /** Lower-casing distributes over concatenation. */
  lemma LowerAppend(a: string, b: string)
    ensures Lower(a + b) == Lower(a) + Lower(b)
  {
  }

  /** Lower-case words joined by underscores are left alone by lower-casing. */
  lemma {:induction false} LowerOfJoinedWords(words: seq<string>)
    requires forall i :: 0 <= i < |words| ==> LowerWord(words[i])
    ensures Lower(JoinWith(words, '_')) == JoinWith(words, '_')
  {
    if |words| == 1 {
      LowerOfLowerWord(words[0]);
    } else if |words| > 1 {
      LowerOfJoinedWords(words[1..]);
      LowerOfLowerWord(words[0]);
      var tail := JoinWith(words[1..], '_');
      LowerAppend(words[0] + ['_'], tail);
      LowerAppend(words[0], ['_']);
    }
  }

  /** Splitting words joined by a separator that none of them holds gives the words back. */
  lemma {:induction false} SplitOfJoined(words: seq<string>, sep: char)
    requires |words| >= 1
    requires forall i :: 0 <= i < |words| ==> sep !in words[i]
    ensures Split(JoinWith(words, sep), sep) == words
  {
    if |words| == 1 {
      SplitWithout(words[0], sep);
    } else {
      SplitOfJoined(words[1..], sep);
      SplitAfterWord(words[0], sep, JoinWith(words[1..], sep));
      assert words == [words[0]] + words[1..];
    }
  }

  /** `snakecase_to_camelcase` of lower-case words joined by underscores is the words
      capitalised and run together. */
  lemma SnakeToCamelWords(words: seq<string>)
    requires |words| >= 1
    requires forall i :: 0 <= i < |words| ==> LowerWord(words[i])
    ensures SnakeToCamel(JoinWith(words, '_')) == Concat(CapitalizeAll(words))
  {
    LowerOfJoinedWords(words);
    forall i | 0 <= i < |words|
      ensures '_' !in words[i]
    {
      assert forall k :: 0 <= k < |words[i]| ==> words[i][k] != '_';
    }
    SplitOfJoined(words, '_');
  }

  /** Capitalising a lower-case word upper-cases its first letter only. */
  lemma CapitalizeWord(w: string)
    requires LowerWord(w) && w != []
    ensures Capitalize(w) == [UpperChar(w[0])] + w[1..]
  {
    LowerOfLowerWord(w[1..]);
  }

  /** `"".join` of capitalised words, one word at a time. */
  lemma ConcatCapitalizedCons(a: string, rest: seq<string>)
    ensures Concat(CapitalizeAll([a] + rest)) == Capitalize(a) + Concat(CapitalizeAll(rest))
  {
    var caps := CapitalizeAll([a] + rest);
    assert caps[1..] == CapitalizeAll(rest);
  }

  /** `"".join` of two capitalised words. */
  lemma ConcatCapitalized2(a: string, b: string)
    ensures Concat(CapitalizeAll([a, b])) == Capitalize(a) + Capitalize(b)
  {
    assert [a, b] == [a] + [b];
    ConcatCapitalizedCons(a, [b]);
    assert [b] == [b] + [];
    ConcatCapitalizedCons(b, []);
  }

  /** `snakecase_to_camelcase` of two lower-case words joined by an underscore: the words,
      each with its first letter upper-cased (`ca`, `cb`), run together. */
  lemma SnakeToCamel2(a: string, b: string, ca: string, cb: string)
    requires LowerWord(a) && LowerWord(b) && a != [] && b != []
    requires ca == [UpperChar(a[0])] + a[1..]
    requires cb == [UpperChar(b[0])] + b[1..]
    ensures SnakeToCamel(a + "_" + b) == ca + cb
  {
    assert JoinWith([a, b], '_') == a + "_" + b;
    SnakeToCamelWords([a, b]);
    ConcatCapitalized2(a, b);
    CapitalizeWord(a);
    CapitalizeWord(b);
  }

  /** `"".join` of three capitalised words. */
  lemma ConcatCapitalized3(a: string, b: string, c: string)
    ensures Concat(CapitalizeAll([a, b, c])) == Capitalize(a) + Capitalize(b) + Capitalize(c)
  {
    assert [a, b, c] == [a] + [b, c];
    ConcatCapitalizedCons(a, [b, c]);
    ConcatCapitalized2(b, c);
  }

  /** `snakecase_to_camelcase` of three lower-case words joined by underscores: the words,
      each with its first letter upper-cased (`ca`, `cb`, `cc`), run together. */
  lemma SnakeToCamel3(a: string, b: string, c: string, ca: string, cb: string, cc: string)
    requires LowerWord(a) && LowerWord(b) && LowerWord(c)
    requires a != [] && b != [] && c != []
    requires ca == [UpperChar(a[0])] + a[1..]
    requires cb == [UpperChar(b[0])] + b[1..]
    requires cc == [UpperChar(c[0])] + c[1..]
    ensures SnakeToCamel(a + "_" + b + "_" + c) == ca + cb + cc
  {
    assert JoinWith([b, c], '_') == b + "_" + c;
    assert JoinWith([a, b, c], '_') == a + "_" + (b + "_" + c);
    assert a + "_" + (b + "_" + c) == a + "_" + b + "_" + c;
    SnakeToCamelWords([a, b, c]);
    ConcatCapitalized3(a, b, c);
    CapitalizeWord(a);
    CapitalizeWord(b);
    CapitalizeWord(c);
  }

  lemma ClientRequestSpelling()
    ensures LowerWord("client") && LowerWord("request")
    ensures "Client" == [UpperChar("client"[0])] + "client"[1..]
    ensures "Request" == [UpperChar("request"[0])] + "request"[1..]
    ensures "client" + "_" + "request" == "client_request"
    ensures "Client" + "Request" == "ClientRequest"
  {
  }

  /** The default `msg_type` of each class converts to the class's name. */
  lemma ClientRequestTypeName()
    ensures SnakeToCamel(DefaultMsgType(ClientRequestClass)) == ClassName(ClientRequestClass)
  {
    ClientRequestSpelling();
    SnakeToCamel2("client", "request", "Client", "Request");
  }

  lemma ClientResponseSpelling()
    ensures LowerWord("client") && LowerWord("response")
    ensures "Client" == [UpperChar("client"[0])] + "client"[1..]
    ensures "Response" == [UpperChar("response"[0])] + "response"[1..]
    ensures "client" + "_" + "response" == "client_response"
    ensures "Client" + "Response" == "ClientResponse"
  {
  }

  lemma ClientResponseTypeName()
    ensures SnakeToCamel(DefaultMsgType(ClientResponseClass)) == ClassName(ClientResponseClass)
  {
    ClientResponseSpelling();
    SnakeToCamel2("client", "response", "Client", "Response");
  }

  lemma AppendEntriesRequestSpelling()
    ensures "append" + "_" + "entries" + "_" + "request" == "append_entries_request"
    ensures "Append" + "Entries" + "Request" == "AppendEntriesRequest"
  {
  }

  lemma AppendEntriesRequestTypeName()
    ensures SnakeToCamel(DefaultMsgType(AppendEntriesRequestClass)) == ClassName(AppendEntriesRequestClass)
  {
    SnakeToCamel3("append", "entries", "request", "Append", "Entries", "Request");
    AppendEntriesRequestSpelling();
  }

  lemma AppendEntriesResponseSpelling()
    ensures "append" + "_" + "entries" + "_" + "response" == "append_entries_response"
    ensures "Append" + "Entries" + "Response" == "AppendEntriesResponse"
  {
  }

  lemma AppendEntriesResponseTypeName()
    ensures SnakeToCamel(DefaultMsgType(AppendEntriesResponseClass)) == ClassName(AppendEntriesResponseClass)
  {
    SnakeToCamel3("append", "entries", "response", "Append", "Entries", "Response");
    AppendEntriesResponseSpelling();
  }

  lemma VoteRequestSpelling()
    ensures LowerWord("vote") && LowerWord("request")
    ensures "Vote" == [UpperChar("vote"[0])] + "vote"[1..]
    ensures "Request" == [UpperChar("request"[0])] + "request"[1..]
    ensures "vote" + "_" + "request" == "vote_request"
    ensures "Vote" + "Request" == "VoteRequest"
  {
  }

  lemma VoteRequestTypeName()
    ensures SnakeToCamel(DefaultMsgType(VoteRequestClass)) == ClassName(VoteRequestClass)
  {
    VoteRequestSpelling();
    SnakeToCamel2("vote", "request", "Vote", "Request");
  }

  lemma VoteResponseSpelling()
    ensures LowerWord("vote") && LowerWord("response")
    ensures "Vote" == [UpperChar("vote"[0])] + "vote"[1..]
    ensures "Response" == [UpperChar("response"[0])] + "response"[1..]
    ensures "vote" + "_" + "response" == "vote_response"
    ensures "Vote" + "Response" == "VoteResponse"
  {
  }

  lemma VoteResponseTypeName()
    ensures SnakeToCamel(DefaultMsgType(VoteResponseClass)) == ClassName(VoteResponseClass)
  {
    VoteResponseSpelling();
    SnakeToCamel2("vote", "response", "Vote", "Response");
  }

  lemma HeartbeatRequestSpelling()
    ensures LowerWord("heartbeat") && LowerWord("request")
    ensures "Heartbeat" == [UpperChar("heartbeat"[0])] + "heartbeat"[1..]
    ensures "Request" == [UpperChar("request"[0])] + "request"[1..]
    ensures "heartbeat" + "_" + "request" == "heartbeat_request"
    ensures "Heartbeat" + "Request" == "HeartbeatRequest"
  {
  }

  lemma HeartbeatRequestTypeName()
    ensures SnakeToCamel(DefaultMsgType(HeartbeatRequestClass)) == ClassName(HeartbeatRequestClass)
  {
    HeartbeatRequestSpelling();
    SnakeToCamel2("heartbeat", "request", "Heartbeat", "Request");
  }

  lemma ElectionRequestSpelling()
    ensures LowerWord("election") && LowerWord("request")
    ensures "Election" == [UpperChar("election"[0])] + "election"[1..]
    ensures "Request" == [UpperChar("request"[0])] + "request"[1..]
    ensures "election" + "_" + "request" == "election_request"
    ensures "Election" + "Request" == "ElectionRequest"
  {
  }

  lemma ElectionRequestTypeName()
    ensures SnakeToCamel(DefaultMsgType(ElectionRequestClass)) == ClassName(ElectionRequestClass)
  {
    ElectionRequestSpelling();
    SnakeToCamel2("election", "request", "Election", "Request");
  }

  /** The default `msg_type` of every class converts to the class's name, so a payload
      carrying it selects that class. */
  lemma DefaultMsgTypeNamesClass(c: MessageClass)
    ensures SnakeToCamel(DefaultMsgType(c)) == ClassName(c)
  {
    match c
    case ClientRequestClass => ClientRequestTypeName();
    case ClientResponseClass => ClientResponseTypeName();
    case AppendEntriesRequestClass => AppendEntriesRequestTypeName();
    case AppendEntriesResponseClass => AppendEntriesResponseTypeName();
    case VoteRequestClass => VoteRequestTypeName();
    case VoteResponseClass => VoteResponseTypeName();
    case HeartbeatRequestClass => HeartbeatRequestTypeName();
    case ElectionRequestClass => ElectionRequestTypeName();
  }

  /** The classes have pairwise different names. */
  lemma ClassNamesDistinct(c: MessageClass, d: MessageClass)
    ensures ClassName(c) == ClassName(d) ==> c == d
  {
  }

  /** Where each class sits in `message_classes`. */
  function ClassPosition(c: MessageClass): (i: nat)
    ensures i < |MessageClasses| && MessageClasses[i] == c
  {
    match c
    case ClientRequestClass => 0
    case ClientResponseClass => 1
    case AppendEntriesRequestClass => 2
    case AppendEntriesResponseClass => 3
    case VoteRequestClass => 4
    case VoteResponseClass => 5
    case HeartbeatRequestClass => 6
    case ElectionRequestClass => 7
  }

  /** The class is called `name`. */
  predicate Named(c: MessageClass, name: string)
  {
    ClassName(c) == name
  }

  /** `message_from_payload` on the payload's `msg_type`: converts it to a class name and
      returns the class in `message_classes` with that name, or `None` when no class has
      it. Building the instance from the payload's keyword arguments is not modelled; the
      result is the class that would be instantiated. */
  method MessageFromPayload(msgType: string) returns (cls: Option<MessageClass>)
    ensures cls.Some? ==> ClassName(cls.value) == SnakeToCamel(msgType)
    ensures forall c :: ClassName(c) == SnakeToCamel(msgType) ==> cls == Some(c)
  {
    cls := ClassNamed(SnakeToCamel(msgType));
  }

  /** The search of `message_from_payload`: the first class in `message_classes` whose
      name is `name`, which is the only one. */
  method ClassNamed(name: string) returns (cls: Option<MessageClass>)
    ensures cls.Some? ==> ClassName(cls.value) == name
    ensures forall c :: ClassName(c) == name ==> cls == Some(c)
  {
    for i := 0 to |MessageClasses|
      invariant forall j :: 0 <= j < i ==> !Named(MessageClasses[j], name)
    {
      if Named(MessageClasses[i], name) {
        forall c | ClassName(c) == name
          ensures c == MessageClasses[i]
        {
          ClassNamesDistinct(c, MessageClasses[i]);
        }
        return Some(MessageClasses[i]);
      }
    }
    forall c | ClassName(c) == name
      ensures false
    {
      var j := ClassPosition(c);
    }
    return None;
  }

  /** A message whose `msg_type` is its class's default names exactly that class, so
      `message_from_payload` rebuilds a message of the class it was sent as. */
  lemma PayloadNamesItsClass(m: Message, c: MessageClass)
    ensures ClassName(c) == SnakeToCamel(MsgType(m)) <==> c == ClassOf(m)
  {
    DefaultMsgTypeNamesClass(ClassOf(m));
    ClassNamesDistinct(c, ClassOf(m));
  }
}
