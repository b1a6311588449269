/** The state machine of nidus (nidus/kvstore.py): a dictionary with get, set and delete,
    and `apply`, which runs one replicated command `[name, key, value...]`. */
module KeyValue {
  import opened Common

  /** What a store operation does for its caller: returns a value (Python's `None`
      included) or raises an exception. */
  datatype Outcome = Returned(value: Option<string>) | Raised(error: PyError)

  /** The dictionary after one `apply`, and what `apply` gave back. */
  datatype Step = Step(data: map<string, string>, outcome: Outcome)

  /** The commands `apply` knows, by their upper-cased name. */
  datatype CommandName = GetCommand | DelCommand | SetCommand | OtherCommand

  /** `item[0].upper()` compared with "GET", "DEL" and "SET". */
  function NameOf(name: string): (c: CommandName)
  {
    var command := Upper(name);
    if command == "GET" then GetCommand
    else if command == "DEL" then DelCommand
    else if command == "SET" then SetCommand
    else OtherCommand
  }

  /** `apply(item)` as a function of the dictionary: the command name `item[0]` is
      upper-cased and selects GET, DEL or SET; any other name returns `None` and changes
      nothing. A missing key raises KeyError, a missing argument IndexError. */
  function ApplyCommand(data: map<string, string>, item: Command): (s: Step)
  {
    if |item| == 0 then Step(data, Raised(IndexError))
    else
      match NameOf(item[0])
      case GetCommand =>
        if |item| < 2 then Step(data, Raised(IndexError))
        else if item[1] in data then Step(data, Returned(Some(data[item[1]])))
        else Step(data, Raised(KeyError(item[1])))
      case DelCommand =>
        if |item| < 2 then Step(data, Raised(IndexError))
        else if item[1] in data then Step(data - {item[1]}, Returned(Some("OK")))
        else Step(data, Raised(KeyError(item[1])))
      case SetCommand =>
        if |item| < 3 then Step(data, Raised(IndexError))
        else Step(data[item[1] := item[2]], Returned(Some("OK")))
      case OtherCommand => Step(data, Returned(None))
  }

  /** A command that raises leaves the dictionary as it was, and only DEL and SET with a
      key ever change it. */
  lemma ApplyCommandChanges(data: map<string, string>, item: Command)
    ensures var s := ApplyCommand(data, item);
            (s.outcome.Raised? ==> s.data == data)
            && (s.data != data ==> |item| >= 2 && Upper(item[0]) in {"DEL", "SET"})
  {
  }

  class KVStore {
    var data: map<string, string>

    constructor ()
      ensures data == map[]
    {
      data := map[];
    }

    /** `get(key)`: the stored value, or KeyError when the key is missing. */
    method Get(key: string) returns (r: Outcome)
      ensures key in data ==> r == Returned(Some(data[key]))
      ensures key !in data ==> r == Raised(KeyError(key))
    {
      if key in data {
        r := Returned(Some(data[key]));
      } else {
        r := Raised(KeyError(key));
      }
    }

    /** `set(key, value)`: stores the value and returns "OK"; every other key keeps its value. */
    method Set(key: string, value: string) returns (r: string)
      modifies this
      ensures r == "OK"
      ensures key in data && data[key] == value
      ensures forall k :: k != key ==> (k in data <==> k in old(data)) && (k in data ==> data[k] == old(data)[k])
    {
      data := data[key := value];
      r := "OK";
    }

    /** `delete(key)`: removes a present key and returns "OK", leaving every other key;
        a missing key raises KeyError and changes nothing. */
    method Delete(key: string) returns (r: Outcome)
      modifies this
      ensures key in old(data) ==> r == Returned(Some("OK")) && data == old(data) - {key}
      ensures key !in old(data) ==> r == Raised(KeyError(key)) && data == old(data)
      ensures key !in data
    {
      if key !in data {
        return Raised(KeyError(key));
      }
      data := data - {key};
      r := Returned(Some("OK"));
    }

    /** `apply(item)`: dispatches on the upper-cased command name to Get, Delete or Set. */
    method Apply(item: Command) returns (r: Outcome)
      modifies this
      ensures Step(data, r) == ApplyCommand(old(data), item)
    {
      if |item| == 0 {
        return Raised(IndexError);
      }
      var command := Upper(item[0]);
      if command == "GET" {
        if |item| < 2 {
          return Raised(IndexError);
        }
        r := Get(item[1]);
      } else if command == "DEL" {
        if |item| < 2 {
          return Raised(IndexError);
        }
        r := Delete(item[1]);
      } else if command == "SET" {
        if |item| < 3 {
          return Raised(IndexError);
        }
        var ok := Set(item[1], item[2]);
        r := Returned(Some(ok));
      } else {
        r := Returned(None);
      }
    }
  }

  /** Upper-casing twice is upper-casing once. */
  lemma {:induction false} UpperIdempotent(s: string)
    ensures Upper(Upper(s)) == Upper(s)
  {
    if s != [] {
      UpperIdempotent(s[1..]);
      assert Upper(s)[1..] == Upper(s[1..]);
    }
  }

  /** The command name is matched case-insensitively: `apply` gives the same result for a
      name and for its upper-case spelling. */
  lemma CommandNameCaseInsensitive(data: map<string, string>, name: string, args: seq<string>)
    ensures ApplyCommand(data, [name] + args) == ApplyCommand(data, [Upper(name)] + args)
  {
    UpperIdempotent(name);
    assert ([name] + args)[1..] == args == ([Upper(name)] + args)[1..];
  }

  /** After a successful SET, GET of that key returns the value that was set. */
  lemma GetAfterSet(data: map<string, string>, setItem: Command, getItem: Command)
    requires |setItem| >= 3 && Upper(setItem[0]) == "SET"
    requires |getItem| >= 2 && Upper(getItem[0]) == "GET" && getItem[1] == setItem[1]
    ensures ApplyCommand(data, setItem).outcome == Returned(Some("OK"))
    ensures ApplyCommand(ApplyCommand(data, setItem).data, getItem) == Step(data[setItem[1] := setItem[2]], Returned(Some(setItem[2])))
  {
  }

  /** SET is idempotent: applying the same SET twice leaves the dictionary as applying it once. */
  lemma SetIdempotent(data: map<string, string>, item: Command)
    requires |item| >= 3 && Upper(item[0]) == "SET"
    ensures ApplyCommand(ApplyCommand(data, item).data, item) == ApplyCommand(data, item)
  {
  }

  /** Any command name other than GET, DEL and SET (in any letter case) returns `None` and
      leaves the dictionary unchanged. */
  lemma UnknownCommandIsNoOp(data: map<string, string>, item: Command)
    requires |item| >= 1 && Upper(item[0]) !in {"GET", "DEL", "SET"}
    ensures ApplyCommand(data, item) == Step(data, Returned(None))
  {
  }
}
