/** The key-value state machine (pkg/kvstore/store.go): a map from keys to values that
    applied log commands update and reads consult. */
module KvStore {
  import opened Wrappers

  /** A state-machine command as the log carries it. */
  datatype Command = Command(op: string, key: string, value: string)

  datatype StoreError = KeyNotFound

  const SET: string := "SET"
  const DELETE: string := "DELETE"

  /** The map after applying one command: SET writes the key, DELETE removes it, and any
      other operation is ignored. */
  function Applied(data: map<string, string>, cmd: Command): (after: map<string, string>)
    ensures cmd.op == SET ==> cmd.key in after && after[cmd.key] == cmd.value
    ensures cmd.op == DELETE ==> cmd.key !in after
    ensures cmd.op != SET && cmd.op != DELETE ==> after == data
    ensures forall k :: k != cmd.key ==> (k in after <==> k in data)
    ensures forall k :: k != cmd.key && k in after ==> after[k] == data[k]
  {
    if cmd.op == SET then data[cmd.key := cmd.value]
    else if cmd.op == DELETE then data - {cmd.key}
    else data
  }

  /** The map after applying a sequence of commands in log order. */
  function Replay(data: map<string, string>, cmds: seq<Command>): map<string, string>
    decreases |cmds|
  {
    if cmds == [] then data else Replay(Applied(data, cmds[0]), cmds[1..])
  }

  /** The command writes or deletes the key. */
  predicate Touches(cmd: Command, key: string) {
    cmd.key == key && (cmd.op == SET || cmd.op == DELETE)
  }

  /** Command `i` is the last one in `cmds` that writes or deletes the key. */
  predicate LastTouch(cmds: seq<Command>, key: string, i: int) {
    0 <= i < |cmds| && Touches(cmds[i], key) &&
    forall j :: i < j < |cmds| ==> !Touches(cmds[j], key)
  }

  /** Replaying the log one command at a time: the value a key ends with is set by the
      last SET or DELETE of that key, and a key no command touches keeps its value. */
  lemma {:induction false} ReplayLastWriteWins(data: map<string, string>, cmds: seq<Command>, key: string)
    ensures (forall i :: 0 <= i < |cmds| ==> !Touches(cmds[i], key)) ==>
      (key in Replay(data, cmds) <==> key in data) &&
      (key in data ==> Replay(data, cmds)[key] == data[key])
    ensures forall i :: LastTouch(cmds, key, i) && cmds[i].op == SET ==>
      key in Replay(data, cmds) && Replay(data, cmds)[key] == cmds[i].value
    ensures forall i :: LastTouch(cmds, key, i) && cmds[i].op == DELETE ==>
      key !in Replay(data, cmds)
    decreases |cmds|
  {
    if cmds != [] {
      var rest := cmds[1..];
      ReplayLastWriteWins(Applied(data, cmds[0]), rest, key);
      forall i | 0 < i < |cmds|
        ensures cmds[i] == rest[i - 1]
      {
      }
      forall i | LastTouch(cmds, key, i) && 0 < i
        ensures LastTouch(rest, key, i - 1)
      {
      }
    }
  }

  /** Store.Propose builds a SET command for the pair; handing it to the consensus layer
      is not part of this model. Applied, the command makes the key read back the value. */
  function Propose(key: string, value: string): (cmd: Command)
    ensures cmd.op == SET && cmd.key == key && cmd.value == value
    ensures forall data: map<string, string> {:trigger Applied(data, cmd)} ::
      key in Applied(data, cmd) && Applied(data, cmd)[key] == value
  {
    Command(SET, key, value)
  }

  class Store {
    var data: map<string, string>

    /** A store over the given map. */
    constructor(initial: map<string, string>)
      ensures data == initial
    {
      data := initial;
    }

    /** Get: the stored value, or "" with ErrKeyNotFound when the key is absent. */
    method Get(key: string) returns (value: string, err: Outcome<StoreError>)
      ensures key in data ==> value == data[key] && err == Pass
      ensures key !in data ==> value == "" && err == Fail(KeyNotFound)
    {
      if key in data {
        return data[key], Pass;
      }
      return "", Fail(KeyNotFound);
    }

    /** ApplyLog: updates the map in place as the command says. */
    method ApplyLog(cmd: Command)
      modifies this
      ensures data == Applied(old(data), cmd)
    {
      if cmd.op == SET {
        data := data[cmd.key := cmd.value];
      } else if cmd.op == DELETE {
        data := data - {cmd.key};
      }
    }
  }
}
