/** The cache engine's service loop (internal/cache/cache.go): one worker
    owns the key/value map and answers commands one at a time. Only GET has
    a case in the loop's switch; every other operation gets no reply. */
module CacheStore {
  import opened CacheErrors
  import opened CacheCommands

  /** What the loop sends back for one command: an error on the error side,
      a value on the output side, or nothing at all. */
  datatype Response = Err(error: DBError) | Out(value: string) | Silent

  const MissingKeyMessage: string := "missing parameter 'key'"

  function KeyDoesNotExistMessage(key: string): string {
    "key '" + key + "' does not exist"
  }

  /** The reply to one command against the map `values`. A GET with exactly
      one argument answers the stored value, or "key does not exist" when
      the key is absent; a GET with any other number of arguments is an
      invalid request; any other operation is answered with nothing. No
      error it returns carries the success sentinel. */
  function Reply(values: map<string, string>, cmd: Command): (r: Response)
    ensures r.Silent? <==> cmd.operation != OperationGet
    ensures r.Out? <==> cmd.operation == OperationGet && |cmd.args| == 1 && cmd.args[0] in values
    ensures r.Out? ==> r.value == values[cmd.args[0]]
    ensures r.Err? && |cmd.args| != 1 ==>
      r.error.Kind() == DBErrorInvalidRequest && r.error.message == MissingKeyMessage
    ensures r.Err? && |cmd.args| == 1 ==>
      cmd.args[0] !in values &&
      r.error.Kind() == DBErrorKeyDoesNotExist && r.error.message == KeyDoesNotExistMessage(cmd.args[0])
    ensures r.Err? ==> r.error.Kind() != DBNoError
  {
    if cmd.operation == OperationGet then
      if |cmd.args| != 1 then Err(DBError(DBErrorInvalidRequest, MissingKeyMessage))
      else
        var key := cmd.args[0];
        if key !in values then Err(DBError(DBErrorKeyDoesNotExist, KeyDoesNotExistMessage(key)))
        else Out(values[key])
    else Silent
  }

  /** The replies to a sequence of commands, all against the same map. */
  function Replies(values: map<string, string>, cmds: seq<Command>): (rs: seq<Response>)
    ensures |rs| == |cmds|
    ensures forall k :: 0 <= k < |cmds| ==> rs[k] == Reply(values, cmds[k])
  {
    if cmds == [] then [] else [Reply(values, cmds[0])] + Replies(values, cmds[1..])
  }

  /** The cache: the map from keys to values. */
  class Cache {
    var values: map<string, string>

    /** `New`: an empty map. */
    constructor New()
      ensures values == map[]
    {
      values := map[];
    }

    /** One iteration of the service loop: the reply to `cmd`. The method
        has no `modifies` clause: answering a command never changes the map. */
    method Step(cmd: Command) returns (r: Response)
      ensures r == Reply(values, cmd)
      ensures unchanged(this)
    {
      r := Silent;
      if cmd.operation == OperationGet {
        if |cmd.args| != 1 {
          r := Err(DBError(DBErrorInvalidRequest, MissingKeyMessage));
          return;
        }
        var key := cmd.args[0];
        if key !in values {
          r := Err(DBError(DBErrorKeyDoesNotExist, KeyDoesNotExistMessage(key)));
          return;
        }
        r := Out(values[key]);
      }
    }

    /** The service loop over a finite sequence of commands, one reply per
        command in order; the map is the same before and after. */
    method RunDBService(cmds: seq<Command>) returns (replies: seq<Response>)
      ensures replies == Replies(values, cmds)
      ensures unchanged(this)
    {
      replies := [];
      for i := 0 to |cmds|
        invariant |replies| == i
        invariant forall k :: 0 <= k < i ==> replies[k] == Reply(values, cmds[k])
      {
        var r := Step(cmds[i]);
        replies := replies + [r];
      }
    }
  }

  // ---------------------------------------------------------------- what the client sees

  /** The replies actually sent: the silent ones send nothing, every other
      one is sent. */
  function Sent(rs: seq<Response>): (sent: seq<Response>)
    ensures |sent| <= |rs|
    ensures forall k :: 0 <= k < |sent| ==> !sent[k].Silent? && sent[k] in rs
    ensures forall k :: 0 <= k < |rs| && !rs[k].Silent? ==> rs[k] in sent
  {
    if rs == [] then []
    else (if rs[0].Silent? then [] else [rs[0]]) + Sent(rs[1..])
  }

  /** Sending keeps the order of the replies: the replies to two runs in a
      row are sent as those of the first run, then those of the second. */
  lemma {:induction false} SentAppend(a: seq<Response>, b: seq<Response>)
    ensures Sent(a + b) == Sent(a) + Sent(b)
  {
    if a == [] {
      assert a + b == b;
    } else {
      assert (a + b)[1..] == a[1..] + b;
      SentAppend(a[1..], b);
    }
  }

  /** How many GET commands a sequence holds. */
  function GetCount(cmds: seq<Command>): nat {
    if cmds == [] then 0
    else (if cmds[0].operation == OperationGet then 1 else 0) + GetCount(cmds[1..])
  }

  /** Exactly one reply is sent per GET, and none for any other operation. */
  lemma {:induction false} OneReplyPerGet(values: map<string, string>, cmds: seq<Command>)
    ensures |Sent(Replies(values, cmds))| == GetCount(cmds)
  {
    if cmds != [] {
      OneReplyPerGet(values, cmds[1..]);
      assert Replies(values, cmds)[1..] == Replies(values, cmds[1..]);
    }
  }

  /** Starting from a new cache every one-argument GET answers "key does not
      exist", because nothing ever inserts into the map. */
  method ServeFromNew(cmds: seq<Command>) returns (replies: seq<Response>)
    ensures |replies| == |cmds|
    ensures forall k :: 0 <= k < |cmds| && cmds[k].operation == OperationGet && |cmds[k].args| == 1 ==>
      replies[k] == Err(DBError(DBErrorKeyDoesNotExist, KeyDoesNotExistMessage(cmds[k].args[0])))
    ensures forall k :: 0 <= k < |cmds| ==> !replies[k].Out?
  {
    var cache := new Cache.New();
    replies := cache.RunDBService(cmds);
  }
}
