/**
 * Validation, the action `switch` and the shaping of the reply into the
 * output envelope (main.go:66-122).
 */
module Dispatch {
  import opened Wrappers
  import opened Params
  import opened Store

  /** The `result` field of the output document: a JSON value, `Absent` being null. */
  datatype Value =
    | Absent
    | Scalar(s: string)
    | Int(n: int)
    | Bool(b: bool)
    | List(items: seq<string>)

  /** The output document: `result` and `error`, "" meaning no error. */
  datatype Output = Output(result: Value, error: string)

  /** Never both a non-null result and a non-empty error. */
  predicate WellFormed(o: Output) {
    o.result != Absent ==> o.error == ""
  }

  /** The action names the `switch` knows. */
  const Actions: set<string> := {"set", "get", "del", "exists", "keys"}

  /** The two checks, in order; the first failure is the message returned. */
  function Validate(f: Fields): (r: Option<string>)
    ensures f.addr == "" ==> r == Some("addr is required")
    ensures f.addr != "" ==> (r.Some? <==> f.key == "" && f.action != "keys")
    ensures f.addr != "" && f.key == "" && f.action != "keys" ==> r == Some("key is required")
    ensures r.Some? ==> r.value in {"addr is required", "key is required"}
  {
    if f.addr == "" then Some("addr is required")
    else if f.key == "" && f.action != "keys" then Some("key is required")
    else None
  }

  /** The name of the action that selects a command. */
  function ActionOf(cmd: Command): (a: string)
    ensures a in Actions
  {
    match cmd
    case SetCmd(_, _, _) => "set"
    case GetCmd(_) => "get"
    case DelCmd(_) => "del"
    case ExistsCmd(_) => "exists"
    case KeysCmd(_) => "keys"
  }

  /** The pattern KEYS is sent: the key, or "*" when the key is empty. */
  function KeysPattern(key: string): (p: string)
    ensures p != ""
    ensures key != "" ==> p == key
  {
    if key == "" then "*" else key
  }

  /** The `switch` on the action: the command it issues, `None` for "invalid action". */
  function Select(f: Fields): (r: Option<Command>)
    ensures r.Some? <==> f.action in Actions
    ensures r.Some? ==> ActionOf(r.value) == f.action
  {
    if f.action == "set" then Some(SetCmd(f.key, f.value, f.expiration))
    else if f.action == "get" then Some(GetCmd(f.key))
    else if f.action == "del" then Some(DelCmd(f.key))
    else if f.action == "exists" then Some(ExistsCmd(f.key))
    else if f.action == "keys" then Some(KeysCmd(KeysPattern(f.key)))
    else None
  }

  /** Every command the `switch` issues carries the request's key, or for KEYS the pattern made from it. */
  lemma SelectArguments(f: Fields)
    requires Select(f).Some?
    ensures Select(f).value == match Select(f).value
      case SetCmd(_, _, _) => SetCmd(f.key, f.value, f.expiration)
      case GetCmd(_) => GetCmd(f.key)
      case DelCmd(_) => DelCmd(f.key)
      case ExistsCmd(_) => ExistsCmd(f.key)
      case KeysCmd(_) => KeysCmd(KeysPattern(f.key))
  {
  }

  /**
   * The envelope for a reply: `redis.Nil` is a null result with no error,
   * any other error is "redis error: " and its text, and a success is the
   * per-action result (SET "OK", GET the text, DEL the count, EXISTS
   * whether the count is positive, KEYS the list). Which kind of success
   * value arrives is fixed by the command, as `Answers` says.
   */
  function Shape(cmd: Command, reply: Reply): (o: Output)
    requires Answers(cmd, reply)
    ensures WellFormed(o)
    ensures o.error != "" <==> reply.Failed?
    ensures reply.Failed? ==> o == Output(Absent, "redis error: " + reply.detail)
    ensures o.result == Absent <==> reply.Failed? || reply.Nil?
    ensures o.result.Int? ==> cmd.DelCmd?
    ensures cmd.ExistsCmd? && !reply.Failed? && !reply.Nil? ==> o.result.Bool?
  {
    match reply
    case Failed(detail) => Output(Absent, "redis error: " + detail)
    case Nil => Output(Absent, "")
    case Status(_) => Output(Scalar("OK"), "")
    case Bulk(text) => Output(Scalar(text), "")
    case Count(n) => if cmd.ExistsCmd? then Output(Bool(n > 0), "") else Output(Int(n), "")
    case Names(items) => Output(List(items), "")
  }

  /** What one invocation produces: the envelope, the command sent (if any), the keyspace afterwards. */
  datatype Invocation = Invocation(out: Output, issued: Option<Command>, keyspace: Keyspace)

  /**
   * Everything `main` does after the extraction loop: the checks, at most one
   * store call against keyspace `ks` (where `fault` decides whether the call
   * fails) and the envelope.
   */
  function Respond(f: Fields, ks: Keyspace, fault: Option<string>): (r: Invocation)
    ensures WellFormed(r.out)
    ensures r.issued.None? ==> r.keyspace == ks && r.out.result == Absent && r.out.error != ""
    ensures Valid(ks) ==> Valid(r.keyspace)
    ensures r.issued.Some? ==> Validate(f).None?
    ensures r.issued.Some? <==> Validate(f).None? && f.action in Actions
  {
    match Validate(f)
    case Some(e) => Invocation(Output(Absent, e), None, ks)
    case None =>
      match Select(f)
      case None => Invocation(Output(Absent, "invalid action"), None, ks)
      case Some(cmd) =>
        var (reply, ks') := Execute(ks, cmd, fault);
        Invocation(Shape(cmd, reply), Some(cmd), ks')
  }

  /** A request that passes both checks and names a known action. */
  predicate Accepted(f: Fields) {
    Validate(f).None? && f.action in Actions
  }

  /** An empty address is refused with "addr is required" before anything else, and no command is sent. */
  lemma AddrChecked(f: Fields, ks: Keyspace, fault: Option<string>)
    requires f.addr == ""
    ensures Respond(f, ks, fault) == Invocation(Output(Absent, "addr is required"), None, ks)
  {
  }

  /** With an address but no key, every action except "keys" is refused with "key is required". */
  lemma KeyChecked(f: Fields, ks: Keyspace, fault: Option<string>)
    requires f.addr != "" && f.key == "" && f.action != "keys"
    ensures Respond(f, ks, fault) == Invocation(Output(Absent, "key is required"), None, ks)
  {
  }

  /** A request that passes both checks but names no known action gets "invalid action" and no command. */
  lemma InvalidAction(f: Fields, ks: Keyspace, fault: Option<string>)
    requires Validate(f).None? && f.action !in Actions
    ensures Respond(f, ks, fault) == Invocation(Output(Absent, "invalid action"), None, ks)
  {
  }

  /** The deletion action is spelled "del": "delete" is not an action. */
  lemma DeleteIsInvalid(f: Fields, ks: Keyspace, fault: Option<string>)
    requires f.addr != "" && f.key != "" && f.action == "delete"
    ensures Respond(f, ks, fault) == Invocation(Output(Absent, "invalid action"), None, ks)
  {
  }

  /** Listing is spelled "keys": "list-keys" without a key is refused before the action is looked at. */
  lemma ListKeysNeedsKey(f: Fields, ks: Keyspace, fault: Option<string>)
    requires f.addr != "" && f.key == "" && f.action == "list-keys"
    ensures Respond(f, ks, fault) == Invocation(Output(Absent, "key is required"), None, ks)
  {
  }

  /** A failing store call is reported as "redis error: " and its text, with a null result; nothing is changed. */
  lemma StoreFailure(f: Fields, ks: Keyspace, detail: string)
    requires Accepted(f)
    ensures Respond(f, ks, Some(detail)).out == Output(Absent, "redis error: " + detail)
    ensures Respond(f, ks, Some(detail)).keyspace == ks
  {
  }

  /** SET answers "OK" and stores the value under the key, leaving every other key as it was. */
  lemma SetStores(f: Fields, ks: Keyspace)
    requires Accepted(f) && f.action == "set"
    ensures var r := Respond(f, ks, None);
      r.out == Output(Scalar("OK"), "") && r.issued == Some(SetCmd(f.key, f.value, f.expiration))
      && Lookup(r.keyspace, f.key) == Some(f.value)
      && forall k :: k != f.key ==> Lookup(r.keyspace, k) == Lookup(ks, k)
  {
  }

  /** GET answers the stored text, or a null result with no error when the key is absent. */
  lemma GetReads(f: Fields, ks: Keyspace)
    requires Accepted(f) && f.action == "get"
    ensures var r := Respond(f, ks, None);
      r.keyspace == ks &&
      r.out == match Lookup(ks, f.key)
        case Some(v) => Output(Scalar(v), "")
        case None => Output(Absent, "")
  {
  }

  /** DEL answers how many keys it removed (1 or 0, never an error for an absent key) and removes the key. */
  lemma DelCounts(f: Fields, ks: Keyspace)
    requires Valid(ks)
    requires Accepted(f) && f.action == "del"
    ensures var r := Respond(f, ks, None);
      r.out == Output(Int(if f.key in Keys(ks) then 1 else 0), "")
      && Keys(r.keyspace) == Keys(ks) - {f.key}
      && forall k :: k != f.key ==> Lookup(r.keyspace, k) == Lookup(ks, k)
  {
  }

  /** EXISTS answers a boolean, never a count: whether the key is present. */
  lemma ExistsTests(f: Fields, ks: Keyspace)
    requires Accepted(f) && f.action == "exists"
    ensures var r := Respond(f, ks, None);
      r.out == Output(Bool(f.key in Keys(ks)), "") && r.keyspace == ks
  {
  }

  /**
   * KEYS answers the list of keys matching the key used as a pattern, each
   * once; with an empty key the pattern is "*" and every key is listed.
   */
  lemma KeysLists(f: Fields, ks: Keyspace)
    requires Valid(ks)
    requires Accepted(f) && f.action == "keys"
    ensures var r := Respond(f, ks, None);
      r.keyspace == ks && r.out.error == "" && r.out.result.List?
      && (forall x :: x in r.out.result.items <==> x in Keys(ks) && Glob(KeysPattern(f.key), x))
      && (forall i, j :: 0 <= i < j < |r.out.result.items| ==> r.out.result.items[i] != r.out.result.items[j])
      && (f.key == "" ==> forall x :: x in r.out.result.items <==> x in Keys(ks))
  {
    var pattern := KeysPattern(f.key);
    assert Respond(f, ks, None) == Invocation(Output(List(Matching(ks, pattern)), ""), Some(KeysCmd(pattern)), ks);
    if f.key == "" {
      forall x {
        GlobStar(x);
      }
    }
  }

  /** With action "keys" and no key, the one command sent is KEYS "*", and its list is the answer. */
  lemma KeysWithoutKey(f: Fields, ks: Keyspace)
    requires f.addr != "" && f.key == "" && f.action == "keys"
    ensures Respond(f, ks, None) == Invocation(Output(List(Matching(ks, "*")), ""), Some(KeysCmd("*")), ks)
  {
  }

  /** A SET followed by a GET of the same key reads back the value that was set. */
  lemma SetThenGet(setting: Fields, getting: Fields, ks: Keyspace)
    requires Accepted(setting) && setting.action == "set"
    requires Accepted(getting) && getting.action == "get"
    requires getting.addr == setting.addr && getting.db == setting.db
    requires getting.key == setting.key
    ensures Respond(getting, Respond(setting, ks, None).keyspace, None).out == Output(Scalar(setting.value), "")
  {
    SetStores(setting, ks);
    GetReads(getting, Respond(setting, ks, None).keyspace);
  }
}
