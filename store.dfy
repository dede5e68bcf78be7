/**
 * The remote key-value store that main.go talks to through its Redis
 * client, reduced to the five commands main.go issues. The keyspace is a
 * sequence of entries with distinct keys: the contents of the store, together
 * with the order in which KEYS happens to report them. Whether a call fails
 * (connection refused, authentication, protocol, timeout) is decided outside
 * the model and handed in as `fault`.
 */
module Store {
  import opened Wrappers

  datatype Entry = Entry(key: string, val: string)

  type Keyspace = seq<Entry>

  /** No key is stored twice. */
  predicate Valid(ks: Keyspace) {
    forall i, j :: 0 <= i < j < |ks| ==> ks[i].key != ks[j].key
  }

  /** The set of keys present. */
  function Keys(ks: Keyspace): (r: set<string>)
    ensures forall i :: 0 <= i < |ks| ==> ks[i].key in r
    ensures forall k :: k in r ==> exists i :: 0 <= i < |ks| && ks[i].key == k
  {
    if ks == [] then {}
    else
      var rest := Keys(ks[1..]);
      assert forall k :: k in rest ==> exists i :: 0 <= i < |ks| && ks[i].key == k by {
        forall k | k in rest ensures exists i :: 0 <= i < |ks| && ks[i].key == k {
          var j :| 0 <= j < |ks[1..]| && ks[1..][j].key == k;
          assert ks[j + 1].key == k;
        }
      }
      {ks[0].key} + rest
  }

  /** In a valid keyspace the first key does not recur, and the rest is valid too. */
  lemma ValidTail(ks: Keyspace)
    requires Valid(ks) && ks != []
    ensures ks[0].key !in Keys(ks[1..]) && Valid(ks[1..])
  {
  }

  /** Putting an entry in front of a keyspace that lacks its key keeps it valid. */
  lemma ValidCons(e: Entry, ks: Keyspace)
    requires e.key !in Keys(ks) && Valid(ks)
    ensures Keys([e] + ks) == {e.key} + Keys(ks)
    ensures Valid([e] + ks)
  {
    assert ([e] + ks)[1..] == ks;
  }

  /** The value stored under `k`, if any. */
  function Lookup(ks: Keyspace, k: string): (r: Option<string>)
    ensures r.Some? <==> k in Keys(ks)
    ensures r.Some? ==> Entry(k, r.value) in ks
  {
    if ks == [] then None
    else if ks[0].key == k then Some(ks[0].val)
    else Lookup(ks[1..], k)
  }

  /** Writes `v` under `k`, overwriting an existing value in place. */
  function Put(ks: Keyspace, k: string, v: string): (r: Keyspace)
    ensures Keys(r) == Keys(ks) + {k}
    ensures Valid(ks) ==> Valid(r)
    ensures Lookup(r, k) == Some(v)
    ensures forall k' :: k' != k ==> Lookup(r, k') == Lookup(ks, k')
  {
    if ks == [] then [Entry(k, v)]
    else if ks[0].key == k then
      [Entry(k, v)] + ks[1..]
    else
      var rest := Put(ks[1..], k, v);
      assert ([ks[0]] + rest)[1..] == rest;
      assert Valid(ks) ==> Valid([ks[0]] + rest) by {
        if Valid(ks) { ValidTail(ks); ValidCons(ks[0], rest); }
      }
      [ks[0]] + rest
  }

  /** Deletes the entry for `k`, if there is one. */
  function Remove(ks: Keyspace, k: string): (r: Keyspace)
    ensures Valid(ks) ==> Keys(r) == Keys(ks) - {k}
    ensures Valid(ks) ==> Valid(r)
    ensures Valid(ks) ==> Lookup(r, k) == None
    ensures forall k' :: k' != k ==> Lookup(r, k') == Lookup(ks, k')
  {
    if ks == [] then []
    else if ks[0].key == k then
      assert Valid(ks) ==> ks[0].key !in Keys(ks[1..]) && Valid(ks[1..]) by {
        if Valid(ks) { ValidTail(ks); }
      }
      ks[1..]
    else
      var rest := Remove(ks[1..], k);
      assert Valid(ks) ==> ks[0].key !in Keys(ks[1..]) && Valid(ks[1..]) by {
        if Valid(ks) { ValidTail(ks); }
      }
      [ks[0]] + rest
  }

  /**
   * KEYS pattern matching: `*` matches any run of characters, `?` any one
   * character, every other character itself. Keys are sequences of
   * characters here; the server matches UTF-8 bytes, so its `?` consumes a
   * single byte and differs from this one on non-ASCII keys.
   */
  function Glob(pattern: string, name: string): bool
    decreases |pattern| + |name|
  {
    if pattern == [] then name == []
    else if pattern[0] == '*' then Glob(pattern[1..], name) || (name != [] && Glob(pattern, name[1..]))
    else name != [] && (pattern[0] == '?' || pattern[0] == name[0]) && Glob(pattern[1..], name[1..])
  }

  /** The pattern `*` matches every key. */
  lemma {:induction false} GlobStar(name: string)
    ensures Glob("*", name)
  {
    if name != [] {
      GlobStar(name[1..]);
    }
  }

  /** A pattern without wildcards matches only the key spelled the same way. */
  lemma {:induction false} GlobLiteral(pattern: string, name: string)
    requires forall k :: 0 <= k < |pattern| ==> pattern[k] != '*' && pattern[k] != '?'
    ensures Glob(pattern, name) <==> name == pattern
  {
    if pattern != [] && name != [] {
      GlobLiteral(pattern[1..], name[1..]);
      if name == pattern {
        assert name[1..] == pattern[1..];
      }
      if name[0] == pattern[0] && name[1..] == pattern[1..] {
        assert name == [name[0]] + name[1..];
        assert pattern == [pattern[0]] + pattern[1..];
      }
    }
  }

  /** The keys matching `pattern`, in keyspace order. */
  function Matching(ks: Keyspace, pattern: string): (r: seq<string>)
    ensures forall x :: x in r <==> x in Keys(ks) && Glob(pattern, x)
    ensures Valid(ks) ==> forall i, j :: 0 <= i < j < |r| ==> r[i] != r[j]
  {
    if ks == [] then []
    else
      var rest := Matching(ks[1..], pattern);
      assert Valid(ks) ==> ks[0].key !in Keys(ks[1..]) && Valid(ks[1..]) by {
        if Valid(ks) { ValidTail(ks); }
      }
      if Glob(pattern, ks[0].key) then [ks[0].key] + rest else rest
  }

  /** The five commands main.go issues, with the arguments it passes. */
  datatype Command =
    | SetCmd(key: string, value: string, ttlSeconds: int)
    | GetCmd(key: string)
    | DelCmd(key: string)
    | ExistsCmd(key: string)
    | KeysCmd(pattern: string)

  /** What a command call hands back: its typed value, `redis.Nil`, or any other error. */
  datatype Reply =
    | Status(text: string)
    | Bulk(text: string)
    | Count(n: int)
    | Names(items: seq<string>)
    | Nil
    | Failed(detail: string)

  /**
   * The client's static typing: SET gives a status, GET a string, DEL and
   * EXISTS an integer, KEYS a list of strings; any call may end in an error.
   */
  predicate Answers(cmd: Command, reply: Reply) {
    reply.Nil? || reply.Failed? ||
    match cmd
    case SetCmd(_, _, _) => reply.Status?
    case GetCmd(_) => reply.Bulk?
    case DelCmd(_) => reply.Count?
    case ExistsCmd(_) => reply.Count?
    case KeysCmd(_) => reply.Names?
  }

  /**
   * One round trip: the reply and the keyspace afterwards. A failing call
   * leaves the keyspace as it was. The TTL of SET is carried but not
   * modelled (expiry over time is outside the model).
   */
  function Execute(ks: Keyspace, cmd: Command, fault: Option<string>): (res: (Reply, Keyspace))
    ensures Answers(cmd, res.0)
    ensures Valid(ks) ==> Valid(res.1)
    ensures fault.Some? ==> res == (Failed(fault.value), ks)
    ensures res.0.Nil? ==> fault.None? && cmd.GetCmd? && Lookup(ks, cmd.key).None?
  {
    if fault.Some? then (Failed(fault.value), ks)
    else
      match cmd
      case SetCmd(k, v, _) => (Status("OK"), Put(ks, k, v))
      case GetCmd(k) => (match Lookup(ks, k) case Some(v) => Bulk(v) case None => Nil, ks)
      case DelCmd(k) => (Count(if Lookup(ks, k).Some? then 1 else 0), Remove(ks, k))
      case ExistsCmd(k) => (Count(if Lookup(ks, k).Some? then 1 else 0), ks)
      case KeysCmd(p) => (Names(Matching(ks, p)), ks)
  }
}
