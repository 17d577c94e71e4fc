/** The rc_visard's REST API as the client sees it: JSON values with the
    accessors the client uses, the requests it sends, and `Endpoint`, a
    scripted stand-in for the device that records every request and answers
    with prepared replies. */
module ControlPlane {
  import opened Common

  /** A JSON document. Object members keep the order in which they are
      listed; a key's first member is the one that counts. */
  datatype Json =
    | JNull
    | JBool(b: bool)
    | JInt(i: int)
    | JReal(x: real)
    | JStr(s: string)
    | JArr(items: seq<Json>)
    | JObj(members: seq<(string, Json)>)

  /** The value of the first member carrying `key`, if any. */
  function Find(members: seq<(string, Json)>, key: string): Option<Json>
  {
    if members == [] then None
    else if members[0].0 == key then Some(members[0].1)
    else Find(members[1..], key)
  }

  /** A key is found iff some member carries it, and the value found is that
      of the first such member. */
  lemma {:induction false} FindSpec(members: seq<(string, Json)>, key: string)
    ensures Find(members, key).Some? <==> exists k :: 0 <= k < |members| && members[k].0 == key
    ensures Find(members, key).Some? ==>
      exists k :: 0 <= k < |members| && members[k] == (key, Find(members, key).value) &&
        forall i :: 0 <= i < k ==> members[i].0 != key
  {
    if members != [] && members[0].0 != key {
      var tail := members[1..];
      FindSpec(tail, key);
      if Find(tail, key).Some? {
        var k :| 0 <= k < |tail| && tail[k] == (key, Find(tail, key).value) &&
          forall i :: 0 <= i < k ==> tail[i].0 != key;
        assert members[k + 1] == tail[k];
        assert forall i :: 1 <= i < k + 1 ==> members[i] == tail[i - 1];
      }
      assert forall k :: 1 <= k < |members| ==> members[k] == tail[k - 1];
    } else if members != [] {
      assert members[0] == (key, Find(members, key).value);
    }
  }

  /** `j[key]` on a non-const json: the member of an object, null for a key
      the object (or a null value) lacks, and a type error (a logic_error)
      on any other value. */
  function Member(j: Json, key: string): (r: Result<Json>)
    ensures r.Err? <==> !(j.JObj? || j.JNull?)
    ensures r.Err? ==> r.error == JsonError
    ensures j.JNull? ==> r == Ok(JNull)
    ensures j.JObj? ==> r == Ok(if Find(j.members, key).Some? then Find(j.members, key).value else JNull)
  {
    match j
    case JObj(ms) => Ok(match Find(ms, key) case Some(v) => v case None => JNull)
    case JNull => Ok(JNull)
    case _ => Err(JsonError)
  }

  /** `j[k0][k1]...` */
  function Path(j: Json, keys: seq<string>): Result<Json>
    decreases |keys|
  {
    if keys == [] then Ok(j)
    else match Member(j, keys[0])
      case Err(e) => Err(e)
      case Ok(v) => Path(v, keys[1..])
  }

  /** The first of two member lists that holds the key decides. */
  lemma {:induction false} FindAppend(a: seq<(string, Json)>, b: seq<(string, Json)>, key: string)
    ensures Find(a + b, key) == if Find(a, key).Some? then Find(a, key) else Find(b, key)
  {
    if a != [] {
      assert (a + b)[0] == a[0] && (a + b)[1..] == a[1..] + b;
      FindAppend(a[1..], b, key);
    } else {
      assert a + b == b;
    }
  }

  lemma PathCons(j: Json, key: string, rest: seq<string>)
    ensures Member(j, key).Err? ==> Path(j, [key] + rest) == Err(Member(j, key).error)
    ensures Member(j, key).Ok? ==> Path(j, [key] + rest) == Path(Member(j, key).value, rest)
  {
    assert ([key] + rest)[0] == key && ([key] + rest)[1..] == rest;
  }

  lemma PathSingle(j: Json, key: string)
    ensures Path(j, [key]) == Member(j, key)
  {
    assert [key][1..] == [];
  }

  /** `get<std::string>()` and the implicit conversion to a string. */
  function GetString(r: Result<Json>): Result<string>
  {
    match r
    case Ok(JStr(s)) => Ok(s)
    case Ok(_) => Err(JsonError)
    case Err(e) => Err(e)
  }

  function GetBool(r: Result<Json>): Result<bool>
  {
    match r
    case Ok(JBool(b)) => Ok(b)
    case Ok(_) => Err(JsonError)
    case Err(e) => Err(e)
  }

  /** A double converted to int: the fraction is dropped, towards zero. */
  function Truncate(x: real): (n: int)
    ensures x >= 0.0 ==> n as real <= x < n as real + 1.0
    ensures x < 0.0 ==> n as real - 1.0 < x <= n as real
  {
    if x >= 0.0 then x.Floor else -((-x).Floor)
  }

  /** get<int>(): an integer as it is, a floating-point number truncated. */
  function GetInt(r: Result<Json>): Result<int>
  {
    match r
    case Ok(JInt(i)) => Ok(i)
    case Ok(JReal(x)) => Ok(Truncate(x))
    case Ok(_) => Err(JsonError)
    case Err(e) => Err(e)
  }

  /** What a range-for visits: the items of an array, the values of an
      object, nothing for null and the value itself for any other value. */
  function Elements(j: Json): (r: seq<Json>)
    ensures j.JArr? ==> r == j.items
    ensures j.JNull? ==> r == []
  {
    match j
    case JNull => []
    case JArr(items) => items
    case JObj(ms) => seq(|ms|, k requires 0 <= k < |ms| => ms[k].1)
    case _ => [j]
  }

  /** An array of strings. */
  function StrArray(items: seq<string>): (r: Json)
    ensures r.JArr? && |r.items| == |items|
  {
    JArr(seq(|items|, k requires 0 <= k < |items| => JStr(items[k])))
  }

  /** The strings of an array of strings, in order; any other element is a
      type error. */
  function Strings(js: seq<Json>): (r: Result<seq<string>>)
    ensures r.Ok? <==> forall k :: 0 <= k < |js| ==> js[k].JStr?
    ensures r.Ok? ==> |r.value| == |js| && forall k :: 0 <= k < |js| ==> r.value[k] == js[k].s
    ensures r.Err? ==> r.error == JsonError
  {
    if js == [] then Ok([])
    else match (js[0], Strings(js[1..]))
      case (JStr(s), Ok(rest)) => Ok([s] + rest)
      case (JStr(_), Err(e)) => Err(e)
      case (_, _) => Err(JsonError)
  }

  /** Reading an array of strings back gives the strings. */
  lemma {:induction false} StringsOfStrArray(items: seq<string>)
    ensures Strings(StrArray(items).items) == Ok(items)
  {
    if items != [] {
      StringsOfStrArray(items[1..]);
      assert StrArray(items).items[1..] == StrArray(items[1..]).items;
      assert [items[0]] + items[1..] == items;
    }
  }

  // ---------------------------------------------------------------------
  // Requests and replies

  datatype Verb = GET | PUT | DELETE

  /** One HTTP request: verb, URL, the cpr timeout in ms, query parameters
      and an optional JSON body (sent with Content-Type application/json). */
  datatype Request = Request(verb: Verb, url: string, timeoutMs: int,
                             params: seq<(string, string)>, body: Option<Json>)

  /** A reply: the status code and the body, None when it is not JSON. */
  datatype Reply = Reply(status: int, body: Option<Json>)

  /** handleCPRResponse: anything but 200 is an error carrying the status. */
  function CheckStatus(rep: Reply): (o: Outcome)
    ensures o.Pass? <==> rep.status == 200
    ensures o.Fail? ==> o.error == HttpError(rep.status)
  {
    if rep.status != 200 then Fail(HttpError(rep.status)) else Pass
  }

  /** json::parse of the reply text. */
  function Parsed(rep: Reply): (r: Result<Json>)
    ensures r.Ok? <==> rep.body.Some?
  {
    match rep.body
    case Some(j) => Ok(j)
    case None => Err(JsonError)
  }

  /** The device: every request is appended to `log` and answered with the
      next scripted reply; once the script is exhausted the connection
      fails, which cpr reports as status 0. */
  class Endpoint {
    var log: seq<Request>
    var replies: seq<Reply>

    constructor (replies: seq<Reply>)
      ensures log == [] && this.replies == replies
    {
      log, this.replies := [], replies;
    }

    method Send(req: Request) returns (rep: Reply)
      modifies this
      ensures rep == Upcoming(old(replies), 0)
      ensures log == old(log) + [req]
      ensures replies == Drop(old(replies), 1)
    {
      rep := if replies == [] then Reply(0, None) else replies[0];
      log := log + [req];
      if replies != [] {
        replies := replies[1..];
      }
    }
  }

  /** The reply the device gives to the k-th request from now. */
  function Upcoming(replies: seq<Reply>, k: nat): Reply
  {
    if k < |replies| then replies[k] else Reply(0, None)
  }

  /** The script once k requests have been answered. */
  function Drop(replies: seq<Reply>, k: nat): seq<Reply>
  {
    if k <= |replies| then replies[k..] else []
  }

  /** Answering a requests and then b more is answering a + b. */
  lemma DropDrop(replies: seq<Reply>, a: nat, b: nat)
    ensures Drop(Drop(replies, a), b) == Drop(replies, a + b)
  {
  }

  /** Answering one more request moves one step along the script. */
  lemma DropStep(replies: seq<Reply>, k: nat)
    ensures Upcoming(Drop(replies, k), 0) == Upcoming(replies, k)
    ensures Drop(Drop(replies, k), 1) == Drop(replies, k + 1)
    ensures forall q: nat :: Upcoming(Drop(replies, k), q) == Upcoming(replies, k + q)
  {
  }
}
