/** RemoteInterface: the client's handle on one rc_visard. It reads the
    firmware version and the stream catalog when it is opened, requests and
    withdraws UDP stream destinations through the REST API while keeping
    track of every destination it requested, calls the rc_dynamics and
    rc_slam services, and creates data receivers that register themselves
    as stream destinations and withdraw again when released. */
module RemoteInterface {
  import opened Common
  import NetUtils
  import DR = DataReceiver
  import opened ControlPlane
  import opened Destinations
  import opened ServiceReplies

  function BaseUrl(addrs: string): string
  {
    "http://" + addrs + "/api/v1"
  }

  const VersionPath: seq<string> := ["firmware", "active_image", "image_version"]

  /** The invalid_argument text of checkStreamTypeAvailable. */
  function UnavailableMessage(stream: string, addrs: string): string
  {
    "Stream of type '" + stream + "' is not available on rc_visard " + addrs
  }

  /** The invalid_argument text of createReceiverForStream when no local
      address faces the device. */
  function NoHostAddressMessage(destInterface: string): string
  {
    "Could not infer a valid IP address for this host as the destination of the stream! "
    + "Given network interface specification was '" + destInterface + "'."
  }

  /** A stream destination: "ip:port". */
  function Destination(addr: string, port: nat): string
  {
    addr + ":" + NatToString(port)
  }

  /** The address and the port can be told apart again in a destination. */
  lemma DestinationSplits(addr: string, port: nat)
    requires Common.Count(':', addr) == 0
    ensures Split(':', Destination(addr, port)) == [addr, NatToString(port)]
  {
    NatToStringDigits(port);
    DigitsHaveNo(':', NatToString(port));
    SplitAtSep(':', addr, NatToString(port));
    SplitNoSep(':', NatToString(port));
  }

  /** An address rendered from an interface table has no ':', so the
      destinations of this host's receivers split back into their parts. */
  lemma RenderedDestinationSplits(v: NetUtils.uint32, port: nat)
    ensures Split(':', Destination(NetUtils.Ntop(v), port)) == [NetUtils.Ntop(v), NatToString(port)]
  {
    NoColonInRendered(v);
    DestinationSplits(NetUtils.Ntop(v), port);
  }

  lemma NoColonInRendered(v: NetUtils.uint32)
    ensures Common.Count(':', NetUtils.Ntop(v)) == 0
  {
    var parts := [NatToString(NetUtils.Octet(v, 3)), NatToString(NetUtils.Octet(v, 2)),
                  NatToString(NetUtils.Octet(v, 1)), NatToString(NetUtils.Octet(v, 0))];
    forall i | 0 <= i < 4 ensures Common.Count(':', parts[i]) == 0 {
      NatToStringDigits(NetUtils.Octet(v, 3 - i));
      DigitsHaveNo(':', parts[i]);
    }
    ColonFreeJoin(parts);
  }

  /** Joining colon-free parts with dots yields colon-free text. */
  lemma {:induction false} ColonFreeJoin(parts: seq<string>)
    requires forall i :: 0 <= i < |parts| ==> Common.Count(':', parts[i]) == 0
    ensures Common.Count(':', Join(".", parts)) == 0
  {
    if |parts| > 1 {
      ColonFreeJoin(parts[1..]);
      CountAppend(':', parts[0], ".");
      CountAppend(':', parts[0] + ".", Join(".", parts[1..]));
    }
  }

  /** The warning the destructor prints for a stream that still has
      destinations after the clean-up. */
  function StaleReport(addrs: string, stream: string, dests: seq<string>): string
  {
    "[RemoteInterface::~RemoteInterface] Could not stop all previously requested streams of type "
    + stream + " on rc_visard. Please check device manually (" + BaseUrl(addrs) + "/datastreams/" + stream
    + ") for not containing any of the following legacy streams and delete them otherwise, e.g. using the swagger UI ("
    + "http://" + addrs + "/api/swagger/): " + FormatList(dests)
  }

  /** The number of requests of the one-destination-per-call delete that
      get a 200 before the first refusal, or n when none is refused. */
  function FirstRefusal(replies: seq<Reply>, n: nat): (k: nat)
    ensures k <= n
  {
    FirstRefusalFrom(replies, 0, n)
  }

  /** Every request before the first refusal is answered 200, and the
      refusal itself is not. */
  lemma FirstRefusalSpec(replies: seq<Reply>, n: nat)
    ensures forall i :: 0 <= i < FirstRefusal(replies, n) ==> Upcoming(replies, i).status == 200
    ensures FirstRefusal(replies, n) < n ==> Upcoming(replies, FirstRefusal(replies, n)).status != 200
  {
  }

  /** The first refusal is the one position where every earlier reply is
      200 and the reply there is not (or the end). */
  lemma FirstRefusalIs(replies: seq<Reply>, n: nat, i: nat)
    requires i <= n && forall j :: 0 <= j < i ==> Upcoming(replies, j).status == 200
    requires i < n ==> Upcoming(replies, i).status != 200
    ensures FirstRefusal(replies, n) == i
  {
    FirstRefusalSpec(replies, n);
  }

  function FirstRefusalFrom(replies: seq<Reply>, i: nat, n: nat): (k: nat)
    requires i <= n
    requires forall j :: 0 <= j < i ==> Upcoming(replies, j).status == 200
    ensures i <= k <= n
    ensures forall j :: 0 <= j < k ==> Upcoming(replies, j).status == 200
    ensures k < n ==> Upcoming(replies, k).status != 200
    decreases n - i
  {
    if i == n || Upcoming(replies, i).status != 200 then i
    else FirstRefusalFrom(replies, i + 1, n)
  }

  /** How many delete requests the one-per-destination path sends: up to
      and including the first refused one. */
  function LegacySent(replies: seq<Reply>, n: nat): (k: nat)
    ensures k <= n
  {
    var f := FirstRefusal(replies, n);
    if f < n then f + 1 else n
  }

  function LegacyOutcome(replies: seq<Reply>, n: nat): (o: Outcome)
  {
    var f := FirstRefusal(replies, n);
    if f < n then Fail(HttpError(Upcoming(replies, f).status)) else Pass
  }

  /** The one-per-destination delete passes iff all n requests get a 200;
      otherwise it fails with the status of the first refusal. */
  lemma LegacyOutcomeSpec(replies: seq<Reply>, n: nat)
    ensures LegacyOutcome(replies, n).Pass? <==> forall i :: 0 <= i < n ==> Upcoming(replies, i).status == 200
    ensures LegacyOutcome(replies, n).Fail? ==>
      LegacyOutcome(replies, n) == Fail(HttpError(Upcoming(replies, FirstRefusal(replies, n)).status))
  {
    FirstRefusalSpec(replies, n);
  }

  /** What the version request yields: the parsed version of the active
      image, or the error the constructor throws. */
  function SystemVersion(rep: Reply): (r: Result<nat>)
    ensures r.Ok? <==> rep.status == 200 && rep.body.Some? && GetString(Path(rep.body.value, VersionPath)).Ok?
    ensures r.Ok? ==> r.value == ParseVersion(GetString(Path(rep.body.value, VersionPath)).value)
    ensures rep.status != 200 ==> r == Err(HttpError(rep.status))
  {
    if rep.status != 200 then Err(HttpError(rep.status))
    else match Parsed(rep)
      case Err(e) => Err(e)
      case Ok(j) =>
        match GetString(Path(j, VersionPath))
        case Err(e) => Err(e)
        case Ok(v) => Ok(ParseVersion(v))
  }

  /** What the catalog request yields. */
  function StreamCatalog(rep: Reply): (r: Result<(seq<string>, map<string, string>)>)
    ensures r.Ok? <==> rep.status == 200 && rep.body.Some? && Catalog(Elements(rep.body.value)).Ok?
    ensures r.Ok? ==> r == Catalog(Elements(rep.body.value))
    ensures rep.status != 200 ==> r == Err(HttpError(rep.status))
  {
    if rep.status != 200 then Err(HttpError(rep.status))
    else match Parsed(rep)
      case Err(e) => Err(e)
      case Ok(j) => Catalog(Elements(j))
  }

  /** What getDestinationsOfStream returns for a reply. */
  function DestinationsOf(rep: Reply): (r: Result<seq<string>>)
    ensures rep.status != 200 ==> r == Err(HttpError(rep.status))
    ensures rep.status == 200 && rep.body.None? ==> r == Err(JsonError)
  {
    if rep.status != 200 then Err(HttpError(rep.status))
    else match Parsed(rep)
      case Err(e) => Err(e)
      case Ok(j) =>
        match Member(j, "destinations")
        case Err(e) => Err(e)
        case Ok(d) => Strings(Elements(d))
  }

  /** The device's list of destinations is what the client reads. */
  lemma DestinationsOfList(ds: seq<string>)
    ensures DestinationsOf(Reply(200, Some(JObj([("destinations", StrArray(ds))])))) == Ok(ds)
  {
    StringsOfStrArray(ds);
  }

  /** What a state service call returns for a reply. */
  function StateServiceResult(rep: Reply, valid: seq<string>, service: string): (r: Result<string>)
    ensures rep.status != 200 ==> r == Err(HttpError(rep.status))
    ensures rep.status == 200 && rep.body.Some? ==> r == DecodeStateReply(rep.body.value, valid, service)
  {
    if rep.status != 200 then Err(HttpError(rep.status))
    else match Parsed(rep)
      case Err(e) => Err(e)
      case Ok(j) => DecodeStateReply(j, valid, service)
  }

  /** What callSlamService returns for a reply. */
  function ReturnCodeResult(rep: Reply): (r: Result<ReturnCode>)
    ensures rep.status != 200 ==> r == Err(HttpError(rep.status))
    ensures rep.status == 200 && rep.body.Some? ==> r == DecodeReturnCode(rep.body.value)
  {
    if rep.status != 200 then Err(HttpError(rep.status))
    else match Parsed(rep)
      case Err(e) => Err(e)
      case Ok(j) => DecodeReturnCode(j)
  }

  /** What getSlamTrajectory reads from a reply. */
  function TrajectoryResult(rep: Reply): (r: Result<Json>)
    ensures rep.status != 200 ==> r == Err(HttpError(rep.status))
    ensures rep.status == 200 && rep.body.Some? ==> r == TrajectoryOf(rep.body.value)
  {
    if rep.status != 200 then Err(HttpError(rep.status))
    else match Parsed(rep)
      case Err(e) => Err(e)
      case Ok(j) => TrajectoryOf(j)
  }

  /** The body of the bulk delete: {"destination": [d1, d2, ...]}. */
  function BulkDeleteBody(dests: seq<string>): Json
  {
    JObj([("destination", StrArray(dests))])
  }

  /** The bulk delete names every destination, in order. */
  lemma BulkDeleteBodyLists(dests: seq<string>)
    ensures Member(BulkDeleteBody(dests), "destination").Ok?
    ensures Strings(Elements(Member(BulkDeleteBody(dests), "destination").value)) == Ok(dests)
  {
    StringsOfStrArray(dests);
  }

  /** `log` continues `before`, and every request added since goes to one
      of `urls`. */
  ghost predicate Extends(before: seq<Request>, log: seq<Request>, urls: set<string>)
  {
    before <= log && forall k :: |before| <= k < |log| ==> log[k].url in urls
  }

  lemma ExtendsBy(before: seq<Request>, added: seq<Request>, urls: set<string>)
    requires forall k :: 0 <= k < |added| ==> added[k].url in urls
    ensures Extends(before, before + added, urls)
  {
    forall k | |before| <= k < |before + added| ensures (before + added)[k].url in urls {
      assert (before + added)[k] == added[k - |before|];
    }
  }

  lemma ExtendsTrans(a: seq<Request>, b: seq<Request>, c: seq<Request>, u: set<string>, v: set<string>)
    requires Extends(a, b, u) && Extends(b, c, v) && v <= u
    ensures Extends(a, c, u)
  {
    forall k | |a| <= k < |c| ensures c[k].url in u {
      if k < |b| {
        assert c[k] == b[k];
      }
    }
  }

  /** What a run of requests amounts to against the scripted replies: the
      requests sent, the number of replies they used, and the outcome. */
  datatype Sent = Sent(requests: seq<Request>, used: nat, outcome: Outcome)

  /** The clean-up's run: as Sent, plus the number of streams dealt with. */
  datatype CleanUp = CleanUp(requests: seq<Request>, used: nat, outcome: Outcome, done: nat)

  /** The destructor's warnings for the streams `keys`, in that order: each
      names a stream that still has destinations and lists them (the text
      printed for it is StaleReport). */
  function StaleReports(table: Table, keys: seq<string>): (r: seq<(string, seq<string>)>)
    ensures |r| <= |keys|
  {
    if keys == [] then []
    else
      var s := keys[|keys| - 1];
      StaleReports(table, keys[..|keys| - 1])
      + (if Tracked(table, s) != [] then [(s, Tracked(table, s))] else [])
  }

  /** No warning exactly when none of the streams has destinations left. */
  lemma StaleReportsNone(table: Table, keys: seq<string>)
    ensures StaleReports(table, keys) == [] <==> forall j :: 0 <= j < |keys| ==> Tracked(table, keys[j]) == []
  {
    if StaleReports(table, keys) != [] {
      var s := StaleStream(table, keys, 0);
    } else {
      StaleReportsEmpty(table, keys);
    }
  }

  /** With no warning, no stream has destinations left. */
  lemma {:induction false} StaleReportsEmpty(table: Table, keys: seq<string>)
    requires StaleReports(table, keys) == []
    ensures forall j :: 0 <= j < |keys| ==> Tracked(table, keys[j]) == []
  {
    if keys != [] {
      var n := |keys| - 1;
      var init := keys[..n];
      StaleReportsEmpty(table, init);
      forall j | 0 <= j < n ensures Tracked(table, keys[j]) == [] {
        assert keys[j] == init[j];
      }
    }
  }

  /** Part way through the clean-up: the table has the keys it had, the
      streams in `done` have no destinations left and the others keep their
      lists. */
  ghost predicate CleanedFor(now: Table, before: Table, done: seq<string>)
  {
    && now.Keys == before.Keys
    && (forall s :: s in now && s in done ==> now[s] == [])
    && (forall s :: s in now && s !in done ==> now[s] == before[s])
  }

  /** Emptying one more stream's list extends the clean-up by that stream. */
  lemma CleanedStep(now: Table, before: Table, done: seq<string>, s: string)
    requires CleanedFor(now, before, done) && s in now && s !in done
    ensures CleanedFor(now[s := []], before, done + [s])
  {
  }

  /** The stream the k-th warning is about: one that has destinations left,
      whose list the warning gives. */
  ghost function StaleStream(table: Table, keys: seq<string>, k: nat): (s: string)
    requires k < |StaleReports(table, keys)|
    ensures s in keys && Tracked(table, s) != []
    ensures StaleReports(table, keys)[k] == (s, Tracked(table, s))
  {
    var init := keys[..|keys| - 1];
    var r0 := StaleReports(table, init);
    if k < |r0| then
      var s := StaleStream(table, init, k);
      assert s in keys by { assert forall x :: x in init ==> x in keys; }
      s
    else keys[|keys| - 1]
  }

  /** One more key adds at most its own warning. */
  lemma StaleReportsStep(table: Table, keys: seq<string>, i: nat)
    requires i < |keys|
    ensures StaleReports(table, keys[..i + 1]) == StaleReports(table, keys[..i])
      + (if Tracked(table, keys[i]) != [] then [(keys[i], Tracked(table, keys[i]))] else [])
  {
    assert keys[..i + 1][..i] == keys[..i];
  }

  /** Over all the keys of the table, the warnings are empty exactly when
      every list is, and each names a key whose list it gives. */
  lemma StaleReportsOfTable(table: Table, keys: seq<string>)
    requires forall s :: s in table <==> s in keys
    ensures StaleReports(table, keys) == [] <==> forall s :: s in table ==> table[s] == []
    ensures forall k :: 0 <= k < |StaleReports(table, keys)| ==>
      StaleReports(table, keys)[k].0 in table
      && StaleReports(table, keys)[k].1 == table[StaleReports(table, keys)[k].0] != []
  {
    StaleReportsNone(table, keys);
    var r := StaleReports(table, keys);
    forall k | 0 <= k < |r|
      ensures r[k].0 in table && r[k].1 == table[r[k].0] != []
    {
      var s := StaleStream(table, keys, k);
    }
    if r != [] {
      var s := StaleStream(table, keys, 0);
      assert s in table && table[s] != [];
    } else {
      forall s | s in table ensures table[s] == [] {
        var j :| 0 <= j < |keys| && keys[j] == s;
      }
    }
  }

  /** The warnings hold one for `stream` listing `dests`. */
  predicate WarnedAbout(report: seq<(string, seq<string>)>, stream: string, dests: seq<string>)
  {
    exists k :: 0 <= k < |report| && report[k] == (stream, dests)
  }

  /** The stream keys[j], when it has destinations left, is warned about
      with its list. */
  lemma {:induction false} StaleReportsHas(table: Table, keys: seq<string>, j: nat)
    requires j < |keys| && Tracked(table, keys[j]) != []
    ensures WarnedAbout(StaleReports(table, keys), keys[j], Tracked(table, keys[j]))
  {
    var n := |keys| - 1;
    var init := keys[..n];
    var r0 := StaleReports(table, init);
    var r := StaleReports(table, keys);
    assert r[..|r0|] == r0;
    if j < n {
      assert keys[j] == init[j];
      StaleReportsHas(table, init, j);
      var k :| 0 <= k < |r0| && r0[k] == (init[j], Tracked(table, init[j]));
      assert r[k] == r0[k];
    } else {
      assert r[|r0|] == (keys[j], Tracked(table, keys[j]));
    }
  }

  /** Every stream among the keys that has destinations left is warned
      about, with its list. */
  lemma StaleReportsComplete(table: Table, keys: seq<string>)
    ensures forall j :: 0 <= j < |keys| && Tracked(table, keys[j]) != [] ==>
      WarnedAbout(StaleReports(table, keys), keys[j], Tracked(table, keys[j]))
  {
    forall j | 0 <= j < |keys| && Tracked(table, keys[j]) != [] {
      StaleReportsHas(table, keys, j);
    }
  }

  /** Over keys in ascending order, the warnings come in ascending order of
      their streams, so no stream is warned about twice. */
  lemma {:induction false} StaleReportsOrdered(table: Table, keys: seq<string>)
    requires Ascending(keys)
    ensures forall i, j :: 0 <= i < j < |StaleReports(table, keys)| ==>
      StrLess(StaleReports(table, keys)[i].0, StaleReports(table, keys)[j].0)
  {
    if keys != [] {
      var n := |keys| - 1;
      var init := keys[..n];
      assert Ascending(init);
      StaleReportsOrdered(table, init);
      var r0 := StaleReports(table, init);
      var r := StaleReports(table, keys);
      assert r[..|r0|] == r0;
      forall i, j | 0 <= i < j < |r|
        ensures StrLess(r[i].0, r[j].0)
      {
        assert r[i] == r0[i];
        if j < |r0| {
          assert r[j] == r0[j];
        } else {
          var s := StaleStream(table, init, i);
          var m :| 0 <= m < n && init[m] == s;
          assert r[j].0 == keys[n] && keys[m] == s;
        }
      }
    }
  }

  /** The catalog read entry by entry, the first unreadable entry failing
      it. */
  method ReadCatalog(es: seq<Json>) returns (r: Result<(seq<string>, map<string, string>)>)
    ensures r == Catalog(es)
  {
    var streams: seq<string> := [];
    var types: map<string, string> := map[];
    var i := 0;
    while i < |es|
      invariant 0 <= i <= |es|
      invariant Catalog(es[..i]) == Ok((streams, types))
    {
      var entry := CatalogEntry(es[i]);
      if entry.Err? {
        assert !Catalog(es).Ok?;
        return Catalog(es);
      }
      assert es[..i + 1][..i] == es[..i];
      streams := streams + [entry.value.0];
      types := types[entry.value.0 := entry.value.1];
      i := i + 1;
    }
    assert es[..|es|] == es;
    r := Ok((streams, types));
  }

  /** The table once a receiver's activation has failed and the receiver
      has been released: the PUT's 200 added the destination, and the
      withdrawing DELETE's 200 removes its first copy. */
  function AfterFailedActivation(table: Table, stream: string, dest: string, replies: seq<Reply>): Table
  {
    var added := if CheckStatus(Upcoming(replies, 0)).Pass? then table[stream := Tracked(table, stream) + [dest]] else table;
    if CheckStatus(Upcoming(replies, 1)).Pass? then added[stream := RemoveFirst(Tracked(added, stream), dest)] else added
  }

  /** When the device accepts both the PUT and the withdrawing DELETE, a
      failed activation leaves the stream with the destinations it had, and
      every other stream untouched. */
  lemma FailedActivationRestores(table: Table, stream: string, dest: string, replies: seq<Reply>)
    requires Upcoming(replies, 0).status == 200 && Upcoming(replies, 1).status == 200
    ensures var after := AfterFailedActivation(table, stream, dest, replies);
      && multiset(Tracked(after, stream)) == multiset(Tracked(table, stream))
      && stream in after
      && forall s :: s != stream ==> (s in after <==> s in table) && (s in table ==> after[s] == table[s])
  {
    AppendThenRemove(Tracked(table, stream), dest);
  }

  /** What the receiver's first message decides: the 5 s timeout is set,
      a message of the stream's type is awaited, and then 100 ms is set. */
  function FirstMessage(setsockoptErrno: int, pbMsgType: string, incoming: seq<DR.Arrival>): (o: Outcome)
    ensures o.Pass? <==>
      setsockoptErrno == 0 && pbMsgType in DR.DispatchTable() && DR.NextDelivery(incoming).Payload?
    ensures o == Fail(UnexpectedReceiveTimeout(5000)) <==>
      setsockoptErrno == 0 && pbMsgType in DR.DispatchTable() && DR.NextDelivery(incoming).TimedOut?
    ensures setsockoptErrno != 0 ==> o == Fail(SocketException(setsockoptErrno))
  {
    if setsockoptErrno != 0 then Fail(SocketException(setsockoptErrno))
    else if pbMsgType !in DR.DispatchTable() then Fail(InvalidArgument(DR.UnsupportedTypeMessage(pbMsgType)))
    else match DR.Received(DR.DispatchTable()[pbMsgType], DR.NextDelivery(incoming))
      case Err(e) => Fail(e)
      case Ok(None) => Fail(UnexpectedReceiveTimeout(5000))
      case Ok(Some(_)) => Pass
  }

  /** The arrivals left once the first message has been awaited: the
      receive runs, and consumes, only once the 5 s timeout is set and the
      type is known. */
  function ArrivalsAfterFirstMessage(setsockoptErrno: int, pbMsgType: string, incoming: seq<DR.Arrival>)
    : (rest: seq<DR.Arrival>)
    ensures |rest| <= |incoming|
    ensures setsockoptErrno == 0 && pbMsgType in DR.DispatchTable() && incoming != [] ==> |rest| < |incoming|
  {
    if setsockoptErrno == 0 && pbMsgType in DR.DispatchTable() then incoming[DR.Consumed(incoming)..]
    else incoming
  }

  /** The receive timeouts once the first message has been awaited on `fd`:
      unchanged when setsockopt fails, 100 ms after a first message, and
      the 5 s of the wait otherwise. */
  function TimeoutsAfterFirstMessage(setsockoptErrno: int, pbMsgType: string, incoming: seq<DR.Arrival>,
                                     fd: int, timeouts: map<int, DR.Timeval>): (t: map<int, DR.Timeval>)
    ensures t.Keys == if setsockoptErrno == 0 then timeouts.Keys + {fd} else timeouts.Keys
    ensures forall x :: x in timeouts && x != fd ==> t[x] == timeouts[x]
    ensures fd in t && FirstMessage(setsockoptErrno, pbMsgType, incoming).Pass? ==> t[fd] == DR.TimevalOf(100)
  {
    if setsockoptErrno != 0 then timeouts
    else if FirstMessage(setsockoptErrno, pbMsgType, incoming).Pass? then timeouts[fd := DR.TimevalOf(100)]
    else timeouts[fd := DR.TimevalOf(5000)]
  }

  method AwaitFirstMessage(receiver: DR.DataReceiver, pbMsgType: string) returns (o: Outcome)
    requires receiver.Valid()
    modifies receiver.kernel, receiver.buffer
    ensures o == FirstMessage(old(receiver.kernel.setsockoptErrno), pbMsgType, old(receiver.kernel.incoming))
    ensures receiver.kernel.openFds == old(receiver.kernel.openFds)
    ensures o.Pass? ==>
      receiver.kernel.rcvTimeouts == old(receiver.kernel.rcvTimeouts)[receiver.sockfd := DR.TimevalOf(100)]
    ensures receiver.kernel.incoming ==
      ArrivalsAfterFirstMessage(old(receiver.kernel.setsockoptErrno), pbMsgType, old(receiver.kernel.incoming))
    ensures receiver.kernel.rcvTimeouts ==
      TimeoutsAfterFirstMessage(old(receiver.kernel.setsockoptErrno), pbMsgType, old(receiver.kernel.incoming),
                                receiver.sockfd, old(receiver.kernel.rcvTimeouts))
    ensures receiver.kernel.boundPorts == old(receiver.kernel.boundPorts)
    ensures receiver.kernel.nextFd == old(receiver.kernel.nextFd)
    ensures receiver.kernel.Faults() == old(receiver.kernel.Faults())
  {
    o := receiver.SetTimeout(5000);
    if o.Fail? {
      return;
    }
    var msg := receiver.Receive(pbMsgType);
    if msg.Err? {
      return Fail(msg.error);
    }
    if msg.value.None? {
      return Fail(UnexpectedReceiveTimeout(5000));
    }
    // A kernel whose setsockopt fails has failed the call above already.
    o := receiver.SetTimeout(100);
  }

  /** The requests the constructor sends: none for an invalid address,
      GET /system, and GET /datastreams once the version has been read. */
  function OpenRequests(addrs: string, requestsTimeout: nat, replies: seq<Reply>): (q: seq<Request>)
    ensures |q| <= 2
    ensures forall k :: 0 <= k < |q| ==> q[k].verb == GET && q[k].timeoutMs == Int32(requestsTimeout)
  {
    if !NetUtils.IsValidIPAddress(addrs) then []
    else if SystemVersion(Upcoming(replies, 0)).Err? then
      [Request(GET, BaseUrl(addrs) + "/system", Int32(requestsTimeout), [], None)]
    else
      [Request(GET, BaseUrl(addrs) + "/system", Int32(requestsTimeout), [], None),
       Request(GET, BaseUrl(addrs) + "/datastreams", Int32(requestsTimeout), [], None)]
  }

  /** What the constructor reads from the device against the upcoming
      replies: the version and the catalog, or the first error. */
  function OpenResult(addrs: string, replies: seq<Reply>): (r: Result<(nat, seq<string>, map<string, string>)>)
    ensures r.Ok? <==>
      NetUtils.IsValidIPAddress(addrs) && SystemVersion(Upcoming(replies, 0)).Ok? &&
      StreamCatalog(Upcoming(replies, 1)).Ok?
    ensures r.Ok? ==>
      SystemVersion(Upcoming(replies, 0)) == Ok(r.value.0) &&
      StreamCatalog(Upcoming(replies, 1)) == Ok((r.value.1, r.value.2))
  {
    if !NetUtils.IsValidIPAddress(addrs) then Err(InvalidArgument("Given IP address is not a valid address: " + addrs))
    else match SystemVersion(Upcoming(replies, 0))
      case Err(e) => Err(e)
      case Ok(v) =>
        match StreamCatalog(Upcoming(replies, 1))
        case Err(e) => Err(e)
        case Ok((streams, types)) => Ok((v, streams, types))
  }

  class RemoteInterface {
    const visardAddrs: string
    const baseUrl: string
    const timeoutCurl: int
    /** The firmware version in tenths (_visardVersion * 10). */
    const visardVersion: nat
    const availStreams: seq<string>
    const protobufMap: map<string, string>
    const rest: Endpoint
    /** _reqStreams: the destinations requested per stream and not yet
        withdrawn. */
    var reqStreams: Table

    ghost predicate Valid()
      reads this
    {
      && baseUrl == BaseUrl(visardAddrs)
      && (forall s :: s in availStreams ==> s in protobufMap)
      && (forall s :: s in reqStreams ==> s in availStreams)
    }

    constructor Init(addrs: string, timeoutCurl: int, version: nat, streams: seq<string>,
                     types: map<string, string>, rest: Endpoint)
      requires forall s :: s in streams ==> s in types
      ensures Valid()
      ensures visardAddrs == addrs && this.timeoutCurl == timeoutCurl && visardVersion == version
      ensures availStreams == streams && protobufMap == types && this.rest == rest && reqStreams == map[]
    {
      visardAddrs, baseUrl, this.timeoutCurl := addrs, BaseUrl(addrs), timeoutCurl;
      visardVersion, availStreams, protobufMap := version, streams, types;
      this.rest, reqStreams := rest, map[];
    }

    /** RemoteInterface(rcVisardIP, requestsTimeout): the address is checked
        before any request; then GET /system gives the version and
        GET /datastreams the catalog. */
    static method Open(addrs: string, requestsTimeout: nat, rest: Endpoint) returns (r: Result<RemoteInterface>)
      modifies rest
      ensures !NetUtils.IsValidIPAddress(addrs) ==>
        r == Err(InvalidArgument("Given IP address is not a valid address: " + addrs)) && unchanged(rest)
      ensures NetUtils.IsValidIPAddress(addrs) && SystemVersion(Upcoming(old(rest.replies), 0)).Err? ==>
        r == Err(SystemVersion(Upcoming(old(rest.replies), 0)).error) &&
        rest.log == old(rest.log) + [Request(GET, BaseUrl(addrs) + "/system", Int32(requestsTimeout), [], None)]
      ensures NetUtils.IsValidIPAddress(addrs) && SystemVersion(Upcoming(old(rest.replies), 0)).Ok? ==>
        rest.log == old(rest.log) + [Request(GET, BaseUrl(addrs) + "/system", Int32(requestsTimeout), [], None),
                                     Request(GET, BaseUrl(addrs) + "/datastreams", Int32(requestsTimeout), [], None)] &&
        (StreamCatalog(Upcoming(old(rest.replies), 1)).Err? ==>
           r == Err(StreamCatalog(Upcoming(old(rest.replies), 1)).error))
      ensures r.Ok? ==>
        && fresh(r.value) && r.value.Valid() && r.value.rest == rest
        && r.value.visardAddrs == addrs && r.value.timeoutCurl == Int32(requestsTimeout)
        && r.value.reqStreams == map[]
        && SystemVersion(Upcoming(old(rest.replies), 0)) == Ok(r.value.visardVersion)
        && StreamCatalog(Upcoming(old(rest.replies), 1)) == Ok((r.value.availStreams, r.value.protobufMap))
      ensures r.Ok? <==>
        && NetUtils.IsValidIPAddress(addrs)
        && SystemVersion(Upcoming(old(rest.replies), 0)).Ok?
        && StreamCatalog(Upcoming(old(rest.replies), 1)).Ok?
      // the same, in terms of what is sent and read
      ensures rest.log == old(rest.log) + OpenRequests(addrs, requestsTimeout, old(rest.replies))
      ensures rest.replies == Drop(old(rest.replies), |OpenRequests(addrs, requestsTimeout, old(rest.replies))|)
      ensures r.Err? ==> OpenResult(addrs, old(rest.replies)) == Err(r.error)
      ensures r.Ok? ==>
        OpenResult(addrs, old(rest.replies)) == Ok((r.value.visardVersion, r.value.availStreams, r.value.protobufMap))
    {
      if !NetUtils.IsValidIPAddress(addrs) {
        return Err(InvalidArgument("Given IP address is not a valid address: " + addrs));
      }
      var timeoutCurl := Int32(requestsTimeout);
      ghost var script := rest.replies;
      DropStep(script, 0);
      var rep := rest.Send(Request(GET, BaseUrl(addrs) + "/system", timeoutCurl, [], None));
      var version := SystemVersion(rep);
      if version.Err? {
        return Err(version.error);
      }
      DropStep(script, 1);
      rep := rest.Send(Request(GET, BaseUrl(addrs) + "/datastreams", timeoutCurl, [], None));
      if rep.status != 200 {
        return Err(HttpError(rep.status));
      }
      if rep.body.None? {
        return Err(JsonError);
      }
      var catalog := ReadCatalog(Elements(rep.body.value));
      if catalog.Err? {
        return Err(catalog.error);
      }
      var (streams, types) := catalog.value;
      var ri := new RemoteInterface.Init(addrs, timeoutCurl, version.value, streams, types, rest);
      r := Ok(ri);
    }

    /** checkStreamTypeAvailable: an invalid_argument naming the stream and
        the device unless the catalog lists the stream. */
    function CheckStreamTypeAvailable(stream: string): (o: Outcome)
      ensures o.Pass? <==> stream in availStreams
      ensures o.Fail? ==> o.error == InvalidArgument(UnavailableMessage(stream, visardAddrs))
    {
      if stream in availStreams then Pass else Fail(InvalidArgument(UnavailableMessage(stream, visardAddrs)))
    }

    /** getPbMsgTypeOfStream: the message type the catalog gives the stream
        (std::map::operator[] yields "" for a missing key). */
    function GetPbMsgTypeOfStream(stream: string): (r: Result<string>)
      ensures r.Ok? <==> stream in availStreams
      ensures r.Ok? && stream in protobufMap ==> r.value == protobufMap[stream]
      ensures r.Err? ==> r.error == InvalidArgument(UnavailableMessage(stream, visardAddrs))
    {
      match CheckStreamTypeAvailable(stream)
      case Fail(e) => Err(e)
      case Pass => Ok(if stream in protobufMap then protobufMap[stream] else "")
    }

    function StreamUrl(stream: string): string
    {
      baseUrl + "/datastreams/" + stream
    }

    function AddRequest(stream: string, dest: string): Request
    {
      Request(PUT, StreamUrl(stream), timeoutCurl, [("destination", dest)], None)
    }

    function DeleteRequest(stream: string, dest: string): Request
    {
      Request(DELETE, StreamUrl(stream), timeoutCurl, [("destination", dest)], None)
    }

    function DeleteRequests(stream: string, dests: seq<string>): (rs: seq<Request>)
      ensures |rs| == |dests|
    {
      seq(|dests|, k requires 0 <= k < |dests| => DeleteRequest(stream, dests[k]))
    }

    /** Request k deletes destination k. */
    lemma DeleteRequestsAt(stream: string, dests: seq<string>)
      ensures forall k :: 0 <= k < |dests| ==> DeleteRequests(stream, dests)[k] == DeleteRequest(stream, dests[k])
    {
    }

    function BulkDeleteRequest(stream: string, dests: seq<string>): Request
    {
      Request(DELETE, StreamUrl(stream), timeoutCurl, [], Some(BulkDeleteBody(dests)))
    }

    function ServiceRequest(node: string, service: string, timeout: int, body: Option<Json>): Request
    {
      Request(PUT, baseUrl + "/nodes/" + node + "/services/" + service, timeout, [], body)
    }

    /** getDestinationsOfStream: the device's destinations of the stream. */
    method GetDestinationsOfStream(stream: string) returns (r: Result<seq<string>>)
      modifies rest
      ensures stream !in availStreams ==>
        r == Err(InvalidArgument(UnavailableMessage(stream, visardAddrs))) && unchanged(rest)
      ensures stream in availStreams ==>
        && rest.log == old(rest.log) + [Request(GET, StreamUrl(stream), timeoutCurl, [], None)]
        && rest.replies == Drop(old(rest.replies), 1)
        && r == DestinationsOf(Upcoming(old(rest.replies), 0))
    {
      var chk := CheckStreamTypeAvailable(stream);
      if chk.Fail? {
        return Err(chk.error);
      }
      var rep := rest.Send(Request(GET, StreamUrl(stream), timeoutCurl, [], None));
      if rep.status != 200 {
        return Err(HttpError(rep.status));
      }
      if rep.body.None? {
        return Err(JsonError);
      }
      var d := Member(rep.body.value, "destinations");
      if d.Err? {
        return Err(d.error);
      }
      var es := Elements(d.value);
      var dests: seq<string> := [];
      var i := 0;
      while i < |es|
        invariant 0 <= i <= |es|
        invariant |dests| == i
        invariant forall k :: 0 <= k < i ==> es[k].JStr? && dests[k] == es[k].s
      {
        if !es[i].JStr? {
          return Err(JsonError);
        }
        dests := dests + [es[i].s];
        i := i + 1;
      }
      assert dests == Strings(es).value;
      r := Ok(dests);
    }

    /** addDestinationToStream: a PUT naming the destination; once the device
        accepts it, the destination is appended to the stream's list. */
    method AddDestinationToStream(stream: string, destination: string) returns (o: Outcome)
      requires Valid()
      modifies this, rest
      ensures Valid()
      ensures stream !in availStreams ==>
        o == Fail(InvalidArgument(UnavailableMessage(stream, visardAddrs))) && unchanged(this) && unchanged(rest)
      ensures stream in availStreams ==>
        && rest.log == old(rest.log) + [AddRequest(stream, destination)]
        && rest.replies == Drop(old(rest.replies), 1)
        && o == CheckStatus(Upcoming(old(rest.replies), 0))
      ensures o.Pass? ==> reqStreams == old(reqStreams)[stream := Tracked(old(reqStreams), stream) + [destination]]
      ensures o.Fail? ==> reqStreams == old(reqStreams)
    {
      o := CheckStreamTypeAvailable(stream);
      if o.Fail? {
        return;
      }
      var rep := rest.Send(AddRequest(stream, destination));
      o := CheckStatus(rep);
      if o.Fail? {
        return;
      }
      reqStreams := reqStreams[stream := Tracked(reqStreams, stream) + [destination]];
    }

    /** deleteDestinationFromStream: a DELETE naming the destination; once
        the device accepts it, the first copy of the destination leaves the
        stream's list (which is created empty if the stream had none). */
    method DeleteDestinationFromStream(stream: string, destination: string) returns (o: Outcome)
      requires Valid()
      modifies this, rest
      ensures Valid()
      ensures stream !in availStreams ==>
        o == Fail(InvalidArgument(UnavailableMessage(stream, visardAddrs))) && unchanged(this) && unchanged(rest)
      ensures stream in availStreams ==>
        && rest.log == old(rest.log) + [DeleteRequest(stream, destination)]
        && rest.replies == Drop(old(rest.replies), 1)
        && o == CheckStatus(Upcoming(old(rest.replies), 0))
      ensures o.Pass? ==> reqStreams == old(reqStreams)[stream := RemoveFirst(Tracked(old(reqStreams), stream), destination)]
      ensures o.Fail? ==> reqStreams == old(reqStreams)
    {
      o := CheckStreamTypeAvailable(stream);
      if o.Fail? {
        return;
      }
      var rep := rest.Send(DeleteRequest(stream, destination));
      o := CheckStatus(rep);
      if o.Fail? {
        return;
      }
      reqStreams := reqStreams[stream := RemoveFirst(Tracked(reqStreams, stream), destination)];
    }

    /** deleteDestinationsFromStream: from firmware 1.7 on one DELETE whose
        body lists every destination, before that one DELETE per
        destination, stopping at the first refusal. Once every request is
        accepted, each given destination leaves the stream's list once. */
    method DeleteDestinationsFromStream(stream: string, dests: seq<string>) returns (o: Outcome)
      requires Valid()
      modifies this, rest
      ensures Valid()
      ensures stream !in availStreams ==>
        o == Fail(InvalidArgument(UnavailableMessage(stream, visardAddrs))) && unchanged(this) && unchanged(rest)
      ensures stream in availStreams && UsesBulkDelete(visardVersion) ==>
        && rest.log == old(rest.log) + [BulkDeleteRequest(stream, dests)]
        && rest.replies == Drop(old(rest.replies), 1)
        && o == CheckStatus(Upcoming(old(rest.replies), 0))
      ensures stream in availStreams && !UsesBulkDelete(visardVersion) ==>
        && rest.log == old(rest.log) + DeleteRequests(stream, dests[..LegacySent(old(rest.replies), |dests|)])
        && rest.replies == Drop(old(rest.replies), LegacySent(old(rest.replies), |dests|))
        && o == LegacyOutcome(old(rest.replies), |dests|)
      ensures o.Pass? ==> reqStreams == old(reqStreams)[stream := RemoveEach(Tracked(old(reqStreams), stream), dests)]
      ensures o.Fail? ==> reqStreams == old(reqStreams)
      ensures old(rest.log) <= rest.log
      ensures forall k :: |old(rest.log)| <= k < |rest.log| ==> rest.log[k].url == StreamUrl(stream)
    {
      o := CheckStreamTypeAvailable(stream);
      if o.Fail? {
        return;
      }
      if UsesBulkDelete(visardVersion) {
        var rep := rest.Send(BulkDeleteRequest(stream, dests));
        o := CheckStatus(rep);
        if o.Fail? {
          return;
        }
      } else {
        o := DeleteEach(stream, dests);
        if o.Fail? {
          return;
        }
      }
      var tracked := EraseEach(Tracked(reqStreams, stream), dests);
      reqStreams := reqStreams[stream := tracked];
    }

    /** The loop of deleteDestinationsFromStream before firmware 1.7: one
        DELETE per destination, in order, until the first refusal. */
    method DeleteEach(stream: string, dests: seq<string>) returns (o: Outcome)
      modifies rest
      ensures rest.log == old(rest.log) + DeleteRequests(stream, dests[..LegacySent(old(rest.replies), |dests|)])
      ensures rest.replies == Drop(old(rest.replies), LegacySent(old(rest.replies), |dests|))
      ensures o == LegacyOutcome(old(rest.replies), |dests|)
    {
      ghost var script := rest.replies;
      o := Pass;
      var i := 0;
      while i < |dests|
        invariant 0 <= i <= |dests|
        invariant forall j :: 0 <= j < i ==> Upcoming(script, j).status == 200
        invariant rest.log == old(rest.log) + DeleteRequests(stream, dests[..i])
        invariant rest.replies == Drop(script, i)
        invariant o == Pass
      {
        DropStep(script, i);
        var rep := rest.Send(DeleteRequest(stream, dests[i]));
        assert dests[..i + 1] == dests[..i] + [dests[i]];
        o := CheckStatus(rep);
        if o.Fail? {
          FirstRefusalIs(script, |dests|, i);
          return;
        }
        i := i + 1;
      }
      assert dests[..|dests|] == dests;
      FirstRefusalIs(script, |dests|, |dests|);
    }

    /** The erase loop of deleteDestinationsFromStream over a copy of the
        destinations: the first copy of each leaves the list, in order. */
    static method EraseEach(l: seq<string>, dests: seq<string>) returns (tracked: seq<string>)
      ensures tracked == RemoveEach(l, dests)
    {
      tracked := l;
      var i := 0;
      while i < |dests|
        invariant 0 <= i <= |dests|
        invariant RemoveEach(tracked, dests[i..]) == RemoveEach(l, dests)
      {
        assert dests[i..][0] == dests[i] && dests[i..][1..] == dests[i + 1..];
        tracked := RemoveFirst(tracked, dests[i]);
        i := i + 1;
      }
    }

    /** What deleteDestinationsFromStream sends for `dests` against the
        upcoming replies (for an available stream). */
    function DeletePlan(stream: string, dests: seq<string>, replies: seq<Reply>): Sent
    {
      if UsesBulkDelete(visardVersion) then
        Sent([BulkDeleteRequest(stream, dests)], 1, CheckStatus(Upcoming(replies, 0)))
      else
        var n := LegacySent(replies, |dests|);
        Sent(DeleteRequests(stream, dests[..n]), n, LegacyOutcome(replies, |dests|))
    }

    /** The deletion sends only DELETEs to the stream's URL, one reply each;
        when it succeeds it has named every destination: in one bulk request
        from firmware 1.7 on, else in one request per destination, in order. */
    lemma DeletePlanSends(stream: string, dests: seq<string>, replies: seq<Reply>)
      ensures var p := DeletePlan(stream, dests, replies);
        && p.used == |p.requests|
        && (forall k :: 0 <= k < |p.requests| ==>
              p.requests[k].verb == DELETE && p.requests[k].url == StreamUrl(stream))
        && (p.outcome.Pass? && UsesBulkDelete(visardVersion) ==> p.requests == [BulkDeleteRequest(stream, dests)])
        && (p.outcome.Pass? && !UsesBulkDelete(visardVersion) ==> p.requests == DeleteRequests(stream, dests))
    {
      var n := LegacySent(replies, |dests|);
      LegacyOutcomeSpec(replies, |dests|);
      assert LegacyOutcome(replies, |dests|).Pass? ==> dests[..n] == dests;
    }

    /** What the clean-up sends for one stream: nothing for an empty list,
        otherwise the deletion of the whole list. */
    function StreamStep(table: Table, stream: string, replies: seq<Reply>): (p: Sent)
      ensures Tracked(table, stream) == [] ==> p == Sent([], 0, Pass)
    {
      if Tracked(table, stream) == [] then Sent([], 0, Pass)
      else DeletePlan(stream, Tracked(table, stream), replies)
    }

    /** What cleanUpRequestedStreams sends, stream by stream in the order of
        `keys`: the whole list of each stream that has one, up to and
        including the first failure. `done` counts the streams dealt with
        before it. */
    function CleanUpPlan(table: Table, keys: seq<string>, replies: seq<Reply>): (p: CleanUp)
      ensures p.done <= |keys|
      ensures p.outcome.Pass? ==> p.done == |keys|
      decreases |keys|
    {
      if keys == [] then CleanUp([], 0, Pass, 0)
      else
        var q := CleanUpPlan(table, keys[..|keys| - 1], replies);
        if q.outcome.Fail? then q
        else
          var d := StreamStep(table, keys[|keys| - 1], Drop(replies, q.used));
          CleanUp(q.requests + d.requests, q.used + d.used, d.outcome,
                  if d.outcome.Pass? then q.done + 1 else q.done)
    }

    /** The plan of one more stream. */
    lemma CleanUpPlanSnoc(table: Table, keys: seq<string>, replies: seq<Reply>, s: string)
      ensures var q := CleanUpPlan(table, keys, replies);
        var p := CleanUpPlan(table, keys + [s], replies);
        && (q.outcome.Fail? ==> p == q)
        && (q.outcome.Pass? ==>
              var d := StreamStep(table, s, Drop(replies, q.used));
              p == CleanUp(q.requests + d.requests, q.used + d.used, d.outcome,
                           if d.outcome.Pass? then q.done + 1 else q.done))
    {
      var ks := keys + [s];
      assert ks[..|ks| - 1] == keys && ks[|ks| - 1] == s;
    }

    /** Once the clean-up has failed, the streams after it change nothing. */
    lemma {:induction false} CleanUpPlanStops(table: Table, keys: seq<string>, replies: seq<Reply>, n: nat)
      requires n <= |keys| && CleanUpPlan(table, keys[..n], replies).outcome.Fail?
      ensures CleanUpPlan(table, keys, replies) == CleanUpPlan(table, keys[..n], replies)
      decreases |keys| - n
    {
      if n < |keys| {
        TakeOneMore(keys, n);
        CleanUpPlanSnoc(table, keys[..n], replies, keys[n]);
        CleanUpPlanStops(table, keys, replies, n + 1);
      } else {
        assert keys[..n] == keys;
      }
    }

    /** A clean-up that fails, fails at a stream that had destinations: the
        first one after the streams it dealt with. */
    lemma {:induction false} CleanUpPlanFailsAt(table: Table, keys: seq<string>, replies: seq<Reply>)
      requires CleanUpPlan(table, keys, replies).outcome.Fail?
      ensures var p := CleanUpPlan(table, keys, replies);
        p.done < |keys| && Tracked(table, keys[p.done]) != []
      decreases |keys|
    {
      var n := |keys| - 1;
      var init := keys[..n];
      var q := CleanUpPlan(table, init, replies);
      if q.outcome.Fail? {
        CleanUpPlanFailsAt(table, init, replies);
        assert keys[q.done] == init[q.done];
      }
    }

    /** One more stream of the clean-up: what the step sends and answers
        extends the plan of the streams before it to the plan including it. */
    lemma CleanUpAdvance(table: Table, prefix: seq<string>, s: string, replies: seq<Reply>,
                         log0: seq<Request>, logBefore: seq<Request>, logAfter: seq<Request>,
                         repBefore: seq<Reply>, repAfter: seq<Reply>)
      requires CleanUpPlan(table, prefix, replies).outcome == Pass
      requires logBefore == log0 + CleanUpPlan(table, prefix, replies).requests
      requires repBefore == Drop(replies, CleanUpPlan(table, prefix, replies).used)
      requires logAfter == logBefore + StreamStep(table, s, repBefore).requests
      requires repAfter == Drop(repBefore, StreamStep(table, s, repBefore).used)
      ensures logAfter == log0 + CleanUpPlan(table, prefix + [s], replies).requests
      ensures repAfter == Drop(replies, CleanUpPlan(table, prefix + [s], replies).used)
    {
      var q := CleanUpPlan(table, prefix, replies);
      var d := StreamStep(table, s, repBefore);
      CleanUpPlanSnoc(table, prefix, replies, s);
      AppendAssoc(log0, q.requests, d.requests);
      DropDrop(replies, q.used, d.used);
    }

    /** The outcome of one more stream is the outcome of the plan including
        it; a failure there leaves the streams before it as the ones dealt
        with. */
    lemma CleanUpAdvanceOutcome(table: Table, prefix: seq<string>, s: string, replies: seq<Reply>, o: Outcome)
      requires CleanUpPlan(table, prefix, replies).outcome == Pass
      requires o == StreamStep(table, s, Drop(replies, CleanUpPlan(table, prefix, replies).used)).outcome
      ensures o == CleanUpPlan(table, prefix + [s], replies).outcome
      ensures o.Fail? ==> CleanUpPlan(table, prefix + [s], replies).done == |prefix|
    {
      CleanUpPlanSnoc(table, prefix, replies, s);
    }

    /** The DELETE that names destination `x` of `stream`: the bulk request
        for the whole list from firmware 1.7 on, else the request for `x`. */
    function DeleteNaming(table: Table, stream: string, x: string): Request
    {
      if UsesBulkDelete(visardVersion) then BulkDeleteRequest(stream, Tracked(table, stream))
      else DeleteRequest(stream, x)
    }

    /** A stream step that succeeds has sent, for each destination of the
        stream, the DELETE that names it. */
    lemma StreamStepDeletes(table: Table, s: string, replies: seq<Reply>, x: string)
      requires x in Tracked(table, s) && StreamStep(table, s, replies).outcome.Pass?
      ensures DeleteNaming(table, s, x) in StreamStep(table, s, replies).requests
    {
      var l := Tracked(table, s);
      var d := DeletePlan(s, l, replies);
      DeletePlanSends(s, l, replies);
      if !UsesBulkDelete(visardVersion) {
        var k :| 0 <= k < |l| && l[k] == x;
        assert d.requests[k] == DeleteRequest(s, x);
      }
    }

    /** Every stream the clean-up dealt with had, for each of its
        destinations, the DELETE naming it sent. */
    lemma {:induction false} CleanUpPlanSent(table: Table, keys: seq<string>, replies: seq<Reply>, j: nat, x: string)
      requires j < CleanUpPlan(table, keys, replies).done && x in Tracked(table, keys[j])
      ensures DeleteNaming(table, keys[j], x) in CleanUpPlan(table, keys, replies).requests
      decreases |keys|
    {
      var n := |keys| - 1;
      var init := keys[..n];
      var q := CleanUpPlan(table, init, replies);
      var p := CleanUpPlan(table, keys, replies);
      var d := StreamStep(table, keys[n], Drop(replies, q.used));
      SplitLast(keys);
      CleanUpPlanSnoc(table, init, replies, keys[n]);
      if q.outcome.Fail? {
        assert p == q && keys[j] == init[j];
        CleanUpPlanSent(table, init, replies, j, x);
      } else {
        assert p.requests == q.requests + d.requests;
        InAppend(q.requests, d.requests);
        if j < n {
          assert keys[j] == init[j] && j < q.done;
          CleanUpPlanSent(table, init, replies, j, x);
        } else {
          StreamStepDeletes(table, keys[n], Drop(replies, q.used), x);
        }
      }
    }

    /** Every stream the clean-up dealt with had its whole list sent to the
        device in a DELETE: one bulk request naming the list, or one request
        per destination. */
    lemma CleanUpPlanDeletes(table: Table, keys: seq<string>, replies: seq<Reply>, j: nat)
      requires j < CleanUpPlan(table, keys, replies).done && Tracked(table, keys[j]) != []
      ensures UsesBulkDelete(visardVersion) ==>
        BulkDeleteRequest(keys[j], Tracked(table, keys[j])) in CleanUpPlan(table, keys, replies).requests
      ensures !UsesBulkDelete(visardVersion) ==> forall d :: d in Tracked(table, keys[j]) ==>
        DeleteRequest(keys[j], d) in CleanUpPlan(table, keys, replies).requests
    {
      forall x | x in Tracked(table, keys[j])
        ensures DeleteNaming(table, keys[j], x) in CleanUpPlan(table, keys, replies).requests
      {
        CleanUpPlanSent(table, keys, replies, j, x);
      }
      assert Tracked(table, keys[j])[0] in Tracked(table, keys[j]);
    }

    /** One stream's step sends requests only to its URL, and only when
        it had destinations. */
    lemma StreamStepUrls(table: Table, s: string, replies: seq<Reply>)
      ensures forall k :: 0 <= k < |StreamStep(table, s, replies).requests| ==>
        StreamStep(table, s, replies).requests[k].url in PendingUrls(table)
    {
      if Tracked(table, s) != [] {
        DeletePlanSends(s, Tracked(table, s), replies);
        assert StreamUrl(s) in PendingUrls(table);
      }
    }

    /** The clean-up sends requests only to the URLs of streams that had
        destinations. */
    lemma {:induction false} CleanUpPlanUrls(table: Table, keys: seq<string>, replies: seq<Reply>,
                                             log0: seq<Request>)
      ensures Extends(log0, log0 + CleanUpPlan(table, keys, replies).requests, PendingUrls(table))
      decreases |keys|
    {
      if keys != [] {
        var n := |keys| - 1;
        var init := keys[..n];
        var q := CleanUpPlan(table, init, replies);
        CleanUpPlanUrls(table, init, replies, log0);
        SplitLast(keys);
        CleanUpPlanSnoc(table, init, replies, keys[n]);
        if q.outcome.Pass? {
          var d := StreamStep(table, keys[n], Drop(replies, q.used));
          StreamStepUrls(table, keys[n], Drop(replies, q.used));
          AppendAssoc(log0, q.requests, d.requests);
          ExtendsBy(log0 + q.requests, d.requests, PendingUrls(table));
          ExtendsTrans(log0, log0 + q.requests, (log0 + q.requests) + d.requests,
                       PendingUrls(table), PendingUrls(table));
        }
      }
    }

    /** The URLs of the streams that have requested destinations. */
    function PendingUrls(table: Table): set<string>
    {
      set s | s in table && table[s] != [] :: StreamUrl(s)
    }

    /** One step of the clean-up: all of a stream's requested destinations
        are deleted, and once the device accepts that, its list is empty. */
    method CleanUpStream(stream: string) returns (o: Outcome)
      requires Valid() && stream in reqStreams
      modifies this, rest
      ensures Valid()
      ensures var p := DeletePlan(stream, old(reqStreams)[stream], old(rest.replies));
        rest.log == old(rest.log) + p.requests && rest.replies == Drop(old(rest.replies), p.used) && o == p.outcome
      ensures o.Pass? ==> reqStreams == old(reqStreams)[stream := []]
      ensures o.Fail? ==> reqStreams == old(reqStreams)
      ensures Extends(old(rest.log), rest.log, {StreamUrl(stream)})
    {
      var l := reqStreams[stream];
      o := DeleteDestinationsFromStream(stream, l);
      RemoveEachSelf(l);
    }

    /** cleanUpRequestedStreams, with each stream's list handed over as a
        copy: every stream with requested destinations, in key order, has
        them all deleted; the first failure ends the clean-up. */
    method CleanUpRequestedStreams() returns (o: Outcome)
      requires Valid()
      modifies this, rest
      ensures Valid()
      ensures reqStreams.Keys == old(reqStreams).Keys
      ensures forall s :: s in reqStreams ==> reqStreams[s] == [] || reqStreams[s] == old(reqStreams)[s]
      ensures o.Pass? ==> forall s :: s in reqStreams ==> reqStreams[s] == []
      ensures Extends(old(rest.log), rest.log, PendingUrls(old(reqStreams)))
      ensures var keys := SortedKeys(old(reqStreams).Keys);
        var p := CleanUpPlan(old(reqStreams), keys, old(rest.replies));
        && rest.log == old(rest.log) + p.requests
        && rest.replies == Drop(old(rest.replies), p.used)
        && o == p.outcome
        && CleanedFor(reqStreams, old(reqStreams), keys[..p.done])
    {
      var keys := AscendingKeys(reqStreams.Keys);
      o := Pass;
      var i := 0;
      while i < |keys|
        invariant 0 <= i <= |keys|
        invariant Valid()
        invariant CleanedFor(reqStreams, old(reqStreams), keys[..i])
        invariant o == Pass == CleanUpPlan(old(reqStreams), keys[..i], old(rest.replies)).outcome
        invariant rest.log == old(rest.log) + CleanUpPlan(old(reqStreams), keys[..i], old(rest.replies)).requests
        invariant rest.replies == Drop(old(rest.replies), CleanUpPlan(old(reqStreams), keys[..i], old(rest.replies)).used)
      {
        ghost var repBefore := rest.replies;
        AscendingFresh(keys, i);
        ghost var before := rest.log;
        o := CleanUpKey(keys[i], old(reqStreams), keys[..i]);
        TakeOneMore(keys, i);
        CleanUpAdvance(old(reqStreams), keys[..i], keys[i], old(rest.replies), old(rest.log), before, rest.log,
                       repBefore, rest.replies);
        CleanUpAdvanceOutcome(old(reqStreams), keys[..i], keys[i], old(rest.replies), o);
        if o.Fail? {
          CleanUpPlanStops(old(reqStreams), keys, old(rest.replies), i + 1);
          CleanUpPlanUrls(old(reqStreams), keys, old(rest.replies), old(rest.log));
          return;
        }
        i := i + 1;
      }
      assert keys[..i] == keys;
      CleanUpPlanUrls(old(reqStreams), keys, old(rest.replies), old(rest.log));
    }

    /** One stream of the clean-up: its list, when it has one, is deleted
        and, once the device accepts that, emptied. */
    method CleanUpKey(s: string, ghost start: Table, ghost done: seq<string>) returns (o: Outcome)
      requires Valid() && CleanedFor(reqStreams, start, done) && s in reqStreams && s !in done
      modifies this, rest
      ensures Valid()
      ensures var p := StreamStep(start, s, old(rest.replies));
        rest.log == old(rest.log) + p.requests && rest.replies == Drop(old(rest.replies), p.used) && o == p.outcome
      ensures o.Pass? ==> CleanedFor(reqStreams, start, done + [s])
      ensures o.Fail? ==> CleanedFor(reqStreams, start, done)
      ensures Extends(old(rest.log), rest.log, PendingUrls(start))
    {
      CleanedStep(reqStreams, start, done, s);
      if reqStreams[s] != [] {
        assert StreamUrl(s) in PendingUrls(start);
        o := CleanUpStream(s);
      } else {
        assert reqStreams[s := []] == reqStreams;
        o := Pass;
      }
    }

    /** ~RemoteInterface: the clean-up, whose error is only reported, then
        one warning per stream that still has destinations, in key order. */
    method Destroy() returns (cleaned: Outcome, report: seq<(string, seq<string>)>)
      requires Valid()
      modifies this, rest
      ensures Valid()
      ensures cleaned.Pass? ==> report == []
      ensures var p := CleanUpPlan(old(reqStreams), SortedKeys(old(reqStreams).Keys), old(rest.replies));
        rest.log == old(rest.log) + p.requests && rest.replies == Drop(old(rest.replies), p.used) && cleaned == p.outcome
      ensures report == [] <==> forall s :: s in reqStreams ==> reqStreams[s] == []
      ensures forall k :: 0 <= k < |report| ==>
        report[k].0 in reqStreams && report[k].1 == reqStreams[report[k].0] != []
      ensures forall s :: s in reqStreams && reqStreams[s] != [] ==> WarnedAbout(report, s, reqStreams[s])
      ensures forall i, j :: 0 <= i < j < |report| ==> StrLess(report[i].0, report[j].0)
      // the table the warnings are about: the streams dealt with are emptied,
      // the others keep their lists
      ensures var keys := SortedKeys(old(reqStreams).Keys);
        var p := CleanUpPlan(old(reqStreams), keys, old(rest.replies));
        && reqStreams.Keys == old(reqStreams).Keys
        && CleanedFor(reqStreams, old(reqStreams), keys[..p.done])
      // a failed clean-up is always warned about: the stream it failed at
      // keeps its destinations
      ensures cleaned.Fail? ==>
        var keys := SortedKeys(old(reqStreams).Keys);
        var p := CleanUpPlan(old(reqStreams), keys, old(rest.replies));
        && p.done < |keys| && keys[p.done] in reqStreams
        && reqStreams[keys[p.done]] == old(reqStreams)[keys[p.done]] != []
        && WarnedAbout(report, keys[p.done], reqStreams[keys[p.done]])
      ensures cleaned.Fail? ==> report != []
    {
      cleaned := CleanUpRequestedStreams();
      report := StaleWarnings();
      ghost var keys := SortedKeys(old(reqStreams).Keys);
      ghost var p := CleanUpPlan(old(reqStreams), keys, old(rest.replies));
      if cleaned.Fail? {
        CleanUpPlanFailsAt(old(reqStreams), keys, old(rest.replies));
        SortedKeysSpec(old(reqStreams).Keys);
        AscendingFresh(keys, p.done);
        assert keys[p.done] in reqStreams;
      }
    }

    /** The destructor's warnings: one per stream that still has
        destinations, in key order. */
    method StaleWarnings() returns (report: seq<(string, seq<string>)>)
      ensures report == [] <==> forall s :: s in reqStreams ==> reqStreams[s] == []
      ensures forall k :: 0 <= k < |report| ==>
        report[k].0 in reqStreams && report[k].1 == reqStreams[report[k].0] != []
      ensures forall s :: s in reqStreams && reqStreams[s] != [] ==> WarnedAbout(report, s, reqStreams[s])
      ensures forall i, j :: 0 <= i < j < |report| ==> StrLess(report[i].0, report[j].0)
    {
      var keys := AscendingKeys(reqStreams.Keys);
      report := [];
      var i := 0;
      while i < |keys|
        invariant 0 <= i <= |keys|
        invariant report == StaleReports(reqStreams, keys[..i])
      {
        var s := keys[i];
        StaleReportsStep(reqStreams, keys, i);
        if reqStreams[s] != [] {
          report := report + [(s, reqStreams[s])];
        }
        i := i + 1;
      }
      assert keys[..i] == keys;
      StaleReportsOfTable(reqStreams, keys);
      StaleReportsComplete(reqStreams, keys);
      StaleReportsOrdered(reqStreams, keys);
      forall s | s in reqStreams && reqStreams[s] != []
        ensures WarnedAbout(report, s, reqStreams[s])
      {
        var j :| 0 <= j < |keys| && keys[j] == s;
        assert Tracked(reqStreams, keys[j]) == reqStreams[s];
      }
    }

    /** callDynamicsService: a PUT on rc_dynamics' service; the reply gives
        the state entered. */
    method CallDynamicsService(service: string) returns (r: Result<string>)
      modifies rest
      ensures rest.log == old(rest.log) + [ServiceRequest("rc_dynamics", service, timeoutCurl, None)]
      ensures rest.replies == Drop(old(rest.replies), 1)
      ensures r == StateServiceResult(Upcoming(old(rest.replies), 0), DynamicsStates, service)
    {
      var rep := rest.Send(ServiceRequest("rc_dynamics", service, timeoutCurl, None));
      if rep.status != 200 {
        return Err(HttpError(rep.status));
      }
      if rep.body.None? {
        return Err(JsonError);
      }
      r := DecodeStateReply(rep.body.value, DynamicsStates, service);
    }

    method Start() returns (r: Result<string>)
      modifies rest
      ensures rest.log == old(rest.log) + [ServiceRequest("rc_dynamics", "start", timeoutCurl, None)]
      ensures rest.replies == Drop(old(rest.replies), 1)
      ensures r == StateServiceResult(Upcoming(old(rest.replies), 0), DynamicsStates, "start")
    {
      r := CallDynamicsService("start");
    }

    method StartSlam() returns (r: Result<string>)
      modifies rest
      ensures rest.log == old(rest.log) + [ServiceRequest("rc_dynamics", "start_slam", timeoutCurl, None)]
      ensures rest.replies == Drop(old(rest.replies), 1)
      ensures r == StateServiceResult(Upcoming(old(rest.replies), 0), DynamicsStates, "start_slam")
    {
      r := CallDynamicsService("start_slam");
    }

    method Restart() returns (r: Result<string>)
      modifies rest
      ensures rest.log == old(rest.log) + [ServiceRequest("rc_dynamics", "restart", timeoutCurl, None)]
      ensures rest.replies == Drop(old(rest.replies), 1)
      ensures r == StateServiceResult(Upcoming(old(rest.replies), 0), DynamicsStates, "restart")
    {
      r := CallDynamicsService("restart");
    }

    method RestartSlam() returns (r: Result<string>)
      modifies rest
      ensures rest.log == old(rest.log) + [ServiceRequest("rc_dynamics", "restart_slam", timeoutCurl, None)]
      ensures rest.replies == Drop(old(rest.replies), 1)
      ensures r == StateServiceResult(Upcoming(old(rest.replies), 0), DynamicsStates, "restart_slam")
    {
      r := CallDynamicsService("restart_slam");
    }

    method Stop() returns (r: Result<string>)
      modifies rest
      ensures rest.log == old(rest.log) + [ServiceRequest("rc_dynamics", "stop", timeoutCurl, None)]
      ensures rest.replies == Drop(old(rest.replies), 1)
      ensures r == StateServiceResult(Upcoming(old(rest.replies), 0), DynamicsStates, "stop")
    {
      r := CallDynamicsService("stop");
    }

    method StopSlam() returns (r: Result<string>)
      modifies rest
      ensures rest.log == old(rest.log) + [ServiceRequest("rc_dynamics", "stop_slam", timeoutCurl, None)]
      ensures rest.replies == Drop(old(rest.replies), 1)
      ensures r == StateServiceResult(Upcoming(old(rest.replies), 0), DynamicsStates, "stop_slam")
    {
      r := CallDynamicsService("stop_slam");
    }

    /** resetSlam: rc_slam's reset service, judged by rc_slam's states. */
    method ResetSlam() returns (r: Result<string>)
      modifies rest
      ensures rest.log == old(rest.log) + [ServiceRequest("rc_slam", "reset", timeoutCurl, None)]
      ensures rest.replies == Drop(old(rest.replies), 1)
      ensures r == StateServiceResult(Upcoming(old(rest.replies), 0), SlamStates, "reset")
    {
      var rep := rest.Send(ServiceRequest("rc_slam", "reset", timeoutCurl, None));
      if rep.status != 200 {
        return Err(HttpError(rep.status));
      }
      if rep.body.None? {
        return Err(JsonError);
      }
      r := DecodeStateReply(rep.body.value, SlamStates, "reset");
    }

    /** callSlamService: a PUT on rc_slam's service with the call's own
        timeout cut to 32 bits; the reply gives the return code. */
    method CallSlamService(service: string, timeoutMs: nat) returns (r: Result<ReturnCode>)
      modifies rest
      ensures rest.log == old(rest.log) + [ServiceRequest("rc_slam", service, Int32(timeoutMs), None)]
      ensures rest.replies == Drop(old(rest.replies), 1)
      ensures r == ReturnCodeResult(Upcoming(old(rest.replies), 0))
    {
      var rep := rest.Send(ServiceRequest("rc_slam", service, Int32(timeoutMs), None));
      if rep.status != 200 {
        return Err(HttpError(rep.status));
      }
      if rep.body.None? {
        return Err(JsonError);
      }
      r := DecodeReturnCode(rep.body.value);
    }

    method SaveSlamMap(timeoutMs: nat) returns (r: Result<ReturnCode>)
      modifies rest
      ensures rest.log == old(rest.log) + [ServiceRequest("rc_slam", "save_map", Int32(timeoutMs), None)]
      ensures rest.replies == Drop(old(rest.replies), 1)
      ensures r == ReturnCodeResult(Upcoming(old(rest.replies), 0))
    {
      r := CallSlamService("save_map", timeoutMs);
    }

    method LoadSlamMap(timeoutMs: nat) returns (r: Result<ReturnCode>)
      modifies rest
      ensures rest.log == old(rest.log) + [ServiceRequest("rc_slam", "load_map", Int32(timeoutMs), None)]
      ensures rest.replies == Drop(old(rest.replies), 1)
      ensures r == ReturnCodeResult(Upcoming(old(rest.replies), 0))
    {
      r := CallSlamService("load_map", timeoutMs);
    }

    method RemoveSlamMap(timeoutMs: nat) returns (r: Result<ReturnCode>)
      modifies rest
      ensures rest.log == old(rest.log) + [ServiceRequest("rc_slam", "remove_map", Int32(timeoutMs), None)]
      ensures rest.replies == Drop(old(rest.replies), 1)
      ensures r == ReturnCodeResult(Upcoming(old(rest.replies), 0))
    {
      r := CallSlamService("remove_map", timeoutMs);
    }

    /** getSlamTrajectory: a PUT on rc_slam's get_trajectory with the two
        times as JSON body; the reply's response.trajectory is returned. */
    method GetSlamTrajectory(start: TrajectoryTime, end: TrajectoryTime, timeoutMs: nat) returns (r: Result<Json>)
      modifies rest
      ensures rest.log == old(rest.log) + [ServiceRequest("rc_slam", "get_trajectory", Int32(timeoutMs),
                                                         Some(TrajectoryArgs(start, end)))]
      ensures rest.replies == Drop(old(rest.replies), 1)
      ensures r == TrajectoryResult(Upcoming(old(rest.replies), 0))
    {
      var rep := rest.Send(ServiceRequest("rc_slam", "get_trajectory", Int32(timeoutMs), Some(TrajectoryArgs(start, end))));
      if rep.status != 200 {
        return Err(HttpError(rep.status));
      }
      if rep.body.None? {
        return Err(JsonError);
      }
      r := TrajectoryOf(rep.body.value);
    }

    /** The address getThisHostsIP picks for the stream destination. */
    function HostAddress(interfaces: seq<NetUtils.IfAddr>, destInterface: string): string
      requires NetUtils.FirstQualifying(interfaces, visardAddrs, destInterface).Some?
    {
      NetUtils.Ntop(interfaces[NetUtils.FirstQualifying(interfaces, visardAddrs, destInterface).value].addr.value.addr)
    }

    /** createReceiverForStream: a receiver on this host's address facing the
        device, registered as a destination of the stream, that has seen a
        first message within 5 s and then waits 100 ms per message. A
        failure after the receiver exists releases it: the destination is
        withdrawn and the socket closed. */
    method CreateReceiverForStream(stream: string, destInterface: string, destPort: nat,
                                   interfaces: seq<NetUtils.IfAddr>, kernel: DR.Kernel)
      returns (r: Result<TrackedReceiver>)
      requires Valid()
      modifies this, rest, kernel
      ensures Valid()
      ensures stream !in availStreams ==>
        r == Err(InvalidArgument(UnavailableMessage(stream, visardAddrs))) &&
        unchanged(this) && unchanged(rest) && unchanged(kernel)
      ensures stream in availStreams && NetUtils.FirstQualifying(interfaces, visardAddrs, destInterface).None? ==>
        r == Err(InvalidArgument(NoHostAddressMessage(destInterface))) &&
        unchanged(this) && unchanged(rest) && unchanged(kernel)
      ensures r.Ok? ==>
        && fresh(r.value) && r.value.creator == this && r.value.stream == stream
        && r.value.receiver.kernel == kernel && r.value.receiver.Valid()
        && NetUtils.FirstQualifying(interfaces, visardAddrs, destInterface).Some?
        && r.value.receiver.ip == HostAddress(interfaces, destInterface)
        && r.value.dest == Destination(r.value.receiver.ip, r.value.receiver.port)
        && (destPort != 0 ==> r.value.receiver.port == destPort)
        && r.value.receiver.sockfd == old(kernel.nextFd) && r.value.receiver.sockfd in kernel.openFds
        && r.value.receiver.sockfd in kernel.rcvTimeouts
        && kernel.rcvTimeouts[r.value.receiver.sockfd] == DR.TimevalOf(100)
        && rest.log == old(rest.log) + [AddRequest(stream, r.value.dest)]
        && reqStreams == old(reqStreams)[stream := Tracked(old(reqStreams), stream) + [r.value.dest]]
      ensures r.Err? && rest.log != old(rest.log) ==>
        && (exists d :: rest.log == old(rest.log) + [AddRequest(stream, d), DeleteRequest(stream, d)])
        && old(kernel.nextFd) !in kernel.openFds
      ensures r == Err(UnexpectedReceiveTimeout(5000)) ==> rest.log != old(rest.log)
      ensures r.Err? ==> reqStreams == old(reqStreams) || rest.log != old(rest.log)
      // once the host address is known: when the call succeeds, which error
      // it raises otherwise (a missed first message is
      // UnexpectedReceiveTimeout(5000)), and the script and the socket layer
      // afterwards
      ensures stream in availStreams && NetUtils.FirstQualifying(interfaces, visardAddrs, destInterface).Some? ==>
        var ip := HostAddress(interfaces, destInterface);
        var setup := DR.DataReceiver.SetupOutcome(ip, destPort, old(kernel.socketErrno),
                                                  old(kernel.bindErrno), old(kernel.getsocknameErrno));
        var put := CheckStatus(Upcoming(old(rest.replies), 0));
        var first := FirstMessage(old(kernel.setsockoptErrno), protobufMap[stream], old(kernel.incoming));
        var dest := Destination(ip, if destPort != 0 then destPort else old(kernel.ephemeralPort));
        && (r.Ok? <==> setup.Pass? && put.Pass? && first.Pass?)
        && (setup.Fail? ==> r == Err(setup.error) && rest.log == old(rest.log) && reqStreams == old(reqStreams))
        && (setup.Pass? && put.Fail? ==> r == Err(put.error))
        && (setup.Pass? && put.Pass? && first.Fail? ==> r == Err(first.error))
        && (setup.Pass? && put.Pass? && first == Fail(UnexpectedReceiveTimeout(5000)) ==>
              r == Err(UnexpectedReceiveTimeout(5000)))
        && (setup.Pass? && r.Err? ==> reqStreams == AfterFailedActivation(old(reqStreams), stream, dest, old(rest.replies)))
        && kernel.nextFd ==
             (if NetUtils.IsValidIPAddress(ip) && old(kernel.socketErrno) == 0 then old(kernel.nextFd) + 1
              else old(kernel.nextFd))
        && kernel.boundPorts ==
             DR.PortsAfterSetup(ip, destPort, old(kernel.socketErrno), old(kernel.bindErrno),
                                old(kernel.ephemeralPort), old(kernel.nextFd), old(kernel.boundPorts))
        && kernel.Faults() == old(kernel.Faults())
        && kernel.openFds ==
             (if setup.Fail? then
                DR.FdsAfterSetup(ip, destPort, old(kernel.socketErrno), old(kernel.bindErrno),
                                 old(kernel.getsocknameErrno), old(kernel.nextFd), old(kernel.openFds))
              else if r.Ok? then old(kernel.openFds) + {old(kernel.nextFd)}
              else old(kernel.openFds) - {old(kernel.nextFd)})
        && (setup.Fail? ==>
              rest.replies == old(rest.replies) && kernel.incoming == old(kernel.incoming) &&
              kernel.rcvTimeouts == old(kernel.rcvTimeouts))
        && (setup.Pass? ==>
              && rest.replies == Drop(old(rest.replies), if r.Ok? then 1 else 2)
              && (r.Ok? ==> r.value.dest == dest)
              && (r.Err? ==> rest.log == old(rest.log) + [AddRequest(stream, dest), DeleteRequest(stream, dest)])
              && kernel.incoming ==
                   (if put.Pass? then ArrivalsAfterFirstMessage(old(kernel.setsockoptErrno), protobufMap[stream],
                                                                old(kernel.incoming))
                    else old(kernel.incoming))
              && kernel.rcvTimeouts ==
                   (if put.Pass? then TimeoutsAfterFirstMessage(old(kernel.setsockoptErrno), protobufMap[stream],
                                                                old(kernel.incoming), old(kernel.nextFd),
                                                                old(kernel.rcvTimeouts))
                    else old(kernel.rcvTimeouts)))
    {
      var chk := CheckStreamTypeAvailable(stream);
      if chk.Fail? {
        return Err(chk.error);
      }
      var found, destAddress := NetUtils.GetThisHostsIP("", visardAddrs, destInterface, interfaces);
      if !found {
        return Err(InvalidArgument(NoHostAddressMessage(destInterface)));
      }
      r := ReceiverOn(stream, destAddress, destPort, kernel);
    }

    /** The part of createReceiverForStream once the host address is known:
        a receiver bound to it, its destination requested and activated. */
    method ReceiverOn(stream: string, destAddress: string, destPort: nat, kernel: DR.Kernel)
      returns (r: Result<TrackedReceiver>)
      requires Valid() && stream in availStreams
      modifies this, rest, kernel
      ensures Valid()
      ensures r.Ok? ==>
        && fresh(r.value) && r.value.creator == this && r.value.stream == stream
        && r.value.receiver.kernel == kernel && r.value.receiver.Valid()
        && r.value.receiver.ip == destAddress
        && r.value.dest == Destination(r.value.receiver.ip, r.value.receiver.port)
        && (destPort != 0 ==> r.value.receiver.port == destPort)
        && r.value.receiver.sockfd == old(kernel.nextFd) && r.value.receiver.sockfd in kernel.openFds
        && r.value.receiver.sockfd in kernel.rcvTimeouts
        && kernel.rcvTimeouts[r.value.receiver.sockfd] == DR.TimevalOf(100)
        && rest.log == old(rest.log) + [AddRequest(stream, r.value.dest)]
        && reqStreams == old(reqStreams)[stream := Tracked(old(reqStreams), stream) + [r.value.dest]]
      ensures r.Err? && rest.log != old(rest.log) ==>
        && (exists d :: rest.log == old(rest.log) + [AddRequest(stream, d), DeleteRequest(stream, d)])
        && old(kernel.nextFd) !in kernel.openFds
      ensures r == Err(UnexpectedReceiveTimeout(5000)) ==> rest.log != old(rest.log)
      ensures r.Err? ==> reqStreams == old(reqStreams) || rest.log != old(rest.log)
      // when the call succeeds, and which error it raises otherwise
      ensures var setup := DR.DataReceiver.SetupOutcome(destAddress, destPort, old(kernel.socketErrno),
                                                        old(kernel.bindErrno), old(kernel.getsocknameErrno));
        var put := CheckStatus(Upcoming(old(rest.replies), 0));
        var first := FirstMessage(old(kernel.setsockoptErrno), protobufMap[stream], old(kernel.incoming));
        && (r.Ok? <==> setup.Pass? && put.Pass? && first.Pass?)
        && (setup.Fail? ==> r == Err(setup.error) && rest.log == old(rest.log) && reqStreams == old(reqStreams))
        && (setup.Pass? && put.Fail? ==> r == Err(put.error))
        && (setup.Pass? && put.Pass? && first.Fail? ==> r == Err(first.error))
        && (setup.Pass? && r.Err? ==>
              reqStreams == AfterFailedActivation(old(reqStreams), stream,
                              Destination(destAddress, if destPort != 0 then destPort else old(kernel.ephemeralPort)),
                              old(rest.replies)))
      // the script and the socket layer afterwards
      ensures kernel.nextFd ==
        if NetUtils.IsValidIPAddress(destAddress) && old(kernel.socketErrno) == 0 then old(kernel.nextFd) + 1
        else old(kernel.nextFd)
      ensures kernel.boundPorts ==
        DR.PortsAfterSetup(destAddress, destPort, old(kernel.socketErrno), old(kernel.bindErrno),
                           old(kernel.ephemeralPort), old(kernel.nextFd), old(kernel.boundPorts))
      ensures kernel.Faults() == old(kernel.Faults())
      // the open descriptors: as the constructor leaves them after a set-up
      // failure; one more on success; the new one closed again on a later failure
      ensures var setup := DR.DataReceiver.SetupOutcome(destAddress, destPort, old(kernel.socketErrno),
                                                        old(kernel.bindErrno), old(kernel.getsocknameErrno));
        kernel.openFds ==
          if setup.Fail? then
            DR.FdsAfterSetup(destAddress, destPort, old(kernel.socketErrno), old(kernel.bindErrno),
                             old(kernel.getsocknameErrno), old(kernel.nextFd), old(kernel.openFds))
          else if r.Ok? then old(kernel.openFds) + {old(kernel.nextFd)}
          else old(kernel.openFds) - {old(kernel.nextFd)}
      ensures var setup := DR.DataReceiver.SetupOutcome(destAddress, destPort, old(kernel.socketErrno),
                                                        old(kernel.bindErrno), old(kernel.getsocknameErrno));
        var put := CheckStatus(Upcoming(old(rest.replies), 0));
        var dest := Destination(destAddress, if destPort != 0 then destPort else old(kernel.ephemeralPort));
        && (setup.Fail? ==>
              rest.replies == old(rest.replies) && kernel.incoming == old(kernel.incoming) &&
              kernel.rcvTimeouts == old(kernel.rcvTimeouts))
        && (setup.Pass? ==>
              && rest.replies == Drop(old(rest.replies), if r.Ok? then 1 else 2)
              && (r.Ok? ==> r.value.dest == dest)
              && (r.Err? ==> rest.log == old(rest.log) + [AddRequest(stream, dest), DeleteRequest(stream, dest)])
              && kernel.incoming ==
                   (if put.Pass? then ArrivalsAfterFirstMessage(old(kernel.setsockoptErrno), protobufMap[stream],
                                                                old(kernel.incoming))
                    else old(kernel.incoming))
              && kernel.rcvTimeouts ==
                   (if put.Pass? then TimeoutsAfterFirstMessage(old(kernel.setsockoptErrno), protobufMap[stream],
                                                                old(kernel.incoming), old(kernel.nextFd),
                                                                old(kernel.rcvTimeouts))
                    else old(kernel.rcvTimeouts)))
    {
      var created, port := DR.DataReceiver.Create(destAddress, destPort, kernel);
      if created.Err? {
        return Err(created.error);
      }
      var receiver := created.value;
      var tracked := new TrackedReceiver.Init(receiver, Destination(destAddress, port), stream, this);
      var o := Activate(tracked);
      if o.Fail? {
        return Err(o.error);
      }
      r := Ok(tracked);
    }

    /** The part of createReceiverForStream after the receiver exists: the
        destination is requested, the first message awaited for 5 s, and the
        timeout set to 100 ms. On any failure the receiver is released. */
    method Activate(tracked: TrackedReceiver) returns (o: Outcome)
      requires Valid() && tracked.creator == this && tracked.stream in availStreams && tracked.receiver.Valid()
      modifies this, rest, tracked.receiver.kernel, tracked.receiver.buffer
      ensures Valid()
      ensures o.Pass? ==>
        && rest.log == old(rest.log) + [AddRequest(tracked.stream, tracked.dest)]
        && reqStreams == old(reqStreams)[tracked.stream := Tracked(old(reqStreams), tracked.stream) + [tracked.dest]]
        && tracked.receiver.kernel.openFds == old(tracked.receiver.kernel.openFds)
        && tracked.receiver.kernel.rcvTimeouts
           == old(tracked.receiver.kernel.rcvTimeouts)[tracked.receiver.sockfd := DR.TimevalOf(100)]
      ensures o.Fail? ==>
        && rest.log == old(rest.log) + [AddRequest(tracked.stream, tracked.dest), DeleteRequest(tracked.stream, tracked.dest)]
        && tracked.receiver.kernel.openFds == old(tracked.receiver.kernel.openFds) - {tracked.receiver.sockfd}
      ensures o.Fail? ==> reqStreams == AfterFailedActivation(old(reqStreams), tracked.stream, tracked.dest, old(rest.replies))
      ensures CheckStatus(Upcoming(old(rest.replies), 0)).Fail? ==> o == CheckStatus(Upcoming(old(rest.replies), 0))
      ensures CheckStatus(Upcoming(old(rest.replies), 0)).Pass? ==>
        o == FirstMessage(old(tracked.receiver.kernel.setsockoptErrno), protobufMap[tracked.stream],
                          old(tracked.receiver.kernel.incoming))
      // the script and the socket layer afterwards
      ensures rest.replies == Drop(old(rest.replies), if o.Pass? then 1 else 2)
      ensures var k := tracked.receiver.kernel;
        && k.incoming ==
             (if CheckStatus(Upcoming(old(rest.replies), 0)).Pass? then
                ArrivalsAfterFirstMessage(old(k.setsockoptErrno), protobufMap[tracked.stream], old(k.incoming))
              else old(k.incoming))
        && k.rcvTimeouts ==
             (if CheckStatus(Upcoming(old(rest.replies), 0)).Pass? then
                TimeoutsAfterFirstMessage(old(k.setsockoptErrno), protobufMap[tracked.stream], old(k.incoming),
                                          tracked.receiver.sockfd, old(k.rcvTimeouts))
              else old(k.rcvTimeouts))
        && k.boundPorts == old(k.boundPorts) && k.nextFd == old(k.nextFd) && k.Faults() == old(k.Faults())
    {
      ghost var script := rest.replies;
      o := AddDestinationToStream(tracked.stream, tracked.dest);
      DropStep(script, 0);
      if o.Fail? {
        var _ := tracked.Release();
        return;
      }
      var msgType := GetPbMsgTypeOfStream(tracked.stream);
      o := AwaitOrWithdraw(tracked, msgType.value);
    }

    /** The part of activation after the PUT was accepted: the first message
        is awaited, and a receiver that misses it is released. */
    method AwaitOrWithdraw(tracked: TrackedReceiver, msgType: string) returns (o: Outcome)
      requires Valid() && tracked.creator == this && tracked.stream in availStreams && tracked.receiver.Valid()
      modifies this, rest, tracked.receiver.kernel, tracked.receiver.buffer
      ensures Valid()
      ensures o == FirstMessage(old(tracked.receiver.kernel.setsockoptErrno), msgType,
                                old(tracked.receiver.kernel.incoming))
      ensures o.Pass? ==>
        && rest.log == old(rest.log) && rest.replies == old(rest.replies) && reqStreams == old(reqStreams)
        && tracked.receiver.kernel.openFds == old(tracked.receiver.kernel.openFds)
        && tracked.receiver.kernel.rcvTimeouts
           == old(tracked.receiver.kernel.rcvTimeouts)[tracked.receiver.sockfd := DR.TimevalOf(100)]
      ensures o.Fail? ==>
        && rest.log == old(rest.log) + [DeleteRequest(tracked.stream, tracked.dest)]
        && rest.replies == Drop(old(rest.replies), 1)
        && tracked.receiver.kernel.openFds == old(tracked.receiver.kernel.openFds) - {tracked.receiver.sockfd}
        && reqStreams ==
             (if CheckStatus(Upcoming(old(rest.replies), 0)).Pass? then
                old(reqStreams)[tracked.stream := RemoveFirst(Tracked(old(reqStreams), tracked.stream), tracked.dest)]
              else old(reqStreams))
      ensures var k := tracked.receiver.kernel;
        && k.incoming == ArrivalsAfterFirstMessage(old(k.setsockoptErrno), msgType, old(k.incoming))
        && k.rcvTimeouts == TimeoutsAfterFirstMessage(old(k.setsockoptErrno), msgType, old(k.incoming),
                                                      tracked.receiver.sockfd, old(k.rcvTimeouts))
        && k.boundPorts == old(k.boundPorts) && k.nextFd == old(k.nextFd) && k.Faults() == old(k.Faults())
    {
      o := AwaitFirstMessage(tracked.receiver, msgType);
      if o.Fail? {
        var _ := tracked.Release();
      }
    }
  }

  /** TrackedDataReceiver: a receiver that knows the destination it was
      registered under, and withdraws it when it is released. */
  class TrackedReceiver {
    const receiver: DR.DataReceiver
    const dest: string
    const stream: string
    const creator: RemoteInterface

    constructor Init(receiver: DR.DataReceiver, dest: string, stream: string, creator: RemoteInterface)
      ensures this.receiver == receiver && this.dest == dest && this.stream == stream && this.creator == creator
    {
      this.receiver, this.dest, this.stream, this.creator := receiver, dest, stream, creator;
    }

    /** The destructor: the destination is withdrawn (a failure is only
        reported), then the socket is closed. */
    method Release() returns (o: Outcome)
      requires creator.Valid()
      modifies creator, creator.rest, receiver.kernel
      ensures creator.Valid()
      ensures stream !in creator.availStreams ==>
        && o == Fail(InvalidArgument(UnavailableMessage(stream, creator.visardAddrs)))
        && creator.rest.log == old(creator.rest.log) && creator.rest.replies == old(creator.rest.replies)
      ensures stream in creator.availStreams ==>
        && creator.rest.log == old(creator.rest.log) + [creator.DeleteRequest(stream, dest)]
        && creator.rest.replies == Drop(old(creator.rest.replies), 1)
        && o == CheckStatus(Upcoming(old(creator.rest.replies), 0))
      ensures o.Pass? ==>
        creator.reqStreams == old(creator.reqStreams)[stream := RemoveFirst(Tracked(old(creator.reqStreams), stream), dest)]
      ensures o.Fail? ==> creator.reqStreams == old(creator.reqStreams)
      ensures receiver.kernel.openFds == old(receiver.kernel.openFds) - {receiver.sockfd}
      ensures receiver.kernel.rcvTimeouts == old(receiver.kernel.rcvTimeouts)
      ensures receiver.kernel.incoming == old(receiver.kernel.incoming)
      ensures receiver.kernel.boundPorts == old(receiver.kernel.boundPorts)
      ensures receiver.kernel.nextFd == old(receiver.kernel.nextFd)
      ensures receiver.kernel.Faults() == old(receiver.kernel.Faults())
    {
      o := creator.DeleteDestinationFromStream(stream, dest);
      receiver.Close();
    }
  }

  /** RemoteInterface::create: one interface per device address, kept in a
      process-wide table. */
  class Registry {
    var instances: map<string, RemoteInterface>

    ghost predicate Valid()
      reads this
    {
      forall a :: a in instances ==> instances[a].visardAddrs == a
    }

    constructor ()
      ensures Valid() && instances == map[]
    {
      instances := map[];
    }

    /** The interface already opened for the address, else a new one, which
        is kept only if opening it succeeds. */
    method Create(addrs: string, requestsTimeout: nat, rest: Endpoint) returns (r: Result<RemoteInterface>)
      requires Valid()
      modifies this, rest
      ensures Valid()
      ensures addrs in old(instances) ==>
        r == Ok(old(instances)[addrs]) && instances == old(instances) && unchanged(rest)
      ensures addrs !in old(instances) && r.Ok? ==>
        fresh(r.value) && r.value.Valid() && r.value.rest == rest && instances == old(instances)[addrs := r.value]
      ensures addrs !in old(instances) && r.Err? ==> instances == old(instances)
      ensures r.Ok? ==> r.value.visardAddrs == addrs && addrs in instances && instances[addrs] == r.value
      // a new address: what the constructor sends, reads and returns
      ensures addrs !in old(instances) ==>
        && rest.log == old(rest.log) + OpenRequests(addrs, requestsTimeout, old(rest.replies))
        && rest.replies == Drop(old(rest.replies), |OpenRequests(addrs, requestsTimeout, old(rest.replies))|)
        && (r.Ok? <==> OpenResult(addrs, old(rest.replies)).Ok?)
        && (r.Err? ==> OpenResult(addrs, old(rest.replies)) == Err(r.error))
        && (r.Ok? ==>
              && OpenResult(addrs, old(rest.replies))
                 == Ok((r.value.visardVersion, r.value.availStreams, r.value.protobufMap))
              && r.value.timeoutCurl == Int32(requestsTimeout) && r.value.reqStreams == map[])
    {
      if addrs in instances {
        return Ok(instances[addrs]);
      }
      r := RemoteInterface.Open(addrs, requestsTimeout, rest);
      if r.Ok? {
        instances := instances[addrs := r.value];
      }
    }
  }
}
