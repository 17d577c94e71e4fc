/** What RemoteInterface reads from and writes to the rc_visard's REST API:
    the firmware version and the gate it sets for bulk deletes, the stream
    catalog, the replies of the rc_dynamics and rc_slam services, and the
    argument object of the get_trajectory service. */
module ServiceReplies {
  import opened Common
  import opened ControlPlane
  import Destinations

  /** `(int32_t)x` and `get<int>()`: the value cut to a signed 32-bit word. */
  function Int32(x: int): (r: int)
    ensures -0x8000_0000 <= r < 0x8000_0000
    ensures (x - r) % 0x1_0000_0000 == 0
    ensures -0x8000_0000 <= x < 0x8000_0000 ==> r == x
  {
    var w := x % 0x1_0000_0000;
    if w >= 0x8000_0000 then w - 0x1_0000_0000 else w
  }

  // ---------------------------------------------------------------------
  // The firmware version

  /** ECMAScript `.`: any character but a line terminator. */
  predicate NotLineTerminator(c: char)
  {
    c != '\n' && c != '\r' && c as int != 0x2028 && c as int != 0x2029
  }

  /** `\d+(.\d+){k}` matches at j: a run of digits, then k times one
      character and another run of digits. The regex engine backtracks, so
      any split of the digits that works is a match. */
  function Groups(s: string, j: nat, k: nat): (b: bool)
    ensures b ==> j + 2 * k < |s| && IsDigit(s[j])
    ensures b && k > 0 ==> IsDigit(s[j + 1]) || IsDigit(s[j + 2])
    decreases |s| - j
  {
    j < |s| && IsDigit(s[j]) &&
    (k == 0 ||
     (j + 1 < |s| &&
      ((NotLineTerminator(s[j + 1]) && Groups(s, j + 2, k - 1)) || Groups(s, j + 1, k))))
  }

  /** `v(\d+).(\d+).(\d+)` matches at i. */
  predicate MatchesAt(s: string, i: nat)
  {
    i < |s| && s[i] == 'v' && Groups(s, i + 1, 2)
  }

  /** regex_search: the leftmost position at or after i where the pattern
      matches. */
  function LeftmostMatch(s: string, i: nat): (r: Option<nat>)
    ensures r.Some? ==> i <= r.value && MatchesAt(s, r.value)
    ensures r.Some? ==> forall p :: i <= p < r.value ==> !MatchesAt(s, p)
    ensures r.None? ==> forall p :: i <= p ==> !MatchesAt(s, p)
    decreases |s| - i
  {
    if i >= |s| then None
    else if MatchesAt(s, i) then Some(i)
    else LeftmostMatch(s, i + 1)
  }

  function Pow10(n: nat): nat
  {
    if n == 0 then 1 else 10 * Pow10(n - 1)
  }

  /** stof of a three-character string that starts with a digit, in tenths,
      under the "C" locale: digits, a decimal point, an exponent or a
      hexadecimal prefix are read as far as they go. Inside a version match
      a non-digit second character is followed by a digit. */
  function StofTenths(t: string): nat
    requires |t| == 3 && IsDigit(t[0]) && (IsDigit(t[1]) || IsDigit(t[2]))
  {
    var d0 := DigitValue(t[0]);
    if IsDigit(t[1]) then
      var d1 := DigitValue(t[1]);
      if IsDigit(t[2]) then 10 * (100 * d0 + 10 * d1 + DigitValue(t[2])) else 10 * (10 * d0 + d1)
    else if t[1] == '.' then 10 * d0 + DigitValue(t[2])
    else if t[1] == 'e' || t[1] == 'E' then 10 * d0 * Pow10(DigitValue(t[2]))
    else if (t[1] == 'x' || t[1] == 'X') && d0 == 0 then 10 * DigitValue(t[2])
    else 10 * d0
  }

  /** _visardVersion in tenths: stof of the three characters after the 'v'
      of the first match, 0 when the image version has none. */
  function ParseVersion(imageVersion: string): nat
  {
    match LeftmostMatch(imageVersion, 0)
    case None => 0
    case Some(i) => StofTenths(imageVersion[i + 1..i + 4])
  }

  /** `_visardVersion >= 1.600001`: 1.6f falls below the bound and 1.7f lies
      above it, so on tenths the bound sits between 16 and 17. */
  predicate UsesBulkDelete(tenths: nat)
  {
    tenths >= 17
  }

  /** For a one-digit major and minor number the version is major.minor,
      and the bulk delete is used from 1.7 on. */
  lemma SingleDigitVersion(major: nat, minor: nat, patch: string)
    requires major < 10 && minor < 10 && patch != [] && IsDigit(patch[0])
    ensures ParseVersion("v" + [DigitChar(major)] + "." + [DigitChar(minor)] + "." + patch) == 10 * major + minor
    ensures UsesBulkDelete(ParseVersion("v" + [DigitChar(major)] + "." + [DigitChar(minor)] + "." + patch))
            <==> major > 1 || (major == 1 && minor >= 7)
  {
    var s := "v" + [DigitChar(major)] + "." + [DigitChar(minor)] + "." + patch;
    assert s[5] == patch[0];
    assert Groups(s, 5, 0);
    assert Groups(s, 3, 1);
    assert Groups(s, 1, 2);
    assert LeftmostMatch(s, 0) == Some(0);
    assert s[1..4] == [DigitChar(major), '.', DigitChar(minor)];
  }

  /** A two-digit minor number loses its second digit: v1.10.x reads as
      1.1 and takes the request-per-destination path. */
  lemma TwoDigitMinorVersion(major: nat, minor: nat, patch: string)
    requires major < 10 && 10 <= minor < 100 && patch != [] && IsDigit(patch[0])
    ensures ParseVersion("v" + [DigitChar(major)] + "." + NatToString(minor) + "." + patch) == 10 * major + minor / 10
  {
    var s := "v" + [DigitChar(major)] + "." + NatToString(minor) + "." + patch;
    assert NatToString(minor) == [DigitChar(minor / 10), DigitChar(minor % 10)];
    assert s[6] == patch[0];
    assert Groups(s, 6, 0);
    assert Groups(s, 4, 1);
    assert Groups(s, 3, 1);
    assert Groups(s, 1, 2);
    assert LeftmostMatch(s, 0) == Some(0);
    assert s[1..4] == [DigitChar(major), '.', DigitChar(minor / 10)];
  }

  /** A two-digit major number is read whole, with its separator: v21.x.y
      reads as 21. */
  lemma TwoDigitMajorVersion(major: nat, minor: nat, patch: string)
    requires 10 <= major < 100 && minor < 10 && patch != [] && IsDigit(patch[0])
    ensures ParseVersion("v" + NatToString(major) + "." + [DigitChar(minor)] + "." + patch) == 10 * major
  {
    var s := "v" + NatToString(major) + "." + [DigitChar(minor)] + "." + patch;
    assert NatToString(major) == [DigitChar(major / 10), DigitChar(major % 10)];
    assert s[6] == patch[0];
    assert Groups(s, 6, 0);
    assert Groups(s, 4, 1);
    assert Groups(s, 2, 2);
    assert Groups(s, 1, 2);
    assert LeftmostMatch(s, 0) == Some(0);
    assert s[1..4] == [DigitChar(major / 10), DigitChar(major % 10), '.'];
  }

  // ---------------------------------------------------------------------
  // The stream catalog: GET /datastreams

  /** One catalog entry: its "name" and "protobuf" strings. */
  function CatalogEntry(e: Json): Result<(string, string)>
  {
    match (GetString(Member(e, "name")), GetString(Member(e, "protobuf")))
    case (Ok(n), Ok(p)) => Ok((n, p))
    case (Err(x), _) => Err(x)
    case (_, Err(x)) => Err(x)
  }

  /** The constructor's loop over the catalog: the names in catalog order and
      the message type of each name (a later entry with the same name wins). */
  function Catalog(es: seq<Json>): (r: Result<(seq<string>, map<string, string>)>)
    ensures r.Ok? ==> |r.value.0| == |es|
    ensures r.Ok? ==> forall n :: n in r.value.0 <==> n in r.value.1
    ensures r.Ok? <==> forall k :: 0 <= k < |es| ==> CatalogEntry(es[k]).Ok?
    ensures r.Ok? ==> forall k :: 0 <= k < |es| ==> r.value.0[k] == CatalogEntry(es[k]).value.0
    ensures r.Err? ==> r.error == JsonError
    decreases |es|
  {
    if es == [] then Ok(([], map[]))
    else
      var last := es[|es| - 1];
      match Catalog(es[..|es| - 1])
      case Err(x) => Err(x)
      case Ok((names, m)) =>
        match CatalogEntry(last)
        case Err(x) => Err(x)
        case Ok((n, p)) => Ok((names + [n], m[n := p]))
  }

  /** The message type recorded for a name is the one of its last entry. */
  lemma {:induction false} CatalogLastEntryWins(es: seq<Json>, k: nat)
    requires Catalog(es).Ok? && k < |es|
    requires forall q :: k < q < |es| ==> CatalogEntry(es[q]).value.0 != CatalogEntry(es[k]).value.0
    ensures Catalog(es).value.1[CatalogEntry(es[k]).value.0] == CatalogEntry(es[k]).value.1
    decreases |es|
  {
    var init := es[..|es| - 1];
    assert Catalog(init).Ok? by {
      forall q | 0 <= q < |init| ensures CatalogEntry(init[q]).Ok? {
        assert init[q] == es[q];
      }
    }
    if k < |es| - 1 {
      forall q | k < q < |init|
        ensures CatalogEntry(init[q]).value.0 != CatalogEntry(init[k]).value.0
      {
        assert init[q] == es[q] && init[k] == es[k];
      }
      CatalogLastEntryWins(init, k);
      assert init[k] == es[k];
    }
  }

  // ---------------------------------------------------------------------
  // Replies of the rc_dynamics and rc_slam state services

  /** The states rc_dynamics may report (the State constants). */
  const DynamicsStates: seq<string> :=
    ["IDLE", "RUNNING", "FATAL", "WAITING_FOR_INS", "WAITING_FOR_INS_AND_SLAM",
     "WAITING_FOR_SLAM", "RUNNING_WITH_SLAM"]

  /** The states rc_slam may report. */
  const SlamStates: seq<string> :=
    ["IDLE", "RUNNING", "FATAL", "WAITING_FOR_DATA", "RESTARTING", "RESETTING", "HALTED"]

  /** A reply in the current format. */
  function StateReply(state: string, accepted: bool): Json
  {
    JObj([("response", JObj([("accepted", JBool(accepted)), ("current_state", JStr(state))]))])
  }

  /** A reply in the old format: only the number of the entered state. */
  function LegacyStateReply(enteredState: int): Json
  {
    JObj([("response", JObj([("enteredState", JInt(enteredState))]))])
  }

  /** What callDynamicsService and resetSlam make of a parsed reply: the
      current state if it is one of `valid` (InvalidState otherwise, which
      no handler catches) and the call was accepted (NotAccepted otherwise).
      When current_state or accepted cannot be read, the old format's
      numeric enteredState is returned as text; when that cannot be read
      either, the JSON error is rethrown. */
  function DecodeStateReply(j: Json, valid: seq<string>, service: string): (r: Result<string>)
    ensures r.Ok? ==>
              || r.value in valid
              || (&& GetInt(Path(j, ["response", "enteredState"])).Ok?
                  && r.value == IntToString(Int32(GetInt(Path(j, ["response", "enteredState"])).value)))
    ensures r.Err? ==> r.error == JsonError || r.error == NotAccepted(service) || r.error.InvalidState?
    ensures r.Err? && r.error.InvalidState? ==> r.error.state !in valid
    ensures r == Err(NotAccepted(service)) ==> GetBool(Path(j, ["response", "accepted"])) == Ok(false)
    // the three readings, for every reply: a state outside `valid` is refused
    // before `accepted` is looked at; a valid state is returned only when the
    // call was accepted; anything unreadable falls back to the old format
    ensures var cur := GetString(Path(j, ["response", "current_state"]));
            cur.Ok? && cur.value !in valid ==> r == Err(InvalidState(cur.value))
    ensures var cur := GetString(Path(j, ["response", "current_state"]));
            var acc := GetBool(Path(j, ["response", "accepted"]));
            cur.Ok? && cur.value in valid && acc.Ok? ==>
              r == (if acc.value then Ok(cur.value) else Err(NotAccepted(service)))
    ensures var cur := GetString(Path(j, ["response", "current_state"]));
            var acc := GetBool(Path(j, ["response", "accepted"]));
            var legacy := GetInt(Path(j, ["response", "enteredState"]));
            cur.Err? || (cur.value in valid && acc.Err?) ==>
              r == (if legacy.Ok? then Ok(IntToString(Int32(legacy.value))) else Err(JsonError))
  {
    var current := GetString(Path(j, ["response", "current_state"]));
    if current.Ok? && current.value !in valid then Err(InvalidState(current.value))
    else
      var accepted := if current.Ok? then GetBool(Path(j, ["response", "accepted"])) else Err(JsonError);
      if current.Ok? && accepted.Ok? then
        (if accepted.value then Ok(current.value) else Err(NotAccepted(service)))
      else
        match GetInt(Path(j, ["response", "enteredState"]))
        case Ok(n) => Ok(IntToString(Int32(n)))
        case Err(_) => Err(JsonError)
  }

  /** A current-format reply yields its state, or the refusal, or the
      mismatch of state names. */
  lemma DecodeStateReplyCurrent(state: string, accepted: bool, valid: seq<string>, service: string)
    ensures state !in valid ==> DecodeStateReply(StateReply(state, accepted), valid, service) == Err(InvalidState(state))
    ensures state in valid && accepted ==> DecodeStateReply(StateReply(state, accepted), valid, service) == Ok(state)
    ensures state in valid && !accepted ==>
      DecodeStateReply(StateReply(state, accepted), valid, service) == Err(NotAccepted(service))
  {
    var inner := JObj([("accepted", JBool(accepted)), ("current_state", JStr(state))]);
    var j := StateReply(state, accepted);
    assert Member(j, "response") == Ok(inner);
    assert Find(inner.members, "current_state") == Some(JStr(state));
    assert Member(inner, "current_state") == Ok(JStr(state));
    assert Member(inner, "accepted") == Ok(JBool(accepted));
    assert ["response", "current_state"] == ["response"] + ["current_state"];
    assert ["response", "accepted"] == ["response"] + ["accepted"];
    PathCons(j, "response", ["current_state"]);
    PathCons(j, "response", ["accepted"]);
    PathSingle(inner, "current_state");
    PathSingle(inner, "accepted");
  }

  /** An old-format reply yields the entered state's number as text. */
  lemma DecodeStateReplyLegacy(n: int, valid: seq<string>, service: string)
    ensures DecodeStateReply(LegacyStateReply(n), valid, service) == Ok(IntToString(Int32(n)))
  {
    var inner := JObj([("enteredState", JInt(n))]);
    var j := LegacyStateReply(n);
    assert Member(j, "response") == Ok(inner);
    FindSpec(inner.members, "current_state");
    assert Member(inner, "current_state") == Ok(JNull);
    assert Member(inner, "enteredState") == Ok(JInt(n));
    assert ["response", "current_state"] == ["response"] + ["current_state"];
    assert ["response", "enteredState"] == ["response"] + ["enteredState"];
    PathCons(j, "response", ["current_state"]);
    PathCons(j, "response", ["enteredState"]);
    PathSingle(inner, "current_state");
    PathSingle(inner, "enteredState");
  }

  /** An old-format reply whose entered state is a floating-point number
      yields the number truncated towards zero, as text. */
  lemma DecodeStateReplyLegacyReal(x: real, valid: seq<string>, service: string)
    ensures DecodeStateReply(JObj([("response", JObj([("enteredState", JReal(x))]))]), valid, service)
            == Ok(IntToString(Int32(Truncate(x))))
  {
    var inner := JObj([("enteredState", JReal(x))]);
    var j := JObj([("response", inner)]);
    assert Member(j, "response") == Ok(inner);
    FindSpec(inner.members, "current_state");
    assert Member(inner, "current_state") == Ok(JNull);
    assert Member(inner, "enteredState") == Ok(JReal(x));
    assert ["response", "current_state"] == ["response"] + ["current_state"];
    assert ["response", "enteredState"] == ["response"] + ["enteredState"];
    PathCons(j, "response", ["current_state"]);
    PathCons(j, "response", ["enteredState"]);
    PathSingle(inner, "current_state");
    PathSingle(inner, "enteredState");
  }

  /** The rc_slam service return code: success is a value of at least 0. */
  datatype ReturnCode = ReturnCode(value: int, message: string)
  {
    predicate Succeeded() { value >= 0 }
  }

  function ReturnCodeReply(rc: ReturnCode): Json
  {
    JObj([("response", JObj([("return_code", JObj([("message", JStr(rc.message)), ("value", JInt(rc.value))]))]))])
  }

  /** callSlamService's reading of a parsed reply: response.return_code's
      value as an int and its message as a string, any JSON error rethrown. */
  function DecodeReturnCode(j: Json): (r: Result<ReturnCode>)
    ensures r.Ok? ==> -0x8000_0000 <= r.value.value < 0x8000_0000
    ensures r.Ok? <==>
      GetInt(Path(j, ["response", "return_code", "value"])).Ok? &&
      GetString(Path(j, ["response", "return_code", "message"])).Ok?
    ensures r.Err? ==> r.error == JsonError
  {
    match (GetInt(Path(j, ["response", "return_code", "value"])),
           GetString(Path(j, ["response", "return_code", "message"])))
    case (Ok(v), Ok(m)) => Ok(ReturnCode(Int32(v), m))
    case (_, _) => Err(JsonError)
  }

  /** A return code sent by the device is read back as it was sent. */
  lemma DecodeReturnCodeReply(rc: ReturnCode)
    requires -0x8000_0000 <= rc.value < 0x8000_0000
    ensures DecodeReturnCode(ReturnCodeReply(rc)) == Ok(rc)
  {
    var code := JObj([("message", JStr(rc.message)), ("value", JInt(rc.value))]);
    var inner := JObj([("return_code", code)]);
    var j := ReturnCodeReply(rc);
    assert Member(j, "response") == Ok(inner);
    assert Member(inner, "return_code") == Ok(code);
    assert Find(code.members, "value") == Some(JInt(rc.value));
    assert Member(code, "value") == Ok(JInt(rc.value));
    assert Member(code, "message") == Ok(JStr(rc.message));
    assert ["response", "return_code", "value"] == ["response"] + (["return_code"] + ["value"]);
    assert ["response", "return_code", "message"] == ["response"] + (["return_code"] + ["message"]);
    PathCons(j, "response", ["return_code"] + ["value"]);
    PathCons(j, "response", ["return_code"] + ["message"]);
    PathCons(inner, "return_code", ["value"]);
    PathCons(inner, "return_code", ["message"]);
    PathSingle(code, "value");
    PathSingle(code, "message");
  }

  // ---------------------------------------------------------------------
  // get_trajectory

  /** TrajectoryTime: seconds, nanoseconds and whether they are an offset
      from the start (for a start time) or the end (for an end time). */
  datatype TrajectoryTime = TrajectoryTime(sec: int, nsec: int, relative: bool)

  function TimeJson(t: TrajectoryTime): Json
  {
    JObj([("nsec", JInt(t.nsec)), ("sec", JInt(t.sec))])
  }

  function ArgMembers(start: TrajectoryTime, end: TrajectoryTime): seq<(string, Json)>
  {
    [("end_time", TimeJson(end))]
    + (if end.relative then [("end_time_relative", JBool(true))] else [])
    + [("start_time", TimeJson(start))]
    + (if start.relative then [("start_time_relative", JBool(true))] else [])
  }

  /** The body getSlamTrajectory sends: {"args": {...}} with the two times
      and a `*_relative: true` flag only for a relative time. Members are
      listed in key order, as the JSON library's std::map keeps them. */
  function TrajectoryArgs(start: TrajectoryTime, end: TrajectoryTime): Json
  {
    JObj([("args", JObj(ArgMembers(start, end)))])
  }

  function ReadTime(j: Json, key: string): Result<TrajectoryTime>
  {
    match (GetInt(Path(j, ["args", key, "sec"])), GetInt(Path(j, ["args", key, "nsec"])))
    case (Ok(s), Ok(n)) => Ok(TrajectoryTime(s, n, Path(j, ["args", key + "_relative"]) == Ok(JBool(true))))
    case (_, _) => Err(JsonError)
  }

  /** How the device reads the arguments back. */
  function ReadTrajectoryArgs(j: Json): Result<(TrajectoryTime, TrajectoryTime)>
  {
    match (ReadTime(j, "start_time"), ReadTime(j, "end_time"))
    case (Ok(s), Ok(e)) => Ok((s, e))
    case (_, _) => Err(JsonError)
  }

  /** A time written by TimeJson reads back as its seconds and nanoseconds. */
  lemma ReadTimeJson(j: Json, ms: seq<(string, Json)>, key: string, t: TrajectoryTime)
    requires j == JObj([("args", JObj(ms))])
    requires Find(ms, key) == Some(TimeJson(t))
    requires Find(ms, key + "_relative") == if t.relative then Some(JBool(true)) else None
    ensures ReadTime(j, key) == Ok(t)
  {
    var args := JObj(ms);
    var tj := TimeJson(t);
    assert Member(j, "args") == Ok(args);
    assert Member(args, key) == Ok(tj);
    assert Find(tj.members, "sec") == Some(JInt(t.sec));
    assert Member(tj, "sec") == Ok(JInt(t.sec));
    assert Member(tj, "nsec") == Ok(JInt(t.nsec));
    assert ["args", key, "sec"] == ["args"] + ([key] + ["sec"]);
    assert ["args", key, "nsec"] == ["args"] + ([key] + ["nsec"]);
    assert ["args", key + "_relative"] == ["args"] + [key + "_relative"];
    PathCons(j, "args", [key] + ["sec"]);
    PathCons(j, "args", [key] + ["nsec"]);
    PathCons(j, "args", [key + "_relative"]);
    PathCons(args, key, ["sec"]);
    PathCons(args, key, ["nsec"]);
    PathSingle(tj, "sec");
    PathSingle(tj, "nsec");
    PathSingle(args, key + "_relative");
  }

  /** The end time and its flag are found among the arguments. */
  lemma ArgMembersEnd(start: TrajectoryTime, end: TrajectoryTime)
    ensures Find(ArgMembers(start, end), "end_time") == Some(TimeJson(end))
    ensures Find(ArgMembers(start, end), "end_time" + "_relative")
         == if end.relative then Some(JBool(true)) else None
  {
    var e := [("end_time", TimeJson(end))];
    var er: seq<(string, Json)> := if end.relative then [("end_time_relative", JBool(true))] else [];
    var rest := [("start_time", TimeJson(start))]
                + (if start.relative then [("start_time_relative", JBool(true))] else []);
    assert ArgMembers(start, end) == e + (er + rest);
    assert "end_time" + "_relative" == "end_time_relative";
    FindAppend(e, er + rest, "end_time");
    FindAppend(e, er + rest, "end_time_relative");
    FindAppend(er, rest, "end_time_relative");
    FindAppend([("start_time", TimeJson(start))], rest[1..], "end_time_relative");
  }

  /** The start time and its flag are found among the arguments. */
  lemma ArgMembersStart(start: TrajectoryTime, end: TrajectoryTime)
    ensures Find(ArgMembers(start, end), "start_time") == Some(TimeJson(start))
    ensures Find(ArgMembers(start, end), "start_time" + "_relative")
         == if start.relative then Some(JBool(true)) else None
  {
    var ee := [("end_time", TimeJson(end))]
              + (if end.relative then [("end_time_relative", JBool(true))] else []);
    var st := [("start_time", TimeJson(start))];
    var sr: seq<(string, Json)> := if start.relative then [("start_time_relative", JBool(true))] else [];
    assert ArgMembers(start, end) == ee + (st + sr);
    assert "start_time" + "_relative" == "start_time_relative";
    FindSpec(ee, "start_time");
    FindSpec(ee, "start_time_relative");
    assert Find(ee, "start_time") == None;
    assert Find(ee, "start_time_relative") == None;
    FindAppend(ee, st + sr, "start_time");
    FindAppend(ee, st + sr, "start_time_relative");
    FindAppend(st, sr, "start_time");
    FindAppend(st, sr, "start_time_relative");
  }

  /** The arguments carry both times and both flags. */
  lemma TrajectoryArgsRoundTrip(start: TrajectoryTime, end: TrajectoryTime)
    ensures ReadTrajectoryArgs(TrajectoryArgs(start, end)) == Ok((start, end))
  {
    var ms := ArgMembers(start, end);
    ArgMembersStart(start, end);
    ArgMembersEnd(start, end);
    ReadTimeJson(TrajectoryArgs(start, end), ms, "start_time", start);
    ReadTimeJson(TrajectoryArgs(start, end), ms, "end_time", end);
  }

  /** `json::parse(text)["response"]["trajectory"]`. */
  function TrajectoryOf(j: Json): Result<Json>
  {
    Path(j, ["response", "trajectory"])
  }
}
