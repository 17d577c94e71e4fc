# rc_dynamics_api — a Dafny model

rc_dynamics_api is the C++ client library of the Roboception rc_visard's
dynamics streams. This project models its core and proves properties of that
model.

- **`RemoteInterface`** is the client's handle on one device. When it is
  opened, it validates the device address and reads the firmware version and
  the stream catalog over the REST API. It then does the following:
  - requests and withdraws UDP stream destinations ("ip:port"), and records
    every destination it requested, per stream;
  - calls the rc_dynamics and rc_slam services;
  - creates data receivers that register themselves as a destination, wait
    for the first message, and withdraw again when they are released;
  - on destruction, withdraws everything it still has registered, and warns
    about each stream it could not clean up.
- **`DataReceiver`** is a UDP socket bound to a local address and port. It has
  a receive timeout, a 512-byte datagram buffer, and a table from protobuf
  type names to decoders.
- **The address helpers** are `ipToUInt`, `isIPInRange`, `isValidIPAddress`
  and the POSIX `getThisHostsIP`. The second copy in rcvinsapi is included.
- **The CSV printing of the streaming tool:** a header of column names and a
  line of entries built from one message, and the comma-joining printers.

Files, one module each:

| file | models |
|---|---|
| `Common.dfy` | `Option`/`Result`/`Outcome`, the error kinds the library throws, decimal rendering, joining and splitting text |
| `ControlPlane.dfy` | JSON values with the accessors the client uses (a missing key on an object reads as null; a type mismatch is a `logic_error`); HTTP requests; `Endpoint`, a scripted stand-in for the device that logs every request and answers with prepared replies |
| `Destinations.dfy` | the per-stream destination table, the find-and-erase loops, `std::map` key order, `toString(list)` |
| `NetUtils.dfy` | 32-bit words, the `sscanf("%d.%d.%d.%d")` scan, `ipToUInt`, `isIPInRange`, `inet_ntop`/`inet_pton`, `getThisHostsIP` |
| `VinsNetUtils.dfy` | the rcvinsapi copy of `IPToUInt`/`isIPInRange`, proved to agree with the other copy |
| `DataReceiver.dfy` | `Kernel`, a scripted socket layer; the `DataReceiver` class |
| `ServiceReplies.dfy` | version parsing, the stream catalog, the decoding of state replies and return codes, the `get_trajectory` arguments |
| `RemoteInterface.dfy` | the `RemoteInterface` class, `TrackedReceiver` (`TrackedDataReceiver`), and `Registry` (the static instance map) |
| `CsvPrinting.dfy` | `Header`, `Line`, the field-tree message, the printers |

Several things outside the process become explicit state:
- **The REST API.** The device is an `Endpoint` object. Each method states which
  requests it appends to `rest.log`, and what it returns as a function of the
  scripted replies (`Upcoming(replies, k)`).
- **The socket layer.** It is a `Kernel` object: errno per call, the port
  chosen for a bind to 0, the open descriptors, the receive timeouts and the
  incoming datagrams.
- **`getifaddrs`.** Its list is a parameter.

## Model

| member | source | states |
|---|---|---|
| ControlPlane.Member | rc_dynamics_api/remote_interface.cc:167 | `j[key]` on an object is the value of the first member with that key, or null when no member has it; on null it is null; on any other value it is a type error |
| ControlPlane.Truncate | rc_dynamics_api/remote_interface.cc:352 | `get<int>` of a floating-point number drops the fraction towards zero: the result is within one of the number, on the number's side of zero |
| ControlPlane.FindSpec | rc_dynamics_api/remote_interface.cc:406 | a member is found iff some member of the object carries the key; the value found is that of the first member carrying it |
| ControlPlane.FindAppend | rc_dynamics_api/remote_interface.cc:540-545 | the first member list that holds a key decides the lookup |
| ControlPlane.Strings | rc_dynamics_api/remote_interface.cc:406-409 | reading a list of strings succeeds iff every element is a string; the result has the same length and the same strings in order; any other element is a type error |
| ControlPlane.StringsOfStrArray | rc_dynamics_api/remote_interface.cc:450-454 | an array built from strings reads back as exactly those strings |
| ControlPlane.Elements | rc_dynamics_api/remote_interface.cc:182 | a range-for over an array visits its items; over null it visits nothing |
| ControlPlane.CheckStatus | rc_dynamics_api/remote_interface.cc:85-91 | a response passes iff its status is 200; otherwise the error carries the status |
| ControlPlane.Parsed | rc_dynamics_api/remote_interface.cc:167 | parsing succeeds iff the reply text is JSON |
| ControlPlane.Endpoint.Send | rc_dynamics_api/remote_interface.cc:164-165 | each cpr call is logged and answered with the next scripted reply; an exhausted script is a failed connection (status 0) |
| ControlPlane.DropStep | rc_dynamics_api/remote_interface.cc:176-178 | answering one more request moves one step along the script |
| Destinations.FirstIndex | rc_dynamics_api/remote_interface.cc:437 | `std::find`: the index of the first occurrence, or the length when there is none |
| Destinations.RemoveFirstCount | rc_dynamics_api/remote_interface.cc:436-439 | erasing a present destination removes exactly one copy of it and shortens the list by one; an absent one leaves the list unchanged |
| Destinations.RemoveFirstKeepsOthers | rc_dynamics_api/remote_interface.cc:436-439 | erasing d leaves the number of copies of every other destination unchanged |
| Destinations.RemoveEachCount | rc_dynamics_api/remote_interface.cc:473-482 | erasing destinations that are all tracked removes exactly those (as a multiset) |
| Destinations.RemoveEachSelf | rc_dynamics_api/remote_interface.cc:601-611 | erasing a list's own entries from a copy of it leaves it empty |
| Destinations.AppendThenRemove | rc_dynamics_api/remote_interface.cc:413-440 | adding a destination and then deleting it restores the tracked contents |
| Destinations.StrLessTransitive | rc_dynamics_api/remote_interface.cc:604 | `std::string`'s `<` is transitive |
| Destinations.StrLessTotal | rc_dynamics_api/remote_interface.cc:604 | any two distinct strings are ordered |
| Destinations.StrLessIrreflexive | rc_dynamics_api/remote_interface.cc:604 | no string is below itself |
| Destinations.LeastExists | rc_dynamics_api/remote_interface.cc:604 | a non-empty key set has a least key |
| Destinations.LeastUnique | rc_dynamics_api/remote_interface.cc:604 | a key set has only one least key |
| Destinations.SortedKeysFirst | rc_dynamics_api/remote_interface.cc:604 | the sorted keys start with the least key, followed by the sorted rest |
| Destinations.SortedKeysSpec | rc_dynamics_api/remote_interface.cc:604 | the sorted keys are strictly ascending and hold each key of the set exactly once |
| Destinations.AscendingFresh | rc_dynamics_api/remote_interface.cc:604 | in an ascending key sequence no key occurs before its own position |
| Destinations.AscendingKeys | rc_dynamics_api/remote_interface.cc:604 | a `std::map` visits each of its keys exactly once, in strictly ascending order, which is the one order `SortedKeys` fixes |
| Destinations.JoinLayout | rc_dynamics_api/remote_interface.cc:69-83 | the joined text is the entries in order, entry k at `Offset(k)`, with exactly the separator between each pair of neighbours, and of length the entries' total plus one separator per neighbour pair |
| Destinations.FormatListLayout | rc_dynamics_api/remote_interface.cc:69-83 | `toString(list)` is "[]" for an empty list; otherwise it opens with '[' and closes with ']', and between them holds entry k at `1 + Offset(k)` with ", " between each two neighbours |
| Destinations.AliasedRemoveEachUndefined | rc_dynamics_api/remote_interface.cc:473-482 | as written, the erase loop over a list aliased to its own source erases the node it stands on at its first step (see Findings) |
| NetUtils.OctetsCompose | rc_dynamics_api/net_utils.cc:56-71 | for octets, `(a<<24)\|(b<<16)\|(c<<8)\|d` on 32 bits is the positional value a·2²⁴+b·2¹⁶+c·2⁸+d |
| NetUtils.ScanDotted | rc_dynamics_api/net_utils.cc:56-71 | `sscanf("%d.%d.%d.%d")` reads four rendered numbers back out of their dotted join |
| NetUtils.ScanLayout | rc_dynamics_api/net_utils.cc:60 | on `A.B.C.D` with digit-only fields, the four `%d` conversions read the four values and consume the whole text |
| NetUtils.ScanDigits | rc_dynamics_api/net_utils.cc:60 | one `%d` on a run of digits followed by a dot or the end reads its decimal value and stops at the dot |
| NetUtils.IpToUIntNtop | rc_dynamics_api/net_utils.cc:56-71 | `ipToUInt` inverts `inet_ntop`: reading back a rendered address gives the address |
| NetUtils.Positional | rc_dynamics_api/net_utils.cc:56-71 | a word is the positional value of its four octets |
| NetUtils.InRangeSelf | rc_dynamics_api/net_utils.cc:73-88 | every network address lies in its own range, whatever the mask |
| NetUtils.IsIPInRangeSelf | rc_dynamics_api/net_utils.cc:73-88 | the same for the string form: `isIPInRange(x, x, m)` always holds |
| NetUtils.InRangeZeroMask | rc_dynamics_api/net_utils.cc:73-88 | the mask 0 admits every address |
| NetUtils.InRangeFullMask | rc_dynamics_api/net_utils.cc:73-88 | the all-ones mask admits exactly the network address itself (both directions) |
| NetUtils.NtopIsValid | rc_dynamics_api/net_utils.cc:279-284 | every address `inet_ntop` renders passes `isValidIPAddress` |
| NetUtils.FirstQualifying | rc_dynamics_api/net_utils.cc:245-268 | the first interface in list order that is IPv4, passes the name filter and lies in the peer's range; None iff there is none |
| NetUtils.GetThisHostsIP | rc_dynamics_api/net_utils.cc:236-277 | found iff some interface qualifies; the output is then the rendered address of the first such interface; otherwise the output parameter is left untouched |
| NetUtils.FirstQualifyingIs | rc_dynamics_api/net_utils.cc:245-268 | the loop's break point is the first qualifying interface |
| NetUtils.FoundAddressInRange | rc_dynamics_api/net_utils.cc:258-265 | the address found lies in the peer's subnet interval under its own interface's netmask, compared as words |
| VinsNetUtils.IPToUInt | rcvinsapi/net_utils.cc:18-30 | an address that `sscanf` cannot read as four integers is 0 |
| VinsNetUtils.ShiftLeftIsScaling | rcvinsapi/net_utils.cc:25-27 | `x << k` on 32 bits is multiplication by 2^k modulo 2^32 |
| VinsNetUtils.ShiftComposeAgrees | rcvinsapi/net_utils.cc:25-28 | the rcvinsapi composition equals the rc_dynamics_api one for all four ints |
| VinsNetUtils.IPToUIntAgrees | rcvinsapi/net_utils.cc:18-30 | both copies of the address parser give the same word for every string |
| VinsNetUtils.IPToUIntOctets | rcvinsapi/net_utils.cc:18-30 | for octets, `IPToUInt(a.b.c.d)` is a·2²⁴+b·2¹⁶+c·2⁸+d |
| VinsNetUtils.IsIPInRangeAgrees | rcvinsapi/net_utils.cc:32-44 | both copies of `isIPInRange` decide every query alike |
| DataReceiver.DispatchTable | rc_dynamics_api/data_receiver.h:276-281 | the receiver decodes exactly Frame, Imu and Dynamics, each under its own descriptor name |
| DataReceiver.TimevalOf | rc_dynamics_api/data_receiver.h:127-129 | the timeval is whole seconds plus fewer than 10⁶ microseconds, and equals ms milliseconds in total |
| DataReceiver.TimevalUnique | rc_dynamics_api/data_receiver.h:127-129 | that split is the only one, so the timeout set is exactly ms |
| DataReceiver.NextDelivery | rc_dynamics_api/data_receiver.h:170-186 | a delivered datagram is at most 512 bytes; a fault is never EINTR, EAGAIN or EWOULDBLOCK |
| DataReceiver.Consumed | rc_dynamics_api/data_receiver.h:170 | one receive consumes no more datagrams than have arrived |
| DataReceiver.DeliversFirstDatagram | rc_dynamics_api/data_receiver.h:170-191 | after any number of interrupted calls, the first datagram is delivered whole, or cut to the 512-byte buffer, and only it is consumed |
| DataReceiver.TimeoutIsNull | rc_dynamics_api/data_receiver.h:174-180 | a timeout, after any number of interruptions, yields a null message and never an exception |
| DataReceiver.Kernel.GetSockName | rc_dynamics_api/data_receiver.h:262 | getsockname reports the port a descriptor is bound to, or fails with errno |
| DataReceiver.BoundPort | rc_dynamics_api/data_receiver.h:246 | `static_cast<u_short>(port)` keeps the port iff it is below 65536, and moves any larger one below it |
| DataReceiver.BoundPortMismatch | rc_dynamics_api/data_receiver.h:246 | as written, 70000 is bound as 4464 and 65536 as 0 (see Findings) |
| DataReceiver.CheckedPort | rc_dynamics_api/data_receiver.h:246 | the intended check: a port below 65536 is taken as it is, any other is an invalid_argument |
| DataReceiver.CheckedPortBindsAsked | rc_dynamics_api/data_receiver.h:246 | under the check the bound port is the port asked for, and the check refuses exactly the ports the cast would move |
| DataReceiver.DataReceiver.SetupOutcome | rc_dynamics_api/data_receiver.h:223-268 | the constructor fails iff the address is invalid, socket or bind fails, or getsockname fails for port 0 |
| DataReceiver.DataReceiver.Create | rc_dynamics_api/data_receiver.h:223-282 | each error path with its exception and errno: an invalid address (no socket is made), socket, bind (the socket stays open), getsockname on port 0 (the socket is closed); every error is `SetupOutcome`'s; success iff none fails; a bound receiver reports the given port, or for port 0 the port the kernel chose; the socket is bound to `BoundPort(port)`, or to the kernel's choice when that is 0 (`PortsAfterSetup`); the open descriptors are `FdsAfterSetup`: on success the new descriptor is `nextFd`, the only one opened, and `nextFd` advances iff a socket was made; arrivals, timeouts and the scripted faults are untouched |
| DataReceiver.DataReceiver.SetTimeout | rc_dynamics_api/data_receiver.h:118-136 | SO_RCVTIMEO becomes `TimevalOf(ms)` on this socket and nothing else changes (open and bound sockets, `nextFd`, arrivals, scripted faults); a failing setsockopt is a SocketException with its errno |
| DataReceiver.DataReceiver.ReceiveAs | rc_dynamics_api/data_receiver.h:151-192 | the result is the classified next delivery (message, null on timeout, or SocketException); exactly the consumed arrivals leave the script; the buffer holds the message bytes; sockets, bound ports, `nextFd`, timeouts and scripted faults are untouched |
| DataReceiver.DataReceiver.Receive | rc_dynamics_api/data_receiver.h:208-220 | an unknown type name is an invalid_argument listing the supported types, and the socket is not read; a known one dispatches to its decoder; sockets, bound ports, `nextFd`, timeouts and scripted faults are untouched |
| DataReceiver.DataReceiver.Close | rc_dynamics_api/data_receiver.h:89-96 | the destructor closes exactly this socket; bound ports, `nextFd`, arrivals, timeouts and scripted faults are untouched |
| ServiceReplies.Int32 | rc_dynamics_api/remote_interface.cc:344 | `(int32_t)timeout_ms` is the value congruent modulo 2³² in the int32 range; a value already in range is unchanged |
| ServiceReplies.LeftmostMatch | rc_dynamics_api/remote_interface.cc:168-172 | `regex_search` finds the leftmost position where `v(\d+).(\d+).(\d+)` matches, or none |
| ServiceReplies.SingleDigitVersion | rc_dynamics_api/remote_interface.cc:166-172 | "vA.B.…" with one-digit major and minor versions parses to A.B (in tenths), and such images use the bulk delete |
| ServiceReplies.TwoDigitMinorVersion | rc_dynamics_api/remote_interface.cc:166-172 | with a two-digit minor version, only its first digit survives the three-character cut |
| ServiceReplies.TwoDigitMajorVersion | rc_dynamics_api/remote_interface.cc:166-172 | with a two-digit major version, the cut "AA." reads as AA.0 |
| ServiceReplies.Catalog | rc_dynamics_api/remote_interface.cc:180-185 | the catalog succeeds iff every entry has a string name and protobuf type; the stream list is the names in order; the type map has exactly those names as keys |
| ServiceReplies.CatalogLastEntryWins | rc_dynamics_api/remote_interface.cc:183 | for a repeated name, the last entry's protobuf type is kept |
| ServiceReplies.DecodeStateReply | rc_dynamics_api/remote_interface.cc:220-262 | for every reply: a readable `current_state` outside the valid list is an invalid state; a valid one with a readable `accepted` is that state if accepted, not-accepted otherwise; anything else falls back to the legacy `enteredState`, read as int32 text, or is a type error |
| ServiceReplies.DecodeStateReplyCurrent | rc_dynamics_api/remote_interface.cc:226-235 | a current reply yields its state when valid and accepted, not-accepted when valid and refused, and an invalid state otherwise |
| ServiceReplies.DecodeStateReplyLegacy | rc_dynamics_api/remote_interface.cc:241-244 | a legacy reply yields the decimal text of its entered-state code |
| ServiceReplies.DecodeStateReplyLegacyReal | rc_dynamics_api/remote_interface.cc:241-244 | a legacy reply whose entered state is a floating-point number yields the number truncated towards zero, as `get<int>` converts it |
| ServiceReplies.DecodeReturnCode | rc_dynamics_api/remote_interface.cc:350-364 | the code is read iff value is an int and message a string; the value fits in 32 bits |
| ServiceReplies.DecodeReturnCodeReply | rc_dynamics_api/remote_interface.cc:350-354 | a return-code reply decodes to the code it carries |
| ServiceReplies.TrajectoryArgsRoundTrip | rc_dynamics_api/remote_interface.cc:535-545 | the `get_trajectory` arguments carry both times and both relative flags: reading them back gives the two times |
| ServiceReplies.ReadTimeJson | rc_dynamics_api/remote_interface.cc:536-545 | one time written into the arguments reads back as its seconds, nanoseconds and flag |
| RemoteInterface.DestinationSplits | rc_dynamics_api/remote_interface.cc:123 | a destination "ip:port" splits back into the address and the port |
| RemoteInterface.RenderedDestinationSplits | rc_dynamics_api/remote_interface.cc:578 | the destination of a receiver on a rendered interface address splits back into its parts |
| RemoteInterface.NoColonInRendered | rc_dynamics_api/net_utils.cc:253 | a rendered address contains no ':' |
| RemoteInterface.ColonFreeJoin | rc_dynamics_api/net_utils.cc:253 | joining colon-free parts with dots gives colon-free text |
| RemoteInterface.FirstRefusalFrom | rc_dynamics_api/remote_interface.cc:463-471 | scanning on from request i, the position found has only 200s before it and is a refusal unless it is n |
| RemoteInterface.FirstRefusalSpec | rc_dynamics_api/remote_interface.cc:463-471 | every legacy delete before the first refusal is answered 200, and the refusal itself is not |
| RemoteInterface.FirstRefusalIs | rc_dynamics_api/remote_interface.cc:463-471 | the first refusal is the one position with only 200s before it and a refusal (or the end) there |
| RemoteInterface.LegacyOutcomeSpec | rc_dynamics_api/remote_interface.cc:463-471 | the legacy delete loop passes iff all n requests are answered 200; otherwise it fails with the status of the first refusal |
| RemoteInterface.LegacySent | rc_dynamics_api/remote_interface.cc:463-471 | no more requests are sent than there are destinations |
| RemoteInterface.SystemVersion | rc_dynamics_api/remote_interface.cc:162-172 | the version is read iff the reply is 200 with JSON whose `firmware.active_image.image_version` is a string; it is then that string parsed; a non-200 reply is an HTTP error |
| RemoteInterface.StreamCatalog | rc_dynamics_api/remote_interface.cc:174-186 | the catalog is read iff the reply is 200, JSON, and a readable catalog |
| RemoteInterface.DestinationsOf | rc_dynamics_api/remote_interface.cc:400-410 | a non-200 reply is an HTTP error; a non-JSON reply a type error |
| RemoteInterface.DestinationsOfList | rc_dynamics_api/remote_interface.cc:404-410 | a device's list of destinations is read back unchanged |
| RemoteInterface.StateServiceResult | rc_dynamics_api/remote_interface.cc:217-262 | a non-200 reply is an HTTP error; otherwise the reply is decoded as a state reply |
| RemoteInterface.ReturnCodeResult | rc_dynamics_api/remote_interface.cc:343-366 | a non-200 reply is an HTTP error; otherwise the reply is decoded as a return code |
| RemoteInterface.TrajectoryResult | rc_dynamics_api/remote_interface.cc:548-553 | a non-200 reply is an HTTP error; otherwise the result is `response.trajectory` |
| RemoteInterface.BulkDeleteBodyLists | rc_dynamics_api/remote_interface.cc:449-455 | the bulk delete body lists every destination, in order |
| RemoteInterface.ExtendsTrans | rc_dynamics_api/remote_interface.cc:601-611 | successive clean-up steps only append requests to the URLs of pending streams |
| RemoteInterface.StaleReportsNone | rc_dynamics_api/remote_interface.cc:198-212 | the destructor warns about nothing iff no stream has destinations left |
| RemoteInterface.StaleReportsEmpty | rc_dynamics_api/remote_interface.cc:197-212 | no warning means every visited stream has an empty list |
| RemoteInterface.StaleReportsOfTable | rc_dynamics_api/remote_interface.cc:197-212 | over all keys of the map, the warnings are empty iff every list is, and each warning names a key and gives its list |
| RemoteInterface.StaleStream | rc_dynamics_api/remote_interface.cc:198-212 | each warning names a stream of the table that still has destinations, and lists them |
| RemoteInterface.StaleReportsHas | rc_dynamics_api/remote_interface.cc:198-212 | the visited stream at position j, when it still has destinations, is warned about with its list |
| RemoteInterface.StaleReportsComplete | rc_dynamics_api/remote_interface.cc:198-212 | every visited stream that still has destinations is warned about, with its list |
| RemoteInterface.StaleReportsOrdered | rc_dynamics_api/remote_interface.cc:198-212 | over keys in ascending order the warnings come in strictly ascending stream order, so no stream is warned about twice |
| RemoteInterface.FailedActivationRestores | rc_dynamics_api/remote_interface.cc:107-118 | when the device accepts both the PUT and the withdrawing DELETE, a failed activation leaves the stream with the destinations it had and every other stream untouched |
| RemoteInterface.ReadCatalog | rc_dynamics_api/remote_interface.cc:180-185 | the catalog loop computes exactly the catalog specification |
| RemoteInterface.FirstMessage | rc_dynamics_api/remote_interface.cc:584-597 | the receiver is accepted iff the 5 s timeout can be set, the type is known and a datagram arrives; it times out (`UnexpectedReceiveTimeout(5000)`) iff the timeout is set, the type is known and nothing arrives; a setsockopt failure is a SocketException |
| RemoteInterface.AwaitFirstMessage | rc_dynamics_api/remote_interface.cc:584-597 | the outcome is `FirstMessage` of the socket state; on success the socket's timeout becomes 100 ms; the arrivals left are `ArrivalsAfterFirstMessage` and the timeouts `TimeoutsAfterFirstMessage`; no descriptor is opened or closed, and bound ports, `nextFd` and the scripted faults are untouched |
| RemoteInterface.ArrivalsAfterFirstMessage | rc_dynamics_api/remote_interface.cc:584-597 | the wait consumes arrivals only when the 5 s timeout is set and the type is known, and then at least one if any is pending |
| RemoteInterface.TimeoutsAfterFirstMessage | rc_dynamics_api/remote_interface.cc:584-597 | the wait gives the socket a timeout iff setsockopt works, touches no other socket's, and leaves 100 ms after a first message |
| RemoteInterface.OpenRequests | rc_dynamics_api/remote_interface.cc:150-187 | the constructor sends at most two requests, all GETs with the int32 timeout |
| RemoteInterface.OpenResult | rc_dynamics_api/remote_interface.cc:150-187 | the constructor succeeds iff the address is valid and both replies decode, and then holds the decoded version and catalog |
| RemoteInterface.RemoteInterface.Init | rc_dynamics_api/remote_interface.cc:150-154 | a fresh handle with no requested streams |
| RemoteInterface.RemoteInterface.Open | rc_dynamics_api/remote_interface.cc:150-187 | an invalid address fails before any request; otherwise GET /system, then GET /datastreams, each failure with its error; success iff all three steps succeed; the handle then holds the parsed version, the catalog, the int32 timeout and an empty table; the requests sent are `OpenRequests` and exactly that many replies are used; the outcome is `OpenResult`'s |
| RemoteInterface.RemoteInterface.CheckStreamTypeAvailable | rc_dynamics_api/remote_interface.cc:613-622 | passes iff the stream is in the catalog; otherwise an invalid_argument naming the stream and the device |
| RemoteInterface.RemoteInterface.GetPbMsgTypeOfStream | rc_dynamics_api/remote_interface.cc:387-391 | the protobuf type of an available stream; an unavailable one is an invalid_argument |
| RemoteInterface.RemoteInterface.DeleteRequests | rc_dynamics_api/remote_interface.cc:463-470 | one DELETE per destination, in the given order |
| RemoteInterface.RemoteInterface.GetDestinationsOfStream | rc_dynamics_api/remote_interface.cc:393-411 | an unavailable stream sends nothing; otherwise one GET is sent and the result is the device's destination list |
| RemoteInterface.RemoteInterface.AddDestinationToStream | rc_dynamics_api/remote_interface.cc:413-424 | an unavailable stream changes nothing; otherwise one PUT; on 200 the destination is appended to the stream's tracked list; on failure the table is unchanged |
| RemoteInterface.RemoteInterface.DeleteDestinationFromStream | rc_dynamics_api/remote_interface.cc:426-440 | an unavailable stream changes nothing; otherwise one DELETE; on 200 the first copy of the destination leaves the tracked list; on failure the table is unchanged |
| RemoteInterface.RemoteInterface.DeleteDestinationsFromStream | rc_dynamics_api/remote_interface.cc:442-483 | images from 1.7 on send one DELETE with the list as body; older ones send one DELETE per destination up to the first refusal; on success each destination is erased once, in order; on failure the table is unchanged; every request goes to the stream's URL |
| RemoteInterface.RemoteInterface.DeleteRequestsAt | rc_dynamics_api/remote_interface.cc:463-470 | request k is the DELETE of destination k on the stream's URL |
| RemoteInterface.RemoteInterface.DeleteEach | rc_dynamics_api/remote_interface.cc:463-471 | the legacy loop sends one DELETE per destination in order, up to and including the first refusal, and fails with that refusal's status |
| RemoteInterface.RemoteInterface.EraseEach | rc_dynamics_api/remote_interface.cc:473-482 | the erase loop removes the first copy of each destination, in the order given |
| RemoteInterface.RemoteInterface.DeletePlanSends | rc_dynamics_api/remote_interface.cc:442-483 | a deletion sends only DELETEs to the stream's URL, one reply each; when it succeeds it has named every destination: in one bulk request from firmware 1.7 on, else one request per destination in order |
| RemoteInterface.RemoteInterface.StreamStep | rc_dynamics_api/remote_interface.cc:605-609 | an empty tracked list sends nothing and passes |
| RemoteInterface.RemoteInterface.CleanUpPlan | rc_dynamics_api/remote_interface.cc:601-611 | the streams dealt with are at most the streams visited, and all of them when the clean-up succeeds |
| RemoteInterface.RemoteInterface.CleanUpPlanSnoc | rc_dynamics_api/remote_interface.cc:601-611 | visiting one more stream adds exactly that stream's step after a success, and nothing after a failure |
| RemoteInterface.RemoteInterface.CleanUpPlanStops | rc_dynamics_api/remote_interface.cc:601-611 | once a stream's deletion fails, the later streams send nothing (the exception leaves the loop) |
| RemoteInterface.RemoteInterface.CleanUpPlanFailsAt | rc_dynamics_api/remote_interface.cc:601-611 | a clean-up that fails, fails at the first stream after those it dealt with, and that stream had destinations (empty lists are skipped, and so cannot fail) |
| RemoteInterface.RemoteInterface.CleanUpAdvance | rc_dynamics_api/remote_interface.cc:604-610 | one loop iteration takes the requests and replies of the plan for the streams before it to those of the plan including it |
| RemoteInterface.RemoteInterface.CleanUpAdvanceOutcome | rc_dynamics_api/remote_interface.cc:604-610 | the outcome of one more stream is that of the plan including it, and a failure there leaves the earlier streams as the ones dealt with |
| RemoteInterface.RemoteInterface.StreamStepDeletes | rc_dynamics_api/remote_interface.cc:605-609 | a stream step that succeeds has sent, for each destination, the DELETE naming it |
| RemoteInterface.RemoteInterface.CleanUpPlanSent | rc_dynamics_api/remote_interface.cc:601-611 | for each stream dealt with, the DELETE naming each of its destinations is among the requests sent |
| RemoteInterface.RemoteInterface.StreamStepUrls | rc_dynamics_api/remote_interface.cc:605-609 | one stream's step sends only to the URL of a stream with destinations |
| RemoteInterface.RemoteInterface.CleanUpPlanUrls | rc_dynamics_api/remote_interface.cc:601-611 | the clean-up sends requests only to the URLs of streams that had destinations |
| RemoteInterface.RemoteInterface.CleanUpPlanDeletes | rc_dynamics_api/remote_interface.cc:601-611 | every stream dealt with that had destinations had its whole list sent in DELETEs: one bulk request naming the list, or one request per destination |
| RemoteInterface.RemoteInterface.CleanUpStream | rc_dynamics_api/remote_interface.cc:605-609 | a stream's whole tracked list is withdrawn: the requests sent, replies used and outcome are `DeletePlan`'s for that list; on success the list is empty, on failure unchanged |
| RemoteInterface.RemoteInterface.CleanUpRequestedStreams | rc_dynamics_api/remote_interface.cc:601-611 | the streams are visited in key order: the requests sent, replies used and outcome are `CleanUpPlan`'s for the sorted keys; the streams dealt with before the first failure are emptied and every other list is unchanged; the keys stay; on success all lists are empty |
| RemoteInterface.RemoteInterface.CleanUpKey | rc_dynamics_api/remote_interface.cc:604-610 | one iteration of the clean-up: it sends and answers exactly `StreamStep` (nothing for an empty list, the deletion of the whole list otherwise); on success the stream counts as cleaned, on failure the table is as before |
| RemoteInterface.RemoteInterface.Destroy | rc_dynamics_api/remote_interface.cc:189-213 | the clean-up sends exactly `CleanUpPlan` of the sorted keys and its error is only reported; a clean-up that succeeds leaves nothing to warn about; every stream that still has destinations is warned about once, with its list, in ascending key order, and nothing else is; the table warned about has the old keys, the streams the plan dealt with emptied and the others unchanged (`CleanedFor`); a failed clean-up always warns, at least about the stream it failed at, with that stream's old list |
| RemoteInterface.RemoteInterface.StaleWarnings | rc_dynamics_api/remote_interface.cc:197-212 | warnings exactly for the streams that still have destinations: each warning gives such a stream with its list, every such stream is warned about, and the streams come in strictly ascending order |
| RemoteInterface.RemoteInterface.CallDynamicsService | rc_dynamics_api/remote_interface.cc:215-263 | one PUT to the rc_dynamics service; the result is the decoded state reply |
| RemoteInterface.RemoteInterface.Start | rc_dynamics_api/remote_interface.cc:273-276 | calls the `start` service: one PUT logged, one reply used |
| RemoteInterface.RemoteInterface.StartSlam | rc_dynamics_api/remote_interface.cc:277-280 | calls the `start_slam` service: one PUT logged, one reply used |
| RemoteInterface.RemoteInterface.Restart | rc_dynamics_api/remote_interface.cc:265-268 | calls the `restart` service: one PUT logged, one reply used |
| RemoteInterface.RemoteInterface.RestartSlam | rc_dynamics_api/remote_interface.cc:269-272 | calls the `restart_slam` service: one PUT logged, one reply used |
| RemoteInterface.RemoteInterface.Stop | rc_dynamics_api/remote_interface.cc:281-284 | calls the `stop` service: one PUT logged, one reply used |
| RemoteInterface.RemoteInterface.StopSlam | rc_dynamics_api/remote_interface.cc:285-288 | calls the `stop_slam` service: one PUT logged, one reply used |
| RemoteInterface.RemoteInterface.ResetSlam | rc_dynamics_api/remote_interface.cc:290-339 | one PUT to rc_slam `reset`; the state is checked against the seven rc_slam states |
| RemoteInterface.RemoteInterface.CallSlamService | rc_dynamics_api/remote_interface.cc:341-367 | one PUT with the int32 timeout; the result is the decoded return code |
| RemoteInterface.RemoteInterface.SaveSlamMap | rc_dynamics_api/remote_interface.cc:369-372 | calls `save_map`: one PUT with the int32 timeout logged, one reply used |
| RemoteInterface.RemoteInterface.LoadSlamMap | rc_dynamics_api/remote_interface.cc:373-376 | calls `load_map`: one PUT with the int32 timeout logged, one reply used |
| RemoteInterface.RemoteInterface.RemoveSlamMap | rc_dynamics_api/remote_interface.cc:377-380 | calls `remove_map`: one PUT with the int32 timeout logged, one reply used |
| RemoteInterface.RemoteInterface.GetSlamTrajectory | rc_dynamics_api/remote_interface.cc:532-555 | one PUT with the time arguments as body; the result is the reply's trajectory |
| RemoteInterface.RemoteInterface.CreateReceiverForStream | rc_dynamics_api/remote_interface.cc:557-599 | an unavailable stream or no qualifying host address changes nothing and raises invalid_argument; otherwise success iff the receiver can be set up, the PUT is answered 200 and a first message arrives in 5 s; each failure is the first failing step's error (a missed message is `UnexpectedReceiveTimeout(5000)`), and leaves the table as `AfterFailedActivation` says; on success the receiver is on the first qualifying address, reports the requested port, has 100 ms timeout and is registered as "ip:port"; once the host address is known, the replies used, the log of a failure (ADD then DELETE of `Destination(ip, port)`), the arrivals, timeouts, `nextFd`, bound ports and open descriptors afterwards are given exactly (a set-up failure leaves them as `FdsAfterSetup`, including the socket a failed bind leaves open; success adds the new socket; a later failure closes it again, and no other descriptor changes) |
| RemoteInterface.RemoteInterface.Activate | rc_dynamics_api/remote_interface.cc:579-598 | a refused PUT is reported as such; otherwise the outcome is `FirstMessage`; success appends the destination and sets 100 ms; any failure sends PUT then DELETE, closes the socket and leaves the table as `AfterFailedActivation` of the two replies; one reply is used on success and two on failure; the arrivals and timeouts are those of `AwaitFirstMessage` after a 200, unchanged otherwise; bound ports, `nextFd` and scripted faults are untouched |
| RemoteInterface.RemoteInterface.ReceiverOn | rc_dynamics_api/remote_interface.cc:575-598 | once the host address is known: success iff the receiver can be set up, the PUT is answered 200 and a first message arrives; a set-up failure is `SetupOutcome`'s error and sends nothing; a later failure is the PUT's or `FirstMessage`'s error and leaves the table as `AfterFailedActivation`; on success a fresh receiver on descriptor `nextFd` at the address, the destination appended and the ADD logged; a later failure logs ADD then DELETE of `Destination(ip, port)`; the replies used, the arrivals, timeouts, `nextFd`, bound ports (`PortsAfterSetup`) and open descriptors afterwards are given exactly (a set-up failure leaves them as `FdsAfterSetup`, including the socket a failed bind leaves open; success adds the new socket; a later failure closes it again, and no other descriptor changes) |
| RemoteInterface.TrackedReceiver.Init | rc_dynamics_api/remote_interface.cc:121-125 | the receiver with its destination, stream and creator |
| RemoteInterface.TrackedReceiver.Release | rc_dynamics_api/remote_interface.cc:107-118 | the destructor sends one DELETE for its destination (none, with invalid_argument, for an unavailable stream) and, on 200, forgets it; it then closes the socket, whatever the reply; arrivals, bound ports, `nextFd` and scripted faults are untouched |
| RemoteInterface.Registry.Create | rc_dynamics_api/remote_interface.cc:134-148 | an address already open returns the existing handle and sends nothing; otherwise a new handle, which is registered only if opening succeeded; its requests, replies used, outcome and contents are `Open`'s (`OpenRequests`, `OpenResult`) |
| CsvPrinting.PrefixAt | tools/csv_printing.h:80-85 | a prefixed list has as many names as given, name k being p followed by the k-th given name |
| CsvPrinting.PrefixStarts | tools/csv_printing.h:67-72 | every prefixed name starts with the prefix |
| CsvPrinting.PrefixAppend | tools/csv_printing.h:80-85 | prefixing a concatenation is concatenating the prefixed parts |
| CsvPrinting.PrefixPrefix | tools/csv_printing.h:80-85 | prefixing twice is prefixing once with both prefixes |
| CsvPrinting.IndexedNames | tools/csv_printing.h:109-112 | a repeated scalar of size n has exactly n names, name k being `name_k` |
| CsvPrinting.ColumnsMatchEntries | tools/csv_printing.h:87-129 | without repeated message fields, the header is defined and has exactly one column per entry of the line |
| CsvPrinting.RepeatedScalarContribution | tools/csv_printing.h:107-112 | a repeated scalar of size n gives name_0 … name_{n-1} and its n values in order |
| CsvPrinting.ScalarItemEntries | tools/csv_printing.h:166-219 | the line holds a repeated scalar's n values in order |
| CsvPrinting.UnsetFieldsContributeNothing | tools/csv_printing.h:115 | dropping the unset optional fields changes neither the header nor the line |
| CsvPrinting.UndefinedStays | tools/csv_printing.h:104 | once one field's columns are undefined, the message's are too |
| CsvPrinting.Header.constructor | tools/csv_printing.h:62-65 | an empty header with an empty prefix |
| CsvPrinting.Header.AppendField | tools/csv_printing.h:74-78 | `Header << field` appends exactly `prefix + field` |
| CsvPrinting.Header.AppendHeader | tools/csv_printing.h:80-85 | `Header << other` appends the other's fields in order, each with this header's prefix |
| CsvPrinting.Header.Prefixed | tools/csv_printing.h:67-72 | `prefixed(p, m)` holds m's columns prefixed by p; all of them start with p |
| CsvPrinting.Header.AppendMessage | tools/csv_printing.h:87-129 | `Header << m` appends m's columns with the header's prefix; it is defined iff m has no repeated message field with items, at any depth |
| CsvPrinting.Header.AppendFieldOf | tools/csv_printing.h:95-124 | the columns of one field: indexed names for a repeated scalar, none for an empty repeated message, the name or the prefixed sub-header for a set singular field, nothing for an unset optional one; undefined exactly for a repeated message with items |
| CsvPrinting.Line.AppendEntry | tools/csv_printing.h:139-143 | `Line << t` appends exactly one entry |
| CsvPrinting.Line.AppendMessage | tools/csv_printing.h:145-261 | `Line << m` appends m's entries in field order, with nested messages inline |
| CsvPrinting.WriteJoined | tools/csv_printing.h:265-277 | the `first`-flag loop writes the items joined by "," |
| CsvPrinting.PrintHeader | tools/csv_printing.h:265-277 | the header's fields joined by "," |
| CsvPrinting.PrintLine | tools/csv_printing.h:279-296 | the line's entries joined by "," |
| CsvPrinting.PrintedRowReadsBack | tools/csv_printing.h:265-296 | k comma-free entries are printed with k−1 commas and split back into the same entries |

`CreateReceiverForStream` is specified case by case:
- an unavailable stream, or no local address facing the device, changes
  nothing and raises the source's invalid_argument;
- otherwise the call succeeds iff three steps pass: the receiver is set up
  (`DataReceiver.DataReceiver.SetupOutcome`), the PUT is answered 200, and
  the first message arrives within 5 s (`FirstMessage`);
- a failing set-up raises its own error and sends nothing;
- a refused PUT raises its HTTP error, and a missed first message raises
  `UnexpectedReceiveTimeout(5000)`;
- on success the receiver is new, on the first qualifying interface
  address, and reports the requested port (or the chosen one for port 0);
  its socket is bound to `BoundPort(destPort)`, the port cut to 16 bits, or
  to the chosen one when that is 0; it has a 100 ms timeout, and is
  registered as the destination "ip:port";
- a failure after the PUT has sent exactly the PUT and a DELETE for
  `Destination(ip, port)`, and has closed the socket;
- after a failure the table is `AfterFailedActivation`: the destination is
  added if the PUT got 200, then its first copy is removed if the DELETE got
  200. `FailedActivationRestores` shows that this restores the stream's list
  when both replies are 200.

## Left out

- **HTTP, JSON text, sockets and `getifaddrs`.** These are outside the
  process. They are modelled as the scripted `Endpoint` and `Kernel` objects
  and a parameter list. The text of a failed response (`toString(response)`)
  is reduced to its status code.
- **Protobuf.** `ParseFromArray`, descriptors and reflection are not
  modelled. A received message is its type and its bytes. A CSV message is a
  field tree whose scalars are already rendered as text. `toProtobufTrajectory`
  (rc_dynamics_api/remote_interface.cc:487-529) copies doubles into a protobuf
  message: `GetSlamTrajectory` returns the `response.trajectory` JSON instead.
- **Windows branches** (`WSAGetLastError`, `closesocket`, `DWORD` timeouts, the
  Windows `getThisHostsIP`), and concurrency (the static instance map is not
  locked).
- **`getAvailableStreams`** is the plain field `availStreams`. Getters that the
  header declares but the .cc does not define are not modelled.
- **Naming mismatches.** The header and the .cc disagree on some names: member
  fields (`req_streams_` vs `_reqStreams`, `timeout_curl_` vs `_timeoutCurl`)
  and exception classes (`InvalidState` vs `invalid_state`). The model follows
  the .cc for behaviour and the header for types. `InvalidState` is a
  runtime_error, so the legacy fallback in `callDynamicsService` does not
  catch it.
- **`_visardVersion` is a float**, compared with 1.600001. The model keeps the
  parsed `stof` value in tenths, so the bulk delete is used iff the tenths are
  at least 17.
- **An object's members** keep their listed order. For `json::find` and
  `operator[]` only the first member with a key counts. nlohmann's
  `std::map` ordering is reflected only in the order in which
  `TrajectoryArgs` lists its members.
- **A catalog entry without a `name` or a `protobuf`** reads a missing key
  through a const reference, which is undefined in the JSON library. It is
  modelled as a type error, like any other unreadable entry.
- **`_protobufMap[stream]`** in `createReceiverForStream` would insert an
  empty type for a stream missing from the map. This is not modelled: the
  catalog puts every available stream into the map.
- **The second `setTimeout(100)`** in `createReceiverForStream`: the `Kernel`'s
  setsockopt errno is fixed per kernel. So a failure there, after the 5 s
  timeout was set, cannot happen in the model.
- **CsvPrinting.Header.AppendMessage:** for a repeated message field with items,
  the header walk asks reflection for a singular message of a repeated
  field (tools/csv_printing.h:104), which protobuf refuses at run time. The
  model returns "undefined" (`ok == false`) and claims no header/line
  alignment for such messages. `ColumnsMatchEntries` is stated only for
  messages whose repeated fields hold scalars.
- **CsvPrinting.Header.AppendHeader** requires the other header to be a
  different object. `h << h` is not modelled.
- **RemoteInterface.RemoteInterface.Destroy** returns the warnings as
  (stream, destinations) pairs, in key order. The text printed for each is
  `StaleReport`, and is not part of its contract. Streams whose deletion
  failed are reported, not retried.
- **JSON numbers** are integers (`JInt`) or reals (`JReal`). `get<int>` on a
  real is `Truncate`. A double outside the int range, whose conversion is
  undefined in C++, is not singled out. Unsigned JSON integers are not told
  apart from signed ones.
- NetUtils.IsValidIPAddress: each octet is one to three decimal digits of
  value at most 255, as POSIX words it, so a leading zero is accepted
  ("010.0.0.1" passes). glibc's `inet_pton` refuses such octets. The model
  does not capture that refusal.
- NetUtils.ScanInt: `%d` is read as an unbounded integer. The overflow of
  `sscanf` on more digits than an int holds is undefined behaviour and is not
  modelled; only octet-range values reach the composition.
- **std::cerr output** of the service calls and of the receiver destructor is
  not modelled. Only the exceptions and return values are.

## Findings

| source | as written | input that shows it | evidently intended | confidence | as-written member | corrected member |
|---|---|---|---|---|---|---|
| rc_dynamics_api/remote_interface.cc:601-611 with :473-482 | `cleanUpRequestedStreams` passes `s.second`, a reference to the tracked list itself, as the `destinations` of `deleteDestinationsFromStream`. That function's erase loop then range-iterates the very list it erases from, and erases the node it stands on. | any stream with one tracked destination, e.g. `{"pose": ["10.0.0.2:30000"]}`, after the DELETE is answered 200 | erase every listed destination from the tracked list (a copy of it drives the loop), leaving the list empty | not executed | Destinations.AliasedRemoveEachUndefined | Destinations.RemoveEachSelf |
| rc_dynamics_api/data_receiver.h:246 with rc_dynamics_api/remote_interface.cc:575-579 | the constructor binds `static_cast<u_short>(port)`, while `createReceiverForStream` registers "ip:destPort" with the uncut port, and the receiver reports the uncut port | destPort = 70000: the socket is bound to 4464 and the device is asked to send to port 70000; destPort = 65536 is bound as 0, which lets the kernel pick a port that is never read back | refuse a port above 65535 before binding, so that the port bound, reported and registered is one and the same | not executed | DataReceiver.BoundPortMismatch | DataReceiver.CheckedPort |

For the aliasing row, the corrected behaviour is what the model uses:
`RemoteInterface.RemoteInterface.CleanUpStream` passes the list by value, and
on success ensures that the stream's list is empty.

For the port row, `DataReceiver.DataReceiver.Create` keeps the cast as
written (`BoundPort`), because that is what the library does with the
ports it is given. `CheckedPortBindsAsked` proves that the intended check,
`CheckedPort`, refuses exactly the ports the cast moves. On every port it
accepts, the port bound is the port asked for, so the model's contracts for
ports below 65536 are those of the corrected library.
