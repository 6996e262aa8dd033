# HL7 glue logic of the dental imaging integration, in Dafny

This project models the pure logic inside the repository's HL7 glue code and
proves properties of it. There are three pieces:

- **The HL7 structural validator and parser** (`HL7Validator` in
  `hl7-messages/hl7_validator.py`). `validate_message` strips the text and
  splits it into segments on the two-character sequence CR LF. The first
  segment must start with `MSH`. It is split on a hard-coded `|` and must
  have at least twelve tokens. Token 8 is the message type. For the three
  types in the rule table (`ORM^O01`, `ORU^R01`, `MDM^T02`), every required
  segment tag missing from the segments' three-character prefixes is
  reported, in table order. `parse_message` groups the `|`-token lists of
  the segments under their first token.
- **MLLP framing and the test order** (`scripts/test_integration.py`). A
  frame is the start byte `0x0B`, the UTF-8 encoding of the message, then
  `0x1C 0x0D`. `create_test_order` fills a four-line ORM^O01 template with a
  clock reading, which is a parameter here.
- **Health-status aggregation** (`api-gateway/health_check.py`). Each probed
  port is "open" or "closed". The loop of `complete_health_check` reduces
  the component reports to "healthy", "degraded" or "unhealthy".

The code is modelled as written, not an idealised HL7 v2 stack:

- Segments are split on CR LF, not on the CR terminator the standard uses.
- The field separator is the literal `|`, not the character the MSH
  segment declares.
- No component, repetition or escape handling is done.

Two consequences are proved rather than hidden:

- The "Empty message" branch can never be taken, because Python's `split`
  never returns an empty list.
- A message whose lines are joined by a bare LF is one single segment to the
  validator. So the module's own example, and the order the integration
  test sends, are both reported invalid with PID, ORC and OBR missing. The
  same example joined by CR LF is valid.

Modules, one per file:

- `Text` (`text.dfy`): Python's `strip`, `startswith`, slicing, `split` and
  `join` on strings, with the split/join round trips. `strip` uses Python's
  full `str.isspace` set, not only ASCII whitespace.
- `Utf8` (`utf8.dfy`): `str.encode('utf-8')` as a concrete encoder. A
  decoder is included to prove the encoding loses nothing.
- `Hl7Validator` (`hl7_validator.dfy`): the rule table, `validate_message`
  and `parse_message`.
- `Hl7Examples` (`hl7_examples.dfy`): the module's example message as a
  test vector.
- `TestIntegration` (`test_integration.dfy`): MLLP wrapping and the test
  order.
- `HealthCheck` (`health_check.dfy`): port status, the probed port list and
  the overall status.

`TestIntegration.Unwrap` is not in the repository. It is the inverse that
the wrapping properties are stated against. `HealthCheck.Summary` is the
declarative reading of the overall status, and the imperative loop is
proved equal to it.

## Model

| member | source | states |
|---|---|---|
| Text.Strip | hl7-messages/hl7_validator.py:15 | the stripped text is no longer than the input and neither starts nor ends with whitespace |
| Text.StripIsTrimmedSlice | hl7-messages/hl7_validator.py:15 | `strip()` returns a slice of its input with only whitespace cut from either end, and the result neither starts nor ends with whitespace |
| Text.StripIdempotent | hl7-messages/hl7_validator.py:15 | stripping twice is stripping once |
| Text.Split | hl7-messages/hl7_validator.py:15 | `split(sep)` always returns at least one piece |
| Text.SplitJoinsBack | hl7-messages/hl7_validator.py:49 | joining the pieces of a split with the separator gives the original string back |
| Text.SplitPiecesAvoidSeparator | hl7-messages/hl7_validator.py:49 | no piece of a split contains the separator |
| Text.SplitJoin | hl7-messages/hl7_validator.py:49 | splitting a join of pieces free of the separator's first character gives the pieces back |
| Utf8.EncodeChar | scripts/test_integration.py:11 | a character encodes to 1 to 4 bytes; exactly the ASCII characters take one byte, equal to the code point; longer encodings start with a lead byte of at least 0xC2 followed by continuation bytes |
| Utf8.Encode | scripts/test_integration.py:11 | the encoding of a string is between one and four bytes per character |
| Utf8.DecodeEncode | scripts/test_integration.py:11 | decoding the UTF-8 encoding of any string gives the string back |
| Utf8.EncodeInjective | scripts/test_integration.py:11 | distinct strings have distinct encodings |
| Utf8.EncodeAsciiByte | scripts/test_integration.py:11 | an ASCII byte occurs in an encoding exactly when its character occurs in the string |
| Hl7Validator.Segments | hl7-messages/hl7_validator.py:15 | the segment list of any message, blank or not, has at least one element |
| Hl7Validator.Tokens | hl7-messages/hl7_validator.py:27 | `split` on the pipe yields at least one token and no token holds the pipe |
| Hl7Validator.SegmentTypes | hl7-messages/hl7_validator.py:36 | one type per segment, in order, each the segment's first three characters, or the whole segment when it is shorter |
| Hl7Validator.MissingTags | hl7-messages/hl7_validator.py:37-39 | a tag is reported exactly when the rule lists it and it is not present; never more tags than the rule has; no repeats when the rule has none |
| Hl7Validator.MissingTagsKeepsOrder | hl7-messages/hl7_validator.py:37-39 | the reported tags follow the rule's order: the tags of a rule's prefix come before those of its rest |
| Hl7Validator.MissingSegmentErrorInjective | hl7-messages/hl7_validator.py:39 | different tags give different "Missing required segment" messages |
| Hl7Validator.MissingErrorsNameTags | hl7-messages/hl7_validator.py:37-39 | one error per tag; an error names a tag exactly when the tag is in the list; distinct tags give distinct errors |
| Hl7Validator.RuleErrors | hl7-messages/hl7_validator.py:35-39 | a type outside the table yields no errors; for a type in it, an error names a tag exactly when the rule requires it and no segment type equals it, the errors never repeat, and there are no more of them than the rule's tags |
| Hl7Validator.MissingTagsNoneSeen | hl7-messages/hl7_validator.py:37-39 | when no required tag is present, every one is reported, in rule order |
| Hl7Validator.MissingTagsAllSeen | hl7-messages/hl7_validator.py:37-39 | when every required tag is present, none is reported |
| Hl7Validator.OrderRule | hl7-messages/hl7_validator.py:7 | the table has an ORM^O01 entry requiring MSH, PID, ORC and OBR, in that order |
| Hl7Validator.OrderRuleOnMshAlone | hl7-messages/hl7_validator.py:7-39 | against any non-empty list of segments all typed MSH, the ORM^O01 rule reports PID, ORC and OBR, in that order |
| Hl7Validator.OrderRuleMet | hl7-messages/hl7_validator.py:7-39 | segments typed MSH, PID, ORC and OBR satisfy the ORM^O01 rule |
| Hl7Validator.Validate | hl7-messages/hl7_validator.py:41 | the message is valid exactly when the error list is empty |
| Hl7Validator.RejectsWithoutMsh | hl7-messages/hl7_validator.py:22-24 | a first segment not starting with MSH gives exactly `(False, ["Message must start with MSH segment"])` |
| Hl7Validator.RejectsBlank | hl7-messages/hl7_validator.py:15-24 | empty and whitespace-only messages get the MSH error, not "Empty message" |
| Hl7Validator.NeverEmptyMessage | hl7-messages/hl7_validator.py:17-19 | no input ever produces the "Empty message" error |
| Hl7Validator.RejectsShortMsh | hl7-messages/hl7_validator.py:27-30 | an MSH segment with fewer than twelve pipe-tokens gives exactly `(False, ["Invalid MSH segment"])` |
| Hl7Validator.MissingSegmentsReported | hl7-messages/hl7_validator.py:32-39 | past the MSH checks, an error names a tag exactly when the rule requires it and no segment prefix equals it; the errors are in rule order, no more than the rule's length, and distinct |
| Hl7Validator.NeverMissingMsh | hl7-messages/hl7_validator.py:22-39 | "Missing required segment: MSH" is never reported |
| Hl7Validator.AcceptsUnknownType | hl7-messages/hl7_validator.py:32-41 | a well-formed MSH whose type is not in the table gives `(True, [])` |
| Hl7Validator.MessageType | hl7-messages/hl7_validator.py:32 | the message type read from token 8 of the MSH segment never holds a pipe |
| Hl7Validator.ValidateWellFormed | hl7-messages/hl7_validator.py:32-41 | past the MSH checks, the verdict is the rule check of the type in token 8, valid exactly when that check reports nothing |
| Hl7Validator.LineFeedJoinIsOneSegment | hl7-messages/hl7_validator.py:15 | lines joined by LF, with no CR and no outer whitespace, form a single segment |
| Hl7Validator.LineFeedJoinTokens | hl7-messages/hl7_validator.py:27 | the pipe-tokens of such a message begin with the first line's tokens, all but the last of them unchanged |
| Hl7Validator.LineFeedMessageIsOneSegment | hl7-messages/hl7_validator.py:15-32 | an LF-joined message whose first line is a pipe-free MSH line is one segment keyed MSH, passes the MSH checks, and takes its type from that line's token 8 |
| Hl7Validator.OrderAsOneSegmentRejected | hl7-messages/hl7_validator.py:7-41 | an ORM^O01 message that is a single segment is invalid, with PID, ORC and OBR reported missing, in that order |
| Hl7Validator.CrlfJoinSegments | hl7-messages/hl7_validator.py:15 | lines joined by CR LF, with no CR inside and no outer whitespace, split back into exactly those lines |
| Hl7Validator.CrlfMessageWellFormed | hl7-messages/hl7_validator.py:15-32 | a CR LF-joined message whose first line is a pipe-free MSH line has exactly its lines as segments, passes the MSH checks, and takes its type from that line's token 8 |
| Hl7Validator.OrderWithAllSegmentsAccepted | hl7-messages/hl7_validator.py:7-41 | an ORM^O01 message with segments typed MSH, PID, ORC and OBR is valid |
| Hl7Validator.Key | hl7-messages/hl7_validator.py:49-50 | a segment's key is the prefix of it up to its first pipe, or the whole segment when it has none |
| Hl7Validator.WithKey | hl7-messages/hl7_validator.py:48-55 | the segments under one key are input segments carrying that key, no more of them than the input |
| Hl7Validator.TokenListsRejoin | hl7-messages/hl7_validator.py:55 | joining any stored token list with the pipe reproduces its segment's text |
| Hl7Validator.WithKeyCounts | hl7-messages/hl7_validator.py:48-55 | each segment occurs under its own key exactly as often as in the input, and under no other key |
| Hl7Validator.WithAbsentKey | hl7-messages/hl7_validator.py:52-53 | a key no segment has holds nothing |
| Hl7Validator.ParseStep | hl7-messages/hl7_validator.py:49-55 | one loop step adds the segment's key and appends its token list under that key, leaving the other keys' lists alone |
| Hl7Validator.Group | hl7-messages/hl7_validator.py:48-55 | each key of the grouping holds at least one token list, and every token list stored under a key starts with that key |
| Hl7Validator.GroupByKey | hl7-messages/hl7_validator.py:48-55 | the grouping's keys are the segments' keys, and each key holds the token lists of exactly its segments, in input order |
| Hl7Validator.GroupSegments | hl7-messages/hl7_validator.py:48-55 | the loop produces exactly that grouping |
| Hl7Validator.Parse | hl7-messages/hl7_validator.py:43-57 | `parse_message` maps each key of the message's segments to the token lists of the segments with that key, in input order, repeats kept apart |
| Hl7Examples.ExampleHeader | hl7-messages/hl7_validator.py:64 | the example's MSH line has twelve pipe-free tokens, the first MSH and token 8 ORM^O01 |
| Hl7Examples.ExampleIsOneSegment | hl7-messages/hl7_validator.py:64-67 | the LF-separated example is a single segment keyed MSH that passes the MSH checks with type ORM^O01 |
| Hl7Examples.ExampleIsRejected | hl7-messages/hl7_validator.py:64-69 | the module's LF-separated example is invalid, with PID, ORC and OBR reported missing, in that order |
| Hl7Examples.ExampleParsesToOneKey | hl7-messages/hl7_validator.py:74-75 | parsing the example yields the single key MSH |
| Hl7Examples.ExampleCrlfSegments | hl7-messages/hl7_validator.py:64-67 | joined by CR LF, the example's lines are its four segments, and the MSH line names ORM^O01 |
| Hl7Examples.ExampleWithCrlfIsValid | hl7-messages/hl7_validator.py:64-67 | the example's lines joined by CR LF are valid |
| TestIntegration.Wrap | scripts/test_integration.py:8-11 | the frame is three bytes longer than the encoded message, starts with 0x0B and ends with 0x1C 0x0D |
| TestIntegration.UnwrapWrap | scripts/test_integration.py:11 | dropping the frame's first byte and last two bytes gives the encoded payload unchanged |
| TestIntegration.WrapRoundTrip | scripts/test_integration.py:11 | unwrapping and decoding a frame recovers the message |
| TestIntegration.WrapUnwrap | scripts/test_integration.py:8-11 | every well-marked frame is the start byte, its payload and the end bytes |
| TestIntegration.WrapInjective | scripts/test_integration.py:11 | distinct messages give distinct frames |
| TestIntegration.MarkersOnlyAtEdges | scripts/test_integration.py:8-11 | when the message has no VT or FS character, 0x0B occurs only at the frame's first byte and 0x1C only before the final CR |
| TestIntegration.CreateTestOrder | scripts/test_integration.py:22-30 | the returned order id is "ORD" followed by the clock reading |
| TestIntegration.LineTokens | scripts/test_integration.py:25-28 | each template line splits on the pipe into exactly its template fields |
| TestIntegration.OrderLinesRecovered | scripts/test_integration.py:25-28 | splitting the order on LF gives the four template lines |
| TestIntegration.OrderIdCarried | scripts/test_integration.py:25-30 | the order id is "ORD" plus the clock reading, and it is the third pipe-token of both the ORC and the OBR line |
| TestIntegration.OrderHeader | scripts/test_integration.py:25 | the order starts with the MSH tag and the encoding characters `^~\&`, each followed by a pipe, its MSH line has twelve tokens, token 8 is ORM^O01, and the clock reading fills tokens 6 and 9 |
| TestIntegration.OrderHasNoCrlf | scripts/test_integration.py:25-28 | the order holds no CR, so no CR LF separator |
| TestIntegration.OrderIsOneSegment | scripts/test_integration.py:25-28 | the LF-separated order is a single segment that passes the MSH checks with type ORM^O01 |
| TestIntegration.OrderFailsValidation | scripts/test_integration.py:25-28 | the validator rejects the order with PID, ORC and OBR missing |
| HealthCheck.PortStatus | api-gateway/health_check.py:54 | a port is "open" exactly when `connect_ex` returned 0, otherwise "closed" |
| HealthCheck.CheckHl7Ports | api-gateway/health_check.py:37-57 | exactly three entries, for HIS-RIS 6661, RIS-Modality 6662 and Report-HIS 6663 in that order, each open exactly when its probe returned 0 |
| HealthCheck.CheckDatabase | api-gateway/health_check.py:10-24 | healthy exactly when the database query succeeded, unhealthy otherwise |
| HealthCheck.CheckHttp | api-gateway/health_check.py:26-35 | healthy exactly when the request returned status 200, unhealthy otherwise |
| HealthCheck.ScanPorts | api-gateway/health_check.py:87-90 | the scan of a port list gives "degraded" when some entry is closed and leaves the status unchanged otherwise |
| HealthCheck.OverallStatus | api-gateway/health_check.py:83-90 | the loop that starts from "healthy" ends with "unhealthy" when any report dict is unhealthy, else "degraded" when any port entry is closed, else "healthy" |
| HealthCheck.CompleteHealthCheck | api-gateway/health_check.py:69-92 | the components are database, mirth_connect, hl7_ports, ai_api in that order; overall is unhealthy exactly when a probe failed, degraded exactly when all probes succeeded but a port is closed, healthy exactly when everything succeeded |
| HealthCheck.CompleteSummary | api-gateway/health_check.py:71-80 | for the four real components, an unhealthy report means a failed probe and a closed entry means a nonzero `connect_ex` |
| HealthCheck.UnhealthyDominates | api-gateway/health_check.py:84-86 | one unhealthy report makes the result unhealthy, whatever closed ports come before or after it |
| HealthCheck.SummaryIgnoresOrder | api-gateway/health_check.py:83-90 | the overall status depends only on which components occur, not on their order |
| HealthCheck.OneClosedPortDegrades | api-gateway/health_check.py:87-90 | with every probe succeeding and one port closed, the result is degraded |

## Left out

- Socket I/O in `send_hl7_message` (connect, send, recv, close) and all of
  `main()` in `scripts/test_integration.py`. They are network and database
  calls and `time.sleep`.
- Reading frames from a stream: resynchronising, incomplete frames and
  response timeouts. The repository only wraps; `TestIntegration.Unwrap`
  handles one complete frame.
- `datetime.now()` in `create_test_order` and the health status's
  `timestamp` field. The clock reading is the parameter `t`, and the
  health result carries no timestamp. The order's properties are proved
  for a clock reading holding no pipe, CR or LF (`Hl7Validator.Plain`),
  which the digits of `strftime('%Y%m%d%H%M%S')` always satisfy.
- The probes of `check_database`, `check_mirth_connect`, `check_ai_api`
  and `connect_ex`, with their `response_time_ms` and `error` keys. Their
  outcomes are parameters: a flag, an optional HTTP status code, and a
  function from port to error number.
- HealthCheck.CheckHl7Ports: `connect_ex` is a pure function of the port,
  so two probes of one port always agree. The real probes are separate
  network calls.
- Insertion order of the dict that `parse_message` returns. The result is
  a map, so only the order within each key's list is modelled.
- Component, repetition, sub-component and escape handling, and reading
  the delimiters from MSH. The code does none of it.
- Strings holding lone surrogates, which `encode('utf-8')` rejects. Dafny
  characters are Unicode scalar values, so such strings cannot be formed.
- The FastAPI route and server start-up in `api-gateway/health_check.py`,
  and the printing in the validator module's `__main__` block.
- `api-gateway/saif_api.py`, `scripts/monitor.py` and
  `scripts/performance_monitor.py`. They hold database queries, HTTP calls,
  random findings, floating-point report formatting and polling loops,
  and no logic of the modelled core.
