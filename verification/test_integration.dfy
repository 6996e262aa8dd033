/** The pure parts of scripts/test_integration.py: the MLLP frame that
    `send_hl7_message` puts on the wire, and the ORM^O01 test order that
    `create_test_order` builds. The clock reading is a parameter. */
module TestIntegration {
  import opened Text
  import opened Utf8
  import opened Hl7Validator

  /* ---------------------------------------------------------------------- */
  /* MLLP framing                                                           */
  /* ---------------------------------------------------------------------- */

  /** Start-of-block byte (VT). */
  const StartBlock: byte := 0x0B
  /** End-of-block byte (FS) followed by carriage return. */
  const EndBlock: seq<byte> := [0x1C, 0x0D]

  /** `mllp_start + message.encode('utf-8') + mllp_end`. */
  function Wrap(message: string): (frame: seq<byte>)
    ensures |frame| == |Encode(message)| + 3
    ensures frame[0] == StartBlock
    ensures frame[|frame| - 2] == 0x1C && frame[|frame| - 1] == 0x0D
  {
    [StartBlock] + Encode(message) + EndBlock
  }

  /** What a receiver does with one complete block: check both markers and
      keep what lies between them. */
  function Unwrap(frame: seq<byte>): (payload: Option<seq<byte>>)
    ensures payload.Some? ==> |payload.value| + 3 == |frame|
  {
    if |frame| >= 3 && frame[0] == StartBlock && frame[|frame| - 2..] == EndBlock
    then Some(frame[1..|frame| - 2])
    else None
  }

  /** Dropping the start byte and the two end bytes gives back the encoded
      payload unchanged. */
  lemma UnwrapWrap(message: string)
    ensures Unwrap(Wrap(message)) == Some(Encode(message))
  {
    var frame := Wrap(message);
    assert frame[|frame| - 2..] == EndBlock;
    assert frame[1..|frame| - 2] == Encode(message);
  }

  /** Unwrapping, then decoding, recovers the very message that was sent. */
  lemma WrapRoundTrip(message: string)
    ensures Unwrap(Wrap(message)).Some?
    ensures Decode(Unwrap(Wrap(message)).value) == Some(message)
  {
    UnwrapWrap(message);
    DecodeEncode(message);
  }

  /** Any frame Unwrap accepts is the start byte, the payload and the end
      bytes, in that order. */
  lemma WrapUnwrap(frame: seq<byte>)
    requires Unwrap(frame).Some?
    ensures frame == [StartBlock] + Unwrap(frame).value + EndBlock
  {
  }

  /** Distinct messages give distinct frames. */
  lemma WrapInjective(m1: string, m2: string)
    requires Wrap(m1) == Wrap(m2)
    ensures m1 == m2
  {
    UnwrapWrap(m1);
    UnwrapWrap(m2);
    EncodeInjective(m1, m2);
  }

  /** A message without the characters VT and FS puts neither marker byte in
      its payload, so the frame's only start byte is its first and its only
      end byte is the one before the final CR. */
  lemma MarkersOnlyAtEdges(message: string)
    requires '\U{0B}' !in message && '\U{1C}' !in message
    ensures forall i :: 0 <= i < |Wrap(message)| && Wrap(message)[i] == StartBlock ==> i == 0
    ensures forall i :: 0 <= i < |Wrap(message)| && Wrap(message)[i] == 0x1C ==> i == |Wrap(message)| - 2
  {
    var e := Encode(message);
    EncodeAsciiByte(message, 0x0B);
    EncodeAsciiByte(message, 0x1C);
    var frame := Wrap(message);
    forall i | 0 <= i < |frame|
      ensures frame[i] == StartBlock ==> i == 0
      ensures frame[i] == 0x1C ==> i == |frame| - 2
    {
      if 1 <= i < |frame| - 2 {
        assert frame[i] == e[i - 1];
      }
    }
  }

  /* ---------------------------------------------------------------------- */
  /* The test order                                                         */
  /* ---------------------------------------------------------------------- */

  /** What `create_test_order` returns: the message and its order id. */
  datatype TestOrder = TestOrder(message: string, orderId: string)

  /** The '|'-tokens of the four template lines for clock reading `t`. */
  function OrderMshTokens(t: string): seq<string> {
    ["MSH", "^~\\&", "HIS", "HOSPITAL", "RIS", "RADIOLOGY", t, "", "ORM^O01", "MSG" + t, "P", "2.5"]
  }

  function OrderPidTokens(t: string): seq<string> {
    ["PID", "1", "", "TEST" + t + "^^^HOSPITAL^MR", "", "TESTPATIENT^JOHN^A", "", "19850312", "M", "", "",
     "123 TEST ST^RIYADH^RIYADH^12345^SA", "", "(011)555-0123"]
  }

  function OrderOrcTokens(t: string): seq<string> {
    ["ORC", "NW", "ORD" + t, "REQ" + t, "GRP" + t, "SC", "", "", "", t, "", "", "DR.SMITH^JOHN^A"]
  }

  function OrderObrTokens(t: string): seq<string> {
    ["OBR", "1", "ORD" + t, "REQ" + t, "PANO^Panoramic X-Ray^L", "", "", t, "", "", "", "", "", "",
     "", "", "DR.JONES^MARY^B", "", "", "", "", "", "", "", "", "", "1"]
  }

  function OrderTokens(t: string): seq<seq<string>> {
    [OrderMshTokens(t), OrderPidTokens(t), OrderOrcTokens(t), OrderObrTokens(t)]
  }

  /** The template's lines; the triple-quoted literal separates them with a
      bare LF. */
  function OrderLines(t: string): (lines: seq<string>)
    ensures |lines| == 4
  {
    seq(4, i requires 0 <= i < 4 => Join(OrderTokens(t)[i], "|"))
  }

  /** `create_test_order()` with `datetime.now().strftime(...)` passed in as
      `t`. */
  function CreateTestOrder(t: string): (r: TestOrder)
    ensures r.orderId == "ORD" + t
  {
    TestOrder(Join(OrderLines(t), "\n"), "ORD" + t)
  }

  /* The template's literals are free of delimiters; with a plain clock
     reading, so is every token. A lemma per pair of literals keeps each
     proof small. */
  lemma PatientLiteralsPlain()
    ensures Plain("TEST") && Plain("^^^HOSPITAL^MR") && Plain("TESTPATIENT^JOHN^A")
  {
  }

  lemma AddressLiteralsPlain()
    ensures Plain("123 TEST ST^RIYADH^RIYADH^12345^SA") && Plain("(011)555-0123")
  {
  }

  lemma OrderLiteralsPlain()
    ensures Plain("ORD") && Plain("REQ") && Plain("GRP") && Plain("PANO^Panoramic X-Ray^L")
  {
  }

  lemma DoctorLiteralsPlain()
    ensures Plain("DR.SMITH^JOHN^A") && Plain("DR.JONES^MARY^B")
  {
  }

  lemma MshPlain(t: string)
    requires Plain(t)
    ensures PlainFields(OrderMshTokens(t))
  {
    PlainConcat("MSG", t);
  }

  lemma PidPlain(t: string)
    requires Plain(t)
    ensures PlainFields(OrderPidTokens(t))
  {
    PatientLiteralsPlain();
    AddressLiteralsPlain();
    PlainConcat("TEST", t);
    PlainConcat("TEST" + t, "^^^HOSPITAL^MR");
  }

  lemma OrcPlain(t: string)
    requires Plain(t)
    ensures PlainFields(OrderOrcTokens(t))
  {
    OrderLiteralsPlain();
    DoctorLiteralsPlain();
    PlainConcat("ORD", t);
    PlainConcat("REQ", t);
    PlainConcat("GRP", t);
  }

  lemma ObrPlain(t: string)
    requires Plain(t)
    ensures PlainFields(OrderObrTokens(t))
  {
    OrderLiteralsPlain();
    DoctorLiteralsPlain();
    PlainConcat("ORD", t);
    PlainConcat("REQ", t);
  }

  lemma TokensPlain(t: string, i: nat)
    requires Plain(t) && i < 4
    ensures PlainFields(OrderTokens(t)[i])
  {
    if i == 0 {
      MshPlain(t);
    } else if i == 1 {
      PidPlain(t);
    } else if i == 2 {
      OrcPlain(t);
    } else {
      ObrPlain(t);
    }
  }

  /** No line holds a CR or an LF. */
  lemma LinesAvoid(t: string, c: char)
    requires Plain(t) && (c == '\r' || c == '\n')
    ensures forall i :: 0 <= i < 4 ==> c !in OrderLines(t)[i]
  {
    forall i | 0 <= i < 4
      ensures c !in OrderLines(t)[i]
    {
      TokensPlain(t, i);
      PlainSegmentAvoids(OrderTokens(t)[i], c);
    }
  }

  /** Each line splits on '|' into exactly its template tokens. */
  lemma LineTokens(t: string, i: nat)
    requires Plain(t) && i < 4
    ensures Tokens(OrderLines(t)[i]) == OrderTokens(t)[i]
  {
    TokensPlain(t, i);
    PlainFieldsAvoid(OrderTokens(t)[i], FieldSeparator);
    SplitJoin(OrderTokens(t)[i], [FieldSeparator]);
  }

  /** Splitting the message on LF gives back the four template lines. */
  lemma OrderLinesRecovered(t: string)
    requires Plain(t)
    ensures Split(CreateTestOrder(t).message, "\n") == OrderLines(t)
  {
    LinesAvoid(t, '\n');
    SplitJoin(OrderLines(t), "\n");
  }

  /** The order id is "ORD" followed by the clock reading, and the ORC and
      OBR lines carry it as their third '|'-token (ORC-2 and OBR-2, the
      placer order number). */
  lemma OrderIdCarried(t: string)
    requires Plain(t)
    ensures var order := CreateTestOrder(t);
      var lines := Split(order.message, "\n");
      && order.orderId == "ORD" + t
      && |lines| == 4
      && Tokens(lines[2]) == OrderOrcTokens(t) && Tokens(lines[2])[2] == order.orderId
      && Tokens(lines[3]) == OrderObrTokens(t) && Tokens(lines[3])[2] == order.orderId
  {
    OrderLinesRecovered(t);
    LineTokens(t, 2);
    LineTokens(t, 3);
  }

  /** The MSH line opens with the encoding characters and names the message
      type ORM^O01 at token 8; the clock reading is the timestamp at token 6
      and follows "MSG" in the control id at token 9. */
  lemma OrderHeader(t: string)
    requires Plain(t)
    ensures var order := CreateTestOrder(t);
      var msh := Tokens(Split(order.message, "\n")[0]);
      && StartsWith(order.message, "MSH|^~\\&|")
      && |msh| == MinMshTokens
      && msh[MessageTypeToken] == "ORM^O01"
      && msh[6] == t && msh[9] == "MSG" + t
  {
    OrderLinesRecovered(t);
    LineTokens(t, 0);
    var lines := OrderLines(t);
    var xs := OrderMshTokens(t);
    var rest := Join(xs[2..], "|");
    assert xs[1..][1..] == xs[2..];
    assert lines[0] == Join(xs, "|");
    assert Join(xs, "|") == xs[0] + "|" + Join(xs[1..], "|");
    assert Join(xs[1..], "|") == xs[1] + "|" + rest;
    assert "MSH" + "|" + "^~\\&" + "|" == "MSH|^~\\&|";
    assert lines[0] == "MSH|^~\\&|" + rest;
    JoinStartsWithFirst(lines, "\n");
  }

  /** The lines are joined by LF only: the message holds no CR at all, so
      in particular no CR LF segment separator. */
  lemma OrderHasNoCrlf(t: string)
    requires Plain(t)
    ensures '\r' !in CreateTestOrder(t).message
    ensures !Contains(CreateTestOrder(t).message, SegmentSeparator)
  {
    LinesAvoid(t, '\r');
    JoinAvoidsChar(OrderLines(t), "\n", '\r');
    NoFirstCharNoSeparator(CreateTestOrder(t).message, SegmentSeparator);
  }

  lemma OrderLastLineEnd(t: string)
    ensures var last := OrderLines(t)[3]; |last| > 0 && last[|last| - 1] == '1'
  {
    JoinEndsWithLast(OrderObrTokens(t), "|");
  }

  /** The order the integration test sends fails the repository's own
      validator: being LF-separated it is one segment, so PID, ORC and OBR
      are reported missing, in that order. */
  lemma OrderFailsValidation(t: string)
    requires Plain(t)
    ensures Validate(CreateTestOrder(t).message) == ValidationResult(false, [
              MissingSegmentError("PID"), MissingSegmentError("ORC"), MissingSegmentError("OBR")])
  {
    OrderIsOneSegment(t);
    OrderAsOneSegmentRejected(CreateTestOrder(t).message);
  }

  lemma OrderIsOneSegment(t: string)
    requires Plain(t)
    ensures Segments(CreateTestOrder(t).message) == [CreateTestOrder(t).message]
    ensures HasWellFormedMsh(CreateTestOrder(t).message)
    ensures MessageType(CreateTestOrder(t).message) == "ORM^O01"
  {
    var lines := OrderLines(t);
    var msh := OrderMshTokens(t);
    assert lines[0] == Join(msh, [FieldSeparator]);
    assert |msh| >= MinMshTokens && msh[0] == "MSH" && msh[MessageTypeToken] == "ORM^O01";
    assert forall i :: 0 <= i < |msh| ==> FieldSeparator !in msh[i] by {
      MshPlain(t);
      PlainFieldsAvoid(msh, FieldSeparator);
    }
    LinesAvoid(t, '\r');
    OrderLastLineEnd(t);
    LineFeedMessageIsOneSegment(lines, msh);
  }
}
