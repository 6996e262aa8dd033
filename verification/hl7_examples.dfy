/** The example message at the bottom of hl7-messages/hl7_validator.py, as a
    test vector for the model. */
module Hl7Examples {
  import opened Text
  import opened Hl7Validator

  /** The example's four lines, each given by its '|'-tokens. */
  const ExampleMshTokens: seq<string> :=
    ["MSH", "^~\\&", "HIS", "HOSPITAL", "RIS", "RADIOLOGY", "20241215143000", "", "ORM^O01", "MSG001", "P", "2.5"]
  const ExamplePidTokens: seq<string> :=
    ["PID", "1", "", "12345^^^HOSPITAL^MR", "", "ALBADR^AHMED^MOHAMMAD", "", "19850312", "M", "", "",
     "123 MAIN ST^RIYADH^RIYADH^12345^SA", "", "(011)555-0123"]
  const ExampleOrcTokens: seq<string> :=
    ["ORC", "NW", "ORD001", "REQ001", "GRP001", "SC", "", "", "", "20241215143000", "", "", "DR.SMITH^JOHN^A"]
  const ExampleObrTokens: seq<string> :=
    ["OBR", "1", "ORD001", "REQ001", "PANO^Panoramic X-Ray^L", "", "", "20241215150000", "", "", "", "", "",
     "", "", "", "DR.JONES^MARY^B", "", "", "", "", "", "", "", "", "", "1"]

  const ExampleTokens: seq<seq<string>> :=
    [ExampleMshTokens, ExamplePidTokens, ExampleOrcTokens, ExampleObrTokens]

  /** The example's lines; the triple-quoted literal separates them with a
      bare LF. */
  function ExampleLines(): (lines: seq<string>)
    ensures |lines| == 4
  {
    seq(4, i requires 0 <= i < 4 => Join(ExampleTokens[i], "|"))
  }

  function ExampleMessage(): string {
    Join(ExampleLines(), "\n")
  }

  /* Each literal of the example is free of delimiters. A separate lemma per
     pair of literals keeps every proof small. */
  lemma TimestampsPlain()
    ensures Plain("20241215143000") && Plain("20241215150000")
  {
  }

  lemma PatientPlain()
    ensures Plain("12345^^^HOSPITAL^MR") && Plain("ALBADR^AHMED^MOHAMMAD")
  {
  }

  lemma AddressPlain()
    ensures Plain("123 MAIN ST^RIYADH^RIYADH^12345^SA") && Plain("(011)555-0123")
  {
  }

  lemma ProcedurePlain()
    ensures Plain("PANO^Panoramic X-Ray^L")
  {
  }

  lemma DoctorsPlain()
    ensures Plain("DR.SMITH^JOHN^A") && Plain("DR.JONES^MARY^B")
  {
  }

  lemma MshFieldsPlain()
    ensures PlainFields(ExampleMshTokens)
  {
    TimestampsPlain();
  }

  lemma PidFieldsPlain()
    ensures PlainFields(ExamplePidTokens)
  {
    PatientPlain();
    AddressPlain();
  }

  lemma OrcFieldsPlain()
    ensures PlainFields(ExampleOrcTokens)
  {
    TimestampsPlain();
    DoctorsPlain();
  }

  lemma ObrFieldsPlain()
    ensures PlainFields(ExampleObrTokens)
  {
    TimestampsPlain();
    ProcedurePlain();
    DoctorsPlain();
  }

  lemma LineAvoidsCr(i: nat)
    requires i < 4
    ensures '\r' !in ExampleLines()[i]
  {
    if i == 0 {
      MshFieldsPlain();
    } else if i == 1 {
      PidFieldsPlain();
    } else if i == 2 {
      OrcFieldsPlain();
    } else {
      ObrFieldsPlain();
    }
    PlainSegmentAvoids(ExampleTokens[i], '\r');
  }

  lemma LinesAvoidCr()
    ensures forall i :: 0 <= i < 4 ==> '\r' !in ExampleLines()[i]
  {
    forall i | 0 <= i < 4
      ensures '\r' !in ExampleLines()[i]
    {
      LineAvoidsCr(i);
    }
  }

  lemma LineType(i: nat)
    requires i < 4
    ensures Take(ExampleLines()[i], 3) == ExampleTokens[i][0]
  {
    JoinStartsWithFirst(ExampleTokens[i], "|");
  }

  lemma LastLineEnd()
    ensures var last := ExampleLines()[3]; |last| > 0 && !IsSpace(last[|last| - 1])
  {
    JoinEndsWithLast(ExampleObrTokens, "|");
  }

  /** The MSH line: its tokens, their count and the message type. */
  lemma ExampleHeader()
    ensures ExampleLines()[0] == Join(ExampleMshTokens, [FieldSeparator])
    ensures |ExampleMshTokens| >= MinMshTokens && ExampleMshTokens[0] == "MSH"
    ensures ExampleMshTokens[MessageTypeToken] == "ORM^O01"
    ensures forall i :: 0 <= i < |ExampleMshTokens| ==> FieldSeparator !in ExampleMshTokens[i]
  {
    MshFieldsPlain();
    PlainFieldsAvoid(ExampleMshTokens, FieldSeparator);
  }

  /** Joined by a bare LF, the example is one segment typed MSH whose
      message type is ORM^O01. */
  lemma ExampleIsOneSegment()
    ensures Segments(ExampleMessage()) == [ExampleMessage()]
    ensures Key(ExampleMessage()) == "MSH"
    ensures HasWellFormedMsh(ExampleMessage()) && MessageType(ExampleMessage()) == "ORM^O01"
  {
    ExampleHeader();
    LinesAvoidCr();
    LastLineEnd();
    LineFeedMessageIsOneSegment(ExampleLines(), ExampleMshTokens);
  }

  /** The module's own example separates its lines with LF, so the validator
      sees one segment of type MSH and reports PID, ORC and OBR missing, in
      that order: the example is invalid. */
  lemma ExampleIsRejected()
    ensures Validate(ExampleMessage()) == ValidationResult(false, [
              MissingSegmentError("PID"), MissingSegmentError("ORC"), MissingSegmentError("OBR")])
  {
    ExampleIsOneSegment();
    OrderAsOneSegmentRejected(ExampleMessage());
  }

  /** parse_message of the example yields the single key MSH. */
  lemma ExampleParsesToOneKey()
    ensures Keys(Segments(ExampleMessage())) == {"MSH"}
  {
    ExampleIsOneSegment();
    KeysOfOne(ExampleMessage());
  }

  /** Joined by CR LF, the example's lines are its four segments, opened by
      a well-formed MSH naming ORM^O01. */
  lemma ExampleCrlfSegments()
    ensures Segments(Join(ExampleLines(), "\r\n")) == ExampleLines()
    ensures HasWellFormedMsh(Join(ExampleLines(), "\r\n"))
    ensures MessageType(Join(ExampleLines(), "\r\n")) == "ORM^O01"
  {
    ExampleHeader();
    LinesAvoidCr();
    LastLineEnd();
    CrlfMessageWellFormed(ExampleLines(), ExampleMshTokens);
  }

  /** The same lines joined by CR LF pass validation. */
  lemma ExampleWithCrlfIsValid()
    ensures Validate(Join(ExampleLines(), "\r\n")) == ValidationResult(true, [])
  {
    ExampleCrlfSegments();
    LineType(0);
    LineType(1);
    LineType(2);
    LineType(3);
    OrderWithAllSegmentsAccepted(Join(ExampleLines(), "\r\n"));
  }
}
