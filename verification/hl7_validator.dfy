/** The HL7 v2 structural validator and parser of hl7-messages/hl7_validator.py.
    The code splits segments on the two-character sequence CR LF and fields on
    a fixed '|'; it reads none of the delimiters the MSH segment declares.
    This module models that code as written. */
module Hl7Validator {
  import opened Text

  /** The segment terminator the code splits on. */
  const SegmentSeparator: string := "\r\n"
  /** The field separator the code splits on, whatever MSH declares. */
  const FieldSeparator: char := '|'

  /** The MSH segment must split into at least this many '|'-tokens. */
  const MinMshTokens: nat := 12
  /** The message type (MSH-9, e.g. `ORM^O01`) is token 8 of the MSH split. */
  const MessageTypeToken: nat := 8

  const EmptyMessageError: string := "Empty message"
  const NoMshError: string := "Message must start with MSH segment"
  const InvalidMshError: string := "Invalid MSH segment"
  const MissingSegmentPrefix: string := "Missing required segment: "

  function MissingSegmentError(tag: string): string {
    MissingSegmentPrefix + tag
  }

  /** The outcome `(is_valid, errors)` of `validate_message`. */
  datatype ValidationResult = ValidationResult(isValid: bool, errors: seq<string>)

  /** The rule table built in `HL7Validator.__init__`: for each known message
      type, the segment tags that must each appear at least once, in order. */
  const RequiredSegments: map<string, seq<string>> := map[
    "ORM^O01" := ["MSH", "PID", "ORC", "OBR"],
    "ORU^R01" := ["MSH", "PID", "OBR", "OBX"],
    "MDM^T02" := ["MSH", "EVN", "PID", "PV1", "TXA"]
  ]

  predicate Distinct(xs: seq<string>) {
    forall i, j :: 0 <= i < j < |xs| ==> xs[i] != xs[j]
  }

  /* ---------------------------------------------------------------------- */
  /* Segments and tokens                                                    */
  /* ---------------------------------------------------------------------- */

  /** `message.strip().split('\r\n')`. */
  function Segments(message: string): (r: seq<string>)
    ensures |r| >= 1
  {
    Split(Strip(message), SegmentSeparator)
  }

  /** `segment.split('|')`. */
  function Tokens(segment: string): (r: seq<string>)
    ensures |r| >= 1
    ensures forall i :: 0 <= i < |r| ==> FieldSeparator !in r[i]
  {
    SplitPiecesAvoidChar(segment, FieldSeparator);
    Split(segment, [FieldSeparator])
  }

  /** `[seg[:3] for seg in segments]`. */
  function SegmentTypes(segments: seq<string>): (r: seq<string>)
    ensures |r| == |segments|
    ensures forall i :: 0 <= i < |r| ==>
              && StartsWith(segments[i], r[i])
              && |r[i]| == if |segments[i]| < 3 then |segments[i]| else 3
  {
    seq(|segments|, i requires 0 <= i < |segments| => Take(segments[i], 3))
  }

  /* ---------------------------------------------------------------------- */
  /* Required segments                                                      */
  /* ---------------------------------------------------------------------- */

  /** The required tags absent from `present`, in the order `required` lists
      them. */
  function MissingTags(required: seq<string>, present: seq<string>): (r: seq<string>)
    ensures |r| <= |required|
    ensures forall t :: t in r <==> t in required && t !in present
    ensures Distinct(required) ==> Distinct(r)
  {
    if |required| == 0 then []
    else
      var rest := MissingTags(required[1..], present);
      assert Distinct(required) ==> Distinct(required[1..]) && required[0] !in required[1..];
      if required[0] !in present then [required[0]] + rest else rest
  }

  /** The missing tags keep the rule's order: the tags missing from an earlier
      stretch of the rule are reported before those of a later stretch. */
  lemma {:induction false} MissingTagsKeepsOrder(a: seq<string>, b: seq<string>, present: seq<string>)
    ensures MissingTags(a + b, present) == MissingTags(a, present) + MissingTags(b, present)
    decreases |a|
  {
    if |a| == 0 {
      assert a + b == b;
    } else {
      assert (a + b)[1..] == a[1..] + b;
      MissingTagsKeepsOrder(a[1..], b, present);
    }
  }

  /** When no required tag is present, all of them are reported, in order. */
  lemma {:induction false} MissingTagsNoneSeen(required: seq<string>, present: seq<string>)
    requires forall i :: 0 <= i < |required| ==> required[i] !in present
    ensures MissingTags(required, present) == required
    decreases |required|
  {
    if |required| > 0 {
      MissingTagsNoneSeen(required[1..], present);
    }
  }

  /** When every required tag is present, none is reported. */
  lemma MissingTagsAllSeen(required: seq<string>, present: seq<string>)
    requires forall i :: 0 <= i < |required| ==> required[i] in present
    ensures MissingTags(required, present) == []
  {
  }

  /** One error per missing tag, in the same order. */
  function MissingErrors(tags: seq<string>): seq<string> {
    seq(|tags|, i requires 0 <= i < |tags| => MissingSegmentError(tags[i]))
  }

  lemma MissingSegmentErrorInjective(a: string, b: string)
    requires MissingSegmentError(a) == MissingSegmentError(b)
    ensures a == b
  {
    var n := |MissingSegmentPrefix|;
    assert MissingSegmentError(a)[n..] == a;
    assert MissingSegmentError(b)[n..] == b;
  }

  /** An error names a tag exactly when the tag is in the list; distinct
      tags give distinct errors. */
  lemma MissingErrorsNameTags(tags: seq<string>)
    ensures |MissingErrors(tags)| == |tags|
    ensures forall t :: MissingSegmentError(t) in MissingErrors(tags) <==> t in tags
    ensures Distinct(tags) ==> Distinct(MissingErrors(tags))
  {
    var errors := MissingErrors(tags);
    forall t
      ensures MissingSegmentError(t) in errors <==> t in tags
    {
      if MissingSegmentError(t) in errors {
        var i :| 0 <= i < |errors| && errors[i] == MissingSegmentError(t);
        MissingSegmentErrorInjective(t, tags[i]);
      }
      if t in tags {
        var i :| 0 <= i < |tags| && tags[i] == t;
        assert errors[i] == MissingSegmentError(t);
      }
    }
    if Distinct(tags) {
      forall i, j | 0 <= i < j < |errors|
        ensures errors[i] != errors[j]
      {
        if errors[i] == errors[j] {
          MissingSegmentErrorInjective(tags[i], tags[j]);
        }
      }
    }
  }

  /** The errors reported for a message whose MSH segment passed its checks:
      the required-segment rule of its type, if the table has one. */
  function RuleErrors(messageType: string, segments: seq<string>): (r: seq<string>)
    ensures messageType !in RequiredSegments ==> r == []
    ensures messageType in RequiredSegments ==>
              var rule := RequiredSegments[messageType];
              && |r| <= |rule|
              && Distinct(r)
              && forall t :: MissingSegmentError(t) in r <==> t in rule && t !in SegmentTypes(segments)
  {
    if messageType in RequiredSegments then
      var rule := RequiredSegments[messageType];
      var tags := MissingTags(rule, SegmentTypes(segments));
      assert Distinct(rule);
      MissingErrorsNameTags(tags);
      MissingErrors(tags)
    else []
  }

  /** The rule of ORM^O01, the order message. */
  lemma OrderRule()
    ensures "ORM^O01" in RequiredSegments
    ensures RequiredSegments["ORM^O01"] == ["MSH", "PID", "ORC", "OBR"]
  {
  }

  /** Types that are all `first` miss every tag of a rule after its first,
      when none of those equals `first`. */
  lemma MissingAfterFirst(first: string, rest: seq<string>, types: seq<string>)
    requires |types| >= 1
    requires forall i :: 0 <= i < |types| ==> types[i] == first
    requires forall i :: 0 <= i < |rest| ==> rest[i] != first
    ensures MissingTags([first] + rest, types) == rest
  {
    assert ([first] + rest)[1..] == rest;
    assert types[0] == first;
    forall i | 0 <= i < |rest|
      ensures rest[i] !in types
    {
    }
    MissingTagsNoneSeen(rest, types);
  }

  lemma MissingErrorsOfThree(a: string, b: string, c: string)
    ensures MissingErrors([a, b, c]) == [MissingSegmentError(a), MissingSegmentError(b), MissingSegmentError(c)]
  {
  }

  /** The ORM^O01 rule against segments all typed MSH: every other required
      tag is missing, in table order. */
  lemma OrderRuleOnMshAlone(segments: seq<string>)
    requires |segments| >= 1
    requires forall i :: 0 <= i < |segments| ==> Take(segments[i], 3) == "MSH"
    ensures RuleErrors("ORM^O01", segments)
         == [MissingSegmentError("PID"), MissingSegmentError("ORC"), MissingSegmentError("OBR")]
  {
    OrderRule();
    assert ["MSH", "PID", "ORC", "OBR"] == ["MSH"] + ["PID", "ORC", "OBR"];
    MissingAfterFirst("MSH", ["PID", "ORC", "OBR"], SegmentTypes(segments));
    MissingErrorsOfThree("PID", "ORC", "OBR");
  }

  /* ---------------------------------------------------------------------- */
  /* validate_message                                                       */
  /* ---------------------------------------------------------------------- */

  /** `HL7Validator.validate_message`. The three early exits return a single
      error; past them the errors are the missing required segments. */
  function Validate(message: string): (v: ValidationResult)
    ensures v.isValid <==> |v.errors| == 0
  {
    var segments := Segments(message);
    if |segments| == 0 then
      ValidationResult(false, [EmptyMessageError])
    else if !StartsWith(segments[0], "MSH") then
      ValidationResult(false, [NoMshError])
    else
      var mshTokens := Tokens(segments[0]);
      if |mshTokens| < MinMshTokens then
        ValidationResult(false, [InvalidMshError])
      else
        var errors := RuleErrors(mshTokens[MessageTypeToken], segments);
        ValidationResult(|errors| == 0, errors)
  }

  /** The checks on the first segment that decide whether validation gets as
      far as the rule table. */
  predicate HasWellFormedMsh(message: string) {
    var first := Segments(message)[0];
    StartsWith(first, "MSH") && |Tokens(first)| >= MinMshTokens
  }

  /** The message type validation reads, once the MSH checks pass. */
  function MessageType(message: string): (r: string)
    requires HasWellFormedMsh(message)
    ensures FieldSeparator !in r
  {
    Tokens(Segments(message)[0])[MessageTypeToken]
  }

  /** A first segment not starting with MSH yields exactly the one MSH
      error. */
  lemma RejectsWithoutMsh(message: string)
    requires !StartsWith(Segments(message)[0], "MSH")
    ensures Validate(message) == ValidationResult(false, [NoMshError])
  {
  }

  /** Empty and whitespace-only messages fall into that case: strip() leaves
      "", which splits into the single segment "". */
  lemma RejectsBlank(message: string)
    requires AllSpace(message)
    ensures Validate(message) == ValidationResult(false, [NoMshError])
  {
    StripOfAllSpace(message);
    SplitWithoutSeparator("", SegmentSeparator);
  }

  /** The "Empty message" branch is dead: split() never returns an empty
      list, so no input gets that error. */
  lemma NeverEmptyMessage(message: string)
    ensures EmptyMessageError !in Validate(message).errors
  {
    var v := Validate(message);
    var segments := Segments(message);
    if StartsWith(segments[0], "MSH") && |Tokens(segments[0])| >= MinMshTokens {
      var t := Tokens(segments[0])[MessageTypeToken];
      if t in RequiredSegments {
        var tags := MissingTags(RequiredSegments[t], SegmentTypes(segments));
        forall i | 0 <= i < |v.errors|
          ensures v.errors[i] != EmptyMessageError
        {
          assert v.errors[i] == MissingSegmentPrefix + tags[i];
          assert v.errors[i][..|MissingSegmentPrefix|] == MissingSegmentPrefix;
        }
      }
    }
  }

  /** An MSH segment with fewer than twelve '|'-tokens yields exactly the one
      invalid-MSH error. */
  lemma RejectsShortMsh(message: string)
    requires StartsWith(Segments(message)[0], "MSH")
    requires |Tokens(Segments(message)[0])| < MinMshTokens
    ensures Validate(message) == ValidationResult(false, [InvalidMshError])
  {
  }

  /** Past the MSH checks, an error is reported for a tag exactly when the
      message type's rule requires it and no segment's three-character
      prefix is that tag; the errors follow the rule's order, are at most as
      many as the rule's tags and never repeat. */
  lemma MissingSegmentsReported(message: string)
    requires HasWellFormedMsh(message)
    requires MessageType(message) in RequiredSegments
    ensures var rule := RequiredSegments[MessageType(message)];
            var types := SegmentTypes(Segments(message));
            && Validate(message).errors == MissingErrors(MissingTags(rule, types))
            && (forall t ::
                  MissingSegmentError(t) in Validate(message).errors <==> t in rule && t !in types)
            && |Validate(message).errors| <= |rule|
            && Distinct(Validate(message).errors)
  {
    ValidateWellFormed(message);
  }

  /** Every rule lists MSH, yet MSH is never reported missing: reaching the
      rule table means the first segment starts with MSH. */
  lemma NeverMissingMsh(message: string)
    ensures MissingSegmentError("MSH") !in Validate(message).errors
  {
    var segments := Segments(message);
    if HasWellFormedMsh(message) && MessageType(message) in RequiredSegments {
      MissingSegmentsReported(message);
      assert SegmentTypes(segments)[0] == "MSH" by {
        assert SegmentTypes(segments)[0] == segments[0][..3];
      }
    } else {
      NeverEmptyMessage(message);
      if MissingSegmentError("MSH") in Validate(message).errors {
        MissingSegmentErrorInjective("MSH", "MSH");
      }
    }
  }

  /** A well-formed MSH naming a type the table does not know gives a valid
      result: unknown types are accepted. */
  lemma AcceptsUnknownType(message: string)
    requires HasWellFormedMsh(message)
    requires MessageType(message) !in RequiredSegments
    ensures Validate(message) == ValidationResult(true, [])
  {
  }

  /** The characters that cut a message into lines, segments and fields. */
  predicate IsDelimiter(c: char) {
    c == FieldSeparator || c == '\r' || c == '\n'
  }

  /** Text holding no delimiter, as a field value of a well-behaved message
      does. */
  predicate Plain(s: string) {
    forall k :: 0 <= k < |s| ==> !IsDelimiter(s[k])
  }

  predicate PlainFields(fields: seq<string>) {
    forall j :: 0 <= j < |fields| ==> Plain(fields[j])
  }

  lemma PlainConcat(a: string, b: string)
    requires Plain(a) && Plain(b)
    ensures Plain(a + b)
  {
  }

  lemma PlainFieldsAvoid(fields: seq<string>, c: char)
    requires PlainFields(fields) && IsDelimiter(c)
    ensures forall j :: 0 <= j < |fields| ==> c !in fields[j]
  {
    forall j, k | 0 <= j < |fields| && 0 <= k < |fields[j]|
      ensures fields[j][k] != c
    {
    }
  }

  /** A segment built from plain fields holds no CR and no LF. */
  lemma PlainSegmentAvoids(fields: seq<string>, c: char)
    requires PlainFields(fields) && (c == '\r' || c == '\n')
    ensures c !in Join(fields, [FieldSeparator])
  {
    PlainFieldsAvoid(fields, c);
    JoinAvoidsChar(fields, [FieldSeparator], c);
  }

  /** Lines joined by a bare LF, with no CR anywhere and no whitespace at
      either end, form a single CR LF segment. */
  lemma {:induction false} LineFeedJoinIsOneSegment(lines: seq<string>)
    requires |lines| >= 1 && |lines[0]| > 0 && !IsSpace(lines[0][0])
    requires forall i :: 0 <= i < |lines| ==> '\r' !in lines[i]
    requires var last := lines[|lines| - 1]; |last| > 0 && !IsSpace(last[|last| - 1])
    ensures Segments(Join(lines, "\n")) == [Join(lines, "\n")]
  {
    var m := Join(lines, "\n");
    var last := lines[|lines| - 1];
    JoinAvoidsChar(lines, "\n", '\r');
    NoFirstCharNoSeparator(m, SegmentSeparator);
    JoinStartsWithFirst(lines, "\n");
    assert m[0] == lines[0][0] by {
      assert m[..|lines[0]|] == lines[0];
    }
    JoinEndsWithLast(lines, "\n");
    assert m[|m| - 1] == last[|last| - 1] by {
      assert m[|m| - |last|..] == last;
    }
    StripOfTrimmed(m);
    SplitWithoutSeparator(m, SegmentSeparator);
  }

  /** The '|'-tokens of lines joined by LF begin with the first line's
      tokens; only the first line's last token runs on into the next line. */
  lemma LineFeedJoinTokens(lines: seq<string>, mshTokens: seq<string>)
    requires |lines| >= 1 && lines[0] == Join(mshTokens, [FieldSeparator]) && |mshTokens| >= 1
    requires forall i :: 0 <= i < |mshTokens| ==> FieldSeparator !in mshTokens[i]
    ensures |Tokens(Join(lines, "\n"))| >= |mshTokens|
    ensures Tokens(Join(lines, "\n"))[..|mshTokens| - 1] == mshTokens[..|mshTokens| - 1]
  {
    var tail := if |lines| == 1 then "" else "\n" + Join(lines[1..], "\n");
    assert Join(lines, "\n") == lines[0] + tail;
    SplitJoinAppend(mshTokens, [FieldSeparator], tail);
  }

  /** Past the MSH checks, the verdict is the rule check of the message
      type, valid exactly when it reports nothing. */
  lemma ValidateWellFormed(message: string)
    requires HasWellFormedMsh(message)
    ensures var errors := RuleErrors(MessageType(message), Segments(message));
            Validate(message) == ValidationResult(|errors| == 0, errors)
  {
  }

  /** A message whose lines are joined by a bare LF, with no CR anywhere, is
      one single segment to the validator: its verdict is the rule check of
      the type in MSH token 8 against the lone segment type MSH. */
  lemma LineFeedMessageIsOneSegment(lines: seq<string>, mshTokens: seq<string>)
    requires |lines| >= 1 && lines[0] == Join(mshTokens, [FieldSeparator])
    requires |mshTokens| >= MinMshTokens && mshTokens[0] == "MSH"
    requires forall i :: 0 <= i < |mshTokens| ==> FieldSeparator !in mshTokens[i]
    requires forall i :: 0 <= i < |lines| ==> '\r' !in lines[i]
    requires var last := lines[|lines| - 1]; |last| > 0 && !IsSpace(last[|last| - 1])
    ensures Segments(Join(lines, "\n")) == [Join(lines, "\n")]
    ensures Key(Join(lines, "\n")) == "MSH"
    ensures HasWellFormedMsh(Join(lines, "\n"))
    ensures MessageType(Join(lines, "\n")) == mshTokens[MessageTypeToken]
  {
    var m := Join(lines, "\n");
    JoinStartsWithFirst(mshTokens, [FieldSeparator]);
    JoinStartsWithFirst(lines, "\n");
    assert m[..3] == "MSH" by {
      assert m[..|lines[0]|] == lines[0];
      assert lines[0][..3] == "MSH";
    }
    LineFeedJoinIsOneSegment(lines);
    LineFeedJoinTokens(lines, mshTokens);
    assert HasWellFormedMsh(m);
    assert MessageType(m) == mshTokens[MessageTypeToken];
    assert Key(m) == "MSH";
  }

  /** The ORM^O01 rule is met by segments typed MSH, PID, ORC and OBR. */
  lemma OrderRuleMet(segments: seq<string>)
    requires |segments| == 4
    requires Take(segments[0], 3) == "MSH" && Take(segments[1], 3) == "PID"
    requires Take(segments[2], 3) == "ORC" && Take(segments[3], 3) == "OBR"
    ensures RuleErrors("ORM^O01", segments) == []
  {
    assert SegmentTypes(segments) == ["MSH", "PID", "ORC", "OBR"];
    MissingTagsAllSeen(RequiredSegments["ORM^O01"], SegmentTypes(segments));
  }

  /** An ORM^O01 message whose segments are typed MSH, PID, ORC and OBR is
      valid. */
  lemma OrderWithAllSegmentsAccepted(message: string)
    requires HasWellFormedMsh(message) && MessageType(message) == "ORM^O01"
    requires var segments := Segments(message);
      && |segments| == 4
      && Take(segments[0], 3) == "MSH" && Take(segments[1], 3) == "PID"
      && Take(segments[2], 3) == "ORC" && Take(segments[3], 3) == "OBR"
    ensures Validate(message) == ValidationResult(true, [])
  {
    ValidateWellFormed(message);
    OrderRuleMet(Segments(message));
  }

  /** An ORM^O01 message read as a single segment misses PID, ORC and OBR,
      reported in that order. */
  lemma OrderAsOneSegmentRejected(message: string)
    requires Segments(message) == [message] && HasWellFormedMsh(message)
    requires MessageType(message) == "ORM^O01"
    ensures Validate(message) == ValidationResult(false, [
              MissingSegmentError("PID"), MissingSegmentError("ORC"), MissingSegmentError("OBR")])
  {
    ValidateWellFormed(message);
    assert Take(message, 3) == "MSH";
    OrderRuleOnMshAlone([message]);
  }

  /** Lines joined by CR LF, with no CR inside a line and no whitespace at
      either end, split back into exactly those lines. */
  lemma CrlfJoinSegments(lines: seq<string>)
    requires |lines| >= 1 && |lines[0]| > 0 && !IsSpace(lines[0][0])
    requires forall i :: 0 <= i < |lines| ==> '\r' !in lines[i]
    requires var last := lines[|lines| - 1]; |last| > 0 && !IsSpace(last[|last| - 1])
    ensures Segments(Join(lines, SegmentSeparator)) == lines
  {
    var m := Join(lines, SegmentSeparator);
    var last := lines[|lines| - 1];
    JoinStartsWithFirst(lines, SegmentSeparator);
    assert m[0] == lines[0][0] by {
      assert m[..|lines[0]|] == lines[0];
    }
    JoinEndsWithLast(lines, SegmentSeparator);
    assert m[|m| - 1] == last[|last| - 1] by {
      assert m[|m| - |last|..] == last;
    }
    StripOfTrimmed(m);
    SplitJoin(lines, SegmentSeparator);
  }

  /** A message whose lines are joined by CR LF: the validator sees every
      line as a segment, and its verdict is the rule check of the type in
      MSH token 8 against the lines' three-character prefixes. */
  lemma CrlfMessageWellFormed(lines: seq<string>, mshTokens: seq<string>)
    requires |lines| >= 1 && lines[0] == Join(mshTokens, [FieldSeparator])
    requires |mshTokens| >= MinMshTokens && mshTokens[0] == "MSH"
    requires forall i :: 0 <= i < |mshTokens| ==> FieldSeparator !in mshTokens[i]
    requires forall i :: 0 <= i < |lines| ==> '\r' !in lines[i]
    requires var last := lines[|lines| - 1]; |last| > 0 && !IsSpace(last[|last| - 1])
    ensures Segments(Join(lines, SegmentSeparator)) == lines
    ensures HasWellFormedMsh(Join(lines, SegmentSeparator))
    ensures MessageType(Join(lines, SegmentSeparator)) == mshTokens[MessageTypeToken]
  {
    var m := Join(lines, SegmentSeparator);
    JoinStartsWithFirst(mshTokens, [FieldSeparator]);
    assert lines[0][..3] == "MSH";
    CrlfJoinSegments(lines);
    SplitJoin(mshTokens, [FieldSeparator]);
    assert HasWellFormedMsh(m);
  }

  /* ---------------------------------------------------------------------- */
  /* parse_message                                                          */
  /* ---------------------------------------------------------------------- */

  /** The dictionary key of a segment: its text before the first '|'. */
  function Key(segment: string): (k: string)
    ensures StartsWith(segment, k) && FieldSeparator !in k
    ensures |k| == |segment| || segment[|k|] == FieldSeparator
  {
    var parts := Tokens(segment);
    SplitJoinsBack(segment, [FieldSeparator]);
    JoinStartsWithFirst(parts, [FieldSeparator]);
    assert |parts| > 1 ==> segment == parts[0] + [FieldSeparator] + Join(parts[1..], [FieldSeparator]);
    parts[0]
  }

  /** The segments with a given key, in input order. */
  function WithKey(segments: seq<string>, key: string): (r: seq<string>)
    ensures |r| <= |segments|
    ensures forall i :: 0 <= i < |r| ==> Key(r[i]) == key && r[i] in segments
  {
    if |segments| == 0 then []
    else
      var init := segments[..|segments| - 1];
      var last := segments[|segments| - 1];
      WithKey(init, key) + (if Key(last) == key then [last] else [])
  }

  /** Token lists of a run of segments. */
  function TokenLists(segments: seq<string>): seq<seq<string>> {
    seq(|segments|, i requires 0 <= i < |segments| => Tokens(segments[i]))
  }

  /** Joining a token list with '|' gives its segment back. */
  lemma TokenListsRejoin(segments: seq<string>)
    ensures |TokenLists(segments)| == |segments|
    ensures forall i :: 0 <= i < |segments| ==> Join(TokenLists(segments)[i], [FieldSeparator]) == segments[i]
  {
    forall i | 0 <= i < |segments|
      ensures Join(TokenLists(segments)[i], [FieldSeparator]) == segments[i]
    {
      SplitJoinsBack(segments[i], [FieldSeparator]);
    }
  }

  /** The keys of a run of segments. */
  function Keys(segments: seq<string>): set<string> {
    set s | s in segments :: Key(s)
  }

  lemma KeysOfOne(segment: string)
    ensures Keys([segment]) == {Key(segment)}
  {
  }

  /** A segment appears under its own key as often as it appears in the
      input, and under no other key. */
  /** Appending one element adds one to its count and nothing to others. */
  lemma SnocCount(xs: seq<string>, x: string, s: string)
    ensures multiset(xs + [x])[s] == multiset(xs)[s] + if x == s then 1 else 0
  {
    assert multiset(xs + [x]) == multiset(xs) + multiset{x};
  }

  lemma {:induction false} WithKeyCounts(segments: seq<string>, key: string, s: string)
    ensures multiset(WithKey(segments, key))[s]
         == if Key(s) == key then multiset(segments)[s] else 0
    decreases |segments|
  {
    if |segments| > 0 {
      var init := segments[..|segments| - 1];
      var last := segments[|segments| - 1];
      WithKeyCounts(init, key, s);
      assert segments == init + [last];
      WithKeySnoc(init, last, key);
      SnocCount(init, last, s);
      if Key(last) == key {
        SnocCount(WithKey(init, key), last, s);
      }
    }
  }

  lemma WithKeySnoc(segments: seq<string>, segment: string, key: string)
    ensures WithKey(segments + [segment], key)
         == WithKey(segments, key) + (if Key(segment) == key then [segment] else [])
  {
    assert (segments + [segment])[..|segments|] == segments;
  }

  lemma TokenListsAppend(a: seq<string>, b: seq<string>)
    ensures TokenLists(a + b) == TokenLists(a) + TokenLists(b)
  {
  }

  /** A key that no segment has holds no segments. */
  lemma {:induction false} WithAbsentKey(segments: seq<string>, key: string)
    requires key !in Keys(segments)
    ensures WithKey(segments, key) == []
    decreases |segments|
  {
    if |segments| > 0 {
      var init := segments[..|segments| - 1];
      var last := segments[|segments| - 1];
      assert Key(last) in Keys(segments);
      assert Keys(init) <= Keys(segments);
      WithAbsentKey(init, key);
    }
  }

  /** The appended segment's own key gains its token list at the end. */
  lemma ParseStepOwnKey(prior: seq<seq<string>>, segments: seq<string>, segment: string)
    requires prior == TokenLists(WithKey(segments, Key(segment)))
    ensures prior + [Tokens(segment)] == TokenLists(WithKey(segments + [segment], Key(segment)))
  {
    var key := Key(segment);
    WithKeySnoc(segments, segment, key);
    TokenListsAppend(WithKey(segments, key), [segment]);
    assert TokenLists([segment]) == [Tokens(segment)];
  }

  /** Any other key keeps its list. */
  lemma ParseStepOtherKey(segments: seq<string>, segment: string, k: string)
    requires k != Key(segment)
    ensures WithKey(segments + [segment], k) == WithKey(segments, k)
  {
    WithKeySnoc(segments, segment, k);
  }

  /** One key's list after appending a segment. */
  lemma ParseStepAt(parsed: map<string, seq<seq<string>>>, segments: seq<string>, segment: string, k: string)
    requires parsed.Keys == Keys(segments)
    requires forall k :: k in parsed ==> parsed[k] == TokenLists(WithKey(segments, k))
    requires k in parsed || k == Key(segment)
    ensures var key := Key(segment);
            var prior := if key in parsed then parsed[key] else [];
            parsed[key := prior + [Tokens(segment)]][k] == TokenLists(WithKey(segments + [segment], k))
  {
    var key := Key(segment);
    if k == key {
      if key !in parsed {
        WithAbsentKey(segments, key);
      }
      var prior := if key in parsed then parsed[key] else [];
      ParseStepOwnKey(prior, segments, segment);
    } else {
      ParseStepOtherKey(segments, segment, k);
    }
  }

  /** Appending a segment adds its key and appends its token list under that
      key, leaving the other keys' lists alone. */
  lemma ParseStep(parsed: map<string, seq<seq<string>>>, segments: seq<string>, segment: string)
    requires parsed.Keys == Keys(segments)
    requires forall k :: k in parsed ==> parsed[k] == TokenLists(WithKey(segments, k))
    ensures var key := Key(segment);
            var prior := if key in parsed then parsed[key] else [];
            var next := parsed[key := prior + [Tokens(segment)]];
            && next.Keys == Keys(segments + [segment])
            && forall k :: k in next ==> next[k] == TokenLists(WithKey(segments + [segment], k))
  {
    var key := Key(segment);
    assert Keys(segments + [segment]) == Keys(segments) + {key};
    forall k | k in parsed || k == key
      ensures var prior := if key in parsed then parsed[key] else [];
              parsed[key := prior + [Tokens(segment)]][k] == TokenLists(WithKey(segments + [segment], k))
    {
      ParseStepAt(parsed, segments, segment, k);
    }
  }

  /** The dictionary `parse_message` builds: for each segment in order, its
      '|'-token list appended under its first token. */
  function Group(segments: seq<string>): (r: map<string, seq<seq<string>>>)
    ensures forall k :: k in r ==> |r[k]| >= 1
    ensures forall k :: k in r ==> forall j :: 0 <= j < |r[k]| ==> |r[k][j]| >= 1 && r[k][j][0] == k
    decreases |segments|
  {
    if |segments| == 0 then map[]
    else
      var parsed := Group(segments[..|segments| - 1]);
      var parts := Tokens(segments[|segments| - 1]);
      var key := parts[0];
      parsed[key := (if key in parsed then parsed[key] else []) + [parts]]
  }

  /** The grouping holds, under each key, exactly the token lists of the
      segments with that key, in input order. */
  lemma {:induction false} GroupByKey(segments: seq<string>)
    ensures Group(segments).Keys == Keys(segments)
    ensures forall k :: k in Group(segments) ==> Group(segments)[k] == TokenLists(WithKey(segments, k))
    decreases |segments|
  {
    if |segments| > 0 {
      var init := segments[..|segments| - 1];
      var last := segments[|segments| - 1];
      GroupByKey(init);
      ParseStep(Group(init), init, last);
      assert init + [last] == segments;
    }
  }

  /** The loop of `parse_message` over the segments: the token lists of the
      segments grouped under their first token. */
  method GroupSegments(segments: seq<string>) returns (parsed: map<string, seq<seq<string>>>)
    ensures parsed.Keys == Keys(segments)
    ensures forall k :: k in parsed ==> parsed[k] == TokenLists(WithKey(segments, k))
  {
    parsed := map[];
    var i := 0;
    while i < |segments|
      invariant 0 <= i <= |segments|
      invariant parsed == Group(segments[..i])
    {
      var segment := segments[i];
      var parts := Tokens(segment);
      var segmentType := parts[0];
      assert segments[..i + 1][..i] == segments[..i];
      if segmentType !in parsed {
        parsed := parsed[segmentType := []];
      }
      parsed := parsed[segmentType := parsed[segmentType] + [parts]];
      i := i + 1;
    }
    assert segments[..i] == segments;
    GroupByKey(segments);
  }

  /** `HL7Validator.parse_message`: groups the '|'-token lists of the
      stripped message's CR LF segments under their first token. Each key
      holds the token lists of exactly the segments with that key, in input
      order, so repeated tags stay separate entries. */
  method Parse(message: string) returns (parsed: map<string, seq<seq<string>>>)
    ensures parsed.Keys == Keys(Segments(message))
    ensures forall k :: k in parsed ==> parsed[k] == TokenLists(WithKey(Segments(message), k))
  {
    parsed := GroupSegments(Segments(message));
  }
}
