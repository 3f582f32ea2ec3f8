// The text of the bucket policies the server generates: one document shape
// with an action block, a principal and the bucket's resource ARN, and the
// quoted action list inside it.
module PolicyText {
  import opened Common

  /** The actions of the default (read, write, delete, list) policy, in document order. */
  const DEFAULT_ACTIONS: seq<string> := [
    "s3:ListAllMyBuckets", "s3:ListBucket", "s3:GetBucketLocation",
    "s3:GetObject", "s3:PutObject", "s3:DeleteObject"]

  /** The single action of the read-only policy. */
  const READONLY_ACTIONS: seq<string> := ["s3:GetObject"]

  /** The indentation of the fixed action lists of the default and read-only policies. */
  const ACTION_INDENT: string := "                "

  const ARN_PREFIX: string := "arn:aws:s3:::"

  /** What follows the bucket name to the end of every document. */
  const RESOURCE_TAIL: string := "/*\"\n" + "      ]\n" + "    }\n" + "  ]\n" + "}"

  /** One action line: indentation, the quoted action, then ",\n" or, for the last one, "\n". */
  function ActionLine(indent: string, action: string, last: bool): string
  {
    indent + "\"" + action + (if last then "\"\n" else "\",\n")
  }

  /** The action lines of a list; an empty list gives an empty block. */
  function ActionBlock(indent: string, actions: seq<string>): (block: string)
    ensures |actions| == 0 <==> block == ""
  {
    if |actions| == 0 then ""
    else if |actions| == 1 then ActionLine(indent, actions[0], true)
    else ActionLine(indent, actions[0], false) + ActionBlock(indent, actions[1..])
  }

  /**
   * A whole policy: one Allow statement with the given action lines, principal
   * line(s), and a resource naming every object of the bucket.
   */
  function PolicyDocument(actionBlock: string, principal: string, bucketName: string): string
  {
    "{\n"
    + "  \"Version\": \"2012-10-17\",\n"
    + "  \"Statement\": [\n"
    + "    {\n"
    + "      \"Effect\": \"Allow\",\n"
    + "      \"Action\": [\n"
    + actionBlock
    + "      ],\n"
    + principal
    + "      \"Resource\": [\n"
    + "        \"" + ARN_PREFIX + bucketName + RESOURCE_TAIL
  }

  /** Every document ends with the bucket's resource ARN, the bucket name inserted verbatim. */
  lemma DocumentResource(actionBlock: string, principal: string, bucketName: string)
    ensures EndsWith(PolicyDocument(actionBlock, principal, bucketName), ARN_PREFIX + bucketName + RESOURCE_TAIL)
  {
    var doc := PolicyDocument(actionBlock, principal, bucketName);
    var tail := ARN_PREFIX + bucketName + RESOURCE_TAIL;
    var head := "{\n"
      + "  \"Version\": \"2012-10-17\",\n"
      + "  \"Statement\": [\n"
      + "    {\n"
      + "      \"Effect\": \"Allow\",\n"
      + "      \"Action\": [\n"
      + actionBlock
      + "      ],\n"
      + principal
      + "      \"Resource\": [\n"
      + "        \"";
    assert doc == head + tail;
    assert doc[|doc| - |tail|..] == tail;
  }

  /**
   * Reads an action block back: lines `indent"name",` and a final
   * `indent"name"` line; None for text of any other shape.
   */
  function ParseActionBlock(indent: string, s: string): Option<seq<string>>
    decreases |s|
  {
    if s == "" then Some([])
    else if !StartsWith(s, indent + "\"") then None
    else
      var body := s[|indent| + 1..];
      var k := IndexOf(body, '"');
      if k < 0 then None
      else
        var name := body[..k];
        var rest := body[k + 1..];
        if rest == "\n" then Some([name])
        else if StartsWith(rest, ",\n") && |rest| > 2 then
          match ParseActionBlock(indent, rest[2..])
          case Some(tail) => Some([name] + tail)
          case None => None
        else None
  }

  /** Reading one line's quoted name stops at the closing quote. */
  lemma ParseLine(indent: string, action: string, after: string)
    requires '"' !in action
    ensures var s := indent + "\"" + action + "\"" + after;
      StartsWith(s, indent + "\"")
      && IndexOf(s[|indent| + 1..], '"') == |action|
      && s[|indent| + 1..][..|action|] == action
      && s[|indent| + 1..][|action| + 1..] == after
  {
    var s := indent + "\"" + action + "\"" + after;
    assert s[..|indent + "\""|] == indent + "\"";
    var body := s[|indent| + 1..];
    assert body == action + "\"" + after;
    assert body[..|action|] == action;
    assert body[|action|] == '"';
  }

  /** A final line reads back as its one name. */
  lemma ParseLastLine(indent: string, action: string)
    requires '"' !in action
    ensures ParseActionBlock(indent, ActionLine(indent, action, true)) == Some([action])
  {
    ParseLine(indent, action, "\n");
    assert ActionLine(indent, action, true) == indent + "\"" + action + "\"" + "\n";
  }

  /** A non-final line followed by more text: the quoted name, then ",\n" and the rest. */
  lemma InnerLineText(indent: string, action: string, rest: string)
    ensures ActionLine(indent, action, false) + rest == indent + "\"" + action + "\"" + (",\n" + rest)
  {
    var q := indent + "\"" + action;
    assert "\",\n" == "\"" + ",\n";
    assert q + "\",\n" + rest == q + "\"" + (",\n" + rest);
  }

  /** A non-final line reads back as its name followed by what the rest reads as. */
  lemma ParseInnerLine(indent: string, action: string, rest: string)
    requires '"' !in action && rest != ""
    ensures ParseActionBlock(indent, ActionLine(indent, action, false) + rest)
      == match ParseActionBlock(indent, rest)
         case Some(tail) => Some([action] + tail)
         case None => None
  {
    var after := ",\n" + rest;
    InnerLineText(indent, action, rest);
    ParseLine(indent, action, after);
    ConcatSlices(",\n", rest);
    assert after != "\n" && StartsWith(after, ",\n") && |after| > 2;
  }

  /** An action list whose names contain no '"' reads back from its block. */
  lemma {:induction false} ActionBlockRoundTrip(indent: string, actions: seq<string>)
    requires forall i :: 0 <= i < |actions| ==> '"' !in actions[i]
    ensures ParseActionBlock(indent, ActionBlock(indent, actions)) == Some(actions)
  {
    if |actions| == 1 {
      ParseLastLine(indent, actions[0]);
      assert actions == [actions[0]];
    } else if |actions| > 1 {
      var rest := actions[1..];
      assert forall i :: 0 <= i < |rest| ==> rest[i] == actions[i + 1];
      ActionBlockRoundTrip(indent, rest);
      RoundTripStep(indent, actions[0], rest);
      HeadRest(actions);
    }
  }

  /** One more quoted line in front of a block that reads back still reads back. */
  lemma RoundTripStep(indent: string, first: string, rest: seq<string>)
    requires '"' !in first && |rest| > 0
    requires ParseActionBlock(indent, ActionBlock(indent, rest)) == Some(rest)
    ensures ParseActionBlock(indent, ActionBlock(indent, [first] + rest)) == Some([first] + rest)
  {
    var block := ActionBlock(indent, rest);
    assert ([first] + rest)[1..] == rest;
    ParseInnerLine(indent, first, block);
  }

  /** No action name of the fixed policies contains '"'. */
  lemma FixedActionsUnquoted()
    ensures forall i :: 0 <= i < |DEFAULT_ACTIONS| ==> '"' !in DEFAULT_ACTIONS[i]
    ensures forall i :: 0 <= i < |READONLY_ACTIONS| ==> '"' !in READONLY_ACTIONS[i]
  {
    forall i | 0 <= i < |DEFAULT_ACTIONS|
      ensures '"' !in DEFAULT_ACTIONS[i]
    {
    }
  }

  /** The fixed blocks of the default and read-only documents read back as exactly their action lists. */
  lemma FixedBlocksReadBack()
    ensures ParseActionBlock(ACTION_INDENT, ActionBlock(ACTION_INDENT, DEFAULT_ACTIONS)) == Some(DEFAULT_ACTIONS)
    ensures ParseActionBlock(ACTION_INDENT, ActionBlock(ACTION_INDENT, READONLY_ACTIONS)) == Some(READONLY_ACTIONS)
  {
    FixedActionsUnquoted();
    ActionBlockRoundTrip(ACTION_INDENT, DEFAULT_ACTIONS);
    ActionBlockRoundTrip(ACTION_INDENT, READONLY_ACTIONS);
  }

  /** Different action lists (without '"') give different blocks. */
  lemma ActionBlockInjective(indent: string, a: seq<string>, b: seq<string>)
    requires forall i :: 0 <= i < |a| ==> '"' !in a[i]
    requires forall i :: 0 <= i < |b| ==> '"' !in b[i]
    requires ActionBlock(indent, a) == ActionBlock(indent, b)
    ensures a == b
  {
    ActionBlockRoundTrip(indent, a);
    ActionBlockRoundTrip(indent, b);
  }

  /**
   * The action-block loop of the custom policy builders: each action in
   * quotes, followed by ",\n", except the last, which ends with "\n" and
   * stops the loop.
   */
  method BuildActionBlock(actions: seq<string>) returns (rule: string)
    ensures rule == ActionBlock("", actions)
  {
    rule := "";
    var i := 0;
    while i < |actions|
      invariant 0 <= i <= |actions|
      invariant rule + ActionBlock("", actions[i..]) == ActionBlock("", actions)
    {
      assert actions[i..][1..] == actions[i + 1..];
      rule := rule + "\"";
      rule := rule + actions[i];
      if i == |actions| - 1 {
        rule := rule + "\"\n";
        assert actions[i + 1..] == [];
        break;
      }
      rule := rule + "\",\n";
      i := i + 1;
    }
    if i == |actions| {
      assert actions[i..] == [];
    }
  }
}
