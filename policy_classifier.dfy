// The web console's view of bucket policies: the classifier that names the
// kind of a policy document, the labels it shows, and the preset documents it
// fills in for each kind. JSON parsing is outside the model: the parsed
// document is passed in beside its text.
module PolicyClassifier {
  import opened Common
  import opened PolicyText

  const PUBLIC: string := "public"
  const READONLY: string := "readonly"
  const PRIVATE: string := "private"
  const CUSTOM: string := "custom"

  /** The value of a statement's `Principal.AWS`: an array or a single string. */
  datatype AwsValue = AwsList(items: seq<string>) | AwsString(text: string)

  /** A statement's `Principal`: missing, a plain string such as "*", or an object with an optional `AWS` member. */
  datatype Principal = NoPrincipal | PrincipalString(text: string) | PrincipalObject(aws: Option<AwsValue>)

  /** A statement's `Action`: an array of names or a single name. */
  datatype ActionValue = ActionList(names: seq<string>) | ActionString(name: string)

  datatype Statement = Statement(action: Option<ActionValue>, principal: Principal)

  /** A parsed policy: its `Statement` member, when present. */
  datatype PolicyJson = PolicyJson(statement: Option<seq<Statement>>)

  /** What `JSON.parse` gives for the text: a document, or a thrown syntax error. */
  datatype ParseOutcome = Unparseable | Parsed(policy: PolicyJson)

  /** `statement.Action || []`, as `concat` spreads it: an array's items, or a non-empty string alone. */
  function ActionsOf(st: Statement): seq<string>
  {
    match st.action
    case None => []
    case Some(ActionList(names)) => names
    case Some(ActionString(name)) => if name == "" then [] else [name]
  }

  /** `principal && principal.AWS && principal.AWS.includes('*')`. */
  predicate IsPublicPrincipal(p: Principal)
  {
    match p
    case PrincipalObject(Some(AwsList(items))) => "*" in items
    case PrincipalObject(Some(AwsString(text))) => Contains(text, "*")
    case _ => false
  }

  /** Every statement's actions, concatenated in statement order. */
  function AllActions(statements: seq<Statement>): seq<string>
  {
    if |statements| == 0 then []
    else AllActions(statements[..|statements| - 1]) + ActionsOf(statements[|statements| - 1])
  }

  predicate AnyPublic(statements: seq<Statement>)
  {
    exists i :: 0 <= i < |statements| && IsPublicPrincipal(statements[i].principal)
  }

  predicate IsListAction(action: string)
  {
    Contains(action, "s3:ListBucket") || Contains(action, "s3:ListAllMyBuckets")
      || Contains(action, "s3:ListBucketMultipartUploads")
  }

  predicate HasListAction(actions: seq<string>)
  {
    exists i :: 0 <= i < |actions| && IsListAction(actions[i])
  }

  /**
   * The kind of a non-empty statement list: custom without a public
   * principal; otherwise public for read, delete and list, read-only for read
   * alone, custom for anything else.
   */
  function Classify(actions: seq<string>, hasPublicPrincipal: bool): (kind: string)
    ensures kind == PUBLIC || kind == READONLY || kind == CUSTOM
    ensures !hasPublicPrincipal ==> kind == CUSTOM
    ensures hasPublicPrincipal ==>
      (kind == PUBLIC <==> "s3:GetObject" in actions && "s3:DeleteObject" in actions && HasListAction(actions))
    ensures hasPublicPrincipal ==>
      (kind == READONLY <==> ("s3:GetObject" in actions && "s3:PutObject" !in actions
                              && "s3:DeleteObject" !in actions && !HasListAction(actions)))
  {
    if !hasPublicPrincipal then CUSTOM
    else
      var hasGetObject := "s3:GetObject" in actions;
      var hasPutObject := "s3:PutObject" in actions;
      var hasDeleteObject := "s3:DeleteObject" in actions;
      var hasListOperations := HasListAction(actions);
      if hasGetObject && hasDeleteObject && hasListOperations then PUBLIC
      else if hasGetObject && !hasPutObject && !hasDeleteObject && !hasListOperations then READONLY
      else CUSTOM
  }

  /** determinePolicyType, stated over the text and what it parses to. */
  function PolicyType(policyJson: Option<string>, parsed: ParseOutcome): string
  {
    if JsBlankOpt(policyJson) then PRIVATE
    else match parsed
      case Unparseable => CUSTOM
      case Parsed(policy) =>
        if policy.statement.None? || |policy.statement.value| == 0 then PRIVATE
        else Classify(AllActions(policy.statement.value), AnyPublic(policy.statement.value))
  }

  /**
   * determinePolicyType: blank text or an empty statement list is private,
   * text that does not parse is custom, and otherwise the statements' actions
   * and principals decide.
   */
  method DeterminePolicyType(policyJson: Option<string>, parsed: ParseOutcome) returns (kind: string)
    ensures kind == PolicyType(policyJson, parsed)
  {
    if JsBlankOpt(policyJson) {
      return PRIVATE;
    }
    if parsed.Unparseable? {
      return CUSTOM;
    }
    var policy := parsed.policy;
    if policy.statement.None? || |policy.statement.value| == 0 {
      return PRIVATE;
    }
    var statements := policy.statement.value;
    var allActions: seq<string> := [];
    var hasPublicPrincipal := false;
    var i := 0;
    while i < |statements|
      invariant 0 <= i <= |statements|
      invariant allActions == AllActions(statements[..i])
      invariant hasPublicPrincipal == AnyPublic(statements[..i])
    {
      assert statements[..i + 1][..i] == statements[..i];
      if IsPublicPrincipal(statements[i].principal) {
        hasPublicPrincipal := true;
      }
      assert hasPublicPrincipal == AnyPublic(statements[..i + 1]) by {
        assert statements[..i + 1][i] == statements[i];
      }
      allActions := allActions + ActionsOf(statements[i]);
      i := i + 1;
    }
    assert statements[..i] == statements;
    kind := Classify(allActions, hasPublicPrincipal);
  }

  /**
   * Only blank text or an absent or empty statement list is classified
   * private: the private branch after the principal check can never be taken.
   */
  lemma PrivateOnlyWithoutStatements(policyJson: Option<string>, parsed: ParseOutcome)
    ensures PolicyType(policyJson, parsed) == PRIVATE <==>
      JsBlankOpt(policyJson)
      || (parsed.Parsed? && (parsed.policy.statement.None? || |parsed.policy.statement.value| == 0))
  {
  }

  /** Statements of which none has a public principal are custom. */
  lemma NoPublicPrincipalIsCustom(policyJson: Option<string>, statements: seq<Statement>)
    requires !JsBlankOpt(policyJson) && |statements| > 0 && !AnyPublic(statements)
    ensures PolicyType(policyJson, Parsed(PolicyJson(Some(statements)))) == CUSTOM
  {
  }

  /**
   * The page's blank test is `trim()`: text made of U+001C alone is not
   * blank there (though it is to the server's isBlank) and fails to parse,
   * so it is custom; text of U+00A0 alone is blank and so private.
   */
  lemma BlankIsTrimBlank()
    ensures PolicyType(Some("\U{001C}"), Unparseable) == CUSTOM
    ensures PolicyType(Some("\U{00A0}"), Unparseable) == PRIVATE
  {
    BlankTestsDiffer();
  }

  /** getPolicyTypeLabel: the four kinds get their display names; anything else is shown as is. */
  function PolicyTypeLabel(policyType: string): (display: string)
    ensures policyType !in {PUBLIC, READONLY, PRIVATE, CUSTOM} ==> display == policyType
  {
    if policyType == PUBLIC then "公有"
    else if policyType == READONLY then "只读"
    else if policyType == PRIVATE then "私有"
    else if policyType == CUSTOM then "自定义"
    else policyType
  }

  /** The four kinds get four different labels, none of them a kind's own name. */
  lemma LabelsDistinct(a: string, b: string)
    requires a in {PUBLIC, READONLY, PRIVATE, CUSTOM} && b in {PUBLIC, READONLY, PRIVATE, CUSTOM}
    ensures PolicyTypeLabel(a) == PolicyTypeLabel(b) <==> a == b
    ensures PolicyTypeLabel(a) !in {PUBLIC, READONLY, PRIVATE, CUSTOM}
  {
  }

  const PUBLIC_BUCKET_ACTIONS: seq<string> := ["s3:GetBucketLocation", "s3:ListBucket", "s3:ListBucketMultipartUploads"]
  const PUBLIC_OBJECT_ACTIONS: seq<string> :=
    ["s3:GetObject", "s3:ListMultipartUploadParts", "s3:PutObject", "s3:AbortMultipartUpload", "s3:DeleteObject"]

  /** The opening of every preset document, up to its statement list. */
  const PRESET_HEAD: string := "{\n  \"Version\": \"2012-10-17\",\n  \"Statement\": "

  /** applyPresetPolicy: the document it fills in for a kind, with the bucket inserted; nothing for other kinds. */
  function PresetPolicy(policyType: string, bucket: string): (policy: Option<string>)
    ensures policy.Some? <==> policyType in {PUBLIC, READONLY, PRIVATE}
  {
    if policyType in {PUBLIC, READONLY, PRIVATE} then Some(PRESET_HEAD + PresetStatements(policyType, bucket)) else None
  }

  /** The public preset up to its first bucket name: the bucket-level statement. */
  const PUBLIC_OPEN: string :=
    "[\n    {\n      \"Effect\": \"Allow\",\n"
    + "      \"Principal\": {\"AWS\": [\"*\"]},\n"
    + "      \"Action\": [\"s3:GetBucketLocation\", \"s3:ListBucket\", \"s3:ListBucketMultipartUploads\"],\n"
    + "      \"Resource\": [\"arn:aws:s3:::"

  /** Between the public preset's two bucket names: the object-level statement. */
  const PUBLIC_MIDDLE: string :=
    "\"]\n    },\n    {\n      \"Effect\": \"Allow\",\n"
    + "      \"Principal\": {\"AWS\": [\"*\"]},\n"
    + "      \"Action\": [\"s3:GetObject\", \"s3:ListMultipartUploadParts\", \"s3:PutObject\", \"s3:AbortMultipartUpload\", \"s3:DeleteObject\"],\n"
    + "      \"Resource\": [\"arn:aws:s3:::"

  /** The read-only preset up to its bucket name. */
  const READONLY_OPEN: string :=
    "[\n    {\n      \"Effect\": \"Allow\",\n"
    + "      \"Principal\": {\"AWS\": [\"*\"]},\n"
    + "      \"Action\": [\"s3:GetObject\"],\n"
    + "      \"Resource\": [\"arn:aws:s3:::"

  /** What follows the last bucket name of the public and read-only presets. */
  const OBJECTS_CLOSE: string := "/*\"]\n    }\n  ]\n}"

  /** The statement list of each preset and the rest of its document. */
  function PresetStatements(policyType: string, bucket: string): string
  {
    if policyType == PUBLIC then PUBLIC_OPEN + bucket + PUBLIC_MIDDLE + bucket + OBJECTS_CLOSE
    else if policyType == READONLY then READONLY_OPEN + bucket + OBJECTS_CLOSE
    else "[]\n}"
  }

  /** The principal object {"AWS": ["*"]} of the presets and of the server's own documents. */
  const AWS_ANYONE: Principal := PrincipalObject(Some(AwsList(["*"])))

  /** What the preset documents parse to (Effect and Resource do not affect the kind and are omitted). */
  function PresetParsed(policyType: string): ParseOutcome
  {
    if policyType == PUBLIC then
      Parsed(PolicyJson(Some([Statement(Some(ActionList(PUBLIC_BUCKET_ACTIONS)), AWS_ANYONE),
                              Statement(Some(ActionList(PUBLIC_OBJECT_ACTIONS)), AWS_ANYONE)])))
    else if policyType == READONLY then
      Parsed(PolicyJson(Some([Statement(Some(ActionList(READONLY_ACTIONS)), AWS_ANYONE)])))
    else Parsed(PolicyJson(Some([])))
  }

  lemma PresetNotBlank(policyType: string, bucket: string)
    requires policyType in {PUBLIC, READONLY, PRIVATE}
    ensures !JsBlank(PresetPolicy(policyType, bucket).value)
  {
    var rest := PresetStatements(policyType, bucket);
    assert PresetPolicy(policyType, bucket).value == PRESET_HEAD + rest;
    HeadNotBlank(rest);
  }

  lemma HeadNotBlank(rest: string)
    ensures !JsBlank(PRESET_HEAD + rest)
  {
    assert PRESET_HEAD[0] == '{';
    assert (PRESET_HEAD + rest)[0] == PRESET_HEAD[0];
  }

  lemma OccursAtStart(s: string)
    ensures Contains(s, s)
  {
    assert OccursAt(s, s, 0);
  }

  /** Text shorter than a pattern cannot contain it. */
  lemma ShortTextLacks(s: string, pat: string)
    requires |s| < |pat|
    ensures !Contains(s, pat)
  {
  }

  lemma PublicPresetIsPublic(bucket: string)
    ensures PolicyType(PresetPolicy(PUBLIC, bucket), PresetParsed(PUBLIC)) == PUBLIC
  {
    PresetNotBlank(PUBLIC, bucket);
    var statements := PresetParsed(PUBLIC).policy.statement.value;
    assert AllActions(statements) == PUBLIC_BUCKET_ACTIONS + PUBLIC_OBJECT_ACTIONS by {
      var first := statements[..1];
      assert first == [statements[0]];
      assert first[..0] == [];
      assert AllActions(first) == PUBLIC_BUCKET_ACTIONS;
      assert AllActions(statements) == AllActions(first) + ActionsOf(statements[1]);
    }
    assert AnyPublic(statements) by {
      assert IsPublicPrincipal(statements[0].principal);
    }
    PublicActionsMembers();
  }

  /** The public preset's actions hold GetObject, DeleteObject and a list action. */
  lemma PublicActionsMembers()
    ensures var actions := PUBLIC_BUCKET_ACTIONS + PUBLIC_OBJECT_ACTIONS;
      "s3:GetObject" in actions && "s3:DeleteObject" in actions && HasListAction(actions)
  {
    var actions := PUBLIC_BUCKET_ACTIONS + PUBLIC_OBJECT_ACTIONS;
    assert actions[3] == "s3:GetObject" && actions[7] == "s3:DeleteObject";
    OccursAtStart("s3:ListBucket");
    assert IsListAction(actions[1]);
  }

  lemma ReadOnlyPresetIsReadOnly(bucket: string)
    ensures PolicyType(PresetPolicy(READONLY, bucket), PresetParsed(READONLY)) == READONLY
  {
    PresetNotBlank(READONLY, bucket);
    var statements := PresetParsed(READONLY).policy.statement.value;
    assert AllActions(statements) == READONLY_ACTIONS by {
      assert statements[..0] == [];
    }
    assert IsPublicPrincipal(statements[0].principal);
    ReadOnlyActionIsNotList();
  }

  lemma ReadOnlyActionIsNotList()
    ensures !HasListAction(READONLY_ACTIONS)
  {
    ShortTextLacks("s3:GetObject", "s3:ListBucket");
    ShortTextLacks("s3:GetObject", "s3:ListAllMyBuckets");
    ShortTextLacks("s3:GetObject", "s3:ListBucketMultipartUploads");
  }

  /** Each preset classifies back to the kind it was chosen for. */
  lemma PresetsClassifyBack(policyType: string, bucket: string)
    requires policyType in {PUBLIC, READONLY, PRIVATE}
    ensures PolicyType(PresetPolicy(policyType, bucket), PresetParsed(policyType)) == policyType
  {
    if policyType == PUBLIC {
      PublicPresetIsPublic(bucket);
    } else if policyType == READONLY {
      ReadOnlyPresetIsReadOnly(bucket);
    } else {
      PresetNotBlank(policyType, bucket);
    }
  }

  /** A server document as it parses: one statement with the given actions and principal. */
  function ServerDocumentParsed(actions: seq<string>, principal: Principal): ParseOutcome
  {
    Parsed(PolicyJson(Some([Statement(Some(ActionList(actions)), principal)])))
  }

  /**
   * The server's documents with the {"AWS": ["*"]} principal classify as
   * public (the six default actions) and read-only (GetObject); with the bare
   * "*" principal every document classifies as custom.
   */
  lemma ServerDocumentsClassify(policyJson: string, actions: seq<string>)
    requires !JsBlank(policyJson)
    ensures PolicyType(Some(policyJson), ServerDocumentParsed(DEFAULT_ACTIONS, AWS_ANYONE)) == PUBLIC
    ensures PolicyType(Some(policyJson), ServerDocumentParsed(READONLY_ACTIONS, AWS_ANYONE)) == READONLY
    ensures PolicyType(Some(policyJson), ServerDocumentParsed(actions, PrincipalString("*"))) == CUSTOM
  {
    ServerDefaultIsPublic(policyJson);
    ServerReadOnlyIsReadOnly(policyJson);
    ServerBareStarIsCustom(policyJson, actions);
  }

  lemma ServerDefaultIsPublic(policyJson: string)
    requires !JsBlank(policyJson)
    ensures PolicyType(Some(policyJson), ServerDocumentParsed(DEFAULT_ACTIONS, AWS_ANYONE)) == PUBLIC
  {
    var defaults := [Statement(Some(ActionList(DEFAULT_ACTIONS)), AWS_ANYONE)];
    assert AllActions(defaults) == DEFAULT_ACTIONS by {
      assert defaults[..0] == [];
    }
    assert AnyPublic(defaults) by {
      assert IsPublicPrincipal(defaults[0].principal);
    }
    DefaultActionsMembers();
  }

  /** The default list holds GetObject, DeleteObject and a list action. */
  lemma DefaultActionsMembers()
    ensures "s3:GetObject" in DEFAULT_ACTIONS && "s3:DeleteObject" in DEFAULT_ACTIONS
    ensures HasListAction(DEFAULT_ACTIONS)
  {
    assert DEFAULT_ACTIONS[3] == "s3:GetObject" && DEFAULT_ACTIONS[5] == "s3:DeleteObject";
    OccursAtStart("s3:ListBucket");
    assert IsListAction(DEFAULT_ACTIONS[1]);
  }

  lemma ServerReadOnlyIsReadOnly(policyJson: string)
    requires !JsBlank(policyJson)
    ensures PolicyType(Some(policyJson), ServerDocumentParsed(READONLY_ACTIONS, AWS_ANYONE)) == READONLY
  {
    var readonly := [Statement(Some(ActionList(READONLY_ACTIONS)), AWS_ANYONE)];
    assert AllActions(readonly) == READONLY_ACTIONS by {
      assert readonly[..0] == [];
    }
    assert AnyPublic(readonly) by {
      assert IsPublicPrincipal(readonly[0].principal);
    }
    ReadOnlyActionIsNotList();
    ReadOnlyActionsMembers();
  }

  /** The read-only list holds GetObject and neither PutObject nor DeleteObject. */
  lemma ReadOnlyActionsMembers()
    ensures "s3:GetObject" in READONLY_ACTIONS
    ensures "s3:PutObject" !in READONLY_ACTIONS && "s3:DeleteObject" !in READONLY_ACTIONS
  {
    assert READONLY_ACTIONS == ["s3:GetObject"];
    assert "s3:GetObject"[3] != "s3:PutObject"[3];
    assert |"s3:GetObject"| != |"s3:DeleteObject"|;
  }

  lemma ServerBareStarIsCustom(policyJson: string, actions: seq<string>)
    requires !JsBlank(policyJson)
    ensures PolicyType(Some(policyJson), ServerDocumentParsed(actions, PrincipalString("*"))) == CUSTOM
  {
    var statements := [Statement(Some(ActionList(actions)), PrincipalString("*"))];
    assert !AnyPublic(statements) by {
      assert !IsPublicPrincipal(statements[0].principal);
    }
  }
}
