// The in-memory registry of bucket-policy templates: three built-in templates
// seeded at start-up, plus user templates that can be created, updated,
// deleted and applied to a bucket.
module PolicyRegistry {
  import opened Common

  /** The registry's failures; each but Unknown carries its own result code. */
  datatype RegistryError =
    | NameExists          // "001"
    | CustomPolicyMissing // "002"
    | InvalidPolicyType   // "003"
    | GetMissing          // "004"
    | UpdateMissing       // "005"
    | BuiltInTypeChange   // "006"
    | DeleteMissing       // "007"
    | BuiltInDelete       // "008"
    | ApplyMissing        // "009"
    | Unknown             // "9999": the policy could not be produced or pushed

  function Code(e: RegistryError): (code: string)
    ensures |code| == 3 || code == "9999"
  {
    match e
    case NameExists => "001"
    case CustomPolicyMissing => "002"
    case InvalidPolicyType => "003"
    case GetMissing => "004"
    case UpdateMissing => "005"
    case BuiltInTypeChange => "006"
    case DeleteMissing => "007"
    case BuiltInDelete => "008"
    case ApplyMissing => "009"
    case Unknown => "9999"
  }

  /** A template; `policy` is absent when the client sent none. Times are epoch milliseconds. */
  datatype PolicyTemplate = PolicyTemplate(
    templateName: string, description: string, policyType: string,
    policy: Option<string>, createTime: int, updateTime: int)

  /** The placeholder a template uses for the bucket it is applied to. */
  const BUCKET_PLACEHOLDER: string := "{bucket}"

  /** The public template, split at its two placeholders. */
  const PUBLIC_POLICY: string :=
    PUBLIC_HEAD + BUCKET_PLACEHOLDER + PUBLIC_MIDDLE + BUCKET_PLACEHOLDER + PUBLIC_TAIL

  const PUBLIC_HEAD: string :=
    "{\n"
    + "  \"Version\": \"2012-10-17\",\n"
    + "  \"Statement\": [\n"
    + "    {\n"
    + "      \"Effect\": \"Allow\",\n"
    + "      \"Principal\": {\"AWS\": [\"*\"]},\n"
    + "      \"Action\": ["
    + "\"s3:GetBucketLocation\", "
    + "\"s3:ListBucket\", "
    + "\"s3:ListBucketMultipartUploads\"],\n"
    + "      \"Resource\": [\"arn:aws:s3:::"

  const PUBLIC_MIDDLE: string :=
    "\"]\n"
    + "    },\n"
    + "    {\n"
    + "      \"Effect\": \"Allow\",\n"
    + "      \"Principal\": {\"AWS\": [\"*\"]},\n"
    + "      \"Action\": ["
    + "\"s3:GetObject\", "
    + "\"s3:ListMultipartUploadParts\", "
    + "\"s3:PutObject\", "
    + "\"s3:AbortMultipartUpload\", "
    + "\"s3:DeleteObject\"],\n"
    + "      \"Resource\": [\"arn:aws:s3:::"

  const PUBLIC_TAIL: string :=
    "/*\"]\n"
    + "    }\n"
    + "  ]\n"
    + "}"

  /** The read-only template, split at its placeholder. */
  const READONLY_POLICY: string := READONLY_HEAD + BUCKET_PLACEHOLDER + READONLY_TAIL

  const READONLY_HEAD: string :=
    "{\n"
    + "  \"Version\": \"2012-10-17\",\n"
    + "  \"Statement\": [\n"
    + "    {\n"
    + "      \"Effect\": \"Allow\",\n"
    + "      \"Principal\": {\"AWS\": [\"*\"]},\n"
    + "      \"Action\": [\"s3:GetObject\"],\n"
    + "      \"Resource\": [\"arn:aws:s3:::"

  const READONLY_TAIL: string :=
    "/*\"]\n"
    + "    }\n"
    + "  ]\n"
    + "}"

  const PRIVATE_POLICY: string :=
    "{\n"
    + "  \"Version\": \"2012-10-17\",\n"
    + "  \"Statement\": []\n"
    + "}"

  /** The names (and types) of the three templates that are always present. */
  predicate IsBuiltInTemplate(templateName: string)
  {
    templateName == "public" || templateName == "readonly" || templateName == "private"
  }

  /** The policy text a template of a built-in type always gets. */
  function PresetPolicy(policyType: string): (p: string)
    requires IsBuiltInTemplate(policyType)
    ensures |p| > 0
  {
    if policyType == "public" then PUBLIC_POLICY
    else if policyType == "readonly" then READONLY_POLICY
    else PRIVATE_POLICY
  }

  function BuiltIn(name: string, description: string, now: int): (t: PolicyTemplate)
    requires IsBuiltInTemplate(name)
  {
    PolicyTemplate(name, description, name, Some(PresetPolicy(name)), now, now)
  }

  /**
   * The policy a bucket gets from a template: the template's text with every
   * "{bucket}" replaced by the bucket name.
   */
  function AppliedPolicy(policy: string, bucketName: string): string
  {
    ReplaceAll(policy, BUCKET_PLACEHOLDER, bucketName)
  }

  /**
   * No occurrence of the placeholder starts in a piece that lacks 'b' or 'k'
   * (characters that appear once in the placeholder).
   */
  lemma PieceHasNoPlaceholder(piece: string)
    requires 'b' !in piece || 'k' !in piece
    ensures forall i :: 0 <= i < |piece| ==> !OccursAt(piece + BUCKET_PLACEHOLDER, BUCKET_PLACEHOLDER, i)
  {
    if 'b' !in piece {
      assert BUCKET_PLACEHOLDER[..1] == "{";
      MissingCharNoOccurrence(piece, BUCKET_PLACEHOLDER, 1);
    } else {
      assert BUCKET_PLACEHOLDER[..4] == "{buc";
      MissingCharNoOccurrence(piece, BUCKET_PLACEHOLDER, 4);
    }
  }

  /** Applying the public template puts the bucket into both resources and changes nothing else. */
  lemma PublicTemplateApplied(bucketName: string)
    ensures AppliedPolicy(PUBLIC_POLICY, bucketName)
      == PUBLIC_HEAD + bucketName + PUBLIC_MIDDLE + bucketName + PUBLIC_TAIL
  {
    var parts := [PUBLIC_HEAD, PUBLIC_MIDDLE, PUBLIC_TAIL];
    PublicPiecesFree();
    JoinThree(PUBLIC_HEAD, PUBLIC_MIDDLE, PUBLIC_TAIL, BUCKET_PLACEHOLDER);
    JoinThree(PUBLIC_HEAD, PUBLIC_MIDDLE, PUBLIC_TAIL, bucketName);
    ReplaceAllJoin(parts, BUCKET_PLACEHOLDER, bucketName);
  }

  lemma PublicPiecesFree()
    ensures forall i :: 0 <= i < |PUBLIC_HEAD| ==> !OccursAt(PUBLIC_HEAD + BUCKET_PLACEHOLDER, BUCKET_PLACEHOLDER, i)
    ensures forall i :: 0 <= i < |PUBLIC_MIDDLE| ==> !OccursAt(PUBLIC_MIDDLE + BUCKET_PLACEHOLDER, BUCKET_PLACEHOLDER, i)
    ensures forall i :: 0 <= i < |PUBLIC_TAIL| ==> !OccursAt(PUBLIC_TAIL + BUCKET_PLACEHOLDER, BUCKET_PLACEHOLDER, i)
  {
    PublicHeadNoB();
    PublicMiddleNoK();
    PieceHasNoPlaceholder(PUBLIC_HEAD);
    PieceHasNoPlaceholder(PUBLIC_MIDDLE);
    PieceHasNoPlaceholder(PUBLIC_TAIL);
  }

  lemma PublicHeadNoB()
    ensures 'b' !in PUBLIC_HEAD
  {
  }

  lemma PublicMiddleNoK()
    ensures 'k' !in PUBLIC_MIDDLE
  {
  }

  lemma JoinThree(a: string, b: string, c: string, sep: string)
    ensures Join([a, b, c], sep) == a + sep + b + sep + c
  {
    assert [a, b, c][1..] == [b, c];
    assert [b, c][1..] == [c];
    assert Join([b, c], sep) == b + sep + c;
    assert a + sep + (b + sep + c) == a + sep + b + sep + c;
  }

  /** Applying the read-only template puts the bucket into its resource and changes nothing else. */
  lemma ReadOnlyTemplateApplied(bucketName: string)
    ensures AppliedPolicy(READONLY_POLICY, bucketName) == READONLY_HEAD + bucketName + READONLY_TAIL
  {
    var parts := [READONLY_HEAD, READONLY_TAIL];
    PieceHasNoPlaceholder(READONLY_HEAD);
    PieceHasNoPlaceholder(READONLY_TAIL);
    assert parts[1..] == [READONLY_TAIL];
    ReplaceAllJoin(parts, BUCKET_PLACEHOLDER, bucketName);
  }

  /** The private template has no placeholder, so applying it leaves the text as it is. */
  lemma PrivateTemplateApplied(bucketName: string)
    ensures AppliedPolicy(PRIVATE_POLICY, bucketName) == PRIVATE_POLICY
  {
    PieceHasNoPlaceholder(PRIVATE_POLICY);
    ReplaceAllJoin([PRIVATE_POLICY], BUCKET_PLACEHOLDER, bucketName);
  }

  class TemplateRegistry {
    var templates: map<string, PolicyTemplate>

    /**
     * The registry's invariant: the built-ins are present with their own
     * type, and every template is filed under its own name.
     */
    ghost predicate Valid()
      reads this
    {
      (forall b :: IsBuiltInTemplate(b) ==> b in templates && templates[b].policyType == b)
      && (forall k :: k in templates ==> templates[k].templateName == k)
    }

    /** Seeds the three built-in templates, all stamped `now`. */
    constructor (now: int)
      ensures Valid()
      ensures templates.Keys == {"public", "readonly", "private"}
      ensures forall b :: IsBuiltInTemplate(b) ==>
        templates[b].policy == Some(PresetPolicy(b)) && templates[b].createTime == now
    {
      templates := map[
        "public" := BuiltIn("public", "公有访问策略 - 允许匿名读写删除", now),
        "readonly" := BuiltIn("readonly", "只读访问策略 - 允许匿名读取", now),
        "private" := BuiltIn("private", "私有访问策略 - 禁止匿名访问", now)];
    }

    /**
     * Adds a template under a fresh name, stamped `now`. A built-in type gets
     * its preset policy whatever was sent; a custom type needs a non-blank
     * policy; any other type is refused.
     */
    method Create(t: PolicyTemplate, now: int) returns (r: Result<(), RegistryError>)
      requires Valid()
      modifies this
      ensures Valid()
      ensures t.templateName in old(templates) ==> r == Err(NameExists)
      ensures t.templateName !in old(templates) && t.policyType == "custom" && IsBlankOpt(t.policy)
        ==> r == Err(CustomPolicyMissing)
      ensures t.templateName !in old(templates) && !IsBuiltInTemplate(t.policyType) && t.policyType != "custom"
        ==> r == Err(InvalidPolicyType)
      ensures r.Ok? <==> (t.templateName !in old(templates)
                          && (IsBuiltInTemplate(t.policyType) || (t.policyType == "custom" && !IsBlankOpt(t.policy))))
      ensures r.Err? ==> templates == old(templates)
      ensures r.Ok? ==>
        templates.Keys == old(templates).Keys + {t.templateName}
        && (forall k :: k in old(templates) ==> templates[k] == old(templates)[k])
        && templates[t.templateName].createTime == now && templates[t.templateName].updateTime == now
        && templates[t.templateName].policyType == t.policyType
        && templates[t.templateName].description == t.description
        && templates[t.templateName].policy
           == (if IsBuiltInTemplate(t.policyType) then Some(PresetPolicy(t.policyType)) else t.policy)
    {
      if t.templateName in templates {
        return Err(NameExists);
      }
      var created := t.(createTime := now, updateTime := now);
      if t.policyType == "public" {
        created := created.(policy := Some(PUBLIC_POLICY));
      } else if t.policyType == "readonly" {
        created := created.(policy := Some(READONLY_POLICY));
      } else if t.policyType == "private" {
        created := created.(policy := Some(PRIVATE_POLICY));
      } else if t.policyType == "custom" {
        if IsBlankOpt(t.policy) {
          return Err(CustomPolicyMissing);
        }
      } else {
        return Err(InvalidPolicyType);
      }
      templates := templates[t.templateName := created];
      r := Ok(());
    }

    /** Every template once, in no particular order. */
    method List() returns (all: seq<PolicyTemplate>)
      requires Valid()
      ensures |all| == |templates|
      ensures forall k :: k in templates ==> templates[k] in all
      ensures forall i :: 0 <= i < |all| ==>
        all[i].templateName in templates && templates[all[i].templateName] == all[i]
    {
      all := [];
      var pending := templates.Keys;
      while pending != {}
        invariant pending <= templates.Keys
        invariant |all| + |pending| == |templates|
        invariant forall k :: k in templates && k !in pending ==> templates[k] in all
        invariant forall i :: 0 <= i < |all| ==>
          all[i].templateName in templates && all[i].templateName !in pending
          && templates[all[i].templateName] == all[i]
        decreases |pending|
      {
        var k :| k in pending;
        all := all + [templates[k]];
        pending := pending - {k};
      }
    }

    method Get(templateName: string) returns (r: Result<PolicyTemplate, RegistryError>)
      ensures templateName in templates ==> r == Ok(templates[templateName])
      ensures templateName !in templates ==> r == Err(GetMissing)
    {
      if templateName !in templates {
        return Err(GetMissing);
      }
      r := Ok(templates[templateName]);
    }

    /**
     * Replaces an existing template, keeping its creation time and stamping
     * `now`. A built-in may change everything but its type.
     */
    method Update(t: PolicyTemplate, now: int) returns (r: Result<(), RegistryError>)
      requires Valid()
      modifies this
      ensures Valid()
      ensures t.templateName !in old(templates) ==> r == Err(UpdateMissing)
      ensures (t.templateName in old(templates) && IsBuiltInTemplate(t.templateName)
               && old(templates)[t.templateName].policyType != t.policyType) ==> r == Err(BuiltInTypeChange)
      ensures r.Ok? <==> (t.templateName in old(templates)
                          && (IsBuiltInTemplate(t.templateName) ==> old(templates)[t.templateName].policyType == t.policyType))
      ensures r.Err? ==> templates == old(templates)
      ensures r.Ok? ==>
        templates == old(templates)[t.templateName := t.(createTime := old(templates)[t.templateName].createTime,
                                                         updateTime := now)]
    {
      if t.templateName !in templates {
        return Err(UpdateMissing);
      }
      var existing := templates[t.templateName];
      if IsBuiltInTemplate(t.templateName) {
        if existing.policyType != t.policyType {
          return Err(BuiltInTypeChange);
        }
      }
      templates := templates[t.templateName := t.(createTime := existing.createTime, updateTime := now)];
      r := Ok(());
    }

    /** Removes a user template; built-ins cannot be removed. */
    method Delete(templateName: string) returns (r: Result<(), RegistryError>)
      requires Valid()
      modifies this
      ensures Valid()
      ensures templateName !in old(templates) ==> r == Err(DeleteMissing)
      ensures templateName in old(templates) && IsBuiltInTemplate(templateName) ==> r == Err(BuiltInDelete)
      ensures r.Ok? <==> templateName in old(templates) && !IsBuiltInTemplate(templateName)
      ensures r.Err? ==> templates == old(templates)
      ensures r.Ok? ==> templates == old(templates) - {templateName}
    {
      if templateName !in templates {
        return Err(DeleteMissing);
      }
      if IsBuiltInTemplate(templateName) {
        return Err(BuiltInDelete);
      }
      templates := templates - {templateName};
      r := Ok(());
    }

    /**
     * The policy text pushed to `bucketName` when a template is applied. A
     * template without policy text fails as Unknown.
     */
    method Apply(bucketName: string, templateName: string) returns (r: Result<string, RegistryError>)
      ensures templateName !in templates ==> r == Err(ApplyMissing)
      ensures templateName in templates && templates[templateName].policy.None? ==> r == Err(Unknown)
      ensures templateName in templates && templates[templateName].policy.Some?
        ==> r == Ok(AppliedPolicy(templates[templateName].policy.value, bucketName))
    {
      if templateName !in templates {
        return Err(ApplyMissing);
      }
      var template := templates[templateName];
      if template.policy.None? {
        return Err(Unknown);
      }
      r := Ok(ReplaceAll(template.policy.value, BUCKET_PLACEHOLDER, bucketName));
    }
  }
}
