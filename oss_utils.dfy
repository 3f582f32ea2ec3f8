// The utility class's copy of the three bucket-policy builders. The documents
// have the same shape as the server helper's, except for the principal, which
// is written as the bare string "*".
module OssUtils {
  import opened Common
  import opened PolicyText

  /** The principal line of the documents this utility generates. */
  const STAR_PRINCIPAL: string := "      \"Principal\":\"*\",\n"

  /** The default policy: list, read, write and delete for everyone. */
  function DefaultBucketPolicy(bucketName: string): (policy: string)
    ensures exists block :: policy == PolicyDocument(block, STAR_PRINCIPAL, bucketName)
                            && ParseActionBlock(ACTION_INDENT, block) == Some(DEFAULT_ACTIONS)
    ensures EndsWith(policy, ARN_PREFIX + bucketName + RESOURCE_TAIL)
  {
    var block := ActionBlock(ACTION_INDENT, DEFAULT_ACTIONS);
    DocumentResource(block, STAR_PRINCIPAL, bucketName);
    FixedBlocksReadBack();
    PolicyDocument(block, STAR_PRINCIPAL, bucketName)
  }

  /** The read-only policy: GetObject for everyone. */
  function ReadOnlyBucketPolicy(bucketName: string): (policy: string)
    ensures exists block :: policy == PolicyDocument(block, STAR_PRINCIPAL, bucketName)
                            && ParseActionBlock(ACTION_INDENT, block) == Some(READONLY_ACTIONS)
    ensures EndsWith(policy, ARN_PREFIX + bucketName + RESOURCE_TAIL)
  {
    var block := ActionBlock(ACTION_INDENT, READONLY_ACTIONS);
    DocumentResource(block, STAR_PRINCIPAL, bucketName);
    FixedBlocksReadBack();
    PolicyDocument(block, STAR_PRINCIPAL, bucketName)
  }

  /** A policy granting the caller's actions, in their order, to everyone. */
  method CustomBucketPolicy(bucketName: string, bucketPolicyList: seq<string>) returns (policy: string)
    ensures policy == PolicyDocument(ActionBlock("", bucketPolicyList), STAR_PRINCIPAL, bucketName)
    ensures EndsWith(policy, ARN_PREFIX + bucketName + RESOURCE_TAIL)
  {
    var rule := BuildActionBlock(bucketPolicyList);
    policy := PolicyDocument(rule, STAR_PRINCIPAL, bucketName);
    DocumentResource(rule, STAR_PRINCIPAL, bucketName);
  }
}
