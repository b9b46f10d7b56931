/**
 * The S3 bucket policy document the Lambda writes: a record with a version
 * and a list of statements, each statement granting or denying an action on
 * a resource to a principal under a source-IP condition.  BuildPolicy
 * produces the one shape the Lambda uses: public `s3:GetObject` on every
 * object of one bucket, restricted to a list of CIDR strings.
 */
module BucketPolicy {

  datatype Option<T> = None | Some(value: T)

  /** The `Condition` block: `{"IpAddress": {"aws:SourceIp": sourceIp}}`. */
  datatype Condition = IpAddress(sourceIp: seq<string>)

  datatype Statement = Statement(
    sid: string,
    effect: string,
    principal: string,
    action: string,
    resource: string,
    condition: Condition)

  datatype Policy = Policy(version: string, statements: seq<Statement>)

  const PolicyVersion: string := "2012-10-17"
  const StatementId: string := "PublicReadForGetBucketObjects"
  const Allow: string := "Allow"
  const AnyPrincipal: string := "*"
  const GetObject: string := "s3:GetObject"

  /** Prefix and suffix of the ARN naming every object of a bucket. */
  const ArnPrefix: string := "arn:aws:s3:::"
  const AllObjects: string := "/*"

  /** The resource ARN for all objects of `bucket`. */
  function ObjectsArn(bucket: string): string
  {
    ArnPrefix + bucket + AllObjects
  }

  /** Reads the bucket name back out of an all-objects ARN, if `arn` is one. */
  function BucketOfArn(arn: string): (b: Option<string>)
  {
    if |arn| >= |ArnPrefix| + |AllObjects|
       && arn[..|ArnPrefix|] == ArnPrefix
       && arn[|arn| - |AllObjects|..] == AllObjects
    then Some(arn[|ArnPrefix|..|arn| - |AllObjects|])
    else None
  }

  /** The policy the Lambda writes for `bucket`, letting reads come only from `ipList`. */
  function BuildPolicy(bucket: string, ipList: seq<string>): Policy
  {
    Policy(
      PolicyVersion,
      [Statement(StatementId, Allow, AnyPrincipal, GetObject, ObjectsArn(bucket), IpAddress(ipList))])
  }

  /**
   * An independent description of the policy shape for `bucket` and `ipList`,
   * field by field.
   */
  predicate IsPublicReadPolicy(p: Policy, bucket: string, ipList: seq<string>)
  {
    && p.version == "2012-10-17"
    && |p.statements| == 1
    && p.statements[0].sid == "PublicReadForGetBucketObjects"
    && p.statements[0].effect == "Allow"
    && p.statements[0].principal == "*"
    && p.statements[0].action == "s3:GetObject"
    && BucketOfArn(p.statements[0].resource) == Some(bucket)
    && p.statements[0].condition == IpAddress(ipList)
  }

  /** The bucket a policy's single statement is scoped to, if it has that shape. */
  function PolicyBucket(p: Policy): Option<string>
  {
    if |p.statements| == 1 then BucketOfArn(p.statements[0].resource) else None
  }

  /** The source-IP list of a policy's single statement, if it has that shape. */
  function PolicyIpList(p: Policy): Option<seq<string>>
  {
    if |p.statements| == 1 then Some(p.statements[0].condition.sourceIp) else None
  }

  /** The all-objects ARN names the bucket it was built from and no other. */
  lemma ArnRoundTrip(bucket: string)
    ensures BucketOfArn(ObjectsArn(bucket)) == Some(bucket)
  {
    var arn := ObjectsArn(bucket);
    assert arn[..|ArnPrefix|] == ArnPrefix;
    assert arn[|arn| - |AllObjects|..] == AllObjects;
    assert arn[|ArnPrefix|..|arn| - |AllObjects|] == bucket;
  }

  /** Every ARN BucketOfArn accepts is the all-objects ARN of the bucket it returns. */
  lemma ArnOfBucket(arn: string)
    requires BucketOfArn(arn).Some?
    ensures ObjectsArn(BucketOfArn(arn).value) == arn
  {
    var b := BucketOfArn(arn).value;
    assert arn == arn[..|ArnPrefix|] + b + arn[|arn| - |AllObjects|..];
  }

  /** BuildPolicy produces exactly the public-read shape. */
  lemma BuildPolicyShape(bucket: string, ipList: seq<string>)
    ensures IsPublicReadPolicy(BuildPolicy(bucket, ipList), bucket, ipList)
  {
    ArnRoundTrip(bucket);
  }

  /** The public-read shape for a bucket and IP list is unique: it is BuildPolicy's result. */
  lemma PublicReadPolicyUnique(p: Policy, bucket: string, ipList: seq<string>)
    requires IsPublicReadPolicy(p, bucket, ipList)
    ensures p == BuildPolicy(bucket, ipList)
  {
    ArnOfBucket(p.statements[0].resource);
    assert p.statements == [p.statements[0]];
  }

  /** The bucket and the IP list can be recovered from the built policy. */
  lemma BuildPolicyRoundTrip(bucket: string, ipList: seq<string>)
    ensures PolicyBucket(BuildPolicy(bucket, ipList)) == Some(bucket)
    ensures PolicyIpList(BuildPolicy(bucket, ipList)) == Some(ipList)
  {
    ArnRoundTrip(bucket);
  }

  /** Different buckets get different policies; so do different IP lists. */
  lemma BuildPolicyInjective(b1: string, ips1: seq<string>, b2: string, ips2: seq<string>)
    ensures BuildPolicy(b1, ips1) == BuildPolicy(b2, ips2) <==> b1 == b2 && ips1 == ips2
  {
    BuildPolicyRoundTrip(b1, ips1);
    BuildPolicyRoundTrip(b2, ips2);
  }

  /**
   * Two policies built from the same IP list agree everywhere except in the
   * statement's Resource.
   */
  lemma DifferOnlyInResource(b1: string, b2: string, ipList: seq<string>)
    ensures var p1, p2 := BuildPolicy(b1, ipList), BuildPolicy(b2, ipList);
      && p1.version == p2.version
      && |p1.statements| == |p2.statements| == 1
      && p1.statements[0].(resource := "") == p2.statements[0].(resource := "")
      && (p1.statements[0].resource == p2.statements[0].resource <==> b1 == b2)
  {
    ArnRoundTrip(b1);
    ArnRoundTrip(b2);
  }
}
