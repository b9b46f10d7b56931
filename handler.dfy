/**
 * The Lambda entry point: combine the CDN's IPv4 and IPv6 CIDR lists, split
 * the configured bucket names on ',', refuse the run with status 400 when
 * the first name is empty, and otherwise overwrite the policy of every named
 * bucket, in order, with the public-read policy for the combined IP list.
 *
 * The S3 service is a BucketStore object: a map from bucket name to its
 * current policy, plus the log of policy writes issued so far.  Run is the
 * pure description of one invocation; LambdaHandler is proved to do what
 * Run says, and the lemmas below state what Run promises.
 */
module Handler {
  import opened Splitting
  import opened BucketPolicy

  /** One `put_bucket_policy` call: the target bucket and the policy sent. */
  datatype Write = Write(bucket: string, policy: Policy)

  /** What the handler returns: plain completion, or a status-code response. */
  datatype Response = Completed | Failed(statusCode: int, body: string)

  const BucketSeparator: char := ','
  const MissingBuckets: Response := Failed(400, "BUCKET_NAMES not set.")

  /** The IP list every policy uses: IPv4 entries, then IPv6, kept in order and with repeats. */
  function IpList(ipv4: seq<string>, ipv6: seq<string>): (r: seq<string>)
    ensures |r| == |ipv4| + |ipv6|
    ensures r[..|ipv4|] == ipv4 && r[|ipv4|..] == ipv6
    ensures multiset(r) == multiset(ipv4) + multiset(ipv6)
  {
    ipv4 + ipv6
  }

  /** The writes the loop issues for `buckets`: one per name, in order. */
  function Writes(buckets: seq<string>, ipList: seq<string>): seq<Write>
  {
    seq(|buckets|, i requires 0 <= i < |buckets| => Write(buckets[i], BuildPolicy(buckets[i], ipList)))
  }

  /** The store after the writes `w` are applied in order, each overwriting its bucket's policy. */
  function Apply(store: map<string, Policy>, w: seq<Write>): map<string, Policy>
  {
    if w == [] then store
    else Apply(store, w[..|w| - 1])[w[|w| - 1].bucket := w[|w| - 1].policy]
  }

  /** The outcome of one invocation: the response and the writes issued, in order. */
  datatype Invocation = Invocation(response: Response, writes: seq<Write>)

  function Run(config: string, ipv4: seq<string>, ipv6: seq<string>): Invocation
  {
    var names := Split(config, BucketSeparator);
    if names[0] == "" then Invocation(MissingBuckets, [])
    else Invocation(Completed, Writes(names, IpList(ipv4, ipv6)))
  }

  /** The S3 service as far as the Lambda sees it. */
  class BucketStore {
    /** The policy currently attached to each bucket. */
    var policies: map<string, Policy>
    /** Every policy write issued, oldest first. */
    var log: seq<Write>

    constructor (initial: map<string, Policy>)
      ensures policies == initial && log == []
    {
      policies := initial;
      log := [];
    }

    /** Replaces the whole policy of `bucket`; nothing of the old policy is kept. */
    method PutBucketPolicy(bucket: string, policy: Policy)
      modifies this
      ensures policies == old(policies)[bucket := policy]
      ensures log == old(log) + [Write(bucket, policy)]
    {
      policies := policies[bucket := policy];
      log := log + [Write(bucket, policy)];
    }
  }

  /** Builds the public-read policy for `bucketName` and puts it. */
  method UpdateBucketPolicy(bucketName: string, ipList: seq<string>, s3: BucketStore)
    modifies s3
    ensures s3.policies == old(s3.policies)[bucketName := BuildPolicy(bucketName, ipList)]
    ensures s3.log == old(s3.log) + [Write(bucketName, BuildPolicy(bucketName, ipList))]
  {
    var policy := BuildPolicy(bucketName, ipList);
    s3.PutBucketPolicy(bucketName, policy);
  }

  lemma WritesSnoc(buckets: seq<string>, i: nat, ipList: seq<string>)
    requires i < |buckets|
    ensures Writes(buckets[..i + 1], ipList)
         == Writes(buckets[..i], ipList) + [Write(buckets[i], BuildPolicy(buckets[i], ipList))]
  {
  }

  lemma ApplySnoc(store: map<string, Policy>, w: seq<Write>, x: Write)
    ensures Apply(store, w + [x]) == Apply(store, w)[x.bucket := x.policy]
  {
    assert (w + [x])[..|w|] == w;
  }

  /**
   * The handler: returns the 400 response without touching the store when
   * the first configured name is empty, and otherwise issues exactly Run's
   * writes, in order.
   */
  method LambdaHandler(config: string, ipv4: seq<string>, ipv6: seq<string>, s3: BucketStore)
    returns (response: Response)
    modifies s3
    ensures response == Run(config, ipv4, ipv6).response
    ensures s3.log == old(s3.log) + Run(config, ipv4, ipv6).writes
    ensures s3.policies == Apply(old(s3.policies), Run(config, ipv4, ipv6).writes)
  {
    var ipList := IpList(ipv4, ipv6);
    var bucketNames := Split(config, BucketSeparator);
    if bucketNames[0] == "" {
      return MissingBuckets;
    }
    for i := 0 to |bucketNames|
      invariant s3.log == old(s3.log) + Writes(bucketNames[..i], ipList)
      invariant s3.policies == Apply(old(s3.policies), Writes(bucketNames[..i], ipList))
    {
      WritesSnoc(bucketNames, i, ipList);
      ApplySnoc(old(s3.policies), Writes(bucketNames[..i], ipList),
                Write(bucketNames[i], BuildPolicy(bucketNames[i], ipList)));
      UpdateBucketPolicy(bucketNames[i], ipList, s3);
    }
    assert bucketNames[..|bucketNames|] == bucketNames;
    response := Completed;
  }

  // ---- What one invocation promises ----

  /** The run is refused, with status 400, exactly when the configuration is empty or starts with ','. */
  lemma RejectedExactly(config: string, ipv4: seq<string>, ipv6: seq<string>)
    ensures Run(config, ipv4, ipv6).response != Completed
        <==> config == "" || config[0] == ','
    ensures Run(config, ipv4, ipv6).response != Completed ==>
      Run(config, ipv4, ipv6).response == Failed(400, "BUCKET_NAMES not set.")
  {
    FirstSegmentEmpty(config, BucketSeparator);
  }

  /** A refused run writes nothing, so the store is unchanged. */
  lemma RejectedWritesNothing(config: string, ipv4: seq<string>, ipv6: seq<string>, store: map<string, Policy>)
    requires config == "" || config[0] == ','
    ensures Run(config, ipv4, ipv6).writes == []
    ensures Apply(store, Run(config, ipv4, ipv6).writes) == store
  {
    FirstSegmentEmpty(config, BucketSeparator);
  }

  /**
   * An accepted run issues one write per comma-separated segment, empty
   * segments after the first included, in segment order; the targets joined
   * with ',' give back the configuration exactly, so no name is trimmed.
   */
  lemma OneWritePerSegment(config: string, ipv4: seq<string>, ipv6: seq<string>)
    requires config != "" && config[0] != ','
    ensures var w := Run(config, ipv4, ipv6).writes;
      && Run(config, ipv4, ipv6).response == Completed
      && |w| == Occurrences(config, ',') + 1
      && (forall i :: 0 <= i < |w| ==> w[i].bucket == Split(config, ',')[i])
      && Join(seq(|w|, i requires 0 <= i < |w| => w[i].bucket), ',') == config
  {
    FirstSegmentEmpty(config, BucketSeparator);
    SplitLength(config, BucketSeparator);
    var w := Run(config, ipv4, ipv6).writes;
    assert seq(|w|, i requires 0 <= i < |w| => w[i].bucket) == Split(config, ',');
  }

  /**
   * Every policy of one run is the public-read policy for its own bucket and
   * the full list ipv4 + ipv6; any two of them differ only in Resource.
   */
  lemma PoliciesOfOneRun(config: string, ipv4: seq<string>, ipv6: seq<string>, i: nat, j: nat)
    requires i < |Run(config, ipv4, ipv6).writes| && j < |Run(config, ipv4, ipv6).writes|
    ensures var w := Run(config, ipv4, ipv6).writes;
      && IsPublicReadPolicy(w[i].policy, w[i].bucket, ipv4 + ipv6)
      && PolicyIpList(w[i].policy) == PolicyIpList(w[j].policy) == Some(ipv4 + ipv6)
      && w[i].policy.version == w[j].policy.version
      && w[i].policy.statements[0].(resource := "") == w[j].policy.statements[0].(resource := "")
  {
    var w := Run(config, ipv4, ipv6).writes;
    BuildPolicyShape(w[i].bucket, ipv4 + ipv6);
    BuildPolicyRoundTrip(w[i].bucket, ipv4 + ipv6);
    BuildPolicyRoundTrip(w[j].bucket, ipv4 + ipv6);
    DifferOnlyInResource(w[i].bucket, w[j].bucket, ipv4 + ipv6);
  }

  /**
   * After the writes for `buckets`, each named bucket holds its built policy
   * (also when a name repeats: the later write puts the same value), and
   * every other bucket is exactly as before.
   */
  lemma {:induction false} ApplyWritesAt(store: map<string, Policy>, buckets: seq<string>, ipList: seq<string>, b: string)
    ensures var after := Apply(store, Writes(buckets, ipList));
      && (b in buckets ==> b in after && after[b] == BuildPolicy(b, ipList))
      && (b !in buckets ==> (b in after <==> b in store) && (b in store ==> after[b] == store[b]))
  {
    if buckets != [] {
      var n := |buckets| - 1;
      var w := Writes(buckets, ipList);
      assert w[..n] == Writes(buckets[..n], ipList);
      ApplyWritesAt(store, buckets[..n], ipList, b);
      assert buckets == buckets[..n] + [buckets[n]];
      assert b in buckets <==> b in buckets[..n] || b == buckets[n];
    }
  }

  /** The store after an accepted run: named buckets hold their policy, all others are untouched. */
  lemma StoreAfterRun(config: string, ipv4: seq<string>, ipv6: seq<string>, store: map<string, Policy>, b: string)
    ensures var after := Apply(store, Run(config, ipv4, ipv6).writes);
      && (Run(config, ipv4, ipv6).response == Completed && b in Split(config, ',') ==>
            b in after && after[b] == BuildPolicy(b, ipv4 + ipv6))
      && (Run(config, ipv4, ipv6).response != Completed || b !in Split(config, ',') ==>
            (b in after <==> b in store) && (b in store ==> after[b] == store[b]))
  {
    var names := Split(config, BucketSeparator);
    if names[0] != "" {
      ApplyWritesAt(store, names, ipv4 + ipv6, b);
    }
  }

  /** Running again with the same inputs leaves the store as the first run left it. */
  lemma RunIdempotent(config: string, ipv4: seq<string>, ipv6: seq<string>, store: map<string, Policy>)
    ensures var w := Run(config, ipv4, ipv6).writes;
      Apply(Apply(store, w), w) == Apply(store, w)
  {
    var w := Run(config, ipv4, ipv6).writes;
    var once := Apply(store, w);
    forall b ensures (b in Apply(once, w) <==> b in once) && (b in once ==> Apply(once, w)[b] == once[b]) {
      StoreAfterRun(config, ipv4, ipv6, store, b);
      StoreAfterRun(config, ipv4, ipv6, once, b);
    }
  }

  /**
   * A trailing comma is not ignored: `a,` issues a put to `a` and then a put
   * for the empty bucket name, whose Resource then names no bucket at all.
   */
  lemma TrailingCommaTargetsEmptyName(a: string, ipv4: seq<string>, ipv6: seq<string>)
    requires a != "" && ',' !in a
    ensures var w := Run(a + ",", ipv4, ipv6).writes;
      && w == [Write(a, BuildPolicy(a, ipv4 + ipv6)), Write("", BuildPolicy("", ipv4 + ipv6))]
      && w[1].policy.statements[0].resource == "arn:aws:s3:::/*"
  {
    assert a + "," == a + [','] + "";
    SplitAfterSegment(a, ',', "");
  }

  /**
   * Two comma-free names `a,b` (the first non-empty) give exactly two writes,
   * to `a` and then `b`, with the same IP list and their own Resource.
   */
  lemma TwoBuckets(a: string, b: string, ipv4: seq<string>, ipv6: seq<string>)
    requires a != "" && ',' !in a && ',' !in b
    ensures Run(a + "," + b, ipv4, ipv6)
         == Invocation(Completed, [Write(a, BuildPolicy(a, ipv4 + ipv6)), Write(b, BuildPolicy(b, ipv4 + ipv6))])
  {
    SplitAfterSegment(a, ',', b);
    SplitSeparatorFree(b, ',');
  }

  /** `"bucket-a,bucket-b"` gives two policies, one per bucket, with the same IP list. */
  lemma TwoBucketsExample(config: string, ipv4: seq<string>, ipv6: seq<string>)
    requires config == "bucket-a,bucket-b" && ipv4 == ["1.2.3.0/24"] && ipv6 == ["::1/128"]
    ensures var w := Run(config, ipv4, ipv6).writes;
      && |w| == 2
      && w[0].bucket == "bucket-a" && w[1].bucket == "bucket-b"
      && w[0].policy.statements[0].resource == "arn:aws:s3:::bucket-a/*"
      && w[1].policy.statements[0].resource == "arn:aws:s3:::bucket-b/*"
      && w[0].policy.statements[0].condition.sourceIp == ["1.2.3.0/24", "::1/128"]
      && w[1].policy.statements[0].condition.sourceIp == ["1.2.3.0/24", "::1/128"]
  {
    assert config == "bucket-a" + "," + "bucket-b";
    TwoBuckets("bucket-a", "bucket-b", ipv4, ipv6);
  }
}
