# Bucket policy synchroniser, modelled in Dafny

The system is one AWS Lambda. It runs on a schedule and keeps the public-read
policy of one or more S3 buckets in line with Cloudflare's published IP ranges.
It takes the IPv4 and IPv6 CIDR lists and concatenates them. It splits the
`BUCKET_NAME` setting on `,`. If the first name is empty, it returns status 400
with `BUCKET_NAMES not set.`. Otherwise it overwrites each named bucket's policy,
in order. Each policy is a single statement that lets any principal call
`s3:GetObject` on `arn:aws:s3:::<bucket>/*`, but only from those CIDRs.

The model has three modules:

- `Splitting` (split.dfy): `Split`, which behaves like Python's `str.split(',')`,
  and its inverse `Join`. Split is proved to be non-empty, to produce
  separator-free segments, and to join back to its input. Split and Join are
  proved inverse in both directions. Split has one more segment than the input
  has separators.
- `BucketPolicy` (policy.dfy): the policy document as a record datatype
  (`Policy`, `Statement`, `Condition`). `BuildPolicy` is the one policy the
  Lambda builds. `IsPublicReadPolicy` is an independent field-by-field
  description of it, and `BucketOfArn`/`PolicyBucket`/`PolicyIpList` read the
  bucket and the IP list back out.
- `Handler` (handler.dfy): S3 as a `BucketStore` object. It has a `policies`
  map that `PutBucketPolicy` overwrites in place, and a `log` of every write.
  The module also has the Lambda's loop as the method `LambdaHandler`. `Run`
  describes one invocation purely: the response and the ordered writes. The
  method is proved to return `Run`'s response, to append exactly `Run`'s writes
  to the log, and to leave the store as those writes applied in order
  (`Apply`). The lemmas then state what `Run` promises.

Inputs that the Lambda gets from I/O are parameters here. `ipv4` and `ipv6`
stand for the two lists in Cloudflare's JSON answer, and `config` stands for
the `BUCKET_NAME` environment value (absent reads as `""`, as in the source's
`os.environ.get('BUCKET_NAME', '')`). Success, which the source signals by
returning nothing, is the value `Completed`.

The message `BUCKET_NAMES not set.` suggests that the run is refused only when
the setting is absent or empty. The guard at line 39 is broader: it refuses
whenever the first comma-separated segment is empty, so `",a"` is refused too.
The model follows the guard. Later empty segments are accepted: for `"a,,b"`
and `"a,"`, a put is issued for the empty bucket name
(`TrailingCommaTargetsEmptyName`). The real S3 client rejects that name and
raises, which ends the run; the model does not capture that (see
`Handler.BucketStore.PutBucketPolicy` under "## Left out").

## Model

| member | source | states |
|---|---|---|
| `Splitting.Split` | lambda/lambda_bucket_policy.py:38 | the split of the configured names is never empty, no segment contains `,`, and joining the segments with `,` gives back the setting character for character (nothing is trimmed or dropped) |
| `Splitting.SplitLength` | lambda/lambda_bucket_policy.py:38 | the split has exactly one more segment than the setting has commas |
| `Splitting.FirstSegmentEmpty` | lambda/lambda_bucket_policy.py:38-39 | the first segment is empty if and only if the setting is empty or starts with `,` |
| `Splitting.SplitSeparatorFree` | lambda/lambda_bucket_policy.py:38 | a setting with no comma is a single bucket name |
| `Splitting.SplitAfterSegment` | lambda/lambda_bucket_policy.py:38 | a comma-free name followed by `,` is split off as the first segment, and the rest is split on its own |
| `Splitting.SplitJoin` | lambda/lambda_bucket_policy.py:38 | splitting undoes joining: comma-free names joined with `,` split back into exactly those names |
| `Splitting.SplitUnique` | lambda/lambda_bucket_policy.py:38 | any comma-free decomposition of the setting that joins back to it is the split |
| `BucketPolicy.BuildPolicy` | lambda/lambda_bucket_policy.py:8-24 | the policy literal for one bucket and IP list; its properties are stated by `BuildPolicyShape` and `PublicReadPolicyUnique` (it is exactly the public-read shape), `BuildPolicyRoundTrip` and `BuildPolicyInjective` |
| `BucketPolicy.ArnRoundTrip` | lambda/lambda_bucket_policy.py:16 | the bucket name can be read back out of `arn:aws:s3:::<bucket>/*` |
| `BucketPolicy.ArnOfBucket` | lambda/lambda_bucket_policy.py:16 | every ARN that reads back as a bucket is that bucket's all-objects ARN |
| `BucketPolicy.BuildPolicyShape` | lambda/lambda_bucket_policy.py:8-24 | the built policy has version 2012-10-17 and exactly one statement: Sid PublicReadForGetBucketObjects, Allow, principal `*`, `s3:GetObject`, the bucket's all-objects ARN, and source-IP condition equal to the given list |
| `BucketPolicy.PublicReadPolicyUnique` | lambda/lambda_bucket_policy.py:8-24 | any policy of that shape for a bucket and IP list equals the built one |
| `BucketPolicy.BuildPolicyRoundTrip` | lambda/lambda_bucket_policy.py:16-19 | the bucket and the IP list can be recovered from the built policy |
| `BucketPolicy.BuildPolicyInjective` | lambda/lambda_bucket_policy.py:8-24 | two built policies are equal if and only if they have the same bucket and the same IP list |
| `BucketPolicy.DifferOnlyInResource` | lambda/lambda_bucket_policy.py:8-24 | two policies built from one IP list agree in everything but the Resource, and their Resources are equal only for the same bucket |
| `Handler.IpList` | lambda/lambda_bucket_policy.py:35 | the IP list is the IPv4 list followed by the IPv6 list, in order, with no entry dropped or merged (same multiset) |
| `Handler.Writes` | lambda/lambda_bucket_policy.py:46-47 | the puts the loop issues, one per name in list order, each with the policy built for that name; stated by `OneWritePerSegment` and `PoliciesOfOneRun` |
| `Handler.Apply` | lambda/lambda_bucket_policy.py:26 | the store after a sequence of puts, each a full overwrite of its bucket; stated by `ApplyWritesAt`, `StoreAfterRun` and `RunIdempotent` |
| `Handler.Run` | lambda/lambda_bucket_policy.py:35-47 | the response and the ordered puts of one invocation; stated by `RejectedExactly`, `RejectedWritesNothing`, `OneWritePerSegment`, `PoliciesOfOneRun` and `StoreAfterRun`, and `LambdaHandler` is proved to do exactly this |
| `Handler.BucketStore.PutBucketPolicy` | lambda/lambda_bucket_policy.py:26 | the put replaces the bucket's whole policy, leaves every other bucket alone, and is logged |
| `Handler.UpdateBucketPolicy` | lambda/lambda_bucket_policy.py:6-26 | the bucket named in the call gets the policy built for it and that IP list; nothing else changes |
| `Handler.LambdaHandler` | lambda/lambda_bucket_policy.py:28-47 | returns the response `Run` describes, appends exactly `Run`'s writes to the log in order, and leaves the store as those writes applied one after another |
| `Handler.RejectedExactly` | lambda/lambda_bucket_policy.py:38-43 | the invocation is refused if and only if the setting is empty or starts with `,`, and the refusal is status 400 with body `BUCKET_NAMES not set.` |
| `Handler.RejectedWritesNothing` | lambda/lambda_bucket_policy.py:39-47 | a refused invocation issues no write and the store is unchanged |
| `Handler.OneWritePerSegment` | lambda/lambda_bucket_policy.py:38-47 | an accepted invocation issues one write per segment in segment order (commas + 1 writes, empty later segments included), and the targets joined with `,` are the setting itself |
| `Handler.PoliciesOfOneRun` | lambda/lambda_bucket_policy.py:35-47 | every written policy is the public-read policy for its own bucket with the full IPv4-then-IPv6 list; any two have the same IP list and version and differ only in Resource |
| `Handler.ApplyWritesAt` | lambda/lambda_bucket_policy.py:46-47 | after the writes for a name list, each named bucket holds its built policy (a repeated name gets the same value again) and every other bucket is as before, present or absent |
| `Handler.StoreAfterRun` | lambda/lambda_bucket_policy.py:38-47 | after an invocation, each configured bucket holds its policy if the run was accepted; every bucket not configured, and every bucket on a refused run, is unchanged |
| `Handler.RunIdempotent` | lambda/lambda_bucket_policy.py:46-47 | running again with the same inputs leaves the store exactly as the first run left it |
| `Handler.TrailingCommaTargetsEmptyName` | lambda/lambda_bucket_policy.py:38-47 | `a,` issues a put to `a` and then a put for the empty bucket name, whose Resource is `arn:aws:s3:::/*` |
| `Handler.TwoBuckets` | lambda/lambda_bucket_policy.py:38-47 | `a,b` with comma-free names gives exactly two writes, `a` then `b`, with the same IP list |
| `Handler.TwoBucketsExample` | lambda/lambda_bucket_policy.py:38-47 | `bucket-a,bucket-b` with `1.2.3.0/24` and `::1/128` gives Resources `arn:aws:s3:::bucket-a/*` and `arn:aws:s3:::bucket-b/*` and the same IP list in both |

## Left out

- The HTTP GET to `https://api.cloudflare.com/client/v4/ips` (lambda/lambda_bucket_policy.py:30-31) is network I/O. The two CIDR lists are parameters.
- JSON decoding of the response, and the `KeyError` when `result`, `ipv4_cidrs` or `ipv6_cidrs` is missing (lambda/lambda_bucket_policy.py:32-34), are library parsing of an external document. A failure there stops the run before any bucket is touched, and the model simply starts after them.
- `json.dumps` of the policy (lambda/lambda_bucket_policy.py:25) is left out. The policy is a datatype, not bytes.
- `Handler.BucketStore.PutBucketPolicy`: the boto3 client, and every way `put_bucket_policy` can fail (permissions, a missing bucket, a policy S3 rejects), are foreign calls (lambda/lambda_bucket_policy.py:7, 26). The put always succeeds in the model, so the source's abort on the first failed write is not modelled. This includes a put for the empty bucket name, which the real client rejects before sending, ending the run there.
- Reading `os.environ` (lambda/lambda_bucket_policy.py:38) is left out. The setting is passed in as `config`.
- The unused `event` and `context` arguments are left out, and so is the implicit `None` result on success (lambda/lambda_bucket_policy.py:28, 47). Success is the value `Completed`.
- CIDR syntax is not validated, because the code does not validate it.
- Strings are sequences of characters, and no Unicode normalisation is modelled. Python's `split` compares code points, and so does the model.
