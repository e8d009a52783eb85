/**
 * The upload authorisation handed to clients for direct uploads to the object
 * store: a policy document that expires 1200 seconds after the call, encoded
 * and signed with the store's secret key. The clock reading, the timestamp
 * formatting, JSON serialisation, UTF-8, Base64 (RFC 4648, section 4) and
 * HMAC-SHA1 (RFC 2104) are supplied from outside as functions.
 */
module UploadPolicy {
  import opened Optional

  /** Seconds between the call and the policy's expiry. */
  const ExpirationWindow: int := 1200
  /** Largest object size admitted, in bytes (10000 MiB). */
  const MaxContentLength: int := 10485760000
  const ContentTypeField: string := "$Content-Type"
  const AllowedContentTypes: seq<string> := [
    "application/pdf",
    "image/jpeg",
    "image/png",
    "application/msword",
    "application/vnd.openxmlformats-officedocument.wordprocessingml.document",
    "video/mp4"]

  /** One entry of the policy's `conditions` list. */
  datatype Condition =
    | BucketIs(bucket: Option<string>)                 // {"bucket": name}; null when unset
    | ContentLengthRange(min: int, max: int)           // ["content-length-range", min, max]
    | OneOf(field: string, values: seq<string>)        // ["in", field, values]

  datatype Policy = Policy(expiration: string, conditions: seq<Condition>)

  /** The environment values the signer reads; the bucket name may be unset. */
  datatype Config = Config(accessKeyId: string, accessKeySecret: string, bucket: Option<string>)

  /** The library routines the signer calls, taken as given functions. */
  datatype Primitives = Primitives(
    formatUtc: int -> string,                           // strftime("%Y-%m-%dT%H:%M:%SZ", gmtime(t))
    dumps: Policy -> string,                            // json.dumps
    utf8: string -> seq<bv8>,                           // str.encode('utf-8')
    base64: seq<bv8> -> string,                         // base64.b64encode(...).decode()
    hmacSha1: (seq<bv8>, seq<bv8>) -> seq<bv8>)         // hmac.new(key, msg, sha1).digest()

  /** The reply: `{accessKeyId, policy, signature, expiration}`. */
  datatype SignedPolicy = SignedPolicy(accessKeyId: string, policy: string, signature: string, expiration: string)

  /** Python's `int(t)` on a float clock reading: truncation toward zero. */
  function Truncate(t: real): (r: int)
    ensures 0.0 <= t ==> 0 <= r && r as real <= t < r as real + 1.0
    ensures t < 0.0 ==> r <= 0 && r as real - 1.0 < t <= r as real
  {
    if t >= 0.0 then t.Floor else -((-t).Floor)
  }

  /** The expiry instant, in whole seconds since the epoch. */
  function ExpirationSeconds(now: real): int {
    Truncate(now) + ExpirationWindow
  }

  /** The policy document for a bucket and a formatted expiry. */
  function PolicyFor(bucket: Option<string>, expiration: string): Policy {
    Policy(expiration, [
      BucketIs(bucket),
      ContentLengthRange(0, MaxContentLength),
      OneOf(ContentTypeField, AllowedContentTypes)])
  }

  /** The signature of an encoded policy: Base64 of its HMAC-SHA1 under the secret. */
  function Sign(prim: Primitives, secret: string, encodedPolicy: string): string {
    prim.base64(prim.hmacSha1(prim.utf8(secret), prim.utf8(encodedPolicy)))
  }

  /** `generate_oss_signature`, given the clock reading `now` in seconds. */
  function Generate(config: Config, prim: Primitives, now: real): (r: SignedPolicy)
    ensures r.accessKeyId == config.accessKeyId
    ensures r.expiration == prim.formatUtc(ExpirationSeconds(now))
    ensures r.signature == Sign(prim, config.accessKeySecret, r.policy)
  {
    var expiration := prim.formatUtc(ExpirationSeconds(now));
    var encoded := prim.base64(prim.utf8(prim.dumps(PolicyFor(config.bucket, expiration))));
    SignedPolicy(config.accessKeyId, encoded, Sign(prim, config.accessKeySecret, encoded), expiration)
  }

  /**
   * The expiry lies 1200 seconds after the clock reading cut to whole seconds:
   * for a reading after the epoch, more than 1199 and at most 1200 seconds ahead.
   */
  lemma ExpirationWithinWindow(now: real)
    requires 0.0 <= now
    ensures now + 1199.0 < ExpirationSeconds(now) as real <= now + 1200.0
  {
  }

  /**
   * Whoever knows inverses of the encodings recovers from the reply exactly
   * the policy built for the configured bucket, with the reply's expiry.
   */
  lemma DecodeRecoversPolicy(config: Config, prim: Primitives, now: real,
                             unbase64: string -> seq<bv8>, unutf8: seq<bv8> -> string, parse: string -> Policy)
    requires forall bytes :: unbase64(prim.base64(bytes)) == bytes
    requires forall s :: unutf8(prim.utf8(s)) == s
    requires forall p :: parse(prim.dumps(p)) == p
    ensures var r := Generate(config, prim, now);
            parse(unutf8(unbase64(r.policy))) == PolicyFor(config.bucket, r.expiration)
  {
  }

  /**
   * Whether one condition admits an upload of `size` bytes and the content
   * type, into `bucket`. Evaluating the conditions is the object store's job;
   * this is the model's reading of its rules: the bucket must equal the
   * configured name (a null name matches no bucket), the size range includes
   * both ends, and the content type must be one of the listed values.
   */
  predicate Holds(c: Condition, bucket: string, size: int, contentType: string) {
    match c
    case BucketIs(b) => b == Some(bucket)
    case ContentLengthRange(lo, hi) => lo <= size <= hi
    case OneOf(_, values) => contentType in values
  }

  /** A policy admits an upload when every one of its conditions does. */
  predicate Admits(p: Policy, bucket: string, size: int, contentType: string) {
    forall i :: 0 <= i < |p.conditions| ==> Holds(p.conditions[i], bucket, size, contentType)
  }

  /**
   * The issued policy admits exactly uploads into the configured bucket of at
   * most 10485760000 bytes whose type is one of the six listed; with no bucket
   * configured it admits nothing.
   */
  lemma {:induction false} PolicyAdmitsExactly(bucketSetting: Option<string>, expiration: string,
                                               bucket: string, size: int, contentType: string)
    ensures Admits(PolicyFor(bucketSetting, expiration), bucket, size, contentType) <==>
      bucketSetting == Some(bucket) && 0 <= size <= MaxContentLength && contentType in AllowedContentTypes
  {
    var cs := PolicyFor(bucketSetting, expiration).conditions;
    if Admits(PolicyFor(bucketSetting, expiration), bucket, size, contentType) {
      assert Holds(cs[0], bucket, size, contentType);
      assert Holds(cs[1], bucket, size, contentType);
      assert Holds(cs[2], bucket, size, contentType);
    }
  }
}
