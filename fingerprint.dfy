/**
 * The request fingerprint (`get_request_id`): the session label, the raw user
 * input and the ten-second time bucket, joined with colons.
 */
module Fingerprint {
  import opened Text
  import opened Requests

  /** Requests within one aligned window of this many seconds share a bucket. */
  const WindowSeconds: nat := 10

  /** `int(time.time() / 10)` for a clock reading of `now` whole seconds. */
  function Bucket(now: nat): (b: nat)
    ensures b * WindowSeconds <= now < (b + 1) * WindowSeconds
  {
    now / WindowSeconds
  }

  /** How `f"{data.get(key, "")}"` renders a field: "" when absent, "None" for null. */
  function Rendered(fields: map<string, JValue>, key: string): string
  {
    if key !in fields then ""
    else match fields[key]
      case JNull => "None"
      case JStr(s) => s
  }

  /** The key format: `session:input:bucket`. */
  function Key(session: string, input: string, bucket: nat): string
  {
    session + ":" + input + ":" + Digits(bucket)
  }

  /** `get_request_id(data)` at clock reading `now`; the input is taken raw, not stripped. */
  function RequestId(fields: map<string, JValue>, now: nat): string
  {
    Key(Rendered(fields, SessionIdKey), Rendered(fields, UserInputKey), Bucket(now))
  }

  /** `s` has no colon in it. */
  predicate NoColon(s: string)
  {
    forall i :: 0 <= i < |s| ==> s[i] != ':'
  }

  /** Two texts that end in a colon and a colon-free tail split at that colon the same way. */
  lemma LastColon(a: string, d: string, b: string, e: string)
    requires NoColon(d) && NoColon(e)
    requires a + ":" + d == b + ":" + e
    ensures a == b && d == e
  {
    var x := a + ":" + d;
    assert x[|x| - |d| - 1] == ':' && x[|x| - |e| - 1] == ':';
    assert forall j :: |x| - |d| <= j < |x| ==> x[j] == d[j - (|x| - |d|)];
    assert forall j :: |x| - |e| <= j < |x| ==> x[j] == e[j - (|x| - |e|)];
    assert |a| == |b|;
    assert a == x[..|a|] == b;
    assert d == x[|a| + 1..] == e;
  }

  /**
   * Two keys are equal exactly when their buckets are equal and so is the text
   * before the last colon: the bucket can always be read back from a key.
   */
  lemma KeyEquality(s1: string, u1: string, b1: nat, s2: string, u2: string, b2: nat)
    ensures Key(s1, u1, b1) == Key(s2, u2, b2) <==> b1 == b2 && s1 + ":" + u1 == s2 + ":" + u2
  {
    if Key(s1, u1, b1) == Key(s2, u2, b2) {
      LastColon(s1 + ":" + u1, Digits(b1), s2 + ":" + u2, Digits(b2));
      DigitsInjective(b1, b2);
    }
  }

  /**
   * With the same fields, two clock readings give the same key exactly when they
   * fall in the same ten-second bucket.
   */
  lemma SameKeyIffSameBucket(fields: map<string, JValue>, t1: nat, t2: nat)
    ensures RequestId(fields, t1) == RequestId(fields, t2) <==> t1 / WindowSeconds == t2 / WindowSeconds
  {
    var s, u := Rendered(fields, SessionIdKey), Rendered(fields, UserInputKey);
    KeyEquality(s, u, Bucket(t1), s, u, Bucket(t2));
  }

  /**
   * For one session label and one bucket, keys differ whenever the raw inputs
   * differ, even by surrounding whitespace only.
   */
  lemma KeyDistinguishesInput(session: string, u1: string, u2: string, bucket: nat)
    ensures Key(session, u1, bucket) == Key(session, u2, bucket) <==> u1 == u2
  {
    KeyEquality(session, u1, bucket, session, u2, bucket);
    if session + ":" + u1 == session + ":" + u2 {
      assert u1 == (session + ":" + u1)[|session| + 1..];
    }
  }

  /** Keys from different buckets never collide, whatever the sessions and inputs. */
  lemma DifferentBucketsDifferentKeys(f1: map<string, JValue>, t1: nat, f2: map<string, JValue>, t2: nat)
    requires t1 / WindowSeconds != t2 / WindowSeconds
    ensures RequestId(f1, t1) != RequestId(f2, t2)
  {
    KeyEquality(Rendered(f1, SessionIdKey), Rendered(f1, UserInputKey), Bucket(t1),
                Rendered(f2, SessionIdKey), Rendered(f2, UserInputKey), Bucket(t2));
  }

  /**
   * The colon is not escaped, so two different sessions can produce the same key:
   * session "a" with input "b:c" and session "a:b" with input "c".
   */
  lemma SeparatorCollision(bucket: nat)
    ensures Key("a", "b:c", bucket) == Key("a:b", "c", bucket)
  {
  }

  /**
   * A null `session_id` renders as "None", so it shares its keys with the session
   * label "None".
   */
  lemma NullSessionRendersAsNone(fields: map<string, JValue>, now: nat)
    ensures RequestId(fields[SessionIdKey := JNull], now) == RequestId(fields[SessionIdKey := JStr("None")], now)
  {
    assert Rendered(fields[SessionIdKey := JNull], UserInputKey) == Rendered(fields[SessionIdKey := JStr("None")], UserInputKey);
  }
}
