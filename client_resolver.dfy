/**
 * `get_client` from assets/get_secret.py: decide whether the Secrets Manager
 * client can reuse the caller's current session or must first assume the
 * target role.
 *
 * The STS calls are not made: the caller ARN that `get_caller_identity`
 * returns and the answer of `assume_role` are inputs, and the calls the
 * function would make are recorded in order.
 */
module ClientResolver {
  import opened Wrappers
  import opened PyStr

  /** The fixed `RoleSessionName` of every role assumption. */
  const SessionName: string := "terraform-aws-secret-data-source"

  /** The text that precedes the role name in an assumed-role ARN. */
  const AssumedRoleTag: string := "assumed-role"

  /** `role_arn.split("/")[-1]`: the role name is the text after the last `/`. */
  function TargetRoleName(roleArn: string): (name: string)
    ensures '/' !in name
    ensures |name| <= |roleArn| && roleArn[|roleArn| - |name|..] == name
    ensures '/' in roleArn ==> |name| < |roleArn| && roleArn[|roleArn| - |name| - 1] == '/'
    ensures '/' !in roleArn ==> name == roleArn
  {
    var parts := Split(roleArn, '/');
    JoinEndsWithLast(parts, '/');
    assert '/' !in parts[0] && '/' !in parts[|parts| - 1];
    parts[|parts| - 1]
  }

  /** The substring `f"assumed-role/{target_role_name}/"` looked for in the caller ARN. */
  function ReuseMarker(roleArn: string): string
  {
    AssumedRoleTag + "/" + TargetRoleName(roleArn) + "/"
  }

  /** What `get_client` decides to do about credentials. */
  datatype Decision =
    | ReuseSession                                         // build the client from the ambient session
    | AssumeRole(roleArn: string, roleSessionName: string) // call `sts.assume_role` once with these arguments

  /** The role-reuse decision of `get_client`. */
  function Decide(roleArn: string, callerArn: string): (d: Decision)
    ensures d.ReuseSession? <==> exists i: nat :: OccursAt(callerArn, ReuseMarker(roleArn), i)
    ensures d.AssumeRole? ==> d.roleArn == roleArn && d.roleSessionName == SessionName
  {
    if Contains(callerArn, ReuseMarker(roleArn)) then ReuseSession else AssumeRole(roleArn, SessionName)
  }

  /** The temporary credentials `assume_role` hands out. */
  datatype Credentials = Credentials(accessKeyId: string, secretAccessKey: string, sessionToken: string)

  /** Where the session behind the client gets its credentials. */
  datatype SessionCredentials = Ambient | Temporary(credentials: Credentials)

  /** A `secretsmanager` client of a boto3 session. */
  datatype SecretsManagerClient = SecretsManagerClient(region: string, source: SessionCredentials)

  /** A call to STS. */
  datatype StsCall = GetCallerIdentity | AssumeRoleCall(roleArn: string, roleSessionName: string)

  /** The STS calls made, in order, and the client or the ClientError code that escaped. */
  datatype Resolution = Resolution(calls: seq<StsCall>, client: Result<SecretsManagerClient, string>)

  /** The number of `assume_role` calls in a call log. */
  function AssumeRoleCount(calls: seq<StsCall>): nat
  {
    if |calls| == 0 then 0
    else (if calls[0].AssumeRoleCall? then 1 else 0) + AssumeRoleCount(calls[1..])
  }

  /**
   * `get_client(region, role_arn)`, given the ARN the caller identity call
   * answers and what `assume_role` would answer (credentials, or the code of
   * the ClientError it raises, which propagates).
   */
  function GetClient(region: string, roleArn: string, callerArn: string,
                     assumeReply: Result<Credentials, string>): (res: Resolution)
    // one caller-identity call, then `assume_role` only when the session cannot be reused
    ensures res.calls == [GetCallerIdentity] +
      (if Decide(roleArn, callerArn).ReuseSession? then [] else [AssumeRoleCall(roleArn, SessionName)])
    ensures |res.calls| >= 1 && res.calls[0] == GetCallerIdentity
    // zero role assumptions when the caller already acts as the target role, exactly one otherwise
    ensures AssumeRoleCount(res.calls) == if Decide(roleArn, callerArn).ReuseSession? then 0 else 1
    ensures forall k :: 0 <= k < |res.calls| && res.calls[k].AssumeRoleCall? ==>
      res.calls[k] == AssumeRoleCall(roleArn, SessionName)
    // only a failed role assumption makes the function raise, with the error unchanged
    ensures res.client.Failure? <==> Decide(roleArn, callerArn).AssumeRole? && assumeReply.Failure?
    ensures res.client.Failure? ==> assumeReply.Failure? && res.client.error == assumeReply.error
    ensures res.client.Success? ==> res.client.value.region == region
    ensures res.client.Success? ==>
      (res.client.value.source == Ambient <==> Decide(roleArn, callerArn).ReuseSession?)
    ensures res.client.Success? && res.client.value.source.Temporary? ==>
      assumeReply == Success(res.client.value.source.credentials)
  {
    match Decide(roleArn, callerArn)
    case ReuseSession =>
      Resolution([GetCallerIdentity], Success(SecretsManagerClient(region, Ambient)))
    case AssumeRole(arn, sessionName) =>
      var calls := [GetCallerIdentity, AssumeRoleCall(arn, sessionName)];
      assert AssumeRoleCount(calls) == 1 by {
        assert calls[1..] == [AssumeRoleCall(arn, sessionName)];
        assert calls[1..][1..] == [];
        assert AssumeRoleCount(calls[1..]) == 1 + AssumeRoleCount([]);
      }
      match assumeReply
      case Success(credentials) =>
        Resolution(calls, Success(SecretsManagerClient(region, Temporary(credentials))))
      case Failure(code) =>
        Resolution(calls, Failure(code))
  }

  /** The role name of `prefix/name` is `name`, whatever the prefix (account, path). */
  lemma RoleNameAfterLastSlash(prefix: string, name: string)
    requires '/' !in name
    ensures TargetRoleName(prefix + "/" + name) == name
  {
    var arn := prefix + "/" + name;
    var r := TargetRoleName(arn);
    assert '/' in arn by { assert arn[|prefix|] == '/'; }
    forall j | |prefix| < j < |arn| ensures arn[j] != '/' {
      assert arn[j] == name[j - |prefix| - 1];
    }
    forall j | |arn| - |r| <= j < |arn| ensures arn[j] != '/' {
      assert arn[j] == r[j - (|arn| - |r|)];
    }
    assert arn[|arn| - |r| - 1] == '/' && arn[|prefix|] == '/';
    assert |arn| - |r| - 1 == |prefix|;
    assert arn[|arn| - |name|..] == name;
  }

  /** A caller ARN containing `assumed-role/<role name>/` anywhere reuses the current session. */
  lemma ReuseWhenAlreadyAssumed(roleArn: string, head: string, tail: string)
    ensures Decide(roleArn, head + ReuseMarker(roleArn) + tail) == ReuseSession
  {
    var m := ReuseMarker(roleArn);
    var h := head + m + tail;
    assert h[|head|..|head| + |m|] == m;
    assert OccursAt(h, m, |head|);
  }

  /** A caller that is not an assumed role (an IAM user, the root account) always assumes the role once. */
  lemma AssumeRoleUnlessAssumedRole(roleArn: string, callerArn: string)
    requires !Contains(callerArn, AssumedRoleTag + "/")
    ensures Decide(roleArn, callerArn) == AssumeRole(roleArn, SessionName)
  {
    if Decide(roleArn, callerArn).ReuseSession? {
      var i: nat :| OccursAt(callerArn, ReuseMarker(roleArn), i);
      PrefixOccurs(callerArn, ReuseMarker(roleArn), AssumedRoleTag + "/", i);
      assert false;
    }
  }

  /** `arn:<partition>:sts::<account>:assumed-role/<role name>/<session name>`. */
  function AssumedRoleArn(partition: string, account: string, roleName: string, session: string): string
  {
    "arn:" + partition + ":sts::" + account + ":" + AssumedRoleTag + "/" + roleName + "/" + session
  }

  /** The only `/` characters of `p/r/s` are the two shown, when `p`, `r`, `s` hold none. */
  lemma SlashPositions(p: string, r: string, s: string, k: nat)
    requires '/' !in p && '/' !in r && '/' !in s
    requires k < |p + "/" + r + "/" + s| && (p + "/" + r + "/" + s)[k] == '/'
    ensures k == |p| || k == |p| + 1 + |r|
  {
  }

  /**
   * In `p/r/s`, where `p` ends with "assumed-role" and no part holds a `/`,
   * the marker `assumed-role/<n>/` occurs exactly when `n` is `r`.
   */
  lemma MarkerOccursIff(p: string, r: string, s: string, n: string)
    requires '/' !in p && '/' !in r && '/' !in s && '/' !in n
    requires |p| >= |AssumedRoleTag| && p[|p| - |AssumedRoleTag|..] == AssumedRoleTag
    ensures (exists i: nat :: OccursAt(p + "/" + r + "/" + s, AssumedRoleTag + "/" + n + "/", i)) <==> n == r
  {
    var h := p + "/" + r + "/" + s;
    var m := AssumedRoleTag + "/" + n + "/";
    var t := |AssumedRoleTag|;
    if i: nat :| OccursAt(h, m, i) {
      assert h[i + t] == m[t] == '/';
      assert h[i + t + 1 + |n|] == m[t + 1 + |n|] == '/';
      SlashPositions(p, r, s, i + t);
      SlashPositions(p, r, s, i + t + 1 + |n|);
      assert i + t == |p| && |n| == |r|;
      forall j | 0 <= j < |n| ensures n[j] == r[j] {
        assert n[j] == m[t + 1 + j] == h[i + t + 1 + j];
        assert h[|p| + 1 + j] == r[j];
      }
    }
    if n == r {
      var i := |p| - t;
      assert h[i..i + |m|] == p[i..] + "/" + r + "/";
      assert OccursAt(h, m, i);
    }
  }

  /**
   * For a well-formed assumed-role caller ARN, the session is reused exactly
   * when the caller's role name equals the target role name.
   */
  lemma ReuseIffSameRoleName(roleArn: string, partition: string, account: string, roleName: string, session: string)
    requires '/' !in partition && '/' !in account && '/' !in roleName && '/' !in session
    ensures Decide(roleArn, AssumedRoleArn(partition, account, roleName, session)) == ReuseSession
        <==> roleName == TargetRoleName(roleArn)
  {
    var p := "arn:" + partition + ":sts::" + account + ":" + AssumedRoleTag;
    assert AssumedRoleArn(partition, account, roleName, session) == p + "/" + roleName + "/" + session;
    assert p[|p| - |AssumedRoleTag|..] == AssumedRoleTag;
    assert '/' !in p by {
      assert p == "arn:" + partition + (":sts::" + account) + (":" + AssumedRoleTag);
    }
    MarkerOccursIff(p, roleName, session, TargetRoleName(roleArn));
  }

  /**
   * The reuse test looks at role names only: a caller holding a role of the
   * same name in another account, or under another path, also reuses its
   * session.
   */
  lemma ReuseIgnoresAccountAndPath(partition: string, roleName: string, session: string,
                                   rolePath: string, account: string, callerAccount: string)
    requires '/' !in partition && '/' !in roleName && '/' !in session && '/' !in callerAccount
    ensures Decide("arn:" + partition + ":iam::" + account + ":role" + rolePath + "/" + roleName,
                   AssumedRoleArn(partition, callerAccount, roleName, session)) == ReuseSession
  {
    var roleArn := "arn:" + partition + ":iam::" + account + ":role" + rolePath + "/" + roleName;
    RoleNameAfterLastSlash("arn:" + partition + ":iam::" + account + ":role" + rolePath, roleName);
    ReuseIffSameRoleName(roleArn, partition, callerAccount, roleName, session);
  }

  /**
   * Example: target role `arn:aws:iam::111111111111:role/foo` is reused from
   * an assumed `foo` session and assumed from a `bar` session.
   */
  lemma FooBarExample()
    ensures Decide("arn:aws:iam::111111111111:role/foo",
                   AssumedRoleArn("aws", "111111111111", "foo", "session1")) == ReuseSession
    ensures Decide("arn:aws:iam::111111111111:role/foo",
                   AssumedRoleArn("aws", "111111111111", "bar", "session1"))
            == AssumeRole("arn:aws:iam::111111111111:role/foo", SessionName)
  {
    var roleArn := "arn:aws:iam::111111111111:role/foo";
    RoleNameAfterLastSlash("arn:aws:iam::111111111111:role", "foo");
    ReuseIffSameRoleName(roleArn, "aws", "111111111111", "foo", "session1");
    ReuseIffSameRoleName(roleArn, "aws", "111111111111", "bar", "session1");
  }
}
