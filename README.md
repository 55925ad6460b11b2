# terraform-aws-secret: the secret-reading helper

This project models `assets/get_secret.py`. Terraform's `external` data source runs this script to read the current value of the module's Secrets Manager secret. It has two decision procedures, and both are modelled as pure Dafny functions with lemmas about them.

- **Reading the value** (`get_secret`, module `SecretReader`). The script normalises the store's answer into a string that is never null:
  - The placeholder `"NoValue"` reads as `""`. The module stores this placeholder when no secret value is declared.
  - A `ResourceNotFoundException` error also reads as `""`.
  - Every other stored string is returned verbatim.
  - Every other error propagates.

  The store's answer is an input (`StoreReply`). Exceptions are `Failure` values. `StoredValue` is a reference reading that uses an explicit optional value. `GetSecret` is proved to be that reading written onto the string-only transport. `TerraformOutput` turns `""` back into null. On that side the placeholder never reaches Terraform.
- **Choosing credentials** (`get_client`, module `ClientResolver`).
  - The target role name is `role_arn.split("/")[-1]`.
  - If the caller ARN contains `assumed-role/<name>/`, the current session is reused and STS is not asked to assume a role.
  - Otherwise `assume_role` is called exactly once, with session name `terraform-aws-secret-data-source`.

  `GetClient` records the STS calls it would make. It returns the client, or the error code of a failed role assumption.
- **Python string semantics** (module `PyStr`). `Split` is `str.split` with a one-character separator. It is proved against its inverse `Join` in both directions. `Contains` is the `in` test, proved equal to "some index starts an occurrence".

Two behaviours of the code worth noting:
- A reply without a `SecretString` key (a binary secret) makes `response["SecretString"]` raise `KeyError`. `except ClientError` does not catch it, so it propagates.
- The reuse test is a substring test on role names only. `ReuseIgnoresAccountAndPath` proves that a caller holding a role with the same name reuses its session. This holds even when that role is in another account or under another path.

## Model

| member | source | states |
|---|---|---|
| `SecretReader.GetSecret` | assets/get_secret.py:8-31 | The result is returned exactly for a string reply or "not found". Every string other than `"NoValue"` comes back verbatim. `"NoValue"` and "not found" both give `""`, and `""` comes back only for those two and a stored `""`. A successful result is never `"NoValue"`. Any other ClientError code is re-raised unchanged, and a reply without `SecretString` raises KeyError. |
| `SecretReader.StoredValue` | assets/get_secret.py:9-15 | The reading with absence made explicit. It is absent exactly for the placeholder and "not found". A present value is the stored string, and it is never the placeholder. |
| `SecretReader.TerraformOutput` | assets/get_secret.py:14 | The Terraform side turns `""` into null and keeps any other string. |
| `SecretReader.GetSecretEncodesStoredValue` | assets/get_secret.py:8-31 | `GetSecret` raises exactly when the explicit reading does, with the same exception. Otherwise it returns that reading encoded for the transport (absent becomes `""`). |
| `SecretReader.TerraformSeesStoredValue` | assets/get_secret.py:12-17 | After the round trip through the transport, Terraform sees the explicit reading, except that a stored `""` also becomes null. It never sees `"NoValue"`. |
| `PyStr.Split` | assets/get_secret.py:44 | `split("/")` returns at least one piece. No piece contains the separator, and joining the pieces with it gives the input back. |
| `PyStr.SplitJoin` | assets/get_secret.py:44 | The other direction of the round trip: pieces free of the separator, once joined and split, come back unchanged. |
| `PyStr.Contains` | assets/get_secret.py:53 | `needle in hay` holds exactly when some index of `hay` starts an occurrence of `needle`. |
| `ClientResolver.TargetRoleName` | assets/get_secret.py:41-44 | The role name is a suffix of the role ARN and holds no `/`. When the ARN has a `/`, a `/` comes just before the name, so the name is the text after the last `/`. With no `/`, the name is the whole ARN. |
| `ClientResolver.RoleNameAfterLastSlash` | assets/get_secret.py:41-44 | For any prefix, the role name of `prefix/name` is `name` when `name` has no `/`. |
| `ClientResolver.Decide` | assets/get_secret.py:46-61 | The session is reused exactly when `assumed-role/<name>/` occurs in the caller ARN. Otherwise the decision is to assume `role_arn` with the fixed session name. |
| `ClientResolver.GetClient` | assets/get_secret.py:34-68 | The call log is exactly one caller-identity call, followed by one `assume_role` call only when the session is not reused. So there are no `assume_role` calls when the session is reused and exactly one otherwise, always with `role_arn` and the fixed session name. The function raises only when that call fails, with its error unchanged. The client uses the given region and ambient credentials when the session is reused, and otherwise the credentials `assume_role` returned. |
| `ClientResolver.ReuseWhenAlreadyAssumed` | assets/get_secret.py:53-56 | A caller ARN that contains `assumed-role/<target name>/` anywhere reuses its session. |
| `ClientResolver.AssumeRoleUnlessAssumedRole` | assets/get_secret.py:53-61 | A caller ARN with no `assumed-role/` in it (an IAM user, the root account) always assumes the role once. |
| `ClientResolver.ReuseIffSameRoleName` | assets/get_secret.py:46-53 | For a well-formed assumed-role caller ARN `arn:<p>:sts::<acct>:assumed-role/<r>/<s>`, the session is reused exactly when `<r>` equals the target role name. |
| `ClientResolver.ReuseIgnoresAccountAndPath` | assets/get_secret.py:41-53 | A caller with an assumed role of the same name reuses its session whatever the target role's account and path and the caller's account. |
| `ClientResolver.FooBarExample` | assets/get_secret.py:41-61 | For role `arn:aws:iam::111111111111:role/foo`, an assumed `foo` session is reused and an assumed `bar` session leads to one `assume_role` call. |

## Left out

- The `__main__` block (assets/get_secret.py:71-82) is not modelled. It reads region, secret id and role ARN from `sys.argv` and prints a JSON object whose single key is `SECRET_VALUE`, holding the string `GetSecret` returns. This is I/O glue.
- The boto3 calls are not made. `get_caller_identity` is replaced by the caller ARN it returns, and `assume_role` by its reply. `get_secret_value` is replaced by the `StoreReply`. A failure of the caller-identity call itself is not modelled.
- Building the boto3 session and `secretsmanager` client is only a record of the region and the credential source.
- The placeholder and managed-value reconciliation happens in the module's Terraform configuration, which is not part of this model. So does the rule that hides the output while the secret still holds `"NoValue"`. Only the reading side, `TerraformOutput`, is modelled.
- The integration tests (tests/test_module.py, tests/conftest.py) and the diagram scripts under docs/images/ hold no logic of the helper.
