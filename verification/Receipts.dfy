/** The bootstrap receipt (scripts/bootstrap_uv.py:971-1025, 1340-1412): what `_build_receipt` builds from a validated
  * policy, and what `_validate_success_receipt` accepts.
  */
module Receipts {
  import opened Json

  // ----- what a canonical success receipt is -----

  const UV_VERSION := "0.12.1"
  const GH_VERSION := "2.100.0"
  const UV_SOURCE_REPOSITORY := "https://github.com/astral-sh/uv"
  const UV_SOURCE_COMMIT := "329541a503de8a4d9bb021814f9c0875efe033c8"
  const UV_SOURCE_REF := "refs/heads/main"
  const UV_SIGNER_WORKFLOW := "https://github.com/astral-sh/uv/.github/workflows/release.yml@refs/heads/main"
  const UV_OIDC_ISSUER := "https://token.actions.githubusercontent.com"
  const UV_PREDICATE_TYPE := "https://slsa.dev/provenance/v1"

  /** The archive names of `UV_ASSET_SHAPE`; its keys are `PLATFORM_KEYS`. */
  const UV_ARCHIVES: map<string, string> := map[
    "linux-x86_64" := "uv-x86_64-unknown-linux-gnu.tar.gz",
    "linux-arm64" := "uv-aarch64-unknown-linux-gnu.tar.gz",
    "macos-x86_64" := "uv-x86_64-apple-darwin.tar.gz",
    "macos-arm64" := "uv-aarch64-apple-darwin.tar.gz",
    "windows-x86_64" := "uv-x86_64-pc-windows-msvc.zip",
    "windows-arm64" := "uv-aarch64-pc-windows-msvc.zip"
  ]

  /** The archive names of `GH_ASSET_SHAPE`. */
  const GH_ARCHIVES: map<string, string> := map[
    "linux-x86_64" := "gh_2.100.0_linux_amd64.tar.gz",
    "linux-arm64" := "gh_2.100.0_linux_arm64.tar.gz",
    "macos-x86_64" := "gh_2.100.0_macOS_amd64.zip",
    "macos-arm64" := "gh_2.100.0_macOS_arm64.zip",
    "windows-x86_64" := "gh_2.100.0_windows_amd64.zip",
    "windows-arm64" := "gh_2.100.0_windows_arm64.zip"
  ]

  const TOP_LEVEL_KEYS := {"failure_category", "policy", "provenance", "schema_version", "status", "tool",
    "verified_at", "verifier"}
  const POLICY_KEYS := {"schema_version", "sha256"}
  const TOOL_KEYS := {"architecture", "asset_name", "asset_sha256", "binary_sha256", "name", "platform", "version"}
  const VERIFIER_KEYS := {"archive_name", "archive_sha256", "name", "version"}

  predicate HexDigit(c: char) {
    '0' <= c <= '9' || 'a' <= c <= 'f'
  }

  /** `SHA256_PATTERN` */
  predicate IsSha256(v: Json) {
    v.Str? && |v.s| == 64 && forall i :: 0 <= i < 64 ==> HexDigit(v.s[i])
  }

  /** Whether `datetime.fromisoformat` reads the text before the Z as a UTC time. */
  type Calendar = string -> bool

  predicate IsTimestamp(v: Json, calendar: Calendar) {
    v.Str? && |v.s| > 0 && v.s[|v.s| - 1] == 'Z' && calendar(v.s[..|v.s| - 1])
  }

  predicate HasExactly(v: Json, keys: set<string>) {
    v.Obj? && v.fields.Keys == keys
  }

  function Provenance(): Json {
    Obj(map[
      "source_repository" := Str(UV_SOURCE_REPOSITORY),
      "source_commit" := Str(UV_SOURCE_COMMIT),
      "source_ref" := Str(UV_SOURCE_REF),
      "signer_workflow_identity" := Str(UV_SIGNER_WORKFLOW),
      "oidc_issuer" := Str(UV_OIDC_ISSUER),
      "predicate_type" := Str(UV_PREDICATE_TYPE)
    ])
  }

  predicate CanonicalPolicy(policy: Json) {
    HasExactly(policy, POLICY_KEYS) && policy.Get("schema_version") == Int(1) && IsSha256(policy.Get("sha256"))
  }

  predicate CanonicalTool(tool: Json, platform: string)
    requires platform in UV_ARCHIVES
  {
    && HasExactly(tool, TOOL_KEYS)
    && tool.Get("name") == Str("uv") && tool.Get("version") == Str(UV_VERSION)
    && tool.Get("asset_name") == Str(UV_ARCHIVES[platform])
    && IsSha256(tool.Get("asset_sha256")) && IsSha256(tool.Get("binary_sha256"))
  }

  predicate CanonicalVerifier(verifier: Json, platform: string)
    requires platform in GH_ARCHIVES
  {
    && HasExactly(verifier, VERIFIER_KEYS)
    && verifier.Get("name") == Str("GitHub CLI") && verifier.Get("version") == Str(GH_VERSION)
    && verifier.Get("archive_name") == Str(GH_ARCHIVES[platform])
    && IsSha256(verifier.Get("archive_sha256"))
  }

  /** `f"{tool['platform']}-{tool['architecture']}"` */
  function PlatformOf(tool: Json): string {
    if tool.Obj? && tool.Get("platform").Str? && tool.Get("architecture").Str?
    then tool.Get("platform").s + "-" + tool.Get("architecture").s
    else ""
  }

  /** `_validate_success_receipt` */
  predicate IsCanonicalSuccess(receipt: Json, calendar: Calendar) {
    && HasExactly(receipt, TOP_LEVEL_KEYS)
    && receipt.Get("schema_version") == Int(1)
    && receipt.Get("status") == Str("success")
    && receipt.Get("failure_category") == Null
    && CanonicalPolicy(receipt.Get("policy"))
    && var platform := PlatformOf(receipt.Get("tool"));
    && platform in UV_ARCHIVES && platform in GH_ARCHIVES
    && CanonicalTool(receipt.Get("tool"), platform)
    && CanonicalVerifier(receipt.Get("verifier"), platform)
    && receipt.Get("provenance") == Provenance()
    && IsTimestamp(receipt.Get("verified_at"), calendar)
  }

  // ----- what a validated policy is -----

  predicate Literal(v: Json, key: string, expected: string) {
    v.Obj? && v.Get(key) == Str(expected)
  }

  /** Those checks of `_validate_policy` on which receipts rely. */
  predicate IsValidPolicy(policy: Json) {
    && policy.Obj? && policy.Get("schema_version") == Int(1)
    && var uv, gh := policy.Get("uv"), policy.Get("github_cli");
    && Literal(uv, "version", UV_VERSION) && Literal(gh, "version", GH_VERSION)
    && Literal(uv, "source_repository", UV_SOURCE_REPOSITORY) && Literal(uv, "source_commit", UV_SOURCE_COMMIT)
    && Literal(uv, "source_ref", UV_SOURCE_REF) && Literal(uv, "oidc_issuer", UV_OIDC_ISSUER)
    && Literal(uv, "signer_workflow_identity", UV_SIGNER_WORKFLOW) && Literal(uv, "predicate_type", UV_PREDICATE_TYPE)
    && uv.Get("assets").Obj? && gh.Get("assets").Obj?
    && (forall k :: k in UV_ARCHIVES ==> UvAssetFine(uv.Get("assets").Get(k), k))
    && (forall k :: k in GH_ARCHIVES ==> GhAssetFine(gh.Get("assets").Get(k), k))
  }

  predicate UvAssetFine(asset: Json, platform: string)
    requires platform in UV_ARCHIVES
  {
    Literal(asset, "archive_name", UV_ARCHIVES[platform]) && IsSha256(asset.Get("sha256"))
      && IsSha256(asset.Get("binary_sha256"))
  }

  predicate GhAssetFine(asset: Json, platform: string)
    requires platform in GH_ARCHIVES
  {
    Literal(asset, "archive_name", GH_ARCHIVES[platform]) && IsSha256(asset.Get("sha256"))
  }

  /** What `load_policy`, `select_platform` and the clock have produced before the receipt is built. */
  datatype Identity = Identity(policy: Json, policySha256: string, platform: string, architecture: string,
    verifiedAt: string)

  function PlatformKey(id: Identity): string {
    id.platform + "-" + id.architecture
  }

  predicate IsVerified(id: Identity, calendar: Calendar) {
    && IsValidPolicy(id.policy)
    && IsSha256(Str(id.policySha256))
    && PlatformKey(id) in UV_ARCHIVES && PlatformKey(id) in GH_ARCHIVES
    && IsTimestamp(Str(id.verifiedAt), calendar)
  }

  ghost predicate Buildable(id: Identity) {
    IsValidPolicy(id.policy) && PlatformKey(id) in UV_ARCHIVES && PlatformKey(id) in GH_ARCHIVES
  }

  function BuildTool(id: Identity): Json
    requires Buildable(id)
  {
    var uv := id.policy.Get("uv");
    var asset := uv.Get("assets").Get(PlatformKey(id));
    assert UvAssetFine(asset, PlatformKey(id));
    Obj(map[
      "name" := Str("uv"),
      "version" := uv.Get("version"),
      "platform" := Str(id.platform),
      "architecture" := Str(id.architecture),
      "asset_name" := asset.Get("archive_name"),
      "asset_sha256" := asset.Get("sha256"),
      "binary_sha256" := asset.Get("binary_sha256")
    ])
  }

  function BuildVerifier(id: Identity): Json
    requires Buildable(id)
  {
    var gh := id.policy.Get("github_cli");
    var asset := gh.Get("assets").Get(PlatformKey(id));
    assert GhAssetFine(asset, PlatformKey(id));
    Obj(map[
      "name" := Str("GitHub CLI"),
      "version" := gh.Get("version"),
      "archive_name" := asset.Get("archive_name"),
      "archive_sha256" := asset.Get("sha256")
    ])
  }

  function BuildProvenance(id: Identity): Json
    requires Buildable(id)
  {
    var uv := id.policy.Get("uv");
    Obj(map[
      "source_repository" := uv.Get("source_repository"),
      "source_commit" := uv.Get("source_commit"),
      "source_ref" := uv.Get("source_ref"),
      "signer_workflow_identity" := uv.Get("signer_workflow_identity"),
      "oidc_issuer" := uv.Get("oidc_issuer"),
      "predicate_type" := uv.Get("predicate_type")
    ])
  }

  /** `_build_receipt` */
  function BuildReceipt(id: Identity): Json
    requires Buildable(id)
  {
    Obj(map[
      "schema_version" := Int(1),
      "policy" := Obj(map["schema_version" := id.policy.Get("schema_version"), "sha256" := Str(id.policySha256)]),
      "tool" := BuildTool(id),
      "verifier" := BuildVerifier(id),
      "provenance" := BuildProvenance(id),
      "verified_at" := Str(id.verifiedAt),
      "status" := Str("success"),
      "failure_category" := Null
    ])
  }

  lemma BuiltPlatform(id: Identity)
    requires Buildable(id)
    ensures PlatformOf(BuildTool(id)) == PlatformKey(id)
  {
    hide IsSha256, GhAssetFine, UvAssetFine, Buildable;
  }

  lemma BuiltToolKeys(id: Identity)
    requires Buildable(id)
    ensures HasExactly(BuildTool(id), TOOL_KEYS)
  {
    hide IsSha256, UvAssetFine, GhAssetFine, UV_ARCHIVES, GH_ARCHIVES, PlatformKey, Buildable;
  }

  lemma BuiltTool(id: Identity)
    requires Buildable(id)
    ensures CanonicalTool(BuildTool(id), PlatformKey(id))
  {
    hide HasExactly, TOOL_KEYS, BuildTool, IsSha256, GhAssetFine, UV_ARCHIVES, GH_ARCHIVES, PlatformKey;
    BuiltToolKeys(id);
    ToolGets(id);
    assert UvAssetFine(id.policy.Get("uv").Get("assets").Get(PlatformKey(id)), PlatformKey(id));
  }

  lemma BuiltVerifier(id: Identity)
    requires Buildable(id)
    ensures CanonicalVerifier(BuildVerifier(id), PlatformKey(id))
  {
    assert GhAssetFine(id.policy.Get("github_cli").Get("assets").Get(PlatformKey(id)), PlatformKey(id));
    hide IsSha256;
  }

  lemma BuiltProvenance(id: Identity)
    requires Buildable(id)
    ensures BuildProvenance(id) == Provenance()
  {
    hide IsSha256, UvAssetFine, GhAssetFine;
  }

  lemma BuiltFields(id: Identity)
    requires Buildable(id)
    ensures
      var r := BuildReceipt(id);
      && HasExactly(r, TOP_LEVEL_KEYS)
      && r.Get("schema_version") == Int(1) && r.Get("status") == Str("success") && r.Get("failure_category") == Null
      && r.Get("tool") == BuildTool(id) && r.Get("verifier") == BuildVerifier(id)
        && r.Get("provenance") == BuildProvenance(id)
      && r.Get("verified_at") == Str(id.verifiedAt)
      && r.Get("policy")
        == Obj(map["schema_version" := id.policy.Get("schema_version"), "sha256" := Str(id.policySha256)])
  {
    hide IsValidPolicy, BuildTool, BuildVerifier, BuildProvenance;
  }

  /** Every success receipt built from a validated policy is canonical. */
  lemma BuiltReceiptIsCanonical(id: Identity, calendar: Calendar)
    requires IsVerified(id, calendar)
    ensures IsCanonicalSuccess(BuildReceipt(id), calendar)
  {
    BuiltFields(id);
    BuiltPlatform(id);
    BuiltTool(id);
    BuiltVerifier(id);
    BuiltProvenance(id);
    CanonicalPolicyPart(id.policy.Get("schema_version"), id.policySha256);
    hide BuildReceipt, HasExactly, Provenance, IsTimestamp, CanonicalPolicy, CanonicalTool, CanonicalVerifier,
      BuildTool, BuildVerifier, BuildProvenance, PlatformOf;
  }

  lemma CanonicalPolicyPart(version: Json, sha256: string)
    requires version == Int(1) && IsSha256(Str(sha256))
    ensures CanonicalPolicy(Obj(map["schema_version" := version, "sha256" := Str(sha256)]))
  {
    hide IsSha256;
  }

  // ----- what a receipt states -----

  /** What stands at a path of keys; None where there is nothing. */
  function At(v: Json, path: seq<string>): Json {
    if path == [] then v
    else if v.Obj? && path[0] in v.fields then At(v.fields[path[0]], path[1..])
    else Null
  }

  predicate KeysAre(v: Json, keys: set<string>) {
    v.Obj? && v.fields.Keys == keys
  }

  /** What the policy says of the archive of a tool for the platform. */
  function Asset(id: Identity, tool: string, key: string): Json {
    At(id.policy, [tool, "assets", id.platform + "-" + id.architecture, key])
  }

  ghost predicate StatesTool(r: Json, id: Identity) {
    && KeysAre(At(r, ["tool"]), {"name", "version", "platform", "architecture", "asset_name", "asset_sha256",
                                 "binary_sha256"})
    && At(r, ["tool", "name"]) == Str("uv") && At(r, ["tool", "version"]) == At(id.policy, ["uv", "version"])
    && At(r, ["tool", "platform"]) == Str(id.platform) && At(r, ["tool", "architecture"]) == Str(id.architecture)
    && At(r, ["tool", "asset_name"]) == Asset(id, "uv", "archive_name")
    && At(r, ["tool", "asset_sha256"]) == Asset(id, "uv", "sha256")
    && At(r, ["tool", "binary_sha256"]) == Asset(id, "uv", "binary_sha256")
  }

  ghost predicate StatesVerifier(r: Json, id: Identity) {
    && KeysAre(At(r, ["verifier"]), {"name", "version", "archive_name", "archive_sha256"})
    && At(r, ["verifier", "name"]) == Str("GitHub CLI")
    && At(r, ["verifier", "version"]) == At(id.policy, ["github_cli", "version"])
    && At(r, ["verifier", "archive_name"]) == Asset(id, "github_cli", "archive_name")
    && At(r, ["verifier", "archive_sha256"]) == Asset(id, "github_cli", "sha256")
  }

  ghost predicate StatesProvenance(r: Json, id: Identity) {
    var keys := {"source_repository", "source_commit", "source_ref", "signer_workflow_identity", "oidc_issuer",
                 "predicate_type"};
    && KeysAre(At(r, ["provenance"]), keys)
    && forall key :: key in keys ==> At(r, ["provenance", key]) == At(id.policy, ["uv", key])
  }

  ghost predicate StatesPolicy(r: Json, id: Identity) {
    && KeysAre(At(r, ["policy"]), {"schema_version", "sha256"})
    && At(r, ["policy", "schema_version"]) == At(id.policy, ["schema_version"])
    && At(r, ["policy", "sha256"]) == Str(id.policySha256)
  }

  /** The receipt states what was checked against which policy, and when, and how it ended. */
  ghost predicate States(r: Json, id: Identity, status: string, category: Json) {
    && KeysAre(r, {"schema_version", "policy", "tool", "verifier", "provenance", "verified_at", "status",
                   "failure_category"})
    && At(r, ["schema_version"]) == Int(1)
    && StatesPolicy(r, id) && StatesTool(r, id) && StatesVerifier(r, id) && StatesProvenance(r, id)
    && At(r, ["verified_at"]) == Str(id.verifiedAt)
    && At(r, ["status"]) == Str(status) && At(r, ["failure_category"]) == category
  }

  lemma AtStep(v: Json, key: string, path: seq<string>)
    requires v.Obj? && key in v.fields
    ensures At(v, [key] + path) == At(v.fields[key], path)
  {
    assert ([key] + path)[1..] == path;
  }

  lemma AtOne(v: Json, key: string)
    requires v.Obj?
    ensures At(v, [key]) == v.Get(key)
  {
    assert [key][1..] == [];
  }

  lemma AtTwo(v: Json, a: string, b: string)
    requires v.Obj? && v.Get(a).Obj?
    ensures At(v, [a, b]) == v.Get(a).Get(b)
  {
    assert [a, b][1..] == [b];
    AtOne(v.Get(a), b);
  }

  lemma AssetIs(id: Identity, tool: string, key: string)
    requires id.policy.Obj? && id.policy.Get(tool).Obj? && id.policy.Get(tool).Get("assets").Obj?
    requires id.policy.Get(tool).Get("assets").Get(PlatformKey(id)).Obj?
    ensures Asset(id, tool, key) == id.policy.Get(tool).Get("assets").Get(PlatformKey(id)).Get(key)
  {
    var last := [PlatformKey(id), key];
    assert [tool, "assets", PlatformKey(id), key] == [tool] + (["assets"] + last);
    AtStep(id.policy, tool, ["assets"] + last);
    AtStep(id.policy.Get(tool), "assets", last);
    AtTwo(id.policy.Get(tool).Get("assets"), PlatformKey(id), key);
    hide At;
  }

  /** A built receipt states all of it. */
  lemma BuiltReceiptStates(id: Identity)
    requires Buildable(id)
    ensures States(BuildReceipt(id), id, "success", Null)
  {
    hide At, StatesTool, StatesVerifier, StatesProvenance, StatesPolicy, BuildReceipt, Buildable, IsSha256, BuildTool,
      BuildVerifier, BuildProvenance;
    var r := BuildReceipt(id);
    BuiltFields(id);
    AtOne(r, "schema_version");
    AtOne(r, "verified_at");
    AtOne(r, "status");
    AtOne(r, "failure_category");
    PolicyStated(r, id);
    ToolStated(r, id);
    VerifierStated(r, id);
    ProvenanceStated(r, id);
  }

  lemma PolicyStated(r: Json, id: Identity)
    requires Buildable(id) && r.Obj?
    requires r.Get("policy") == Obj(map["schema_version" := id.policy.Get("schema_version"),
                                        "sha256" := Str(id.policySha256)])
    ensures StatesPolicy(r, id)
  {
    hide At, Buildable;
    PolicyIsObject(id);
    AtOne(r, "policy");
    AtTwo(r, "policy", "schema_version");
    AtTwo(r, "policy", "sha256");
    AtOne(id.policy, "schema_version");
  }

  lemma PolicyIsObject(id: Identity)
    requires Buildable(id)
    ensures
      && id.policy.Obj? && id.policy.Get("uv").Obj? && id.policy.Get("github_cli").Obj?
      && id.policy.Get("uv").Get("assets").Obj? && id.policy.Get("github_cli").Get("assets").Obj?
      && id.policy.Get("uv").Get("assets").Get(PlatformKey(id)).Obj?
      && id.policy.Get("github_cli").Get("assets").Get(PlatformKey(id)).Obj?
  {
    hide IsSha256, UV_ARCHIVES, GH_ARCHIVES, PlatformKey;
    assert UvAssetFine(id.policy.Get("uv").Get("assets").Get(PlatformKey(id)), PlatformKey(id));
    assert GhAssetFine(id.policy.Get("github_cli").Get("assets").Get(PlatformKey(id)), PlatformKey(id));
  }

  lemma ToolGets(id: Identity)
    requires Buildable(id)
    ensures
      var tool, uv := BuildTool(id), id.policy.Get("uv");
      var asset := uv.Get("assets").Get(PlatformKey(id));
      && tool.Get("name") == Str("uv") && tool.Get("version") == uv.Get("version")
      && tool.Get("platform") == Str(id.platform) && tool.Get("architecture") == Str(id.architecture)
      && tool.Get("asset_name") == asset.Get("archive_name") && tool.Get("asset_sha256") == asset.Get("sha256")
      && tool.Get("binary_sha256") == asset.Get("binary_sha256")
  {
    hide Buildable, PlatformKey;
    PolicyIsObject(id);
  }

  lemma ToolStated(r: Json, id: Identity)
    requires Buildable(id) && r.Obj? && r.Get("tool") == BuildTool(id)
    ensures StatesTool(r, id)
  {
    hide At, Buildable, PlatformKey, Asset, BuildTool;
    PolicyIsObject(id);
    ToolGets(id);
    BuiltToolKeys(id);
    AtOne(r, "tool");
    forall key ensures At(r, ["tool", key]) == BuildTool(id).Get(key) {
      AtTwo(r, "tool", key);
    }
    AtTwo(id.policy, "uv", "version");
    AssetIs(id, "uv", "archive_name");
    AssetIs(id, "uv", "sha256");
    AssetIs(id, "uv", "binary_sha256");
  }

  lemma VerifierStated(r: Json, id: Identity)
    requires Buildable(id) && r.Obj? && r.Get("verifier") == BuildVerifier(id)
    ensures StatesVerifier(r, id)
  {
    hide At, Buildable, PlatformKey, Asset;
    PolicyIsObject(id);
    AtOne(r, "verifier");
    forall key ensures At(r, ["verifier", key]) == BuildVerifier(id).Get(key) {
      AtTwo(r, "verifier", key);
    }
    AtTwo(id.policy, "github_cli", "version");
    AssetIs(id, "github_cli", "archive_name");
    AssetIs(id, "github_cli", "sha256");
  }

  lemma ProvenanceGets(id: Identity)
    requires Buildable(id)
    ensures
      var provenance, uv := BuildProvenance(id), id.policy.Get("uv");
      && provenance.Get("source_repository") == uv.Get("source_repository")
      && provenance.Get("source_commit") == uv.Get("source_commit")
      && provenance.Get("source_ref") == uv.Get("source_ref")
      && provenance.Get("signer_workflow_identity") == uv.Get("signer_workflow_identity")
      && provenance.Get("oidc_issuer") == uv.Get("oidc_issuer")
      && provenance.Get("predicate_type") == uv.Get("predicate_type")
  {
    hide Buildable, PlatformKey;
    PolicyIsObject(id);
  }

  lemma ProvenanceStated(r: Json, id: Identity)
    requires Buildable(id) && r.Obj? && r.Get("provenance") == BuildProvenance(id)
    ensures StatesProvenance(r, id)
  {
    hide At, Buildable, BuildProvenance;
    PolicyIsObject(id);
    ProvenanceGets(id);
    ProvenanceKeys(id);
    AtOne(r, "provenance");
    forall key
      ensures At(r, ["provenance", key]) == BuildProvenance(id).Get(key)
      ensures At(id.policy, ["uv", key]) == id.policy.Get("uv").Get(key)
    {
      AtTwo(r, "provenance", key);
      AtTwo(id.policy, "uv", key);
    }
  }

  lemma ProvenanceKeys(id: Identity)
    requires Buildable(id)
    ensures KeysAre(BuildProvenance(id), {"source_repository", "source_commit", "source_ref",
                                         "signer_workflow_identity", "oidc_issuer", "predicate_type"})
  {
    hide Buildable;
  }

  // ----- which receipts are canonical -----

  /** 64 lower-case hexadecimal digits. */
  ghost predicate Hex64(v: Json) {
    exists s :: v == Str(s) && |s| == 64 && forall c :: c in s ==> c in "0123456789abcdef"
  }

  ghost predicate ToolCanonical(r: Json, key: string) {
    && KeysAre(At(r, ["tool"]), {"name", "version", "platform", "architecture", "asset_name", "asset_sha256",
                                 "binary_sha256"})
    && At(r, ["tool", "name"]) == Str("uv") && At(r, ["tool", "version"]) == Str(UV_VERSION)
    && key in UV_ARCHIVES && At(r, ["tool", "asset_name"]) == Str(UV_ARCHIVES[key])
    && Hex64(At(r, ["tool", "asset_sha256"])) && Hex64(At(r, ["tool", "binary_sha256"]))
    && exists os, architecture ::
         && At(r, ["tool", "platform"]) == Str(os) && At(r, ["tool", "architecture"]) == Str(architecture)
         && key == os + "-" + architecture
  }

  ghost predicate VerifierCanonical(r: Json, key: string) {
    && KeysAre(At(r, ["verifier"]), {"name", "version", "archive_name", "archive_sha256"})
    && At(r, ["verifier", "name"]) == Str("GitHub CLI") && At(r, ["verifier", "version"]) == Str(GH_VERSION)
    && key in GH_ARCHIVES && At(r, ["verifier", "archive_name"]) == Str(GH_ARCHIVES[key])
    && Hex64(At(r, ["verifier", "archive_sha256"]))
  }

  ghost predicate ProvenanceCanonical(r: Json) {
    At(r, ["provenance"]) == Obj(map[
      "source_repository" := Str(UV_SOURCE_REPOSITORY), "source_commit" := Str(UV_SOURCE_COMMIT),
      "source_ref" := Str(UV_SOURCE_REF), "signer_workflow_identity" := Str(UV_SIGNER_WORKFLOW),
      "oidc_issuer" := Str(UV_OIDC_ISSUER), "predicate_type" := Str(UV_PREDICATE_TYPE)])
  }

  /** A success receipt of schema version 1, in all its fields. */
  ghost predicate IsSuccessReceipt(r: Json, calendar: Calendar) {
    && KeysAre(r, {"schema_version", "policy", "tool", "verifier", "provenance", "verified_at", "status",
                   "failure_category"})
    && At(r, ["schema_version"]) == Int(1) && At(r, ["status"]) == Str("success")
    && At(r, ["failure_category"]) == Null
    && KeysAre(At(r, ["policy"]), {"schema_version", "sha256"})
    && At(r, ["policy", "schema_version"]) == Int(1) && Hex64(At(r, ["policy", "sha256"]))
    && (exists key :: ToolCanonical(r, key) && VerifierCanonical(r, key))
    && ProvenanceCanonical(r)
    && (exists time :: At(r, ["verified_at"]) == Str(time + "Z") && calendar(time))
  }

  lemma HexIs(v: Json)
    ensures Hex64(v) <==> IsSha256(v)
  {
    forall c: char ensures c in "0123456789abcdef" <==> HexDigit(c) {
    }
    hide HexDigit;
    if IsSha256(v) {
      assert forall i :: 0 <= i < |v.s| ==> v.s[i] in "0123456789abcdef";
      assert v == Str(v.s) && forall c :: c in v.s ==> c in "0123456789abcdef";
    }
  }

  lemma TimeIs(v: Json, calendar: Calendar)
    ensures IsTimestamp(v, calendar) <==> exists time :: v == Str(time + "Z") && calendar(time)
  {
    if IsTimestamp(v, calendar) {
      var time := v.s[..|v.s| - 1];
      assert v.s == time + "Z";
    }
    forall time | v == Str(time + "Z") && calendar(time) ensures IsTimestamp(v, calendar) {
      assert v.s[..|v.s| - 1] == time;
    }
  }

  lemma ToolIs(r: Json, tool: Json, key: string)
    requires r.Obj? && tool == r.Get("tool") && key in UV_ARCHIVES
    ensures ToolCanonical(r, key) <==> CanonicalTool(tool, key) && PlatformOf(tool) == key
  {
    hide At, IsSha256, Hex64, UV_ARCHIVES;
    AtOne(r, "tool");
    if tool.Obj? {
      forall field ensures At(r, ["tool", field]) == tool.Get(field) {
        AtTwo(r, "tool", field);
      }
      HexIs(tool.Get("asset_sha256"));
      HexIs(tool.Get("binary_sha256"));
      KeyNotEmpty(key);
    }
  }

  lemma KeyNotEmpty(key: string)
    requires key in UV_ARCHIVES
    ensures key != ""
  {
  }

  lemma VerifierIs(r: Json, verifier: Json, key: string)
    requires r.Obj? && verifier == r.Get("verifier") && key in GH_ARCHIVES
    ensures VerifierCanonical(r, key) <==> CanonicalVerifier(verifier, key)
  {
    hide At, IsSha256, Hex64, GH_ARCHIVES;
    AtOne(r, "verifier");
    if verifier.Obj? {
      forall field ensures At(r, ["verifier", field]) == verifier.Get(field) {
        AtTwo(r, "verifier", field);
      }
      HexIs(verifier.Get("archive_sha256"));
    }
  }

  lemma PolicyIs(r: Json, policy: Json)
    requires r.Obj? && policy == r.Get("policy")
    ensures CanonicalPolicy(policy) <==>
      KeysAre(At(r, ["policy"]), {"schema_version", "sha256"})
      && At(r, ["policy", "schema_version"]) == Int(1) && Hex64(At(r, ["policy", "sha256"]))
  {
    hide At, IsSha256, Hex64;
    AtOne(r, "policy");
    if policy.Obj? {
      AtTwo(r, "policy", "schema_version");
      AtTwo(r, "policy", "sha256");
      HexIs(policy.Get("sha256"));
    }
  }

  /** The script's check of a success receipt. */
  lemma CanonicalIff(r: Json, calendar: Calendar)
    ensures IsCanonicalSuccess(r, calendar) <==> IsSuccessReceipt(r, calendar)
  {
    hide At, CanonicalTool, CanonicalVerifier, CanonicalPolicy, ToolCanonical, VerifierCanonical, Hex64, PlatformOf,
      UV_ARCHIVES, GH_ARCHIVES, IsTimestamp;
    if r.Obj? {
      AtOne(r, "schema_version");
      AtOne(r, "status");
      AtOne(r, "failure_category");
      AtOne(r, "provenance");
      AtOne(r, "verified_at");
      PolicyIs(r, r.Get("policy"));
      TimeIs(r.Get("verified_at"), calendar);
      var tool, verifier := r.Get("tool"), r.Get("verifier");
      forall key
        ensures ToolCanonical(r, key) && VerifierCanonical(r, key) <==>
          key in UV_ARCHIVES && key in GH_ARCHIVES && PlatformOf(tool) == key && CanonicalTool(tool, key)
          && CanonicalVerifier(verifier, key)
      {
        BothAre(r, tool, verifier, key);
      }
    }
  }

  lemma BothAre(r: Json, tool: Json, verifier: Json, key: string)
    requires r.Obj? && tool == r.Get("tool") && verifier == r.Get("verifier")
    ensures ToolCanonical(r, key) && VerifierCanonical(r, key) <==>
      key in UV_ARCHIVES && key in GH_ARCHIVES && PlatformOf(tool) == key && CanonicalTool(tool, key)
      && CanonicalVerifier(verifier, key)
  {
    hide At, CanonicalTool, CanonicalVerifier, PlatformOf, Hex64, UV_ARCHIVES, GH_ARCHIVES;
    if key in UV_ARCHIVES && key in GH_ARCHIVES {
      ToolIs(r, tool, key);
      VerifierIs(r, verifier, key);
    }
  }
}
