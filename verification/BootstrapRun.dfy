/** `bootstrap_uv` and `record_post_preflight_failure` (scripts/bootstrap_uv.py) over the receipt file, with a
  * failure possible at every step. What the steps do beyond that is left to the environment.
  */
module BootstrapRun {
  import opened Json
  import opened Receipts
  import opened Wrappers

  /** How a step ends: normally, with a BootstrapError, or with an exception that is none. */
  datatype Status = Fine | Coded(code: string) | Uncoded {
    predicate IsFailure() { !Fine? }
    function PropagateFailure(): Status requires IsFailure() { this }
  }

  datatype Step =
    | LoadPolicy | SelectPlatform | HashPolicy | ReadClock | CheckInstallPath
    | CheckCached | RunCached
    | MakeWorkspace | DownloadGh | ExtractGh | FindGh | RunGh
    | DownloadUv | Attest | CheckAttestation | ExtractUv | CheckExtracted | RunExtracted
    | Install | CheckInstalled | RemoveWorkspace

  /** The files whose digests the policy pins. */
  datatype Artifact = GhArchive | CachedBinary | UvArchive | ExtractedBinary | InstalledBinary

  datatype Tool = GitHubCli | CachedUv | ExtractedUv

  datatype Event = Matched(artifact: Artifact) | WroteSuccess | WroteFailure(code: string) | Executed(tool: Tool)

  const PATH_UNSAFE := "RECEIPT_PATH_UNSAFE"
  const WRITE_FAILED := "RECEIPT_WRITE_FAILED"

  predicate ReceiptCode(code: string) {
    code == PATH_UNSAFE || code == WRITE_FAILED
  }

  datatype Writing = Written | Unsafe | Failed | Broken

  function Outcome(writing: Writing): Status {
    match writing
    case Written => Fine
    case Unsafe => Coded(PATH_UNSAFE)
    case Failed => Coded(WRITE_FAILED)
    case Broken => Uncoded
  }

  datatype Environment = Environment(
    ends: Step -> Status,
    digest: Artifact -> string, // the SHA-256 of the file
    hasCached: bool,            // something is at the install path
    identity: Identity,
    calendar: Calendar,
    firstWrite: Writing,
    failureWrite: Writing)

  /** What the validation of the policy, the choice of the platform and the clock guarantee when they succeed. */
  ghost predicate Reliable(env: Environment) {
    PolicyPasses(env) ==> IsVerified(env.identity, env.calendar)
  }

  /** `_build_initialization_receipt` */
  function InitializationReceipt(): Json {
    Obj(map["schema_version" := Int(1), "status" := Str("failure"), "failure_category" := Null])
  }

  /** The receipt with another status and category; everything else stays. */
  function AsFailure(receipt: Json, code: string): (failed: Json)
    requires receipt.Obj?
    ensures IsFailureReceipt(failed, code)
    ensures failed.fields.Keys == receipt.fields.Keys + {"status", "failure_category"}
    ensures forall key :: key in receipt.fields && key !in {"status", "failure_category"} ==>
      failed.fields[key] == receipt.fields[key]
  {
    Obj(receipt.fields["status" := Str("failure")]["failure_category" := Str(code)])
  }

  /** The digest that the policy pins for a file. */
  function Pinned(id: Identity, artifact: Artifact): Json {
    if artifact == GhArchive then Asset(id, "github_cli", "sha256")
    else if artifact == UvArchive then Asset(id, "uv", "sha256")
    else Asset(id, "uv", "binary_sha256")
  }

  predicate Matches(env: Environment, artifact: Artifact) {
    Str(env.digest(artifact)) == Pinned(env.identity, artifact)
  }

  /** What was logged as matching has the digest of the policy. */
  ghost predicate Honest(log: seq<Event>, env: Environment) {
    forall e :: e in log && e.Matched? ==> Matches(env, e.artifact)
  }

  // ----- when a run succeeds -----

  ghost predicate HasDigest(env: Environment, artifact: Artifact, tool: string, key: string) {
    Asset(env.identity, tool, key) == Str(env.digest(artifact))
  }

  ghost predicate CachedUvPasses(env: Environment) {
    && env.ends(CheckCached).Fine? && HasDigest(env, CachedBinary, "uv", "binary_sha256") && env.firstWrite.Written?
      && env.ends(RunCached).Fine?
  }

  ghost predicate GitHubCliPasses(env: Environment) {
    && env.ends(DownloadGh).Fine? && HasDigest(env, GhArchive, "github_cli", "sha256") && env.ends(ExtractGh).Fine?
      && env.ends(FindGh).Fine?
    && env.ends(RunGh).Fine?
  }

  ghost predicate DownloadedUvPasses(env: Environment) {
    && env.ends(DownloadUv).Fine? && HasDigest(env, UvArchive, "uv", "sha256") && env.ends(Attest).Fine?
      && env.ends(CheckAttestation).Fine?
    && env.ends(ExtractUv).Fine? && env.ends(CheckExtracted).Fine?
    && HasDigest(env, ExtractedBinary, "uv", "binary_sha256")
  }

  ghost predicate InstallationPasses(env: Environment) {
    && env.firstWrite.Written? && env.ends(RunExtracted).Fine? && env.ends(Install).Fine?
      && env.ends(CheckInstalled).Fine?
    && HasDigest(env, InstalledBinary, "uv", "binary_sha256")
  }

  ghost predicate DownloadPasses(env: Environment) {
    && env.ends(MakeWorkspace).Fine? && GitHubCliPasses(env) && DownloadedUvPasses(env) && InstallationPasses(env)
    && env.ends(RemoveWorkspace).Fine?
  }

  ghost predicate PolicyPasses(env: Environment) {
    env.ends(LoadPolicy).Fine? && env.ends(SelectPlatform).Fine? && env.ends(HashPolicy).Fine?
      && env.ends(ReadClock).Fine?
  }

  /** A run succeeds exactly when every check of the branch it takes passes. */
  ghost predicate Passes(env: Environment) {
    && PolicyPasses(env) && env.ends(CheckInstallPath).Fine?
    && if env.hasCached then CachedUvPasses(env) else DownloadPasses(env)
  }

  // ----- which error it ends with -----

  /** Two steps, one after the other: the first error counts. */
  function Then(first: Status, second: Status): Status {
    if first.Fine? then second else first
  }

  ghost function DigestStatus(env: Environment, artifact: Artifact, tool: string, key: string, code: string): Status {
    if HasDigest(env, artifact, tool, key) then Fine else Coded(code)
  }

  ghost function PolicyEnd(env: Environment): Status {
    Then(env.ends(LoadPolicy), Then(env.ends(SelectPlatform), Then(env.ends(HashPolicy), env.ends(ReadClock))))
  }

  ghost function CachedEnd(env: Environment): Status {
    Then(env.ends(CheckCached),
         Then(DigestStatus(env, CachedBinary, "uv", "binary_sha256", "CACHED_BINARY_DIGEST_MISMATCH"),
              Then(Outcome(env.firstWrite), env.ends(RunCached))))
  }

  ghost function GitHubCliEnd(env: Environment): Status {
    Then(env.ends(DownloadGh),
         Then(DigestStatus(env, GhArchive, "github_cli", "sha256", "VERIFIER_ARCHIVE_DIGEST_MISMATCH"),
              Then(env.ends(ExtractGh), Then(env.ends(FindGh), env.ends(RunGh)))))
  }

  ghost function UvEnd(env: Environment): Status {
    Then(env.ends(DownloadUv),
         Then(DigestStatus(env, UvArchive, "uv", "sha256", "UV_ARCHIVE_DIGEST_MISMATCH"),
              Then(env.ends(Attest),
                   Then(env.ends(CheckAttestation),
                        Then(env.ends(ExtractUv),
                             Then(env.ends(CheckExtracted),
                                  DigestStatus(env, ExtractedBinary, "uv", "binary_sha256",
                                               "UV_BINARY_DIGEST_MISMATCH")))))))
  }

  ghost function InstallEnd(env: Environment): Status {
    Then(Outcome(env.firstWrite),
         Then(env.ends(RunExtracted),
              Then(env.ends(Install),
                   Then(env.ends(CheckInstalled),
                        DigestStatus(env, InstalledBinary, "uv", "binary_sha256",
                                     "INSTALLED_BINARY_DIGEST_MISMATCH")))))
  }

  /** An error when the workspace is removed replaces any other from within it. */
  ghost function DownloadEnd(env: Environment): Status {
    Then(env.ends(MakeWorkspace),
         Then(env.ends(RemoveWorkspace), Then(GitHubCliEnd(env), Then(UvEnd(env), InstallEnd(env)))))
  }

  ghost function AttemptEnd(env: Environment): Status {
    Then(PolicyEnd(env),
         Then(env.ends(CheckInstallPath), if env.hasCached then CachedEnd(env) else DownloadEnd(env)))
  }

  /** An error that is not about the receipt is replaced when it cannot be recorded in the receipt. */
  ghost function RunEnd(env: Environment): Status {
    var end := AttemptEnd(env);
    if end.Coded? && end.code != "RECEIPT_PATH_UNSAFE" && end.code != "RECEIPT_WRITE_FAILED"
      then Then(Outcome(env.failureWrite), end)
    else end
  }

  // ----- what may happen after what -----

  /** A tool runs only after its digest matched, uv moreover only after the success receipt was written, and the
    * success receipt is written only after the digest of a uv binary matched.
    */
  ghost predicate Allowed(before: seq<Event>, e: Event) {
    match e
    case Matched(_) => true
    case WroteFailure(_) => true
    case WroteSuccess => Matched(CachedBinary) in before
      || (Matched(UvArchive) in before && Matched(ExtractedBinary) in before)
    case Executed(GitHubCli) => Matched(GhArchive) in before
    case Executed(CachedUv) => Matched(CachedBinary) in before && WroteSuccess in before
    case Executed(ExtractedUv) =>
      && Matched(UvArchive) in before && Matched(ExtractedBinary) in before
      && WroteSuccess in before
  }

  ghost predicate Safe(log: seq<Event>) {
    forall k {:trigger log[k]} :: 0 <= k < |log| ==> Allowed(log[..k], log[k])
  }

  lemma SafeStep(log: seq<Event>, e: Event)
    requires Safe(log) && Allowed(log, e)
    ensures Safe(log + [e])
  {
    hide Allowed;
    forall k | 0 <= k < |log + [e]|
      ensures Allowed((log + [e])[..k], (log + [e])[k])
    {
      if k < |log| {
        assert (log + [e])[..k] == log[..k] && (log + [e])[k] == log[k];
      } else {
        assert (log + [e])[..k] == log;
      }
    }
  }

  lemma SafeAt(log: seq<Event>, e: Event)
    requires Safe(log) && e in log
    ensures exists k :: 0 <= k < |log| && log[k] == e && Allowed(log[..k], e)
  {
    hide Allowed;
    var k :| 0 <= k < |log| && log[k] == e;
  }

  /** What was run, or stated in a success receipt, has the digests of the policy. */
  ghost predicate DigestsChecked(log: seq<Event>, env: Environment) {
    && (Executed(GitHubCli) in log ==> HasDigest(env, GhArchive, "github_cli", "sha256"))
    && (Executed(CachedUv) in log ==> HasDigest(env, CachedBinary, "uv", "binary_sha256"))
    && (Executed(ExtractedUv) in log ==>
          HasDigest(env, UvArchive, "uv", "sha256") && HasDigest(env, ExtractedBinary, "uv", "binary_sha256"))
    && (WroteSuccess in log ==>
          || HasDigest(env, CachedBinary, "uv", "binary_sha256")
          || (HasDigest(env, UvArchive, "uv", "sha256") && HasDigest(env, ExtractedBinary, "uv", "binary_sha256")))
  }

  lemma HonestRuns(log: seq<Event>, env: Environment)
    requires Safe(log) && Honest(log, env)
    ensures DigestsChecked(log, env)
  {
    hide Safe, Asset;
    forall e | e in log ensures Allowed(log, e) {
      SafeAt(log, e);
      var k :| 0 <= k < |log| && log[k] == e && Allowed(log[..k], e);
      assert forall m :: m in log[..k] ==> m in log;
    }
    forall a: Artifact | Matched(a) in log ensures Matches(env, a) {
      assert Matched(a).Matched?;
    }
  }

  /** A failed run's receipt: what was known of the policy when it failed, with the code. */
  ghost predicate FailedAs(receipt: Json, env: Environment, code: string) {
    if PolicyPasses(env) then States(receipt, env.identity, "failure", Str(code))
    else receipt == Obj(map["schema_version" := Int(1), "status" := Str("failure"), "failure_category" := Str(code)])
  }

  lemma InitializationFails(code: string)
    ensures AsFailure(InitializationReceipt(), code)
      == Obj(map["schema_version" := Int(1), "status" := Str("failure"), "failure_category" := Str(code)])
  {
  }

  lemma SameAt(r: Json, failed: Json, key: string, path: seq<string>)
    requires r.Obj? && failed.Obj? && key in r.fields && key in failed.fields && failed.fields[key] == r.fields[key]
    ensures At(failed, [key] + path) == At(r, [key] + path)
  {
    AtStep(r, key, path);
    AtStep(failed, key, path);
  }

  lemma FailureStates(r: Json, id: Identity, code: string)
    requires States(r, id, "success", Null)
    ensures States(AsFailure(r, code), id, "failure", Str(code))
  {
    hide At, AsFailure;
    var failed := AsFailure(r, code);
    var kept := {"schema_version", "policy", "tool", "verifier", "provenance", "verified_at"};
    assert kept !! {"status", "failure_category"} by {
      KeptApart();
    }
    forall key | key in kept
      ensures At(failed, [key]) == At(r, [key])
      ensures forall b :: At(failed, [key, b]) == At(r, [key, b])
    {
      SameAt(r, failed, key, []);
      assert [key] + [] == [key];
      forall b ensures At(failed, [key, b]) == At(r, [key, b]) {
        SameAt(r, failed, key, [b]);
        assert [key] + [b] == [key, b];
      }
    }
    AtOne(failed, "status");
    AtOne(failed, "failure_category");
  }

  lemma ReceiptIsObject(id: Identity)
    ensures Buildable(id) ==> BuildReceipt(id).Obj?
    ensures InitializationReceipt().Obj?
  {
    hide IsValidPolicy, BuildTool, BuildVerifier, BuildProvenance;
  }

  /** The five comparisons of a digest. */
  lemma MatchesAre(env: Environment)
    ensures Matches(env, GhArchive) <==> HasDigest(env, GhArchive, "github_cli", "sha256")
    ensures Matches(env, UvArchive) <==> HasDigest(env, UvArchive, "uv", "sha256")
    ensures forall a :: a in {CachedBinary, ExtractedBinary, InstalledBinary} ==>
      (Matches(env, a) <==> HasDigest(env, a, "uv", "binary_sha256"))
  {
    hide Asset;
  }

  lemma NothingLogged(env: Environment)
    ensures Safe([]) && Honest([], env)
  {
  }

  lemma VerifiedIsBuildable(id: Identity, calendar: Calendar)
    requires IsVerified(id, calendar)
    ensures Buildable(id)
  {
    hide IsValidPolicy, IsSha256, IsTimestamp;
  }

  /** The receipt that a run has built when its `try` block ends, as it stands and as a failure. */
  lemma ReceiptOfRun(env: Environment, receipt: Json)
    requires Reliable(env)
    requires receipt == if PolicyPasses(env) then BuildReceipt(env.identity) else InitializationReceipt()
    ensures receipt.Obj? && forall code :: FailedAs(AsFailure(receipt, code), env, code)
    ensures PolicyPasses(env) ==>
      IsCanonicalSuccess(receipt, env.calendar) && States(receipt, env.identity, "success", Null)
  {
    hide PolicyPasses, IsVerified, States, IsCanonicalSuccess, AsFailure, IsSha256, BuildReceipt, Buildable;
    if PolicyPasses(env) {
      VerifiedIsBuildable(env.identity, env.calendar);
      BuiltReceiptIsCanonical(env.identity, env.calendar);
      BuiltReceiptStates(env.identity);
    }
    ReceiptIsObject(env.identity);
    forall code ensures FailedAs(AsFailure(receipt, code), env, code) {
      if PolicyPasses(env) {
        FailureStates(receipt, env.identity, code);
      } else {
        InitializationFails(code);
      }
    }
  }

  lemma KeptApart()
    ensures {"schema_version", "policy", "tool", "verifier", "provenance", "verified_at"}
      !! {"status", "failure_category"}
  {
    assert |"status"| == 6 && |"policy"| == 6 && "policy"[0] != "status"[0] && |"failure_category"| == 16;
  }

  /** The file holds a canonical success receipt. */
  predicate CanonicalFile(file: Option<Json>, calendar: Calendar) {
    file.Some? && IsCanonicalSuccess(file.value, calendar)
  }

  class Bootstrap {
    /** The file at the receipt path. */
    var receiptFile: Option<Json>
    /** The events of the current run. */
    var log: seq<Event>

    constructor (found: Option<Json>)
      ensures receiptFile == found && log == []
    {
      receiptFile, log := found, [];
    }

    method Note(e: Event)
      requires Safe(log) && Allowed(log, e)
      modifies `log
      ensures Safe(log) && log == old(log) + [e]
    {
      SafeStep(log, e);
      log := log + [e];
    }

    /** `_write_receipt`: the file is replaced as a whole or not at all. */
    method WriteReceipt(receipt: Json, writing: Writing, e: Event) returns (s: Status)
      requires Safe(log) && Allowed(log, e)
      modifies this
      ensures Safe(log) && log == old(log) + (if s.Fine? then [e] else [])
      ensures receiptFile == if s.Fine? then Some(receipt) else old(receiptFile)
      ensures s == Outcome(writing)
    {
      match writing {
        case Unsafe => return Coded(PATH_UNSAFE);
        case Failed => return Coded(WRITE_FAILED);
        case Broken => return Uncoded;
        case Written =>
      }
      receiptFile := Some(receipt);
      Note(e);
      s := Fine;
    }

    /** `_digest_matches` and `_assert_binary` */
    method CheckDigest(env: Environment, artifact: Artifact, code: string) returns (s: Status)
      requires Safe(log) && Honest(log, env)
      modifies `log
      ensures Safe(log) && Honest(log, env) && log == old(log) + (if s.Fine? then [Matched(artifact)] else [])
      ensures s == if Matches(env, artifact) then Fine else Coded(code)
    {
      if !Matches(env, artifact) {
        return Coded(code);
      }
      Note(Matched(artifact));
      s := Fine;
    }

    /** What a run may have done to the file by the time its `try` block ends. */
    ghost predicate Wrote(env: Environment, before: Option<Json>, receipt: Json)
      reads this
    {
      && (receipt == InitializationReceipt()
          || (IsVerified(env.identity, env.calendar) && receipt == BuildReceipt(env.identity)))
      && (if WroteSuccess in log
          then IsVerified(env.identity, env.calendar) && receipt == BuildReceipt(env.identity)
            && receiptFile == Some(receipt)
          else receiptFile == before)
    }

    /** The branch for a uv that is already installed. */
    method UseCached(env: Environment, receipt: Json) returns (s: Status)
      requires Safe(log) && Honest(log, env) && WroteSuccess !in log
      requires IsVerified(env.identity, env.calendar) && receipt == BuildReceipt(env.identity)
      modifies this
      ensures Safe(log) && Honest(log, env) && Wrote(env, old(receiptFile), receipt)
        && (s.Fine? ==> WroteSuccess in log)
      ensures s.Fine? <==> CachedUvPasses(env)
      ensures s == CachedEnd(env)
    {
      hide IsVerified, BuildReceipt, InitializationReceipt, IsCanonicalSuccess, Safe, Matches, HasDigest;
      MatchesAre(env);
      :- env.ends(CheckCached);
      :- CheckDigest(env, CachedBinary, "CACHED_BINARY_DIGEST_MISMATCH");
      :- WriteReceipt(receipt, env.firstWrite, WroteSuccess);
      Note(Executed(CachedUv));
      :- env.ends(RunCached);
      s := Fine;
    }

    /** The GitHub CLI, downloaded, checked, unpacked and run. */
    method FetchGitHubCli(env: Environment) returns (s: Status)
      requires Safe(log) && Honest(log, env) && WroteSuccess !in log
      modifies `log
      ensures Safe(log) && Honest(log, env) && WroteSuccess !in log
      ensures s.Fine? <==> GitHubCliPasses(env)
      ensures s == GitHubCliEnd(env)
    {
      hide Safe, Matches, HasDigest;
      MatchesAre(env);
      :- env.ends(DownloadGh);
      :- CheckDigest(env, GhArchive, "VERIFIER_ARCHIVE_DIGEST_MISMATCH");
      :- env.ends(ExtractGh);
      :- env.ends(FindGh);
      Note(Executed(GitHubCli));
      :- env.ends(RunGh);
      s := Fine;
    }

    /** uv, downloaded, checked, attested and unpacked. */
    method FetchUv(env: Environment) returns (s: Status)
      requires Safe(log) && Honest(log, env) && WroteSuccess !in log
      modifies `log
      ensures Safe(log) && Honest(log, env) && WroteSuccess !in log
      ensures s.Fine? ==> Matched(UvArchive) in log && Matched(ExtractedBinary) in log
      ensures s.Fine? <==> DownloadedUvPasses(env)
      ensures s == UvEnd(env)
    {
      hide Safe, Matches, HasDigest;
      MatchesAre(env);
      :- env.ends(DownloadUv);
      :- CheckDigest(env, UvArchive, "UV_ARCHIVE_DIGEST_MISMATCH");
      assert Matched(UvArchive) in log;
      :- env.ends(Attest);
      :- env.ends(CheckAttestation);
      :- env.ends(ExtractUv);
      :- env.ends(CheckExtracted);
      :- CheckDigest(env, ExtractedBinary, "UV_BINARY_DIGEST_MISMATCH");
      s := Fine;
    }

    /** The receipt is written, and uv is run and installed. */
    method InstallUv(env: Environment, receipt: Json) returns (s: Status)
      requires Safe(log) && Honest(log, env) && WroteSuccess !in log && Matched(UvArchive) in log
        && Matched(ExtractedBinary) in log
      requires IsVerified(env.identity, env.calendar) && receipt == BuildReceipt(env.identity)
      modifies this
      ensures Safe(log) && Honest(log, env) && Wrote(env, old(receiptFile), receipt)
        && (s.Fine? ==> WroteSuccess in log)
      ensures s.Fine? <==> InstallationPasses(env)
      ensures s == InstallEnd(env)
    {
      hide IsVerified, BuildReceipt, InitializationReceipt, IsCanonicalSuccess, Safe, Matches, HasDigest;
      MatchesAre(env);
      :- WriteReceipt(receipt, env.firstWrite, WroteSuccess);
      Note(Executed(ExtractedUv));
      :- env.ends(RunExtracted);
      :- env.ends(Install);
      :- env.ends(CheckInstalled);
      :- CheckDigest(env, InstalledBinary, "INSTALLED_BINARY_DIGEST_MISMATCH");
      s := Fine;
    }

    /** The branch that downloads. Leaving the workspace removes it, and a failure to do so replaces any other. */
    method UseDownloaded(env: Environment, receipt: Json) returns (s: Status)
      requires Safe(log) && Honest(log, env) && WroteSuccess !in log
      requires IsVerified(env.identity, env.calendar) && receipt == BuildReceipt(env.identity)
      modifies this
      ensures Safe(log) && Honest(log, env) && Wrote(env, old(receiptFile), receipt)
        && (s.Fine? ==> WroteSuccess in log)
      ensures s.Fine? <==> DownloadPasses(env)
      ensures s == DownloadEnd(env)
    {
      hide IsVerified, BuildReceipt, InitializationReceipt, IsCanonicalSuccess, Safe, GitHubCliPasses,
        DownloadedUvPasses, InstallationPasses;
      :- env.ends(MakeWorkspace);
      s := FetchGitHubCli(env);
      if s.Fine? {
        s := FetchUv(env);
      }
      if s.Fine? {
        s := InstallUv(env, receipt);
      }
      if !env.ends(RemoveWorkspace).Fine? {
        s := env.ends(RemoveWorkspace);
      }
    }

    /** The `try` block of `bootstrap_uv`, with the receipt as far as it got. */
    method Attempt(env: Environment) returns (s: Status, receipt: Json)
      requires Reliable(env) && log == []
      modifies this
      ensures Safe(log) && Honest(log, env) && Wrote(env, old(receiptFile), receipt)
        && (s.Fine? ==> WroteSuccess in log)
      ensures receipt == if PolicyPasses(env) then BuildReceipt(env.identity) else InitializationReceipt()
      ensures WroteSuccess in log ==> PolicyPasses(env)
      ensures s.Fine? <==> Passes(env)
      ensures s == AttemptEnd(env)
    {
      hide CachedUvPasses, DownloadPasses;
      receipt := InitializationReceipt();
      s := Fine;
      :- env.ends(LoadPolicy);
      :- env.ends(SelectPlatform);
      :- env.ends(HashPolicy);
      :- env.ends(ReadClock);
      receipt := BuildReceipt(env.identity);
      :- env.ends(CheckInstallPath);
      if env.hasCached {
        s := UseCached(env, receipt);
      } else {
        s := UseDownloaded(env, receipt);
      }
    }

    /** `_write_failure_receipt`, which raises again whatever is wrong with the receipt itself. */
    method WriteFailureReceipt(env: Environment, receipt: Json, code: string) returns (s: Status)
      requires Safe(log) && Honest(log, env) && receipt.Obj?
      modifies this
      ensures Safe(log) && Honest(log, env) && s != Fine
      ensures s.Coded? && !ReceiptCode(s.code) ==> s.code == code && receiptFile == Some(AsFailure(receipt, code))
      ensures s.Uncoded? || ReceiptCode(s.code) ==> receiptFile == old(receiptFile)
      ensures s == if ReceiptCode(code) then Coded(code) else Then(Outcome(env.failureWrite), Coded(code))
    {
      if ReceiptCode(code) {
        return Coded(code);
      }
      :- WriteReceipt(AsFailure(receipt, code), env.failureWrite, WroteFailure(code));
      s := Coded(code);
    }

    /** `bootstrap_uv`: a normal return leaves the canonical success receipt on disk, an error that is not about the
      * receipt itself leaves a failure receipt with its code, and nothing else can change the file except the
      * success receipt. No step ever runs a tool that was not checked before.
      */
    method Run(env: Environment) returns (s: Status)
      requires Reliable(env)
      modifies this
      ensures Safe(log) && DigestsChecked(log, env)
      ensures s.Fine? <==> Passes(env)
      ensures s.Fine? ==>
        && CanonicalFile(receiptFile, env.calendar)
        && States(receiptFile.value, env.identity, "success", Null)
      ensures s.Coded? && !ReceiptCode(s.code) ==>
        && receiptFile.Some? && IsFailureReceipt(receiptFile.value, s.code)
        && FailedAs(receiptFile.value, env, s.code)
      ensures s.Uncoded? || (s.Coded? && ReceiptCode(s.code)) ==>
        || receiptFile == old(receiptFile)
        || (CanonicalFile(receiptFile, env.calendar) && States(receiptFile.value, env.identity, "success", Null))
      ensures s == RunEnd(env)
    {
      hide IsVerified, BuildReceipt, IsCanonicalSuccess, Safe, Honest, Allowed, Passes, PolicyPasses,
        InitializationReceipt, AsFailure, IsFailureReceipt, States, Buildable, DigestsChecked, FailedAs, Reliable;
      log := [];
      NothingLogged(env);
      var receipt;
      s, receipt := Attempt(env);
      HonestRuns(log, env);
      ReceiptOfRun(env, receipt);
      if s.Coded? {
        s := WriteFailureReceipt(env, receipt, s.code);
        HonestRuns(log, env);
      }
    }

    /** `record_post_preflight_failure`: only a canonical success receipt is ever replaced, only by its own failed form,
      * and only for a permitted category; otherwise the file stays as it is.
      */
    method RecordPostPreflightFailure(category: string, calendar: Calendar, reading: Status, writing: Writing)
      returns (s: Status)
      requires Safe(log)
      modifies this
      ensures s.Fine? <==>
        && category in POST_PREFLIGHT_FAILURES && reading.Fine? && writing.Written?
        && CanonicalFile(old(receiptFile), calendar)
      ensures s.Fine? ==>
        && receiptFile == Some(AsFailure(old(receiptFile).value, category))
          && IsFailureReceipt(receiptFile.value, category)
      ensures !s.Fine? ==> receiptFile == old(receiptFile)
      ensures category !in POST_PREFLIGHT_FAILURES ==> s == Coded("FAILURE_CATEGORY_INVALID")
      ensures category in POST_PREFLIGHT_FAILURES && !reading.Fine? ==> s == reading
      ensures category in POST_PREFLIGHT_FAILURES && reading.Fine? && s.Coded? && !ReceiptCode(s.code) ==>
        s.code == match old(receiptFile) case None => "RECEIPT_READ_FAILED" case Some(_) => "RECEIPT_STATE_INVALID"
      ensures category in POST_PREFLIGHT_FAILURES && reading.Fine? && CanonicalFile(old(receiptFile), calendar) ==>
        s == Outcome(writing)
    {
      if category !in POST_PREFLIGHT_FAILURES {
        return Coded("FAILURE_CATEGORY_INVALID");
      }
      :- reading;
      if receiptFile.None? {
        return Coded("RECEIPT_READ_FAILED");
      }
      if !IsCanonicalSuccess(receiptFile.value, calendar) {
        return Coded("RECEIPT_STATE_INVALID");
      }
      s := WriteReceipt(AsFailure(receiptFile.value, category), writing, WroteFailure(category));
    }

    /** The `bootstrap` command of `main` with an output file to write: when that fails after a successful run, the
      * receipt it left behind is always one that can be turned into the failure.
      */
    method BootstrapCommand(env: Environment, outputsWritten: bool, reading: Status, writing: Writing)
      returns (s: Status)
      requires Reliable(env)
      modifies this
      ensures s.Fine? <==> Passes(env) && outputsWritten
      ensures s.Fine? ==> CanonicalFile(receiptFile, env.calendar)
      ensures s.Coded? && !ReceiptCode(s.code) && (Passes(env) ==> reading.Fine?) ==>
        receiptFile.Some? && IsFailureReceipt(receiptFile.value, s.code)
      ensures Passes(env) && !outputsWritten && reading.Fine? && writing.Written? ==> s == Coded(OUTPUT_FAILED)
    {
      hide IsVerified, BuildReceipt, IsCanonicalSuccess, Passes, Reliable, IsFailureReceipt, AsFailure, Safe;
      :- Run(env);
      if !outputsWritten {
        :- RecordPostPreflightFailure(OUTPUT_FAILED, env.calendar, reading, writing);
        return Coded(OUTPUT_FAILED);
      }
      s := Fine;
    }
  }

  const OUTPUT_FAILED := "GITHUB_OUTPUT_WRITE_FAILED"

  const POST_PREFLIGHT_FAILURES := {OUTPUT_FAILED, "INSTALLED_UV_VERIFICATION_FAILED", "SETUP_UV_ACTION_FAILED"}

  predicate IsFailureReceipt(receipt: Json, code: string) {
    receipt.Obj? && receipt.Get("status") == Str("failure") && receipt.Get("failure_category") == Str(code)
  }

  /** A failed receipt is never canonical, so it can never be converted again, and its code never changes. */
  lemma FailureIsFinal(receipt: Json, code: string, calendar: Calendar)
    requires IsFailureReceipt(receipt, code)
    ensures !IsCanonicalSuccess(receipt, calendar)
  {
    hide CanonicalPolicy, CanonicalTool, CanonicalVerifier, Provenance, PlatformOf, HasExactly, IsTimestamp;
    assert "failure" != "success" by { assert "failure"[0] != "success"[0]; }
  }
}
