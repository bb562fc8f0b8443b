/**
 * The per-container decisions of the migration: creating the container on the
 * destination (`funcSyncContainer`), transferring its image (`funcImageSync`),
 * its env file (`funcSyncContainerEnvFile`) and its secrets
 * (`funcSyncContainerSecret`).  Remote replies, local command output, the
 * files present in the migration directory and the operator's answers are
 * parameters; `exit(1)` is an outcome of its own.
 */
module Sync {
  import opened Text
  import opened Commands
  import opened Archives
  import opened Inspect

  // ---------------------------------------------------------------------------
  // funcSyncContainer
  // ---------------------------------------------------------------------------

  /** `("0", "OK")`, `("1", message)` in loop mode, or the run stops. */
  datatype CreateOutcome = Created | CreateFailed(message: string) | CreateStop

  /** The remote create: status 0 creates; any other status fails, stopping the run outside loop mode. */
  function CreateResult(loopEnabled: bool, reply: Reply): (o: CreateOutcome)
  {
    if reply.status == 0 then Created
    else if !loopEnabled then CreateStop
    else CreateFailed(reply.text)
  }

  /**
   * A create command that the destination accepts creates the container; one that it
   * refuses stops the run unless in loop mode, where the error text is handed back.
   */
  lemma CreateResultOfCommand(loopEnabled: bool, exitStatus: int, errStatus: int, stderr: string)
    ensures var o := CreateResult(loopEnabled, CommandReply(exitStatus, errStatus, stderr));
            && (o == Created <==> errStatus == 0 && exitStatus == 0)
            && (o == CreateStop <==> !loopEnabled && (errStatus != 0 || exitStatus != 0))
            && (o.CreateFailed? ==> loopEnabled)
            && (o.CreateFailed? && errStatus != 0 ==> o.message[..|ErrorPrefix|] == ErrorPrefix)
            && (o.CreateFailed? && errStatus == 0 ==> o.message == "OK")
  {
  }

  // ---------------------------------------------------------------------------
  // funcImageSync
  // ---------------------------------------------------------------------------

  /** The loop over the output lines keeps the last one, stripped; no line at all stops the run. */
  method ImageSource(lines: seq<string>) returns (source: Option<string>)
    ensures lines == [] <==> source == None
    ensures lines != [] ==> source == Some(Strip(lines[|lines| - 1]))
  {
    source := None;
    var i := 0;
    while i < |lines|
      invariant 0 <= i <= |lines|
      invariant i == 0 <==> source == None
      invariant i > 0 ==> source == Some(Strip(lines[i - 1]))
    {
      source := Some(Strip(lines[i]));
      i := i + 1;
    }
  }

  /** What happened to the image. */
  datatype ImageOutcome =
    | InSync                                   // local and remote Id agree: nothing is done
    | ArchiveExists(path: string)              // the dated archive is already there: skip
    | Transferred(path: string, loaded: bool)  // saved, sent, and loaded (or the load failed)
    | ImageStop                                // the save failed: the run stops

  /** The outcome and the files of the migration directory afterwards. */
  datatype ImageStep = ImageStep(outcome: ImageOutcome, files: set<string>)

  /**
   * The image decision: compare the Ids, then save to the dated archive unless it
   * already exists, send it and load it.  A failing load is only reported.
   */
  function ImageSync(dir: string, prefix: string, date: string, image: string,
                     localId: string, remote: Reply, files: set<string>,
                     saveOk: bool, loadReply: Reply): (step: ImageStep)
    ensures step.outcome == InSync ==> step.files == files
    ensures step.outcome.ArchiveExists? ==> step.files == files && step.outcome.path in files
    ensures step.outcome.Transferred? ==>
              step.outcome.path !in files && step.files == files + {step.outcome.path}
    ensures step.outcome == ImageStop ==> step.files == files
  {
    if Strip(localId) == remote.text then ImageStep(InSync, files)
    else
      var path := ImageArchive(dir, prefix, image, date);
      if path in files then ImageStep(ArchiveExists(path), files)
      else if !saveOk then ImageStep(ImageStop, files)
      else ImageStep(Transferred(path, loadReply.status == 0), files + {path})
  }

  /** Nothing is saved, sent or loaded when the local image Id equals the remote reply. */
  lemma ImageInSyncDoesNothing(dir: string, prefix: string, date: string, image: string,
                               localId: string, remote: Reply, files: set<string>,
                               saveOk: bool, loadReply: Reply)
    requires Strip(localId) == remote.text
    ensures ImageSync(dir, prefix, date, image, localId, remote, files, saveOk, loadReply)
            == ImageStep(InSync, files)
  {
  }

  /** An existing dated archive skips save, send and load. */
  lemma ImageArchiveSkips(dir: string, prefix: string, date: string, image: string,
                          localId: string, remote: Reply, files: set<string>,
                          saveOk: bool, loadReply: Reply)
    requires Strip(localId) != remote.text
    requires ImageArchive(dir, prefix, image, date) in files
    ensures ImageSync(dir, prefix, date, image, localId, remote, files, saveOk, loadReply)
            == ImageStep(ArchiveExists(ImageArchive(dir, prefix, image, date)), files)
  {
  }

  /**
   * The same image synced twice on one day is transferred at most once: the second
   * run finds the archive the first one wrote (or finds the image in sync).
   */
  lemma ImageSyncOnce(dir: string, prefix: string, date: string, image: string,
                      localId: string, remote: Reply, files: set<string>,
                      saveOk: bool, loadReply: Reply,
                      remote2: Reply, saveOk2: bool, loadReply2: Reply)
    ensures var first := ImageSync(dir, prefix, date, image, localId, remote, files, saveOk, loadReply);
            var second := ImageSync(dir, prefix, date, image, localId, remote2, first.files, saveOk2, loadReply2);
            first.outcome.Transferred? ==> !second.outcome.Transferred? && second.files == first.files
  {
  }

  /** Two images whose references differ only in `.`, `/` and `:` share an archive. */
  lemma ImageArchivesShared(dir: string, prefix: string, date: string, a: string, b: string)
    requires |a| == |b|
    requires forall i :: 0 <= i < |a| ==>
               a[i] == b[i] || (a[i] in {'.', '/', ':'} && b[i] in {'.', '/', ':'})
    ensures ImageArchive(dir, prefix, a, date) == ImageArchive(dir, prefix, b, date)
  {
    SanitiseShape(a);
    SanitiseShape(b);
    assert SanitiseImage(a) == SanitiseImage(b);
  }

  // ---------------------------------------------------------------------------
  // funcSyncContainerEnvFile
  // ---------------------------------------------------------------------------

  datatype EnvOutcome =
    | EnvNotChecked          // no env directory configured
    | EnvNotUsed             // the command has no `--env-file`
    | EnvCrash               // the path has no `/`: the second `del` raises
    | EnvStop                // another directory, or no local file: the run stops
    | EnvOnRemote            // the remote test reports `0`: nothing sent
    | EnvSent(file: string)  // the remote test reports `1`: the file is sent
    | EnvNoAction            // any other remote reply

  /** The env-file decision for one container. */
  function EnvFileSync(envDir: string, cmd: string, localTest: string, remote: Reply): EnvOutcome {
    if envDir == [] then EnvNotChecked
    else if !Contains(cmd, "--env-file") then EnvNotUsed
    else
      var file := EnvFilePath(cmd);
      match EnvDirOf(file)
      case None => EnvCrash
      case Some(d) =>
        if d != envDir then EnvStop
        else if Strip(localTest) == "1" then EnvStop
        else
          var answer := RemoveAll(remote.text, "\n");
          if answer == "0" then EnvOnRemote
          else if answer == "1" then EnvSent(file)
          else EnvNoAction
  }

  /** A file is sent only when the directory, the local test and the remote test all agree. */
  lemma EnvFileSentOnlyIfMatching(envDir: string, cmd: string, localTest: string, remote: Reply)
    ensures EnvFileSync(envDir, cmd, localTest, remote).EnvSent? ==>
              envDir != [] && EnvDirOf(EnvFilePath(cmd)) == Some(envDir)
              && Strip(localTest) != "1" && RemoveAll(remote.text, "\n") == "1"
              && EnvFileSync(envDir, cmd, localTest, remote).file == EnvFilePath(cmd)
  {
  }

  /**
   * For a command giving `--env-file <path>` once, with an absolute path: the run
   * stops exactly when the file's directory is not the configured one (or the
   * local file is missing), and nothing is sent when the remote test reports `0`.
   */
  lemma EnvFileByDirectory(envDir: string, pre: string, path: string, post: string,
                           localTest: string, remote: Reply)
    requires envDir != []
    requires |path| > 0 && path[0] == '/'
    requires '\n' !in pre + "--env-file " + path + post
    requires ' ' !in path && (post == [] || post[0] == ' ')
    requires !Contains(path + post, "env-file ")
    ensures var o := EnvFileSync(envDir, pre + "--env-file " + path + post, localTest, remote);
            && (o == EnvStop <==> DirName(path) != envDir || Strip(localTest) == "1")
            && (o == EnvOnRemote <==> DirName(path) == envDir && Strip(localTest) != "1"
                                      && RemoveAll(remote.text, "\n") == "0")
            && (o.EnvSent? ==> o.file == path)
  {
    var cmd := pre + "--env-file " + path + post;
    assert cmd == (pre + "--") + "env-file " + path + post;
    ContainsAt(cmd, "--env-file", |pre|) by {
      assert cmd[|pre|..|pre| + 10] == "--env-file";
    }
    ValueAfterWord(pre + "--", "env-file ", path, post);
    EnvDirIsDirName(path);
  }

  // ---------------------------------------------------------------------------
  // funcSyncContainerSecret
  // ---------------------------------------------------------------------------

  /** The remote side of one secret: directory test, create reply, operator answer on a name clash. */
  datatype SecretRemote = SecretRemote(dirTest: string, create: Reply, keepExisting: bool)

  /** The state of the secret loop: secrets sent, secrets created, and whether the run stopped. */
  datatype SecretsDone = SecretsDone(sent: seq<string>, created: seq<string>, stop: bool)

  /** One secret of the loop, as the remote side answers it. */
  function SecretStep(done: SecretsDone, name: string, r: SecretRemote): SecretsDone {
    var answer := RemoveAll(r.dirTest, "\n");
    if answer == "0" then
      var sent := done.sent + [name];
      if r.create.status == 0 then SecretsDone(sent, done.created + [name], false)
      else if Contains(r.create.text, "secret name in use") then SecretsDone(sent, done.created, !r.keepExisting)
      else SecretsDone(sent, done.created, true)
    else if answer == "1" then SecretsDone(done.sent, done.created, true)
    else done
  }

  /** The loop over the secret names, from the first, until the run stops. */
  function SecretLoop(done: SecretsDone, names: seq<string>, remote: string -> SecretRemote): SecretsDone
    decreases |names|
  {
    if names == [] || done.stop then done
    else SecretLoop(SecretStep(done, names[0], remote(names[0])), names[1..], remote)
  }

  /** The loop of `funcSyncContainerSecret`, proved to do what `SecretLoop` says. */
  method SyncSecrets(names: seq<string>, remote: string -> SecretRemote) returns (done: SecretsDone)
    ensures done == SecretLoop(SecretsDone([], [], false), names, remote)
  {
    done := SecretsDone([], [], false);
    var i := 0;
    while i < |names| && !done.stop
      invariant 0 <= i <= |names|
      invariant SecretLoop(done, names[i..], remote) == SecretLoop(SecretsDone([], [], false), names, remote)
    {
      assert names[i..][1..] == names[i + 1..];
      done := SecretStep(done, names[i], remote(names[i]));
      i := i + 1;
    }
  }

  /**
   * The loop only appends to the sent list, and only names of the command whose
   * remote directory test answered "0".
   */
  lemma {:induction false} SecretLoopSends(done: SecretsDone, names: seq<string>, remote: string -> SecretRemote)
    ensures var out := SecretLoop(done, names, remote);
            && |done.sent| <= |out.sent| && out.sent[..|done.sent|] == done.sent
            && (forall k :: |done.sent| <= k < |out.sent| ==>
                  out.sent[k] in names && RemoveAll(remote(out.sent[k]).dirTest, "\n") == "0")
    decreases |names|
  {
    if names != [] && !done.stop {
      var next := SecretStep(done, names[0], remote(names[0]));
      SecretLoopSends(next, names[1..], remote);
      var out := SecretLoop(next, names[1..], remote);
      assert out.sent[..|done.sent|] == out.sent[..|next.sent|][..|done.sent|];
      forall k | |done.sent| <= k < |out.sent|
        ensures out.sent[k] in names && RemoveAll(remote(out.sent[k]).dirTest, "\n") == "0"
      {
        if k >= |next.sent| {
          assert out.sent[k] in names[1..];
        } else {
          assert out.sent[k] == next.sent[k] == names[0];
        }
      }
    }
  }

  /**
   * The loop only appends to the created list, and only names of the command whose
   * directory test answered "0" and whose create succeeded.
   */
  lemma {:induction false} SecretLoopCreates(done: SecretsDone, names: seq<string>, remote: string -> SecretRemote)
    ensures var out := SecretLoop(done, names, remote);
            && |done.created| <= |out.created| && out.created[..|done.created|] == done.created
            && (forall k :: |done.created| <= k < |out.created| ==>
                  out.created[k] in names && RemoveAll(remote(out.created[k]).dirTest, "\n") == "0"
                  && remote(out.created[k]).create.status == 0)
    decreases |names|
  {
    if names != [] && !done.stop {
      var next := SecretStep(done, names[0], remote(names[0]));
      SecretLoopCreates(next, names[1..], remote);
      var out := SecretLoop(next, names[1..], remote);
      assert out.created[..|done.created|] == out.created[..|next.created|][..|done.created|];
      forall k | |done.created| <= k < |out.created|
        ensures out.created[k] in names && RemoveAll(remote(out.created[k]).dirTest, "\n") == "0"
                && remote(out.created[k]).create.status == 0
      {
        if k >= |next.created| {
          assert out.created[k] in names[1..];
        } else {
          assert out.created[k] == next.created[k] == names[0];
        }
      }
    }
  }

  /** When the remote directory exists and every create succeeds, every secret is created, in order. */
  lemma {:induction false} SecretLoopAllCreated(done: SecretsDone, names: seq<string>, remote: string -> SecretRemote)
    requires !done.stop
    requires forall n :: n in names ==> RemoveAll(remote(n).dirTest, "\n") == "0" && remote(n).create.status == 0
    ensures SecretLoop(done, names, remote) == SecretsDone(done.sent + names, done.created + names, false)
    decreases |names|
  {
    if names != [] {
      SecretLoopAllCreated(SecretStep(done, names[0], remote(names[0])), names[1..], remote);
      assert done.sent + [names[0]] + names[1..] == done.sent + names;
      assert done.created + [names[0]] + names[1..] == done.created + names;
    }
  }

  /**
   * A create that fails while the remote directory exists: the file was sent, the
   * secret is not created, and the run goes on exactly when the remote store
   * already holds the name ("secret name in use") and the operator keeps it; any
   * other failure stops the run.
   */
  lemma SecretConflict(done: SecretsDone, name: string, r: SecretRemote)
    requires RemoveAll(r.dirTest, "\n") == "0" && r.create.status != 0
    ensures var out := SecretStep(done, name, r);
            && out.sent == done.sent + [name] && out.created == done.created
            && (out.stop <==> !(Contains(r.create.text, "secret name in use") && r.keepExisting))
  {
  }

  /** A missing remote directory stops the run before anything is sent. */
  lemma SecretDirMissingStops(done: SecretsDone, name: string, r: SecretRemote)
    requires RemoveAll(r.dirTest, "\n") == "1"
    ensures SecretStep(done, name, r) == SecretsDone(done.sent, done.created, true)
  {
  }

  /** Any other answer of the directory test skips the secret and changes nothing. */
  lemma SecretOtherAnswerSkipped(done: SecretsDone, name: string, r: SecretRemote)
    requires RemoveAll(r.dirTest, "\n") != "0" && RemoveAll(r.dirTest, "\n") != "1"
    ensures SecretStep(done, name, r) == done
  {
  }

  /** After a name clash the operator keeps, the loop goes on with the next secret. */
  lemma SecretConflictKept(done: SecretsDone, names: seq<string>, remote: string -> SecretRemote)
    requires !done.stop && names != []
    requires RemoveAll(remote(names[0]).dirTest, "\n") == "0" && remote(names[0]).create.status != 0
    requires Contains(remote(names[0]).create.text, "secret name in use") && remote(names[0]).keepExisting
    ensures SecretLoop(done, names, remote)
            == SecretLoop(SecretsDone(done.sent + [names[0]], done.created, false), names[1..], remote)
  {
  }

  /**
   * Secrets that are either created or kept after a name clash never stop the loop:
   * every one of them is sent, and the next secret is always handled.
   */
  lemma {:induction false} SecretLoopKeepsConflicts(done: SecretsDone, names: seq<string>, remote: string -> SecretRemote)
    requires !done.stop
    requires forall n :: n in names ==>
               && RemoveAll(remote(n).dirTest, "\n") == "0"
               && (remote(n).create.status == 0
                   || (Contains(remote(n).create.text, "secret name in use") && remote(n).keepExisting))
    ensures var out := SecretLoop(done, names, remote);
            !out.stop && out.sent == done.sent + names
    decreases |names|
  {
    if names != [] {
      var next := SecretStep(done, names[0], remote(names[0]));
      assert !next.stop && next.sent == done.sent + [names[0]];
      SecretLoopKeepsConflicts(next, names[1..], remote);
      assert done.sent + [names[0]] + names[1..] == done.sent + names;
    }
  }

  /** Once the run has stopped, nothing further happens. */
  lemma SecretLoopStopped(done: SecretsDone, names: seq<string>, remote: string -> SecretRemote)
    requires done.stop
    ensures SecretLoop(done, names, remote) == done
  {
  }

  /** How the secret check of one container ends. */
  datatype SecretOutcome =
    | SecretsNotUsed                 // no `--secret` in the command
    | SecretsSkipped                 // the operator chose to go on without syncing
    | SecretsStop                    // the run stops
    | SecretsSynced(done: SecretsDone)  // the loop ran (it may itself have stopped the run)
    | SecretsNothing                 // no secret file reported present or missing

  /**
   * The secret decision: without a secret directory, or with a local secret file
   * missing, the operator decides whether to go on without syncing; when some file
   * is present the loop runs.
   */
  function SecretSync(cmd: string, secDir: string, localStatus: string -> int,
                      continueAnswer: bool, remote: string -> SecretRemote): SecretOutcome
  {
    if !Contains(cmd, "--secret") then SecretsNotUsed
    else if secDir == [] then (if continueAnswer then SecretsSkipped else SecretsStop)
    else
      var names := SecretsIn(Split(cmd, " --"));
      if exists i :: 0 <= i < |names| && localStatus(names[i]) == 1 then
        (if continueAnswer then SecretsSkipped else SecretsStop)
      else if exists i :: 0 <= i < |names| && localStatus(names[i]) == 0 then
        SecretsSynced(SecretLoop(SecretsDone([], [], false), names, remote))
      else SecretsNothing
  }

  /** A missing local secret file never leads to sending anything. */
  lemma SecretMissingSendsNothing(cmd: string, secDir: string, localStatus: string -> int,
                                  continueAnswer: bool, remote: string -> SecretRemote, missing: string)
    requires Contains(cmd, "--secret") && secDir != []
    requires missing in SecretsIn(Split(cmd, " --")) && localStatus(missing) == 1
    ensures SecretSync(cmd, secDir, localStatus, continueAnswer, remote)
            == if continueAnswer then SecretsSkipped else SecretsStop
  {
    var names := SecretsIn(Split(cmd, " --"));
    var i :| 0 <= i < |names| && names[i] == missing;
  }

  /** When the loop runs, it sends and creates only secrets named in the command, created ones with status 0. */
  lemma SecretSyncSendsNamed(cmd: string, secDir: string, localStatus: string -> int,
                             continueAnswer: bool, remote: string -> SecretRemote)
    ensures var o := SecretSync(cmd, secDir, localStatus, continueAnswer, remote);
            o.SecretsSynced? ==>
              && (forall n :: n in o.done.sent ==>
                    n in SecretsIn(Split(cmd, " --")) && RemoveAll(remote(n).dirTest, "\n") == "0")
              && (forall n :: n in o.done.created ==>
                    n in SecretsIn(Split(cmd, " --")) && RemoveAll(remote(n).dirTest, "\n") == "0"
                    && remote(n).create.status == 0)
  {
    var names := SecretsIn(Split(cmd, " --"));
    SecretLoopSends(SecretsDone([], [], false), names, remote);
    SecretLoopCreates(SecretsDone([], [], false), names, remote);
  }
}
