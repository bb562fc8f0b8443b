/**
 * What the migration script reads out of a container's create command: the
 * command rewritten from podman's `{{.Config.CreateCommand}}` output, and the
 * option values found in it (network, name, requirements, env file, secrets).
 */
module Commands {
  import opened Text

  // ---------------------------------------------------------------------------
  // funcGetCntCreateCmd: from `podman container inspect` output to a create command
  // ---------------------------------------------------------------------------

  /** Every `$` has a backslash right before it. */
  predicate DollarsEscaped(s: string) {
    forall i :: 0 <= i < |s| && s[i] == '$' ==> i > 0 && s[i - 1] == '\\'
  }

  /** The printed list brackets are removed from the stripped line. */
  function Unbracket(line: string): string {
    RemoveAll(RemoveAll(Strip(line), "["), "]")
  }

  /** The steps after the `run` rewrite: drop ` --detach`, quote `sh -c`, escape `$`, close the quote. */
  function Finish(s: string): string {
    var noDetach := ReplaceAll(s, " --detach", "");
    var quoted := ReplaceAll(noDetach, "sh -c ", "sh -c \"");
    var escaped := ReplaceAll(quoted, "$", "\\$");
    if Contains(escaped, "sh -c") then escaped + "\"" else escaped
  }

  /** The rewrite of one output line, as written: every `run` becomes `create`. */
  function CreateCommandLine(line: string): string {
    Finish(ReplaceAll(Unbracket(line), "run", "create"))
  }

  /** The loop returns on its first pass, so only the first output line counts; no line, no command. */
  function CreateCommand(lines: seq<string>): Option<string> {
    if lines == [] then None else Some(CreateCommandLine(lines[0]))
  }

  lemma EscapedConcat(a: string, b: string)
    requires DollarsEscaped(a) && DollarsEscaped(b)
    ensures DollarsEscaped(a + b)
  {
    forall i | 0 <= i < |a + b| && (a + b)[i] == '$' ensures i > 0 && (a + b)[i - 1] == '\\' {
      if i >= |a| {
        assert b[i - |a|] == '$';
        if i > |a| {
          assert (a + b)[i - 1] == b[i - 1 - |a|];
        }
      }
    }
  }

  /** After `str.replace('$', '\$')` every `$` is escaped. */
  lemma {:induction false} EscapeDollars(s: string)
    ensures DollarsEscaped(ReplaceAll(s, "$", "\\$"))
    decreases |s|
  {
    if |s| >= 1 {
      EscapeDollars(s[1..]);
      var rest := ReplaceAll(s[1..], "$", "\\$");
      if s[..1] == "$" {
        EscapedConcat("\\$", rest);
      } else {
        assert s[0] != '$' by { assert s[..1] == [s[0]]; }
        EscapedConcat([s[0]], rest);
      }
    }
  }

  /** The finishing steps bring in no bracket, escape every `$` and close every `sh -c` quote. */
  lemma FinishShape(s: string)
    requires '[' !in s && ']' !in s
    ensures '[' !in Finish(s) && ']' !in Finish(s)
    ensures DollarsEscaped(Finish(s))
    ensures Contains(Finish(s), "sh -c") ==> |Finish(s)| > 0 && Finish(s)[|Finish(s)| - 1] == '"'
  {
    var noDetach := ReplaceAll(s, " --detach", "");
    var quoted := ReplaceAll(noDetach, "sh -c ", "sh -c \"");
    var escaped := ReplaceAll(quoted, "$", "\\$");
    ReplaceKeepsOut(s, " --detach", "", '[');
    ReplaceKeepsOut(s, " --detach", "", ']');
    ReplaceKeepsOut(noDetach, "sh -c ", "sh -c \"", '[');
    ReplaceKeepsOut(noDetach, "sh -c ", "sh -c \"", ']');
    ReplaceKeepsOut(quoted, "$", "\\$", '[');
    ReplaceKeepsOut(quoted, "$", "\\$", ']');
    EscapeDollars(quoted);
    if Contains(escaped, "sh -c") {
      EscapedConcat(escaped, "\"");
    }
  }

  lemma UnbracketShape(line: string)
    ensures '[' !in Unbracket(line) && ']' !in Unbracket(line)
  {
    var once := RemoveAll(Strip(line), "[");
    ReplaceCharRemoves(Strip(line), '[', "");
    ReplaceKeepsOut(once, "]", "", '[');
    ReplaceCharRemoves(once, ']', "");
  }

  /**
   * The create command handed to the destination holds no `[` or `]`, every `$` in
   * it is escaped, and it ends with `"` whenever it holds `sh -c`.
   */
  lemma CreateCommandShape(line: string)
    ensures '[' !in CreateCommandLine(line) && ']' !in CreateCommandLine(line)
    ensures DollarsEscaped(CreateCommandLine(line))
    ensures Contains(CreateCommandLine(line), "sh -c") ==>
              var r := CreateCommandLine(line); |r| > 0 && r[|r| - 1] == '"'
  {
    var u := Unbracket(line);
    UnbracketShape(line);
    ReplaceKeepsOut(u, "run", "create", '[');
    ReplaceKeepsOut(u, "run", "create", ']');
    FinishShape(ReplaceAll(u, "run", "create"));
  }

  // ---------------------------------------------------------------------------
  // Finding: every `run` is rewritten, not only the subcommand
  // ---------------------------------------------------------------------------

  /** The subcommand rewrite that was evidently meant: only the first ` run ` becomes ` create `. */
  function RunToCreate(s: string): string {
    match IndexOf(s, " run ")
    case None => s
    case Some(i) => s[..i] + " create " + s[i + 5..]
  }

  /** The corrected rewrite of one output line. */
  function CreateCommandLineFixed(line: string): string {
    Finish(RunToCreate(Unbracket(line)))
  }

  /** After a program path without spaces, the subcommand is the first ` run ` and the rest is kept. */
  lemma RunToCreateKeepsArguments(program: string, rest: string)
    requires ' ' !in program
    ensures RunToCreate(program + " run " + rest) == program + " create " + rest
  {
    var s := program + " run " + rest;
    assert s[|program|..|program| + 5] == " run ";
    forall k: nat | k < |program| ensures !OccursAt(s, " run ", k) {
      assert s[k] == program[k];
      if k + 5 <= |s| {
        assert s[k..k + 5][0] == s[k];
      }
    }
    IndexOfIs(s, " run ", |program|);
    assert s[..|program|] == program;
    assert s[|program| + 5..] == rest;
  }

  /** The corrected rewrite keeps the shape guarantees of the original one. */
  lemma CreateCommandFixedShape(line: string)
    ensures '[' !in CreateCommandLineFixed(line) && ']' !in CreateCommandLineFixed(line)
    ensures DollarsEscaped(CreateCommandLineFixed(line))
  {
    var u := Unbracket(line);
    UnbracketShape(line);
    match IndexOf(u, " run ")
    case None =>
      FinishShape(u);
    case Some(i) =>
      var t := u[..i] + " create " + u[i + 5..];
      assert forall c :: c in t ==> c in u || c in " create ";
      FinishShape(t);
  }

  /** The printed list `[cmd]` with its newline: strip and bracket removal give back `cmd`. */
  lemma UnbracketPrinted(cmd: string)
    requires '[' !in cmd && ']' !in cmd
    requires cmd != [] && !IsSpace(cmd[0]) && !IsSpace(cmd[|cmd| - 1])
    ensures Unbracket("[" + cmd + "]\n") == cmd
  {
    StripPrinted(cmd);
    RemoveBrackets(cmd);
  }

  lemma StripPrinted(cmd: string)
    ensures Strip("[" + cmd + "]\n") == "[" + cmd + "]"
  {
    var printed := "[" + cmd + "]\n";
    var bracketed := "[" + cmd + "]";
    assert TrimStart(printed) == printed;
    assert printed[|printed| - 1] == '\n' && IsSpace('\n');
    assert printed[..|printed| - 1] == bracketed;
    assert bracketed[|bracketed| - 1] == ']';
    assert TrimEnd(bracketed) == bracketed;
  }

  lemma RemoveBrackets(cmd: string)
    requires '[' !in cmd && ']' !in cmd
    ensures RemoveAll(RemoveAll("[" + cmd + "]", "["), "]") == cmd
  {
    ReplaceCharConcat("[", cmd + "]", '[', "");
    ReplaceCharConcat(cmd, "]", '[', "");
    ReplaceMissing(cmd, "[", "", '[');
    ReplaceMissing("]", "[", "", '[');
    assert RemoveAll("[" + cmd + "]", "[") == cmd + "]" by {
      assert "[" + cmd + "]" == "[" + (cmd + "]");
    }
    ReplaceCharConcat(cmd, "]", ']', "");
    ReplaceMissing(cmd, "]", "", ']');
  }

  /** Text with no `h` (so no ` --detach` and no `sh -c`) and no `$` is finished as it is. */
  lemma FinishUnchanged(s: string)
    requires 'h' !in s && '$' !in s
    ensures Finish(s) == s
  {
    ReplaceMissing(s, " --detach", "", 'h');
    ReplaceMissing(s, "sh -c ", "sh -c \"", 'h');
    ReplaceMissing(s, "$", "\\$", '$');
    ContainsMissing(s, "sh -c", 'h');
  }

  /** A `run` cannot start inside text that ends with a space and holds no `run` itself. */
  lemma NoRunStartsIn(a: string, b: string)
    requires a != [] && a[|a| - 1] == ' ' && !Contains(a, "run")
    ensures forall k: nat :: k < |a| ==> !OccursAt(a + b, "run", k)
  {
    NotContains(a, "run");
    forall k: nat | k < |a| ensures !OccursAt(a + b, "run", k) {
      if k + 3 <= |a| {
        assert (a + b)[k..k + 3] == a[k..k + 3];
        assert !OccursAt(a, "run", k);
      } else if k + 3 <= |a + b| {
        assert (a + b)[k..k + 3] != "run" by {
          assert (a + b)[k..k + 3][|a| - 1 - k] == (a + b)[|a| - 1] == ' ';
        }
      }
    }
  }

  /** Text that ends with a space and holds no `run` is left as it is, and the rewrite goes on after it. */
  lemma RewriteAfterSpace(a: string, b: string)
    requires a != [] && a[|a| - 1] == ' ' && !Contains(a, "run")
    ensures ReplaceAll(a + b, "run", "create") == a + ReplaceAll(b, "run", "create")
  {
    NoRunStartsIn(a, b);
    ReplaceAfterFree(a, b, "run", "create");
  }

  /**
   * As written, the `run` rewrite reaches past the subcommand into every argument
   * (the program itself, `podman` or `/usr/bin/podman`, holds no `run`).
   */
  lemma RunRewriteReachesArguments(program: string, rest: string)
    requires !Contains(program + " ", "run")
    ensures ReplaceAll(program + " run " + rest, "run", "create") ==
              program + " create " + ReplaceAll(rest, "run", "create")
  {
    var a := program + " ";
    var b := "run " + rest;
    var t := ReplaceAll(rest, "run", "create");
    assert " " + "run " == " run ";
    SpaceJoin(program, "run ", rest);
    RewriteAfterSpace(a, b);
    RewriteSubcommand(rest);
    assert " " + "create " == " create ";
    SpaceJoin(program, "create ", t);
  }

  /** `program + " " + w + rest`, grouped as the command line writes it. */
  lemma SpaceJoin(program: string, w: string, rest: string)
    ensures program + (" " + w) + rest == (program + " ") + (w + rest)
  {
  }

  /** The subcommand `run` itself becomes `create`. */
  lemma RewriteSubcommand(rest: string)
    ensures ReplaceAll("run " + rest, "run", "create") == "create " + ReplaceAll(rest, "run", "create")
  {
    var b := "run " + rest;
    assert b[..3] == "run";
    assert b[3..] == " " + rest;
    ReplaceAfter(" ", rest, "run", "create");
    assert "create" + (" " + ReplaceAll(rest, "run", "create")) == "create " + ReplaceAll(rest, "run", "create");
  }

  /** A rewritten text that starts with something other than `c` starts as the original does. */
  lemma RewriteHead(t: string)
    ensures var r := ReplaceAll(t, "run", "create");
            r != [] && r[0] != 'c' ==> t != [] && t[0] == r[0]
  {
  }

  /** A rewritten text that starts with `un` comes from a text that starts with `un`. */
  lemma RewriteHeadUn(t: string)
    ensures var r := ReplaceAll(t, "run", "create");
            |r| >= 2 && r[0] == 'u' && r[1] == 'n' ==> |t| >= 2 && t[0] == 'u' && t[1] == 'n'
  {
    var r := ReplaceAll(t, "run", "create");
    RewriteHead(t);
    if |t| >= 3 && t[0] == 'u' {
      assert t[..3] != "run" by { assert t[..3][0] == 'u'; }
      assert r == [t[0]] + ReplaceAll(t[1..], "run", "create");
      RewriteHead(t[1..]);
    }
  }

  /**
   * No `run` survives the replace-all: the replacement `create` holds none, and a
   * `run` cannot be pieced together across a replacement.
   */
  lemma {:induction false} RewriteLeavesNoRun(s: string)
    ensures !Contains(ReplaceAll(s, "run", "create"), "run")
    decreases |s|
  {
    if |s| < 3 {
    } else if s[..3] == "run" {
      RewriteLeavesNoRun(s[3..]);
      assert ReplaceAll(s, "run", "create") == "create" + ReplaceAll(s[3..], "run", "create");
      NoRunAfterCreate(ReplaceAll(s[3..], "run", "create"));
    } else {
      var t := ReplaceAll(s[1..], "run", "create");
      RewriteLeavesNoRun(s[1..]);
      assert ReplaceAll(s, "run", "create") == [s[0]] + t;
      RewriteHeadUn(s[1..]);
      assert s[..3] == [s[0], s[1], s[2]];
      NoRunAfterChar(s[0], t);
    }
  }

  /** `create` followed by text without `run` holds no `run`. */
  lemma NoRunAfterCreate(t: string)
    requires !Contains(t, "run")
    ensures !Contains("create" + t, "run")
  {
    var r := "create" + t;
    NotContains(t, "run");
    assert r[0] == 'c' && r[1] == 'r' && r[2] == 'e' && r[3] == 'a' && r[4] == 't' && r[5] == 'e';
    forall k: nat ensures !OccursAt(r, "run", k) {
      if k >= 6 && k + 3 <= |r| {
        assert r[k..k + 3] == t[k - 6..k - 3];
        assert !OccursAt(t, "run", k - 6);
      } else if k < 6 && k + 3 <= |r| {
        assert r[k..k + 3] != "run" by {
          assert r[k..k + 3][0] == r[k] && r[k..k + 3][1] == r[k + 1];
        }
      }
    }
  }

  /** One character before text without `run` adds none, unless it is `r` and the text starts with `un`. */
  lemma NoRunAfterChar(c: char, t: string)
    requires !Contains(t, "run")
    requires !(c == 'r' && |t| >= 2 && t[0] == 'u' && t[1] == 'n')
    ensures !Contains([c] + t, "run")
  {
    var r := [c] + t;
    NotContains(t, "run");
    forall k: nat ensures !OccursAt(r, "run", k) {
      if k >= 1 && k + 3 <= |r| {
        assert r[k..k + 3] == t[k - 1..k + 2];
        assert !OccursAt(t, "run", k - 1);
      } else if k == 0 && |r| >= 3 {
        assert r[..3] != "run" by {
          assert r[..3][0] == c && r[..3][1] == t[0] && r[..3][2] == t[1];
        }
      }
    }
  }

  /**
   * Every `run` of the bracket-free line is rewritten before ` --detach` is removed,
   * so the text handed to the finishing steps holds no `run`.
   */
  lemma RewriteBeforeFinish(line: string)
    ensures var u := ReplaceAll(Unbracket(line), "run", "create");
            CreateCommandLine(line) == Finish(u) && !Contains(u, "run")
  {
    RewriteLeavesNoRun(Unbracket(line));
  }

  /**
   * The family of single-line commands `PROGRAM run --name run<SUFFIX><POST>` used to
   * show the finding (`podman run --name runner alpine` is one of them).
   */
  predicate RunNamed(program: string, suffix: string, post: string) {
    && program != [] && !IsSpace(program[0]) && ' ' !in program && 'r' !in program
    && ' ' !in suffix
    && post != [] && post[0] == ' ' && !IsSpace(post[|post| - 1])
    && Plain(program) && Plain(suffix) && Plain(post)
    && 'u' !in suffix && 'u' !in post && '-' !in suffix && '-' !in post
  }

  /** No bracket, no `h` (so no ` --detach` and no `sh -c`), no `$`, no newline. */
  predicate Plain(s: string) {
    '[' !in s && ']' !in s && 'h' !in s && '$' !in s && '\n' !in s
  }

  /** The printed create command of a container named `run<SUFFIX>`. */
  function RunNamedLine(program: string, suffix: string, post: string): string {
    "[" + program + " run --name run" + suffix + post + "]\n"
  }

  /** Bracket removal gives back the command of the family. */
  lemma RunNamedUnbracket(program: string, suffix: string, post: string)
    requires RunNamed(program, suffix, post)
    ensures Unbracket(RunNamedLine(program, suffix, post)) == program + " run " + ("--name run" + suffix + post)
  {
    var cmd := program + " run " + ("--name run" + suffix + post);
    assert RunNamedLine(program, suffix, post) == "[" + cmd + "]\n";
    UnbracketPrinted(cmd);
  }

  /** The finishing steps leave a rewritten command of the family as it is. */
  lemma RunNamedFinish(program: string, word: string, suffix: string, post: string)
    requires RunNamed(program, suffix, post) && Plain(word)
    ensures var s := program + " create " + ("--name " + word + suffix + post); Finish(s) == s
  {
    assert Plain(" create ") && Plain("--name ");
    FinishUnchanged(program + " create " + ("--name " + word + suffix + post));
  }

  /** In a rewritten command of the family, `--name` is followed by `<WORD><SUFFIX>`. */
  lemma RunNamedName(program: string, word: string, suffix: string, post: string)
    requires RunNamed(program, suffix, post)
    requires Plain(word) && ' ' !in word && '-' !in word
    ensures ContainerName(program + " create " + ("--name " + word + suffix + post)) == word + suffix
  {
    var pre := program + " create ";
    var name := word + suffix;
    assert pre + ("--name " + word + suffix + post) == pre + "--name " + name + post;
    assert name + post == word + (suffix + post);
    ContainsMissing(name + post, "--name ", '-');
    ContainerNameOf(pre, name, post);
  }

  /** The as-written rewrite turns the arguments `--name run<SUFFIX><POST>` into `--name create<SUFFIX><POST>`. */
  lemma RunNamedRewrite(program: string, suffix: string, post: string)
    requires RunNamed(program, suffix, post)
    ensures ReplaceAll(Unbracket(RunNamedLine(program, suffix, post)), "run", "create")
            == program + " create " + ("--name " + "create" + suffix + post)
  {
    RunNamedUnbracket(program, suffix, post);
    ContainsMissing(program + " ", "run", 'r');
    RunRewriteReachesArguments(program, "--name run" + suffix + post);
    NameArgumentRewrite(suffix, post);
  }

  /** Inside the arguments, the `run` that starts the name is the only occurrence. */
  lemma NameArgumentRewrite(suffix: string, post: string)
    requires 'u' !in suffix && 'u' !in post
    ensures ReplaceAll("--name run" + suffix + post, "run", "create") == "--name " + "create" + suffix + post
  {
    var tail := suffix + post;
    assert "--name run" + suffix + post == "--name " + ("run" + tail);
    ReplaceAfter("--name ", "run" + tail, "run", "create");
    assert ("run" + tail)[..3] == "run" && ("run" + tail)[3..] == tail;
    ReplaceMissing(tail, "run", "create", 'u');
    assert "--name " + ("create" + tail) == "--name " + "create" + suffix + post;
  }

  /** The corrected rewrite turns only the subcommand into `create`. */
  lemma RunNamedRewriteFixed(program: string, suffix: string, post: string)
    requires RunNamed(program, suffix, post)
    ensures RunToCreate(Unbracket(RunNamedLine(program, suffix, post)))
            == program + " create " + ("--name " + "run" + suffix + post)
  {
    var rest := "--name run" + suffix + post;
    RunNamedUnbracket(program, suffix, post);
    RunToCreateKeepsArguments(program, rest);
    assert rest == "--name " + "run" + suffix + post;
  }

  /** As written, every container whose name starts with `run` is created as `create...`. */
  lemma RunNameRenamed(program: string, suffix: string, post: string)
    requires RunNamed(program, suffix, post)
    ensures ContainerName(CreateCommandLine(RunNamedLine(program, suffix, post))) == "create" + suffix
  {
    RunNamedRewrite(program, suffix, post);
    RunNamedFinish(program, "create", suffix, post);
    RunNamedName(program, "create", suffix, post);
  }

  /** The corrected rewrite keeps the name `run<SUFFIX>`. */
  lemma RunNameKept(program: string, suffix: string, post: string)
    requires RunNamed(program, suffix, post)
    ensures ContainerName(CreateCommandLineFixed(RunNamedLine(program, suffix, post))) == "run" + suffix
  {
    RunNamedRewriteFixed(program, suffix, post);
    RunNamedFinish(program, "run", suffix, post);
    RunNamedName(program, "run", suffix, post);
  }

  // ---------------------------------------------------------------------------
  // Option values: network, name, requirements, env file
  // ---------------------------------------------------------------------------

  /** funcSyncNetwork: the word after the last `network `. */
  function NetworkName(cmd: string): string {
    ValueAfter(cmd, "network ")
  }

  /** funcPodGetCntName: the word after the last `--name `. */
  function ContainerName(cmd: string): string {
    ValueAfter(cmd, "--name ")
  }

  /** funcPodCntRequire: the word after the last `requires ` (a comma-separated list). */
  function RequiredNames(cmd: string): string {
    ValueAfter(cmd, "requires ")
  }

  /** funcSyncContainerEnvFile: the word after the last `env-file `. */
  function EnvFilePath(cmd: string): string {
    ValueAfter(cmd, "env-file ")
  }

  /** A single-line command that names its network once yields exactly that network. */
  lemma NetworkNameOf(pre: string, net: string, post: string)
    requires '\n' !in pre + "network " + net + post
    requires ' ' !in net && (post == [] || post[0] == ' ')
    requires !Contains(net + post, "network ")
    ensures NetworkName(pre + "network " + net + post) == net
  {
    ValueAfterWord(pre, "network ", net, post);
  }

  /** A single-line command that gives `--name` once yields exactly that name. */
  lemma ContainerNameOf(pre: string, name: string, post: string)
    requires '\n' !in pre + "--name " + name + post
    requires ' ' !in name && (post == [] || post[0] == ' ')
    requires !Contains(name + post, "--name ")
    ensures ContainerName(pre + "--name " + name + post) == name
  {
    ValueAfterWord(pre, "--name ", name, post);
  }

  /** A single-line command that gives `--requires` once yields exactly that list. */
  lemma RequiredNamesOf(pre: string, reqs: string, post: string)
    requires '\n' !in pre + "requires " + reqs + post
    requires ' ' !in reqs && (post == [] || post[0] == ' ')
    requires !Contains(reqs + post, "requires ")
    ensures RequiredNames(pre + "requires " + reqs + post) == reqs
  {
    ValueAfterWord(pre, "requires ", reqs, post);
  }

  // ---------------------------------------------------------------------------
  // funcGetContainerEnvFilePath
  // ---------------------------------------------------------------------------

  /**
   * The env file's directory, rebuilt from its `/`-separated parts without the
   * first and the last; None when the path holds no `/` (the second `del` raises).
   */
  function EnvDirOf(path: string): Option<string> {
    var parts := Split(path, "/");
    if |parts| < 2 then None else Some("/" + Join(parts[1..|parts| - 1], "/"))
  }

  /** The reference: an absolute path without its last component (`/` for a file at the root). */
  function DirName(path: string): string
    requires Contains(path, "/")
  {
    var k := LastIndexOf(path, "/").value;
    if k == 0 then "/" else path[..k]
  }

  lemma LastSlash(a: string, b: string)
    requires '/' !in a
    ensures LastIndexOf(a + "/" + b, "/") ==
              match LastIndexOf(b, "/")
              case None => Some(|a|)
              case Some(k) => Some(|a| + 1 + k)
  {
    var s := a + "/" + b;
    match LastIndexOf(b, "/")
    case None =>
      OccursAtChar(s, '/', |a|);
      forall j: nat | |a| < j ensures !OccursAt(s, "/", j) {
        OccursAtChar(s, '/', j);
        OccursAtChar(b, '/', j - |a| - 1);
        if j < |s| {
          assert s[j] == b[j - |a| - 1];
        }
      }
      LastIndexOfIs(s, "/", |a|);
    case Some(k) =>
      OccursAtChar(b, '/', k);
      OccursAtChar(s, '/', |a| + 1 + k);
      assert s[|a| + 1 + k] == b[k];
      forall j: nat | |a| + 1 + k < j ensures !OccursAt(s, "/", j) {
        OccursAtChar(s, '/', j);
        OccursAtChar(b, '/', j - |a| - 1);
        if j < |s| {
          assert s[j] == b[j - |a| - 1];
        }
      }
      LastIndexOfIs(s, "/", |a| + 1 + k);
  }

  lemma NoSlash(q: string)
    requires '/' !in q
    ensures LastIndexOf(q, "/") == None
  {
    forall j: nat ensures !OccursAt(q, "/", j) {
      OccursAtChar(q, '/', j);
    }
  }

  /** Text holding a `/` is the text before its first `/`, the `/`, and the rest. */
  lemma FirstSlash(q: string) returns (a: string, b: string)
    requires '/' in q
    ensures q == a + "/" + b && '/' !in a && |b| < |q|
  {
    ContainsChar(q, '/');
    var i := IndexOf(q, "/").value;
    OccursAtChar(q, '/', i);
    forall j | 0 <= j < i ensures q[j] != '/' {
      OccursAtChar(q, '/', j);
    }
    a, b := q[..i], q[i + 1..];
    assert q == a + "/" + b;
  }

  lemma JoinButLastCons(a: string, b: string, k: nat)
    requires '/' !in a && LastIndexOf(b, "/") == Some(k)
    requires |Split(b, "/")| >= 2
    requires Join(Split(b, "/")[..|Split(b, "/")| - 1], "/") == b[..k]
    ensures var q := a + "/" + b;
            var parts := Split(q, "/");
            LastIndexOf(q, "/") == Some(|a| + 1 + k) && Join(parts[..|parts| - 1], "/") == q[..|a| + 1 + k]
  {
    var q := a + "/" + b;
    var tail := Split(b, "/");
    SplitCharCons(a, '/', b);
    LastSlash(a, b);
    assert Split(q, "/")[..|Split(q, "/")| - 1] == [a] + tail[..|tail| - 1];
    JoinCons(a, tail[..|tail| - 1], "/");
    assert q[..|a| + 1 + k] == a + "/" + b[..k];
  }

  lemma JoinButLastNone(q: string)
    requires '/' !in q
    ensures var parts := Split(q, "/");
            LastIndexOf(q, "/") == None && Join(parts[..|parts| - 1], "/") == ""
  {
    SplitCharNone(q, '/');
    NoSlash(q);
    assert Split(q, "/")[..0] == [];
  }

  lemma JoinButLastOne(q: string, a: string, b: string)
    requires q == a + "/" + b && '/' !in a && '/' !in b
    ensures var parts := Split(q, "/");
            LastIndexOf(q, "/").Some? && Join(parts[..|parts| - 1], "/") == q[..LastIndexOf(q, "/").value]
  {
    assert q[..|a|] == a;
    SplitCharCons(a, '/', b);
    LastSlash(a, b);
    SplitCharNone(b, '/');
    NoSlash(b);
    assert Split(q, "/")[..|Split(q, "/")| - 1] == [a];
  }

  lemma JoinButLastMany(q: string, a: string, b: string)
    requires q == a + "/" + b && '/' !in a && '/' in b
    requires var parts := Split(b, "/");
             Join(parts[..|parts| - 1], "/") ==
               match LastIndexOf(b, "/")
               case None => ""
               case Some(k) => b[..k]
    ensures var parts := Split(q, "/");
            LastIndexOf(q, "/").Some? && Join(parts[..|parts| - 1], "/") == q[..LastIndexOf(q, "/").value]
  {
    var c, d := FirstSlash(b);
    SplitCharCons(c, '/', d);
    LastSlash(c, d);
    var k := LastIndexOf(b, "/").value;
    JoinButLastCons(a, b, k);
  }

  /** Joining all but the last `/`-separated part gives the text before the last `/`. */
  lemma {:induction false} JoinButLast(q: string)
    ensures var parts := Split(q, "/");
            Join(parts[..|parts| - 1], "/") ==
              match LastIndexOf(q, "/")
              case None => ""
              case Some(k) => q[..k]
    decreases |q|, 1
  {
    if '/' !in q {
      JoinButLastNone(q);
    } else {
      JoinButLastSlash(q);
    }
  }

  lemma {:induction false} JoinButLastSlash(q: string)
    requires '/' in q
    ensures var parts := Split(q, "/");
            LastIndexOf(q, "/").Some? && Join(parts[..|parts| - 1], "/") == q[..LastIndexOf(q, "/").value]
    decreases |q|, 0
  {
    var a, b := FirstSlash(q);
    if '/' !in b {
      JoinButLastOne(q, a, b);
    } else {
      JoinButLast(b);
      JoinButLastMany(q, a, b);
    }
  }

  /**
   * For an absolute env-file path the directory found is the path without its last
   * component, `/` for a file at the root.
   */
  lemma EnvDirIsDirName(path: string)
    requires |path| > 0 && path[0] == '/'
    ensures Contains(path, "/")
    ensures EnvDirOf(path) == Some(DirName(path))
  {
    var q := path[1..];
    assert path == "/" + q;
    EnvDirOfRooted(path, q);
    DirNameRooted(path, q);
    JoinButLast(q);
    if LastIndexOf(q, "/").None? {
      assert "/" + "" == "/";
    }
  }

  lemma EnvDirOfRooted(path: string, q: string)
    requires path == "/" + q
    ensures var parts := Split(q, "/");
            EnvDirOf(path) == Some("/" + Join(parts[..|parts| - 1], "/"))
  {
    assert path == [] + "/" + q;
    SplitCharCons([], '/', q);
    var parts := Split(path, "/");
    assert parts[1..|parts| - 1] == Split(q, "/")[..|Split(q, "/")| - 1];
  }

  lemma DirNameRooted(path: string, q: string)
    requires path == "/" + q
    ensures Contains(path, "/")
    ensures DirName(path) == match LastIndexOf(q, "/")
                             case None => "/"
                             case Some(k) => "/" + q[..k]
  {
    assert path == [] + "/" + q;
    OccursAtChar(path, '/', 0);
    ContainsAt(path, "/", 0);
    LastSlash([], q);
    match LastIndexOf(q, "/")
    case None =>
    case Some(k) =>
      assert path[..1 + k] == "/" + q[..k];
  }

  /** A path without any `/` makes the script fail. */
  lemma EnvDirNeedsSlash(path: string)
    requires '/' !in path
    ensures EnvDirOf(path) == None
  {
    SplitCharNone(path, '/');
  }

  // ---------------------------------------------------------------------------
  // funcSyncContainerSecret: secret names
  // ---------------------------------------------------------------------------

  /** One ` --`-separated piece naming a secret: the piece without `secret `, cut at its first comma. */
  function SecretOf(piece: string): string {
    CutLines(RemoveAll(piece, "secret "), AtComma)
  }

  /** The secrets named by the pieces, in order: one for every piece holding `secret `. */
  function SecretsIn(pieces: seq<string>): seq<string>
  {
    if pieces == [] then []
    else
      var last := pieces[|pieces| - 1];
      SecretsIn(pieces[..|pieces| - 1]) + (if Contains(last, "secret ") then [SecretOf(last)] else [])
  }

  /** The secret names of a create command, collected by a loop as the script does. */
  method SecretNames(cmd: string) returns (names: seq<string>)
    ensures names == SecretsIn(Split(cmd, " --"))
    ensures forall n :: n in names ==> ',' !in n
  {
    var pieces := Split(cmd, " --");
    names := [];
    var i := 0;
    while i < |pieces|
      invariant 0 <= i <= |pieces|
      invariant names == SecretsIn(pieces[..i])
      invariant forall n :: n in names ==> ',' !in n
    {
      assert pieces[..i + 1][..i] == pieces[..i];
      if Contains(pieces[i], "secret ") {
        CutLinesDropsChar(RemoveAll(pieces[i], "secret "), AtComma, ',');
        names := names + [SecretOf(pieces[i])];
      }
      i := i + 1;
    }
    assert pieces[..|pieces|] == pieces;
  }

  /** `--secret NAME,OPTIONS` (or `--secret NAME` ending the piece) names the secret NAME. */
  lemma SecretOfOption(name: string, rest: string)
    requires ',' !in name && '\n' !in name + rest
    requires rest == [] || rest[0] == ','
    requires !Contains(name + rest, "secret ")
    ensures SecretOf("secret " + name + rest) == name
  {
    var x := name + rest;
    var piece := "secret " + x;
    assert piece == "secret " + name + rest;
    assert piece[..7] == "secret " && piece[7..] == x;
    NotContains(x, "secret ");
    ReplaceAbsent(x, "secret ", "");
    assert RemoveAll(piece, "secret ") == x;
    forall i | 0 <= i < |name| ensures !CutsHere(x[i..], AtComma) {
      assert x[i..][0] == name[i];
    }
    CutLinesKeeps(name, rest, AtComma);
  }
}
